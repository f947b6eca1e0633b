/**
 * `PolygonOperations`: flattening a Clipper polygon tree into a list of polygons, and the
 * offset builder that records erosion/dilation deltas and runs one offset pass per delta.
 *
 * Clipper is a foreign library and is not part of this model: one offset pass
 * (`ClipperOffset.AddPath` of every polygon's points followed by `Execute(ref tree, delta)`)
 * and the difference of `PunchOperation` (`Clipper.Execute(ctDifference, ...)`) are passed in
 * as functions.
 */
module PolygonOps {
  import opened Wrappers
  import opened Segments

  datatype Polygon = Polygon(points: seq<IntVector3>, isHole: bool)

  /** A node of a Clipper `PolyTree`: its contour, its `IsHole` flag and its children. */
  datatype PolyNode = PolyNode(contour: seq<IntVector3>, isHole: bool, children: seq<PolyNode>)

  datatype OperationError = ArgumentOutOfRange | ArgumentException

  /** One Clipper offset pass over the given paths by the given delta. */
  type OffsetPass = (seq<seq<IntVector3>>, real) -> PolyNode

  /** One Clipper difference of subject paths minus clip paths. */
  type DifferencePass = (seq<seq<IntVector3>>, seq<seq<IntVector3>>) -> PolyNode

  // ---------------------------------------------------------------------------
  // Flattening, as a function of the tree

  /**
   * What `FlattenPolyTreeToPolygonsHelper(n, isHole, results, depthFilter)` appends to
   * `results`: n's own polygon when its contour is non-empty and the filter has run out,
   * then, in order, what each child appends with the hole flag flipped and the filter one lower.
   */
  function Flatten(n: PolyNode, isHole: bool, depthFilter: int): seq<Polygon>
    decreases n, |n.children| + 1
  {
    (if |n.contour| > 0 && depthFilter <= 0 then [Polygon(n.contour, isHole)] else [])
    + FlattenChildren(n, 0, !isHole, depthFilter - 1)
  }

  /** What the children of `parent` from index i on append, one after the other. */
  function FlattenChildren(parent: PolyNode, i: nat, isHole: bool, depthFilter: int): seq<Polygon>
    decreases parent, |parent.children| - i
  {
    if i >= |parent.children| then []
    else Flatten(parent.children[i], isHole, depthFilter) + FlattenChildren(parent, i + 1, isHole, depthFilter)
  }

  // ---------------------------------------------------------------------------
  // Reference: the pre-order listing of the tree, filtered by depth

  datatype Visit = Visit(node: PolyNode, depth: nat)

  /** Every node of the tree rooted at n, parent before children, children in list order. */
  function PreOrder(n: PolyNode, depth: nat): (r: seq<Visit>)
    ensures |r| > 0 && r[0] == Visit(n, depth)
    decreases n, |n.children| + 1
  {
    [Visit(n, depth)] + PreOrderChildren(n, 0, depth + 1)
  }

  function PreOrderChildren(parent: PolyNode, i: nat, depth: nat): seq<Visit>
    decreases parent, |parent.children| - i
  {
    if i >= |parent.children| then []
    else PreOrder(parent.children[i], depth) + PreOrderChildren(parent, i + 1, depth)
  }

  /** The root's hole flag, negated once per level of depth. */
  function HoleAtDepth(rootIsHole: bool, depth: nat): bool
  {
    if depth % 2 == 0 then rootIsHole else !rootIsHole
  }

  /**
   * The polygons of the visits whose contour is non-empty and whose depth is at least
   * minDepth, in visiting order, each with the hole flag of its depth.
   */
  function Emitted(visits: seq<Visit>, rootIsHole: bool, minDepth: int): seq<Polygon>
  {
    if visits == [] then []
    else
      var v := visits[0];
      (if |v.node.contour| > 0 && v.depth >= minDepth then [Polygon(v.node.contour, HoleAtDepth(rootIsHole, v.depth))] else [])
      + Emitted(visits[1..], rootIsHole, minDepth)
  }

  lemma {:induction false} EmittedAppend(xs: seq<Visit>, ys: seq<Visit>, h: bool, f: int)
    ensures Emitted(xs + ys, h, f) == Emitted(xs, h, f) + Emitted(ys, h, f)
    decreases |xs|
  {
    if xs == [] {
      assert xs + ys == ys;
    } else {
      assert (xs + ys)[0] == xs[0];
      assert (xs + ys)[1..] == xs[1..] + ys;
      EmittedAppend(xs[1..], ys, h, f);
    }
  }

  lemma HoleAtNextDepth(h: bool, d: nat)
    ensures HoleAtDepth(h, d + 1) == !HoleAtDepth(h, d)
  {
  }

  /**
   * Flattening from a node at depth d, with the hole flag of that depth and the filter
   * lowered by d, emits exactly the filtered pre-order listing of its subtree.
   */
  lemma {:induction false} FlattenIsEmittedPreOrder(n: PolyNode, h: bool, f: int, d: nat)
    ensures Flatten(n, HoleAtDepth(h, d), f - d) == Emitted(PreOrder(n, d), h, f)
    decreases n, |n.children| + 1
  {
    HoleAtNextDepth(h, d);
    FlattenChildrenIsEmittedPreOrder(n, 0, h, f, d + 1);
    var own := [Visit(n, d)];
    EmittedAppend(own, PreOrderChildren(n, 0, d + 1), h, f);
    assert Emitted(own, h, f) == (if |n.contour| > 0 && f - d <= 0 then [Polygon(n.contour, HoleAtDepth(h, d))] else []);
    assert f - d - 1 == f - (d + 1);
  }

  lemma {:induction false} FlattenChildrenIsEmittedPreOrder(p: PolyNode, i: nat, h: bool, f: int, d: nat)
    ensures FlattenChildren(p, i, HoleAtDepth(h, d), f - d) == Emitted(PreOrderChildren(p, i, d), h, f)
    decreases p, |p.children| - i
  {
    if i < |p.children| {
      FlattenIsEmittedPreOrder(p.children[i], h, f, d);
      FlattenChildrenIsEmittedPreOrder(p, i + 1, h, f, d);
      EmittedAppend(PreOrder(p.children[i], d), PreOrderChildren(p, i + 1, d), h, f);
    }
  }

  /** The depth filter `FlattenToPolygons` uses: 0, or 2 to skip the outer void and outer land levels. */
  function DepthFilter(includeOuterPolygon: bool): (r: int)
    ensures r == 0 || r == 2
  {
    if includeOuterPolygon then 0 else 2
  }

  /**
   * `FlattenToPolygons(tree, includeOuterPolygon)` as a function: every node of the tree in
   * pre-order whose contour is non-empty and, without the outer polygons, whose depth is at
   * least 2, with the root's hole flag negated per level.
   */
  lemma FlattenToPolygonsIsEmittedPreOrder(tree: PolyNode, includeOuterPolygon: bool)
    ensures Flatten(tree, tree.isHole, DepthFilter(includeOuterPolygon))
         == Emitted(PreOrder(tree, 0), tree.isHole, DepthFilter(includeOuterPolygon))
  {
    FlattenIsEmittedPreOrder(tree, tree.isHole, DepthFilter(includeOuterPolygon), 0);
  }

  /** Visits below the filter depth, and visits with an empty contour, emit nothing. */
  lemma {:induction false} EmittedSkips(visits: seq<Visit>, h: bool, f: int)
    requires forall k :: 0 <= k < |visits| ==> visits[k].depth < f || |visits[k].node.contour| == 0
    ensures Emitted(visits, h, f) == []
    decreases |visits|
  {
    if visits != [] {
      assert forall k :: 0 <= k < |visits[1..]| ==> visits[1..][k] == visits[k + 1];
      EmittedSkips(visits[1..], h, f);
    }
  }

  /** With every visit emitted, there is exactly one polygon per visit, with contour and flag. */
  lemma {:induction false} EmittedAll(visits: seq<Visit>, h: bool, f: int)
    requires forall k :: 0 <= k < |visits| ==> visits[k].depth >= f && |visits[k].node.contour| > 0
    ensures var r := Emitted(visits, h, f);
      |r| == |visits| &&
      forall k :: 0 <= k < |visits| ==> r[k] == Polygon(visits[k].node.contour, HoleAtDepth(h, visits[k].depth))
    decreases |visits|
  {
    if visits != [] {
      assert forall k :: 0 <= k < |visits[1..]| ==> visits[1..][k] == visits[k + 1];
      EmittedAll(visits[1..], h, f);
    }
  }

  // ---------------------------------------------------------------------------
  // Flattening, as the source does it: appending to a shared list

  class PolygonList {
    var items: seq<Polygon>

    constructor()
      ensures items == []
    {
      items := [];
    }

    method Add(p: Polygon)
      modifies this
      ensures items == old(items) + [p]
    {
      items := items + [p];
    }
  }

  lemma FlattenChildrenStep(p: PolyNode, i: nat, h: bool, f: int)
    requires i < |p.children|
    ensures FlattenChildren(p, i, h, f) == Flatten(p.children[i], h, f) + FlattenChildren(p, i + 1, h, f)
  {
  }

  /** `FlattenPolyTreeToPolygonsHelper`: appends exactly `Flatten(current, isHole, depthFilter)`. */
  method FlattenHelper(current: PolyNode, isHole: bool, results: PolygonList, depthFilter: int)
    modifies results
    ensures results.items == old(results.items) + Flatten(current, isHole, depthFilter)
    decreases current
  {
    if |current.contour| > 0 && depthFilter <= 0 {
      results.Add(Polygon(current.contour, isHole));
    }
    ghost var start := results.items;
    assert start == old(results.items) + (if |current.contour| > 0 && depthFilter <= 0 then [Polygon(current.contour, isHole)] else []);
    for i := 0 to |current.children|
      invariant results.items + FlattenChildren(current, i, !isHole, depthFilter - 1)
             == start + FlattenChildren(current, 0, !isHole, depthFilter - 1)
    {
      FlattenChildrenStep(current, i, !isHole, depthFilter - 1);
      FlattenHelper(current.children[i], !isHole, results, depthFilter - 1);
    }
    assert FlattenChildren(current, |current.children|, !isHole, depthFilter - 1) == [];
    assert results.items == start + FlattenChildren(current, 0, !isHole, depthFilter - 1);
    assert Flatten(current, isHole, depthFilter)
        == (if |current.contour| > 0 && depthFilter <= 0 then [Polygon(current.contour, isHole)] else [])
            + FlattenChildren(current, 0, !isHole, depthFilter - 1);
  }

  /** `FlattenToPolygons(polytree, includeOuterPolygon)`. */
  method FlattenToPolygons(polytree: PolyNode, includeOuterPolygon: bool) returns (r: seq<Polygon>)
    ensures r == Emitted(PreOrder(polytree, 0), polytree.isHole, DepthFilter(includeOuterPolygon))
  {
    var results := new PolygonList();
    var depthFilter := DepthFilter(includeOuterPolygon);
    FlattenHelper(polytree, polytree.isHole, results, depthFilter);
    FlattenToPolygonsIsEmittedPreOrder(polytree, includeOuterPolygon);
    r := results.items;
  }

  /**
   * `FlattenToPolygons(polytree)` with the default `includeOuterPolygon = true`, as called by
   * `PunchOperation.Execute` and between the passes of `OffsetOperation.Execute`.
   */
  function FlattenAll(tree: PolyNode): seq<Polygon>
  {
    Flatten(tree, tree.isHole, DepthFilter(true))
  }

  /** The default-argument call keeps every node with a non-empty contour, in pre-order. */
  lemma FlattenAllIsEmittedPreOrder(tree: PolyNode)
    ensures FlattenAll(tree) == Emitted(PreOrder(tree, 0), tree.isHole, 0)
  {
    FlattenToPolygonsIsEmittedPreOrder(tree, true);
  }

  // ---------------------------------------------------------------------------
  // Offset passes

  /** The paths handed to Clipper: each polygon's points, in order. */
  function Paths(polygons: seq<Polygon>): (r: seq<seq<IntVector3>>)
    ensures |r| == |polygons| && forall k :: 0 <= k < |r| ==> r[k] == polygons[k].points
  {
    if polygons == [] then [] else [polygons[0].points] + Paths(polygons[1..])
  }

  /**
   * Running the recorded deltas from the polygons `current`: one pass per delta, in order,
   * the output of each pass but the last flattened to become the input of the next; the
   * result is the last pass's tree.
   */
  function RunPasses(current: seq<Polygon>, deltas: seq<real>, pass: OffsetPass): PolyNode
    requires |deltas| > 0
    decreases |deltas|
  {
    var tree := pass(Paths(current), deltas[0]);
    if |deltas| == 1 then tree else RunPasses(FlattenAll(tree), deltas[1..], pass)
  }

  /** What `OffsetOperation.Execute` returns for the recorded polygons and deltas. */
  function ExecuteResult(included: seq<Polygon>, offsets: seq<real>, pass: OffsetPass): Result<PolyNode, OperationError>
  {
    if |offsets| == 0 then Failure(ArgumentException) else Success(RunPasses(included, offsets, pass))
  }

  /**
   * The inputs the passes see: the first pass sees the included polygons, and pass k + 1
   * sees the flattened output of pass k.
   */
  function PassInputs(included: seq<Polygon>, deltas: seq<real>, pass: OffsetPass): (r: seq<seq<Polygon>>)
    ensures |r| == |deltas| + 1 && r[0] == included
    decreases |deltas|
  {
    if deltas == [] then [included]
    else [included] + PassInputs(FlattenAll(pass(Paths(included), deltas[0])), deltas[1..], pass)
  }

  /**
   * Pass sequencing: with inputs as above, the result of Execute is the last delta's pass
   * applied to the last input, and each input after the first is the flattened output of
   * the pass before it.
   */
  lemma {:induction false} RunPassesTrace(included: seq<Polygon>, deltas: seq<real>, pass: OffsetPass)
    requires |deltas| > 0
    ensures var ins := PassInputs(included, deltas, pass);
      RunPasses(included, deltas, pass) == pass(Paths(ins[|deltas| - 1]), deltas[|deltas| - 1])
      && forall k :: 0 <= k < |deltas| ==> ins[k + 1] == FlattenAll(pass(Paths(ins[k]), deltas[k]))
    decreases |deltas|
  {
    var ins := PassInputs(included, deltas, pass);
    var next := FlattenAll(pass(Paths(included), deltas[0]));
    var rest := PassInputs(next, deltas[1..], pass);
    assert ins == [included] + rest;
    if |deltas| > 1 {
      RunPassesTrace(next, deltas[1..], pass);
      forall k | 0 <= k < |deltas|
        ensures ins[k + 1] == FlattenAll(pass(Paths(ins[k]), deltas[k]))
      {
        if k > 0 {
          assert ins[k + 1] == rest[k] && ins[k] == rest[k - 1] && deltas[k] == deltas[1..][k - 1];
        }
      }
    } else {
      assert rest == [next];
    }
  }

  /** Recording one more delta adds one more pass on the flattened previous result. */
  lemma {:induction false} RunPassesSnoc(current: seq<Polygon>, deltas: seq<real>, delta: real, pass: OffsetPass)
    requires |deltas| > 0
    ensures RunPasses(current, deltas + [delta], pass) == pass(Paths(FlattenAll(RunPasses(current, deltas, pass))), delta)
    decreases |deltas|
  {
    var tree := pass(Paths(current), deltas[0]);
    assert (deltas + [delta])[0] == deltas[0];
    assert (deltas + [delta])[1..] == deltas[1..] + [delta];
    if |deltas| > 1 {
      RunPassesSnoc(FlattenAll(tree), deltas[1..], delta, pass);
    }
  }

  /** `OffsetOperation`: the builder records polygons and deltas; Execute runs the passes. */
  class OffsetOperation {
    var includedPolygons: seq<Polygon>
    var offsets: seq<real>

    constructor()
      ensures includedPolygons == [] && offsets == []
    {
      includedPolygons := [];
      offsets := [];
    }

    /** Records the delta as given: positive dilates, negative erodes. */
    method ErodeOrDilate(delta: real)
      modifies this
      ensures offsets == old(offsets) + [delta]
      ensures includedPolygons == old(includedPolygons)
    {
      offsets := offsets + [delta];
    }

    /** Records -delta; a negative delta is rejected and nothing is recorded. */
    method Erode(delta: real) returns (o: Outcome<OperationError>)
      modifies this
      ensures delta < 0.0 ==> o == Fail(ArgumentOutOfRange) && offsets == old(offsets)
      ensures delta >= 0.0 ==> o == Pass && offsets == old(offsets) + [-delta]
      ensures includedPolygons == old(includedPolygons)
    {
      if delta < 0.0 {
        return Fail(ArgumentOutOfRange);
      }
      offsets := offsets + [-delta];
      return Pass;
    }

    /** Records delta; a negative delta is rejected and nothing is recorded. */
    method Dilate(delta: real) returns (o: Outcome<OperationError>)
      modifies this
      ensures delta < 0.0 ==> o == Fail(ArgumentOutOfRange) && offsets == old(offsets)
      ensures delta >= 0.0 ==> o == Pass && offsets == old(offsets) + [delta]
      ensures includedPolygons == old(includedPolygons)
    {
      if delta < 0.0 {
        return Fail(ArgumentOutOfRange);
      }
      offsets := offsets + [delta];
      return Pass;
    }

    /** Appends the polygons, in order; the deltas are untouched. */
    method Include(polygons: seq<Polygon>)
      modifies this
      ensures includedPolygons == old(includedPolygons) + polygons
      ensures offsets == old(offsets)
    {
      includedPolygons := includedPolygons + polygons;
    }

    /**
     * One offset pass per recorded delta, in order, flattening every tree but the last;
     * with no delta recorded it fails with ArgumentException.
     */
    method Execute(pass: OffsetPass) returns (r: Result<PolyNode, OperationError>)
      ensures r == ExecuteResult(includedPolygons, offsets, pass)
    {
      var currentPolygons := includedPolygons;
      for i := 0 to |offsets|
        invariant |offsets| == 0 || i < |offsets|
        invariant i < |offsets| ==> RunPasses(currentPolygons, offsets[i..], pass) == RunPasses(includedPolygons, offsets, pass)
      {
        var polytree := pass(Paths(currentPolygons), offsets[i]);
        if i + 1 == |offsets| {
          return Success(polytree);
        } else {
          assert offsets[i..][1..] == offsets[i + 1..];
          currentPolygons := FlattenToPolygons(polytree, true);
          FlattenIsEmittedPreOrder(polytree, polytree.isHole, 0, 0);
        }
      }
      return Failure(ArgumentException);
    }
  }

  // ---------------------------------------------------------------------------
  // The fixed delta sequences

  const BaseErosion: real := 0.05

  /** `CleanPolygons`: erode by 0.05, then dilate by 0.05. */
  method CleanPolygons(polygons: seq<Polygon>, pass: OffsetPass) returns (r: Result<PolyNode, OperationError>)
    ensures r == ExecuteResult(polygons, [-0.05, 0.05], pass)
  {
    var op := new OffsetOperation();
    op.Include(polygons);
    var _ := op.Erode(0.05);
    var _ := op.Dilate(0.05);
    assert op.includedPolygons == polygons && op.offsets == [-0.05, 0.05];
    r := op.Execute(pass);
  }

  /** CleanPolygons always succeeds, with two passes: the dilation of the flattened erosion. */
  lemma CleanPolygonsTwoPasses(polygons: seq<Polygon>, pass: OffsetPass)
    ensures ExecuteResult(polygons, [-0.05, 0.05], pass)
         == Success(pass(Paths(FlattenAll(pass(Paths(polygons), -0.05))), 0.05))
  {
    RunPassesSnoc(polygons, [-0.05], 0.05, pass);
    assert [-0.05] + [0.05] == [-0.05, 0.05];
  }

  /** `PunchOperation`: subject and clip paths for Clipper, then a cleaned difference. */
  class PunchOperation {
    var subjects: seq<seq<IntVector3>>
    var clips: seq<seq<IntVector3>>

    constructor()
      ensures subjects == [] && clips == []
    {
      subjects := [];
      clips := [];
    }

    method Include(polygons: seq<Polygon>)
      modifies this
      ensures subjects == old(subjects) + Paths(polygons) && clips == old(clips)
    {
      subjects := subjects + Paths(polygons);
    }

    method Exclude(polygons: seq<Polygon>)
      modifies this
      ensures clips == old(clips) + Paths(polygons) && subjects == old(subjects)
    {
      clips := clips + Paths(polygons);
    }

    /**
     * The difference, flattened, then offset by -0.05, +0.05 and the additional delta:
     * always three passes, so Execute never fails.
     */
    method Execute(additionalErosionDilation: real, difference: DifferencePass, pass: OffsetPass)
      returns (r: Result<PolyNode, OperationError>)
      ensures r == ExecuteResult(FlattenAll(difference(subjects, clips)), [-BaseErosion, BaseErosion, additionalErosionDilation], pass)
      ensures r.Success?
    {
      var polytree := difference(subjects, clips);
      var flat := FlattenToPolygons(polytree, true);
      FlattenIsEmittedPreOrder(polytree, polytree.isHole, 0, 0);
      var op := new OffsetOperation();
      op.Include(flat);
      assert op.includedPolygons == FlattenAll(polytree);
      var _ := op.Erode(BaseErosion);
      var _ := op.Dilate(BaseErosion);
      op.ErodeOrDilate(additionalErosionDilation);
      assert op.offsets == [-BaseErosion, BaseErosion, additionalErosionDilation];
      r := op.Execute(pass);
    }
  }
}
