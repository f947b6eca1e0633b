/**
 * `Sector`'s world transform and version counter, and the initial state of
 * `SectorInstanceMetadata`.
 *
 * `System.Numerics.Matrix4x4` is modelled as a value with exact equality over its sixteen
 * entries; `Matrix4x4.Invert(m, out inv)` is passed in as a function returning whether the
 * inversion succeeded together with the value written to the out parameter, which C# writes
 * on failure too.
 */
module Sectors {
  import opened Wrappers
  import opened Segments
  import opened PolygonOps

  datatype Matrix4x4 = Matrix4x4(elements: seq<real>)

  const Identity: Matrix4x4 := Matrix4x4([
    1.0, 0.0, 0.0, 0.0,
    0.0, 1.0, 0.0, 0.0,
    0.0, 0.0, 1.0, 0.0,
    0.0, 0.0, 0.0, 1.0])

  /** `Matrix4x4.Invert`: whether it succeeded, and what it wrote to its out parameter. */
  datatype InvertResult = InvertResult(ok: bool, inverse: Matrix4x4)

  type Inverter = Matrix4x4 -> InvertResult

  datatype SectorError = InvalidOperation

  /** `TerrainStaticMetadata`: held by the sector, never touched by the transform setter. */
  datatype TerrainStaticMetadata = TerrainStaticMetadata(
    localBoundary: Rectangle,
    localIncludedContours: seq<Polygon>,
    localExcludedContours: seq<Polygon>)

  /** A cached `SectorSnapshot`, identified by a token (its contents are not part of this model). */
  datatype SectorSnapshot = SectorSnapshot(token: nat)

  // ---------------------------------------------------------------------------
  // The setter as a function of the transform state

  /** The part of a sector the setter reads and writes. */
  datatype TransformState = TransformState(transform: Matrix4x4, inverse: Matrix4x4, version: int)

  datatype Assignment = Assignment(state: TransformState, outcome: Outcome<SectorError>)

  /**
   * `WorldTransform = value`: equal values change nothing; otherwise the value is stored and
   * inverted into the inverse, and the version goes up by one unless the inversion failed,
   * in which case InvalidOperation is raised after the transform and inverse were written.
   */
  function Assign(st: TransformState, value: Matrix4x4, invert: Inverter): Assignment
  {
    if st.transform == value then Assignment(st, Pass)
    else
      var inv := invert(value);
      if !inv.ok then Assignment(TransformState(value, inv.inverse, st.version), Fail(InvalidOperation))
      else Assignment(TransformState(value, inv.inverse, st.version + 1), Pass)
  }

  /** Assigning the current value is a no-op. */
  lemma AssignSameIsNoOp(st: TransformState, invert: Inverter)
    ensures Assign(st, st.transform, invert) == Assignment(st, Pass)
  {
  }

  /**
   * Assigning a different value always stores it and the inverter's output; the version goes
   * up by exactly one when the inversion succeeds, and stays put when it fails.
   */
  lemma AssignDifferent(st: TransformState, value: Matrix4x4, invert: Inverter)
    requires st.transform != value
    ensures var a := Assign(st, value, invert);
      a.state.transform == value && a.state.inverse == invert(value).inverse
      && (invert(value).ok <==> a.outcome == Pass)
      && (invert(value).ok ==> a.state.version == st.version + 1)
      && (!invert(value).ok ==> a.state.version == st.version && a.outcome == Fail(InvalidOperation))
  {
  }

  /**
   * Assigning the same value twice: the second assignment changes nothing and passes, even
   * when the first one failed (the non-invertible value is already stored).
   */
  lemma AssignTwice(st: TransformState, value: Matrix4x4, invert: Inverter)
    ensures var first := Assign(st, value, invert);
      Assign(first.state, value, invert) == Assignment(first.state, Pass)
  {
  }

  /**
   * A sequence of assignments, as game logic performs them: it stops at the first one
   * that raises.
   */
  function AssignAll(st: TransformState, values: seq<Matrix4x4>, invert: Inverter): Assignment
    decreases |values|
  {
    if values == [] then Assignment(st, Pass)
    else
      var a := Assign(st, values[0], invert);
      if a.outcome.Fail? then a else AssignAll(a.state, values[1..], invert)
  }

  /** The version never decreases, and goes up by at most one per assignment. */
  lemma {:induction false} VersionMonotone(st: TransformState, values: seq<Matrix4x4>, invert: Inverter)
    ensures st.version <= AssignAll(st, values, invert).state.version <= st.version + |values|
    decreases |values|
  {
    if values != [] {
      var a := Assign(st, values[0], invert);
      if a.outcome.Pass? {
        VersionMonotone(a.state, values[1..], invert);
      }
    }
  }

  /**
   * After a run that passes, the last value assigned is current. A run that stops at a
   * failing assignment ends with the value of that assignment stored: one of the values,
   * and one the inverter refuses.
   */
  lemma {:induction false} LastAssignedIsCurrent(st: TransformState, values: seq<Matrix4x4>, invert: Inverter)
    requires values != []
    ensures var a := AssignAll(st, values, invert);
      a.outcome.Pass? ==> a.state.transform == values[|values| - 1]
    ensures var a := AssignAll(st, values, invert);
      a.outcome.Fail? ==> a.state.transform in values && !invert(a.state.transform).ok
    decreases |values|
  {
    var a := Assign(st, values[0], invert);
    if a.outcome.Pass? && |values| > 1 {
      LastAssignedIsCurrent(a.state, values[1..], invert);
      assert values[1..][|values| - 2] == values[|values| - 1];
      assert forall m :: m in values[1..] ==> m in values;
    }
  }

  // ---------------------------------------------------------------------------
  // The classes

  class SectorInstanceMetadata {
    var worldTransform: Matrix4x4
    var worldTransformInv: Matrix4x4
    var cachedSnapshotVersion: int
    var cachedSnapshot: Option<SectorSnapshot>

    /** A fresh instance: identity transform and inverse, no cached snapshot. */
    constructor()
      ensures worldTransform == Identity && worldTransformInv == Identity
      ensures cachedSnapshotVersion == 0 && cachedSnapshot == None
    {
      worldTransform := Identity;
      worldTransformInv := Identity;
      cachedSnapshotVersion := 0;
      cachedSnapshot := None;
    }
  }

  class Sector {
    var version: int
    var staticMetadata: TerrainStaticMetadata
    var instanceMetadata: SectorInstanceMetadata

    /** A fresh sector: version 0 and fresh instance metadata. */
    constructor(staticMetadata: TerrainStaticMetadata)
      ensures this.staticMetadata == staticMetadata && version == 0
      ensures fresh(instanceMetadata)
      ensures instanceMetadata.worldTransform == Identity && instanceMetadata.worldTransformInv == Identity
      ensures instanceMetadata.cachedSnapshotVersion == 0 && instanceMetadata.cachedSnapshot == None
    {
      this.staticMetadata := staticMetadata;
      version := 0;
      instanceMetadata := new SectorInstanceMetadata();
    }

    /** The getter of `WorldTransform`. */
    function WorldTransform(): Matrix4x4
      reads this, instanceMetadata
    {
      instanceMetadata.worldTransform
    }

    function State(): TransformState
      reads this, instanceMetadata
    {
      TransformState(instanceMetadata.worldTransform, instanceMetadata.worldTransformInv, version)
    }

    /**
     * The setter of `WorldTransform`: the new transform state is `Assign` of the old one,
     * the getter returns the value just assigned, and the static metadata and the cached
     * snapshot are untouched.
     */
    method SetWorldTransform(value: Matrix4x4, invert: Inverter) returns (o: Outcome<SectorError>)
      modifies this, instanceMetadata
      ensures Assignment(State(), o) == Assign(old(State()), value, invert)
      ensures WorldTransform() == value
      ensures staticMetadata == old(staticMetadata) && instanceMetadata == old(instanceMetadata)
      ensures instanceMetadata.cachedSnapshotVersion == old(instanceMetadata.cachedSnapshotVersion)
      ensures instanceMetadata.cachedSnapshot == old(instanceMetadata.cachedSnapshot)
    {
      if instanceMetadata.worldTransform != value {
        instanceMetadata.worldTransform := value;
        var inverted := invert(WorldTransform());
        instanceMetadata.worldTransformInv := inverted.inverse;
        if !inverted.ok {
          return Fail(InvalidOperation);
        }
        version := version + 1;
      }
      return Pass;
    }
  }
}
