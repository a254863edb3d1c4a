/** `MeshMorpher`: a mesh, a sparse list of stored geometries and a per-vertex
    offset table, with the operations that register a geometry and that
    (would) blend the mesh between the two stored geometries bracketing a
    blend position. */
module Morpher {
  import opened JsArray
  import opened Easing

  /** A three.js `BufferGeometry`, reduced to its named attribute arrays.
      Storing one in a datatype is the value copy `clone()` makes. */
  datatype BufferGeometry = BufferGeometry(attributes: map<string, seq<real>>)

  /** A three.js `Points` object, reduced to its geometry. */
  datatype Points = Points(geometry: BufferGeometry)

  /** The attribute name `updateGeometry` reads its vertex count from, spelled
      as the source spells it. three.js names the attribute "position". */
  const AttributeRead: string := "poisition"

  /** `Math.ceil` */
  function Ceil(x: real): (c: int)
    ensures (c - 1) as real < x <= c as real
  {
    -((-x).Floor)
  }

  ghost predicate IsWhole(x: real) {
    x.Floor as real == x
  }

  /** The value the loop `while (percent > 1) percent -= 1` leaves behind. */
  function Wrapped(x: real): (r: real)
    ensures x <= 1.0 ==> r == x
    ensures x > 1.0 ==> 0.0 < r <= 1.0 && IsWhole(x - r) && x - r >= 1.0
  {
    if x > 1.0 then x - (Ceil(x) - 1) as real else x
  }

  /** Why `updateGeometry` returned early. */
  datatype SkipReason = NoMesh | MissingKeyframe

  /** How a call of `updateGeometry` ends. The source returns nothing in
      every normal case; the outcome records which path was taken.
      `Completed` carries the wrapped blend position and the number of
      iterations of the per-vertex loop. Line 31 reads `.array` of the
      `poisition` attribute: when the mesh has no such attribute the read
      throws a TypeError. */
  datatype Outcome =
    | Skipped(reason: SkipReason)
    | ThrewTypeError
    | Completed(percent: real, vertexCount: nat)

  /** The two slots `floor(percent)` and `ceil(percent)`, when both hold a
      geometry. */
  function Bracket(geometries: SparseArray<BufferGeometry>, percent: real): (r: Option<(int, int)>)
    ensures r.Some? ==> geometries.Get(r.value.0).Some? && geometries.Get(r.value.1).Some?
    ensures r.Some? ==> r.value.0 as real <= percent <= r.value.1 as real
    ensures r.Some? ==> r.value.1 - r.value.0 == if IsWhole(percent) then 0 else 1
    ensures r.None? ==> geometries.Get(percent.Floor).None? || geometries.Get(Ceil(percent)).None?
  {
    var lower, upper := percent.Floor, Ceil(percent);
    if geometries.Get(lower).Some? && geometries.Get(upper).Some? then Some((lower, upper)) else None
  }

  /** What `updateGeometry(percent)` does, as a function of the state it reads. */
  function UpdateOutcome(mesh: Option<Points>, geometries: SparseArray<BufferGeometry>, percent: real): (r: Outcome)
    ensures r == Skipped(NoMesh) <==> mesh.None?
    ensures r.ThrewTypeError? <==> mesh.Some? && Bracket(geometries, percent).Some? && AttributeRead !in mesh.value.geometry.attributes
    ensures r.Completed? ==> Bracket(geometries, percent).Some? && r.percent <= 1.0
  {
    if mesh.None? then Skipped(NoMesh)
    else if Bracket(geometries, percent).None? then Skipped(MissingKeyframe)
    else if AttributeRead !in mesh.value.geometry.attributes then ThrewTypeError
    else Completed(Wrapped(percent), |mesh.value.geometry.attributes[AttributeRead]|)
  }

  /** `pos` is truthy: present and not 0. `undefined` and 0 are falsy; every
      other integer, negative ones included, is truthy. */
  predicate IsTruthy(pos: Option<int>): (b: bool)
    ensures pos.None? || pos == Some(0) ==> !b
    ensures pos.Some? && pos.value < 0 ==> b
    ensures pos.Some? && pos.value > 0 ==> b
  {
    pos.Some? && pos.value != 0
  }

  /** The geometry list after `addGeometry(geometry, pos)`. */
  function Added(geometries: SparseArray<BufferGeometry>, geometry: BufferGeometry, pos: Option<int>): (r: SparseArray<BufferGeometry>)
    requires geometries.Valid()
    ensures r.Valid()
    ensures r.Get(if IsTruthy(pos) then pos.value else geometries.length) == Some(geometry)
    ensures geometries.length <= r.length
  {
    if IsTruthy(pos) then geometries.Assign(pos.value, geometry) else geometries.Push(geometry)
  }

  class MeshMorpher {
    var geometries: SparseArray<BufferGeometry>
    var mesh: Option<Points>
    var vertexOffset: seq<real>

    ghost predicate Valid()
      reads this
    {
      geometries.Valid()
    }

    constructor (mesh: Option<Points>)
      ensures Valid()
      ensures this.mesh == mesh
      ensures geometries == Empty() && vertexOffset == []
    {
      geometries := Empty();
      this.mesh := mesh;
      vertexOffset := [];
    }

    /** Has no `modifies` clause: it changes no field of the morpher. */
    method UpdateGeometry(percent: real) returns (outcome: Outcome)
      ensures outcome == UpdateOutcome(mesh, geometries, percent)
    {
      if mesh.None? {
        return Skipped(NoMesh);
      }
      var firstMesh := percent.Floor;
      var secondMesh := Ceil(percent);
      if geometries.Get(firstMesh).None? || geometries.Get(secondMesh).None? {
        return Skipped(MissingKeyframe);
      }

      var p := percent;
      ghost var steps: nat := 0;
      while p > 1.0
        invariant p == percent - steps as real
        invariant steps > 0 ==> p > 0.0
        decreases p.Floor
      {
        p := p - 1.0;
        steps := steps + 1;
      }
      assert percent > 1.0 ==> steps == Ceil(percent) - 1;

      var attributes := mesh.value.geometry.attributes;
      if AttributeRead !in attributes {
        return ThrewTypeError;
      }
      var vertexCount := |attributes[AttributeRead]|;

      // Each iteration computes a value that nothing reads; an offset missing
      // from the table is `undefined` and makes the value NaN (None here).
      for i := 0 to vertexCount {
        var tempPerc: Option<real> := if i < |vertexOffset| then Some(Staggered(p, vertexOffset[i])) else None;
        tempPerc := if tempPerc.Some? then Some(Smooth(tempPerc.value)) else None;
      }
      return Completed(p, vertexCount);
    }

    method AddGeometry(geometry: BufferGeometry, pos: Option<int>)
      requires Valid()
      modifies this
      ensures Valid()
      ensures geometries == Added(old(geometries), geometry, pos)
      ensures mesh == old(mesh) && vertexOffset == old(vertexOffset)
    {
      if IsTruthy(pos) {
        geometries := geometries.Assign(pos.value, geometry);
      } else {
        geometries := geometries.Push(geometry);
      }
    }
  }

  /** `updateGeometry` returns early exactly when the mesh is unset or one of
      the slots `floor(percent)`, `ceil(percent)` is empty. */
  lemma SkippedExactly(mesh: Option<Points>, geometries: SparseArray<BufferGeometry>, percent: real)
    ensures UpdateOutcome(mesh, geometries, percent).Skipped?
        <==> mesh.None? || geometries.Get(percent.Floor).None? || geometries.Get(Ceil(percent)).None?
  {
  }

  /** At a whole blend position both bracketing slots are the same slot. */
  lemma WholePercentNeedsOneSlot(mesh: Option<Points>, geometries: SparseArray<BufferGeometry>, k: int)
    requires mesh.Some?
    ensures UpdateOutcome(mesh, geometries, k as real).Skipped? <==> geometries.Get(k).None?
  {
    assert (k as real).Floor == k == Ceil(k as real);
  }

  /** Between two whole positions both neighbours must be stored. */
  lemma FractionalPercentNeedsTwoSlots(mesh: Option<Points>, geometries: SparseArray<BufferGeometry>, percent: real)
    requires mesh.Some? && !IsWhole(percent)
    ensures UpdateOutcome(mesh, geometries, percent).Skipped?
        <==> geometries.Get(percent.Floor).None? || geometries.Get(percent.Floor + 1).None?
  {
    assert Ceil(percent) == percent.Floor + 1;
  }

  /** A blend position past the last index in use (`length - 1`, see
      `LastIndexInUse`) is a no-op. */
  lemma PastLastSlotIsSkipped(mesh: Option<Points>, geometries: SparseArray<BufferGeometry>, percent: real)
    requires geometries.Valid()
    requires percent > (geometries.length - 1) as real
    ensures UpdateOutcome(mesh, geometries, percent).Skipped?
  {
    assert geometries.Get(Ceil(percent)).None?;
  }

  /** A negative blend position is a no-op unless a geometry was stored under
      a negative key. */
  lemma NegativePercentIsSkipped(mesh: Option<Points>, geometries: SparseArray<BufferGeometry>, percent: real)
    requires forall k :: k < 0 ==> geometries.Get(k).None?
    requires percent < 0.0
    ensures UpdateOutcome(mesh, geometries, percent).Skipped?
  {
  }

  /** `addGeometry(g, -1)` stores under the key "-1", and
      `updateGeometry(-1)` then passes the guards. */
  lemma NegativeKeyPassesGuards(geometry: BufferGeometry, mesh: Points)
    ensures !UpdateOutcome(Some(mesh), Added(Empty(), geometry, Some(-1)), -1.0).Skipped?
  {
  }

  /** A mesh with only the attribute three.js loaders create, "position",
      never reaches the per-vertex loop: once the guards pass, line 31 throws. */
  lemma PositionOnlyMeshThrows(positions: seq<real>, geometries: SparseArray<BufferGeometry>, percent: real)
    ensures var mesh := Some(Points(BufferGeometry(map["position" := positions])));
      UpdateOutcome(mesh, geometries, percent) == if Bracket(geometries, percent).None?
        then Skipped(MissingKeyframe) else ThrewTypeError
  {
  }

  /** Whatever attributes a mesh carries, once the guards pass the read of
      `poisition` throws unless the mesh has an attribute of that name. */
  lemma GuardsPassedThrows(mesh: Points, geometries: SparseArray<BufferGeometry>, percent: real)
    requires AttributeRead !in mesh.geometry.attributes
    requires Bracket(geometries, percent).Some?
    ensures UpdateOutcome(Some(mesh), geometries, percent) == ThrewTypeError
  {
  }

  /** When the loop runs, it runs with the wrapped blend position: in (0, 1]
      and a whole number of steps below an input above 1, the input itself
      otherwise. */
  lemma CompletedPercentIsWrapped(mesh: Option<Points>, geometries: SparseArray<BufferGeometry>, percent: real)
    requires UpdateOutcome(mesh, geometries, percent).Completed?
    ensures var w := UpdateOutcome(mesh, geometries, percent).percent;
      && w <= 1.0
      && (percent > 1.0 ==> 0.0 < w && IsWhole(percent - w) && percent - w >= 1.0)
      && (percent <= 1.0 ==> w == percent)
  {
  }

  /** Both 1 and 2 wrap to 1, never to 0; 2.5 wraps to 0.5. */
  lemma WrappedExamples()
    ensures Wrapped(1.0) == 1.0 && Wrapped(2.0) == 1.0 && Wrapped(2.5) == 0.5
  {
  }

  /** `addGeometry(g, pos)` with a truthy `pos` stores `g` under `pos`,
      replacing any previous occupant, and touches no other key. */
  lemma AddAtTruthyPosition(geometries: SparseArray<BufferGeometry>, geometry: BufferGeometry, pos: int)
    requires geometries.Valid() && pos != 0
    ensures var r := Added(geometries, geometry, Some(pos));
      && r.Valid()
      && r.Get(pos) == Some(geometry)
      && (forall k :: k != pos ==> r.Get(k) == geometries.Get(k))
      && r.length == if pos < 0 then geometries.length
                     else if pos < geometries.length then geometries.length else pos + 1
  {
  }

  /** `addGeometry(g)` and `addGeometry(g, 0)` both append at index `length`. */
  lemma AddWithoutTruthyPositionAppends(geometries: SparseArray<BufferGeometry>, geometry: BufferGeometry, pos: Option<int>)
    requires geometries.Valid() && !IsTruthy(pos)
    ensures var r := Added(geometries, geometry, pos);
      && r.Valid()
      && r.length == geometries.length + 1
      && r.Get(geometries.length) == Some(geometry)
      && (forall k :: k != geometries.length ==> r.Get(k) == geometries.Get(k))
  {
  }

  /** `addGeometry(g, 0)` on a non-empty list never overwrites slot 0. */
  lemma AddAtZeroKeepsSlotZero(geometries: SparseArray<BufferGeometry>, geometry: BufferGeometry)
    requires geometries.Valid() && geometries.length > 0
    ensures Added(geometries, geometry, Some(0)).Get(0) == geometries.Get(0)
  {
  }

  /** Registering slot 1 first and then "slot 0" leaves slot 0 empty: the
      second geometry lands in slot 2. */
  lemma ZeroAfterOneLeavesSlotZeroEmpty(first: BufferGeometry, second: BufferGeometry)
    ensures var r := Added(Added(Empty(), first, Some(1)), second, Some(0));
      r.Get(0) == None && r.Get(1) == Some(first) && r.Get(2) == Some(second) && r.length == 3
  {
  }
}
