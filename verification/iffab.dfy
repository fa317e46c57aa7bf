/** MiniIFFAB<T>: `nComp` values for each multi-valued face of a box in one
    coordinate direction, kept in one flat buffer.  Face values are looked up
    by a linear search of the face list and stored component-major. */
module IFFab {
  import opened Base
  import opened Geometry
  import opened SlotLayout

  /** The linear search shared by getIndex and containsIndex: the first
      position at or after `from` holding `face`. */
  function FindFace(faces: seq<FaceIndex>, face: FaceIndex, from: nat): (r: Option<nat>)
    requires from <= |faces|
    ensures r.Some? <==> face in faces[from..]
    ensures r.Some? ==> from <= r.value < |faces| && faces[r.value] == face && face !in faces[from..r.value]
    decreases |faces| - from
  {
    if from == |faces| then None
    else if faces[from] == face then Some(from)
    else
      assert faces[from..] == [faces[from]] + faces[from + 1..];
      var r := FindFace(faces, face, from + 1);
      assert r.Some? ==> faces[from..r.value] == [faces[from]] + faces[from + 1..r.value];
      r
  }

  datatype MiniIFFab<T> = MiniIFFab(
    isDefined: bool,
    box: Box,
    direction: int,
    nComp: nat,
    nFaces: nat,
    faces: seq<FaceIndex>,
    data: seq<T>)
  {
    /** The shape every constructor and operation keeps: one slot per face
        and component; an undefined fab holds nothing and has direction -1. */
    predicate Valid() {
      && nFaces == |faces|
      && |data| == nComp * nFaces
      && (isDefined ==> nComp > 0 && 0 <= direction < SpaceDim)
      && (!isDefined ==> nComp == 0 && nFaces == 0 && direction == -1 && faces == [])
    }

    /** The first position of `face` in the face list. */
    function Position(face: FaceIndex): (p: nat)
      requires face in faces
      ensures p < |faces| && faces[p] == face && face !in faces[..p]
    {
      assert faces[0..] == faces;
      var p := FindFace(faces, face, 0).value;
      assert faces[0..p] == faces[..p];
      p
    }

    /** The face at position `p` is not a repeat of an earlier one. */
    predicate IsFirst(p: nat)
      requires p < |faces|
    {
      Position(faces[p]) == p
    }

    function SlotValue(p: nat, c: nat): T
      requires Valid() && p < nFaces && c < nComp
    {
      data[Slot(nFaces, nComp, p, c)]
    }

    /** The value component `comp` of `face` reads as. */
    function Value(face: FaceIndex, comp: int): T
      requires Valid() && face in faces && 0 <= comp < nComp
    {
      SlotValue(Position(face), comp)
    }

    /** The accessor accepts (`face`, `comp`) without a fatal error. */
    predicate Addressable(face: FaceIndex, comp: int) {
      face.direction == direction && 0 <= comp < nComp && face in faces
    }

    function WriteSlot(p: nat, c: nat, v: T): (r: MiniIFFab<T>)
      requires Valid() && p < nFaces && c < nComp
      ensures r.Valid() && SameShape(r, this)
      ensures forall p': nat, c': nat :: p' < nFaces && c' < nComp ==>
        r.SlotValue(p', c') == if p' == p && c' == c then v else SlotValue(p', c')
    {
      var r := this.(data := data[Slot(nFaces, nComp, p, c) := v]);
      WriteSlotFrame(this, r, p, c, v);
      r
    }
  }

  /** Everything but the stored values agrees. */
  predicate SameShape<T>(a: MiniIFFab<T>, b: MiniIFFab<T>) {
    && a.isDefined == b.isDefined && a.box == b.box && a.direction == b.direction
    && a.nComp == b.nComp && a.nFaces == b.nFaces && a.faces == b.faces
    && |a.data| == |b.data|
  }

  lemma WriteSlotFrame<T>(fab: MiniIFFab<T>, r: MiniIFFab<T>, p: nat, c: nat, v: T)
    requires fab.Valid() && p < fab.nFaces && c < fab.nComp
    requires r == fab.(data := fab.data[Slot(fab.nFaces, fab.nComp, p, c) := v])
    ensures r.Valid()
    ensures forall p': nat, c': nat :: p' < fab.nFaces && c' < fab.nComp ==>
      r.SlotValue(p', c') == if p' == p && c' == c then v else fab.SlotValue(p', c')
  {
    forall p': nat, c': nat | p' < fab.nFaces && c' < fab.nComp
      ensures r.SlotValue(p', c') == if p' == p && c' == c then v else fab.SlotValue(p', c')
    {
      if Slot(fab.nFaces, fab.nComp, p', c') == Slot(fab.nFaces, fab.nComp, p, c) {
        SlotInjective(fab.nFaces, fab.nComp, p', c', p, c);
      }
    }
  }

  /** A position holding `face` with no earlier copy is its Position. */
  lemma PositionUnique<T>(fab: MiniIFFab<T>, face: FaceIndex, p: nat)
    requires p < |fab.faces| && fab.faces[p] == face && face !in fab.faces[..p]
    ensures fab.Position(face) == p
  {
  }

  /** The default constructor (setDefaultValues on an empty box). */
  function Undefined<T>(): (r: MiniIFFab<T>)
    ensures r.Valid() && !r.isDefined && r.box.IsEmpty()
  {
    assert EmptyBox.bigEnd[0] < EmptyBox.smallEnd[0];
    MiniIFFab(false, EmptyBox, -1, 0, 0, [], [])
  }

  /** define: `graphFaces` is what the geometry reports as the multi-valued
      faces of `box` in `direction`; `init` gives the indeterminate contents
      of the freshly allocated buffer. */
  function Define<T>(box: Box, graphFaces: seq<FaceIndex>, direction: int, nvarin: int, init: nat -> T): (r: MiniIFFab<T>)
    requires nvarin > 0
    requires 0 <= direction < SpaceDim
    ensures r.Valid() && r.isDefined
    ensures r.nComp == nvarin && r.direction == direction && r.box == box
    ensures r.faces == graphFaces && r.nFaces == |graphFaces| && |r.data| == nvarin * |graphFaces|
    ensures forall f, c :: 0 <= c < nvarin ==> (GetIndex(r, f, c).Ok? <==> f in graphFaces)
  {
    MiniIFFab(true, box, direction, nvarin, |graphFaces|, graphFaces, seq(nvarin * |graphFaces|, (i: int) requires 0 <= i => init(i)))
  }

  /** clear: releases the buffer and the face list and resets to the default
      values; the box is not reset. */
  function Clear<T>(fab: MiniIFFab<T>): (r: MiniIFFab<T>)
    ensures r.Valid() && !r.isDefined
    ensures r.nFaces == 0 && r.nComp == 0 && r.direction == -1 && r.faces == [] && r.data == []
    ensures r.box == fab.box
  {
    fab.(isDefined := false, direction := -1, nComp := 0, nFaces := 0, faces := [], data := [])
  }

  lemma ClearIdempotent<T>(fab: MiniIFFab<T>)
    ensures Clear(Clear(fab)) == Clear(fab)
    ensures Clear(Undefined<T>()) == Undefined<T>()
  {
  }

  /** getIndex: the slot of component `comp` of the first copy of `face`,
      or the fatal "index not found". */
  function GetIndex<T>(fab: MiniIFFab<T>, face: FaceIndex, comp: int): (r: Result<nat>)
    requires fab.Valid() && fab.isDefined && 0 <= comp < fab.nComp
    ensures r.Ok? <==> ContainsIndex(fab, face)
    ensures r.Fail? ==> r.fault == IndexNotFound
    ensures r.Ok? ==> r.value < |fab.data|
    ensures r.Ok? ==>
      var p := r.value - comp * fab.nFaces;
      0 <= p < fab.nFaces && fab.faces[p] == face && face !in fab.faces[..p]
    ensures r.Ok? ==> r.value == Slot(fab.nFaces, fab.nComp, fab.Position(face), comp)
  {
    assert fab.faces[0..] == fab.faces;
    match FindFace(fab.faces, face, 0)
    case None => Fail(IndexNotFound)
    case Some(p) => Ok(Slot(fab.nFaces, fab.nComp, p, comp))
  }

  /** containsIndex: the same search, reporting only whether it succeeds. */
  function ContainsIndex<T>(fab: MiniIFFab<T>, face: FaceIndex): (r: bool)
    requires fab.Valid() && fab.isDefined
    ensures r <==> face in fab.faces
  {
    assert fab.faces[0..] == fab.faces;
    FindFace(fab.faces, face, 0).Some?
  }

  /** The const operator(): read component `comp` of `face`. */
  function At<T>(fab: MiniIFFab<T>, face: FaceIndex, comp: int): (r: Result<T>)
    requires fab.Valid() && fab.isDefined
    requires face.direction == fab.direction
    requires 0 <= comp < fab.nComp
    ensures r.Ok? <==> face in fab.faces
    ensures r.Fail? ==> r.fault == IndexNotFound
    ensures r.Ok? ==> r.value == fab.data[Slot(fab.nFaces, fab.nComp, fab.Position(face), comp)]
  {
    match GetIndex(fab, face, comp)
    case Fail(e) => Fail(e)
    case Ok(k) => Ok(fab.data[k])
  }

  /** The mutable operator() used as an assignment target: store `v` as
      component `comp` of `face`; no other slot changes. */
  function Put<T>(fab: MiniIFFab<T>, face: FaceIndex, comp: int, v: T): (r: Result<MiniIFFab<T>>)
    requires fab.Valid() && fab.isDefined
    requires face.direction == fab.direction
    requires 0 <= comp < fab.nComp
    ensures r.Ok? <==> face in fab.faces
    ensures r.Fail? ==> r.fault == IndexNotFound
    ensures r.Ok? ==> r.value.Valid() && SameShape(r.value, fab) && r.value.Value(face, comp) == v
    ensures r.Ok? ==> forall p: nat, c: nat :: p < fab.nFaces && c < fab.nComp && (p, c) != (fab.Position(face), comp) ==>
      r.value.SlotValue(p, c) == fab.SlotValue(p, c)
  {
    match GetIndex(fab, face, comp)
    case Fail(e) => Fail(e)
    case Ok(k) =>
      assert fab.(data := fab.data[k := v]) == fab.WriteSlot(fab.Position(face), comp, v);
      Ok(fab.(data := fab.data[k := v]))
  }

  /** operator() as reached from inside copy, size and the serialisers: the
      direction and component checks it asserts and the face search all end
      the program, so each is a fault here. */
  function Locate<T>(fab: MiniIFFab<T>, face: FaceIndex, comp: int): (r: Result<nat>)
    requires fab.Valid() && fab.isDefined
    ensures r.Ok? <==> fab.Addressable(face, comp)
    ensures r.Ok? ==> r.value == Slot(fab.nFaces, fab.nComp, fab.Position(face), comp)
  {
    if face.direction != fab.direction then Fail(FaceDirectionMismatch)
    else if !(0 <= comp < fab.nComp) then Fail(ComponentOutOfRange)
    else GetIndex(fab, face, comp)
  }

  /** `a` occurs in `b` in order, possibly with gaps. */
  predicate IsSubsequence<X(==)>(a: seq<X>, b: seq<X>)
    decreases |b|
  {
    if a == [] then true
    else if b == [] then false
    else if a[0] == b[0] then IsSubsequence(a[1..], b[1..])
    else IsSubsequence(a, b[1..])
  }

  /** getFaceSubset: the faces with their low or high cell in `box`. */
  function FaceSubset(faces: seq<FaceIndex>, box: Box): (sub: seq<FaceIndex>)
    ensures forall f :: f in sub <==> f in faces && f.Touches(box)
    decreases |faces|
  {
    if faces == [] then []
    else
      assert faces == [faces[0]] + faces[1..];
      var rest := FaceSubset(faces[1..], box);
      if faces[0].Touches(box) then [faces[0]] + rest
      else rest
  }

  /** getFaceSubset keeps the faces in their original order and with their
      original multiplicity: it is the source list with exactly the
      non-touching faces dropped. */
  lemma {:induction false} FaceSubsetOrder(faces: seq<FaceIndex>, box: Box)
    ensures IsSubsequence(FaceSubset(faces, box), faces)
    ensures forall f: FaceIndex :: f.Touches(box) ==> multiset(FaceSubset(faces, box))[f] == multiset(faces)[f]
    ensures forall f: FaceIndex :: !f.Touches(box) ==> multiset(FaceSubset(faces, box))[f] == 0
    decreases |faces|
  {
    if faces != [] {
      FaceSubsetOrder(faces[1..], box);
      assert faces == [faces[0]] + faces[1..];
      var rest := FaceSubset(faces[1..], box);
      if !faces[0].Touches(box) && rest != [] {
        assert rest[0] in rest;
      }
    }
  }

  /** setVal(value): every slot receives `value`. */
  method SetVal<T>(fab: MiniIFFab<T>, value: T) returns (r: MiniIFFab<T>)
    requires fab.Valid() && fab.isDefined
    ensures r.Valid() && SameShape(r, fab)
    ensures forall k :: 0 <= k < |r.data| ==> r.data[k] == value
    ensures forall f, c :: f in fab.faces && 0 <= c < fab.nComp ==> r.Value(f, c) == value
  {
    var data := fab.data;
    var ivec := 0;
    while ivec < fab.nFaces * fab.nComp
      invariant 0 <= ivec <= fab.nFaces * fab.nComp
      invariant |data| == |fab.data|
      invariant forall k :: 0 <= k < ivec ==> data[k] == value
    {
      data := data[ivec := value];
      ivec := ivec + 1;
    }
    r := fab.(data := data);
  }

  /** What setVal(ivar, value) writes, seen face-major: the slot
      `i + j * nComp` takes `value` when `i == ivar` and keeps its old
      contents otherwise. */
  ghost predicate StridedWrite<T>(fab: MiniIFFab<T>, ivar: nat, value: T, r: MiniIFFab<T>)
    requires fab.Valid() && |r.data| == |fab.data|
  {
    forall i: nat, j: nat :: i < fab.nComp && j < fab.nFaces ==>
      r.data[FaceMajorSlot(fab.nComp, fab.nFaces, i, j)] ==
        if i == ivar then value else fab.data[FaceMajorSlot(fab.nComp, fab.nFaces, i, j)]
  }

  /** setVal(ivar, value) as written: starts at slot `ivar` and strides by
      `nComp` up to `nFaces * nComp`. */
  method SetComp<T>(fab: MiniIFFab<T>, ivar: int, value: T) returns (r: MiniIFFab<T>)
    requires fab.Valid() && fab.isDefined
    requires 0 <= ivar < fab.nComp
    ensures r.Valid() && SameShape(r, fab)
    ensures StridedWrite(fab, ivar, value, r)
  {
    var n, m := fab.nFaces, fab.nComp;
    var data := fab.data;
    var ivec := ivar;
    ghost var j: nat := 0;
    while ivec < n * m
      invariant j <= n
      invariant ivec == ivar + j * m
      invariant |data| == |fab.data|
      invariant StridedPrefix(fab, ivar, value, data, j)
      decreases n - j
    {
      FaceMajorInRange(m, n, ivar, j);
      StridedStep(fab, ivar, value, data, j);
      data := data[ivec := value];
      ivec := ivec + m;
      j := j + 1;
    }
    r := fab.(data := data);
  }

  /** The strided loop after `j` strides: component `ivar` of the first `j`
      faces, seen face-major, holds `value`; every other slot is untouched. */
  ghost predicate StridedPrefix<T>(fab: MiniIFFab<T>, ivar: nat, value: T, data: seq<T>, j: nat)
    requires fab.Valid() && |data| == |fab.data|
  {
    forall i: nat, jj: nat :: i < fab.nComp && jj < fab.nFaces ==>
      data[FaceMajorSlot(fab.nComp, fab.nFaces, i, jj)] ==
        if i == ivar && jj < j then value else fab.data[FaceMajorSlot(fab.nComp, fab.nFaces, i, jj)]
  }

  /** One stride of the loop extends the prefix by one face. */
  lemma StridedStep<T>(fab: MiniIFFab<T>, ivar: nat, value: T, data: seq<T>, j: nat)
    requires fab.Valid() && |data| == |fab.data|
    requires ivar < fab.nComp && j < fab.nFaces
    requires StridedPrefix(fab, ivar, value, data, j)
    ensures ivar + j * fab.nComp < |data|
    ensures StridedPrefix(fab, ivar, value, data[ivar + j * fab.nComp := value], j + 1)
  {
    var m, n := fab.nComp, fab.nFaces;
    var k := FaceMajorSlot(m, n, ivar, j);
    var data' := data[k := value];
    forall i: nat, jj: nat | i < m && jj < n
      ensures data'[FaceMajorSlot(m, n, i, jj)] ==
        if i == ivar && jj < j + 1 then value else fab.data[FaceMajorSlot(m, n, i, jj)]
    {
      if FaceMajorSlot(m, n, i, jj) == k {
        FaceMajorInjective(m, n, i, jj, ivar, j);
      }
    }
  }

  /** The discrepancy in setVal(ivar, value): with two components and two
      faces, setVal(1, value) leaves component 1 of the first face alone and
      overwrites component 0 of the second face instead. */
  lemma StridedWriteMissesComponent<T>(fab: MiniIFFab<T>, r: MiniIFFab<T>, value: T)
    requires fab.Valid() && fab.isDefined && fab.nComp == 2 && fab.nFaces == 2
    requires fab.faces[0] != fab.faces[1]
    requires fab.SlotValue(0, 1) != value
    requires r.Valid() && SameShape(r, fab) && StridedWrite(fab, 1, value, r)
    ensures r.Value(fab.faces[0], 1) != value
    ensures r.Value(fab.faces[1], 0) == value
  {
    assert fab.faces[..0] == [];
    PositionUnique(r, fab.faces[0], 0);
    assert fab.faces[..1] == [fab.faces[0]];
    PositionUnique(r, fab.faces[1], 1);
    assert FaceMajorSlot(2, 2, 1, 0) == Slot(2, 2, 1, 0);
    assert FaceMajorSlot(2, 2, 0, 1) == Slot(2, 2, 0, 1);
  }

  /** setVal(ivar, value) as the component-major layout of getIndex calls
      for: the `nFaces` slots of component `ivar` take `value`. */
  method SetCompByLayout<T>(fab: MiniIFFab<T>, ivar: int, value: T) returns (r: MiniIFFab<T>)
    requires fab.Valid() && fab.isDefined
    requires 0 <= ivar < fab.nComp
    ensures r.Valid() && SameShape(r, fab)
    ensures forall p: nat, c: nat :: p < fab.nFaces && c < fab.nComp ==>
      r.SlotValue(p, c) == if c == ivar then value else fab.SlotValue(p, c)
    ensures forall f, c :: f in fab.faces && 0 <= c < fab.nComp ==>
      r.Value(f, c) == if c == ivar then value else fab.Value(f, c)
  {
    r := fab;
    var p: nat := 0;
    while p < fab.nFaces
      invariant p <= fab.nFaces
      invariant r.Valid() && SameShape(r, fab)
      invariant forall q: nat, c: nat :: q < fab.nFaces && c < fab.nComp ==>
        r.SlotValue(q, c) == if c == ivar && q < p then value else fab.SlotValue(q, c)
    {
      r := r.WriteSlot(p, ivar, value);
      p := p + 1;
    }
  }
}
