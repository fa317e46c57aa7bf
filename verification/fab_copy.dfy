/** Moving face values between two MiniIFFABs: copy, and the shared core of
    copy and deserialisation, which is a sequence of single-value moves. */
module FabCopy {
  import opened Base
  import opened Geometry
  import opened SlotLayout
  import opened IFFab

  /** Component `from` of `face` in the source goes to component `to` of
      `face` in the destination. */
  datatype Move = Move(face: FaceIndex, from: int, to: int)

  /** The moves of the nested loops "for each face, for icomp in
      0 .. count-1": component `srcBegin + icomp` to `dstBegin + icomp`. */
  function Moves(faces: seq<FaceIndex>, srcBegin: int, dstBegin: int, count: int): (ms: seq<Move>)
    ensures forall m :: m in ms <==>
      m.face in faces && 0 <= m.to - dstBegin < count && m.from - srcBegin == m.to - dstBegin
    decreases |faces|
  {
    if faces == [] then []
    else
      var n := if count < 0 then 0 else count;
      var head := seq(n, j => Move(faces[0], srcBegin + j, dstBegin + j));
      assert forall m :: m in head <==>
        m.face == faces[0] && 0 <= m.to - dstBegin < count && m.from - srcBegin == m.to - dstBegin
      by {
        forall m: Move | m.face == faces[0] && 0 <= m.to - dstBegin < count && m.from - srcBegin == m.to - dstBegin
          ensures m in head
        {
          assert head[m.to - dstBegin] == m;
        }
      }
      assert faces == [faces[0]] + faces[1..];
      head + Moves(faces[1..], srcBegin, dstBegin, count)
  }

  /** Two moves into the same destination value read the same source value. */
  ghost predicate Coherent(ms: seq<Move>) {
    forall a, b :: a in ms && b in ms && a.face == b.face && a.to == b.to ==> a.from == b.from
  }

  /** Some move writes the slot of position `p`, component `c` of `fab`. */
  ghost predicate Targets<T>(fab: MiniIFFab<T>, ms: seq<Move>, p: nat, c: int) {
    exists m :: m in ms && m.face in fab.faces && fab.Position(m.face) == p && m.to == c
  }

  /** Carry out the moves in order; each reads the source through the
      accessor and writes the destination through it, so any face or
      component the accessor refuses ends the program. */
  function Transfer<T>(dst: MiniIFFab<T>, src: MiniIFFab<T>, ms: seq<Move>): (r: Result<MiniIFFab<T>>)
    requires dst.Valid() && dst.isDefined && src.Valid() && src.isDefined
    ensures r.Ok? <==> forall m :: m in ms ==> src.Addressable(m.face, m.from) && dst.Addressable(m.face, m.to)
    ensures r.Ok? ==> r.value.Valid() && SameShape(r.value, dst)
    decreases |ms|
  {
    if ms == [] then Ok(dst)
    else
      assert ms == [ms[0]] + ms[1..];
      match Locate(src, ms[0].face, ms[0].from)
      case Fail(e) => Fail(e)
      case Ok(ks) =>
        match Locate(dst, ms[0].face, ms[0].to)
        case Fail(e) => Fail(e)
        case Ok(kd) =>
          var d1 := dst.(data := dst.data[kd := src.data[ks]]);
          assert d1 == dst.WriteSlot(dst.Position(ms[0].face), ms[0].to, src.data[ks]);
          Transfer(d1, src, ms[1..])
  }

  /** One move done, the rest still to do. */
  lemma TransferStep<T>(dst: MiniIFFab<T>, src: MiniIFFab<T>, ms: seq<Move>)
    requires dst.Valid() && dst.isDefined && src.Valid() && src.isDefined
    requires ms != [] && Transfer(dst, src, ms).Ok?
    ensures ms[0].face in dst.faces && ms[0].face in src.faces
    ensures 0 <= ms[0].to < dst.nComp && 0 <= ms[0].from < src.nComp
    ensures Transfer(dst, src, ms) ==
      Transfer(dst.WriteSlot(dst.Position(ms[0].face), ms[0].to, src.Value(ms[0].face, ms[0].from)), src, ms[1..])
  {
    assert ms[0] in ms;
  }

  lemma TailCoherent(ms: seq<Move>)
    requires ms != [] && Coherent(ms)
    ensures Coherent(ms[1..])
  {
    assert forall m :: m in ms[1..] ==> m in ms;
  }

  /** A successful transfer leaves every slot no move writes as it was. */
  lemma {:induction false} TransferFrame<T>(dst: MiniIFFab<T>, src: MiniIFFab<T>, ms: seq<Move>)
    requires dst.Valid() && dst.isDefined && src.Valid() && src.isDefined
    requires Transfer(dst, src, ms).Ok?
    ensures forall p: nat, c: nat :: p < dst.nFaces && c < dst.nComp && !Targets(dst, ms, p, c) ==>
      Transfer(dst, src, ms).value.SlotValue(p, c) == dst.SlotValue(p, c)
    decreases |ms|
  {
    if ms != [] {
      TransferStep(dst, src, ms);
      var m0, tail := ms[0], ms[1..];
      var p0 := dst.Position(m0.face);
      var d1 := dst.WriteSlot(p0, m0.to, src.Value(m0.face, m0.from));
      TransferFrame(d1, src, tail);
      forall p: nat, c: nat | p < dst.nFaces && c < dst.nComp && !Targets(dst, ms, p, c)
        ensures Transfer(dst, src, ms).value.SlotValue(p, c) == dst.SlotValue(p, c)
      {
        assert m0 in ms;
      }
    }
  }

  /** A successful coherent transfer gives every moved destination value its
      source value. */
  lemma {:induction false} TransferMoved<T>(dst: MiniIFFab<T>, src: MiniIFFab<T>, ms: seq<Move>)
    requires dst.Valid() && dst.isDefined && src.Valid() && src.isDefined
    requires Transfer(dst, src, ms).Ok?
    requires Coherent(ms)
    ensures forall m :: m in ms ==>
      Transfer(dst, src, ms).value.Value(m.face, m.to) == src.Value(m.face, m.from)
    decreases |ms|, 1
  {
    if ms != [] {
      TransferStep(dst, src, ms);
      TailCoherent(ms);
      var m0, tail := ms[0], ms[1..];
      var d1 := dst.WriteSlot(dst.Position(m0.face), m0.to, src.Value(m0.face, m0.from));
      TransferMoved(d1, src, tail);
      FirstMoveSurvives(dst, src, ms);
      forall m | m in ms
        ensures Transfer(dst, src, ms).value.Value(m.face, m.to) == src.Value(m.face, m.from)
      {
        if m != m0 {
          assert ms == [m0] + tail;
        }
      }
    }
  }

  /** The first move's value is not spoilt by the later ones: a later move
      into the same slot carries the same value. */
  lemma FirstMoveSurvives<T>(dst: MiniIFFab<T>, src: MiniIFFab<T>, ms: seq<Move>)
    requires dst.Valid() && dst.isDefined && src.Valid() && src.isDefined
    requires ms != [] && Transfer(dst, src, ms).Ok?
    requires Coherent(ms)
    requires Coherent(ms[1..])
    ensures ms[0].face in dst.faces && 0 <= ms[0].to < dst.nComp && ms[0].face in src.faces && 0 <= ms[0].from < src.nComp
    ensures Transfer(dst, src, ms).value.Value(ms[0].face, ms[0].to) == src.Value(ms[0].face, ms[0].from)
    decreases |ms|, 0
  {
    TransferStep(dst, src, ms);
    var m0, tail := ms[0], ms[1..];
    var p0 := dst.Position(m0.face);
    var v := src.Value(m0.face, m0.from);
    var d1 := dst.WriteSlot(p0, m0.to, v);
    if Targets(d1, tail, p0, m0.to) {
      var m' :| m' in tail && m'.face in d1.faces && d1.Position(m'.face) == p0 && m'.to == m0.to;
      assert m' in ms && m0 in ms;
      assert m'.face == m0.face;
      assert m'.from == m0.from;
      TransferMoved(d1, src, tail);
    } else {
      UntargetedKept(d1, src, tail, p0, m0.to);
    }
  }

  /** A slot no move writes keeps its value. */
  lemma UntargetedKept<T>(dst: MiniIFFab<T>, src: MiniIFFab<T>, ms: seq<Move>, p: nat, c: nat)
    requires dst.Valid() && dst.isDefined && src.Valid() && src.isDefined
    requires Transfer(dst, src, ms).Ok?
    requires p < dst.nFaces && c < dst.nComp && !Targets(dst, ms, p, c)
    ensures Transfer(dst, src, ms).value.SlotValue(p, c) == dst.SlotValue(p, c)
  {
    TransferFrame(dst, src, ms);
  }

  /** The slots the moves of `Moves` write: each first copy of a listed face,
      in each destination component of the range. */
  lemma TargetsMoves<T>(fab: MiniIFFab<T>, faces: seq<FaceIndex>, srcBegin: int, dstBegin: int, count: int, p: nat, c: int)
    requires p < |fab.faces|
    ensures Targets(fab, Moves(faces, srcBegin, dstBegin, count), p, c) <==>
      fab.faces[p] in faces && fab.IsFirst(p) && 0 <= c - dstBegin < count
  {
    var ms := Moves(faces, srcBegin, dstBegin, count);
    if fab.faces[p] in faces && fab.IsFirst(p) && 0 <= c - dstBegin < count {
      var m := Move(fab.faces[p], c - dstBegin + srcBegin, c);
      assert m in ms;
    }
  }

  lemma MovesCoherent(faces: seq<FaceIndex>, srcBegin: int, dstBegin: int, count: int)
    ensures Coherent(Moves(faces, srcBegin, dstBegin, count))
  {
  }

  /** The face has its low or its high cell in all three boxes. */
  predicate TouchesAll(f: FaceIndex, a: Box, b: Box, c: Box) {
    || (a.Contains(f.lo.gridIndex) && b.Contains(f.lo.gridIndex) && c.Contains(f.lo.gridIndex))
    || (a.Contains(f.hi.gridIndex) && b.Contains(f.hi.gridIndex) && c.Contains(f.hi.gridIndex))
  }

  /** The copy region `m_box & src.m_box & toBox`. */
  function CopyRegion(a: Box, b: Box, c: Box): (r: Box)
    ensures forall f: FaceIndex :: f.Touches(r) <==> TouchesAll(f, a, b, c)
  {
    var r := a.Intersect(b).Intersect(c);
    forall iv: IntVect
      ensures r.Contains(iv) <==> a.Contains(iv) && b.Contains(iv) && c.Contains(iv)
    {
      BoxContainment(a.Intersect(b), c, iv);
      BoxContainment(a, b, iv);
    }
    r
  }

  /** copy: for each face of this fab with a cell in both fabs' boxes and in
      `toBox`, destination component `dstIv.begin + i` receives source
      component `srcIv.begin + i`; nothing happens when either box is empty. */
  function Copy<T>(dst: MiniIFFab<T>, fromBox: Box, dstIv: Interval, toBox: Box, src: MiniIFFab<T>, srcIv: Interval): (r: Result<MiniIFFab<T>>)
    requires dst.Valid() && dst.isDefined && src.Valid() && src.isDefined
    requires srcIv.Size() == dstIv.Size()
    requires dstIv.begin >= 0 && srcIv.begin >= 0
    requires dstIv.end < dst.nComp && srcIv.end < src.nComp
    requires !dst.box.IsEmpty() && !src.box.IsEmpty() ==> fromBox == toBox
    ensures dst.box.IsEmpty() || src.box.IsEmpty() ==> r == Ok(dst)
    ensures r.Ok? <==>
      || dst.box.IsEmpty() || src.box.IsEmpty() || srcIv.Size() <= 0
      || forall f :: f in dst.faces && TouchesAll(f, dst.box, src.box, toBox) ==>
           f in src.faces && f.direction == src.direction && f.direction == dst.direction
    ensures r.Ok? ==> r.value.Valid() && SameShape(r.value, dst)
    ensures r.Ok? ==> forall f, c :: f in dst.faces && TouchesAll(f, dst.box, src.box, toBox) && dstIv.Has(c) ==>
      r.value.Value(f, c) == src.Value(f, c - dstIv.begin + srcIv.begin)
    ensures r.Ok? ==> forall p: nat, c: nat ::
      (p < dst.nFaces && c < dst.nComp &&
       !(dst.IsFirst(p) && TouchesAll(dst.faces[p], dst.box, src.box, toBox) && dstIv.Has(c))) ==>
        r.value.SlotValue(p, c) == dst.SlotValue(p, c)
  {
    if dst.box.IsEmpty() || src.box.IsEmpty() then Ok(dst)
    else
      var region := CopyRegion(dst.box, src.box, toBox);
      var sub := FaceSubset(dst.faces, region);
      var ms := Moves(sub, srcIv.begin, dstIv.begin, srcIv.Size());
      var r := Transfer(dst, src, ms);
      CopyEffect(dst, src, region, toBox, srcIv, dstIv, sub, ms, r);
      r
  }

  /** The facts Copy's contract rests on, one lemma per clause. */
  lemma CopyEffect<T>(dst: MiniIFFab<T>, src: MiniIFFab<T>, region: Box, toBox: Box, srcIv: Interval, dstIv: Interval,
                      sub: seq<FaceIndex>, ms: seq<Move>, r: Result<MiniIFFab<T>>)
    requires dst.Valid() && dst.isDefined && src.Valid() && src.isDefined
    requires srcIv.Size() == dstIv.Size()
    requires dstIv.begin >= 0 && srcIv.begin >= 0
    requires dstIv.end < dst.nComp && srcIv.end < src.nComp
    requires forall f: FaceIndex :: f.Touches(region) <==> TouchesAll(f, dst.box, src.box, toBox)
    requires sub == FaceSubset(dst.faces, region)
    requires ms == Moves(sub, srcIv.begin, dstIv.begin, srcIv.Size())
    requires r == Transfer(dst, src, ms)
    ensures r.Ok? <==>
      || srcIv.Size() <= 0
      || forall f :: f in dst.faces && TouchesAll(f, dst.box, src.box, toBox) ==>
           f in src.faces && f.direction == src.direction && f.direction == dst.direction
    ensures r.Ok? ==> forall f, c :: f in dst.faces && TouchesAll(f, dst.box, src.box, toBox) && dstIv.Has(c) ==>
      r.value.Value(f, c) == src.Value(f, c - dstIv.begin + srcIv.begin)
    ensures r.Ok? ==> forall p: nat, c: nat ::
      (p < dst.nFaces && c < dst.nComp &&
       !(dst.IsFirst(p) && TouchesAll(dst.faces[p], dst.box, src.box, toBox) && dstIv.Has(c))) ==>
        r.value.SlotValue(p, c) == dst.SlotValue(p, c)
  {
    CopyOutcome(dst, src, srcIv, dstIv, sub, ms);
    if r.Ok? {
      MovesCoherent(sub, srcIv.begin, dstIv.begin, srcIv.Size());
      TransferMoved(dst, src, ms);
      MovesListAll(sub, srcIv.begin, dstIv);
      TransferMovesValues(dst, src, r.value, srcIv, dstIv, sub, ms);
      TransferMovesFrame(dst, src, srcIv, dstIv, sub, ms);
    }
  }

  lemma CopyOutcome<T>(dst: MiniIFFab<T>, src: MiniIFFab<T>, srcIv: Interval, dstIv: Interval,
                       sub: seq<FaceIndex>, ms: seq<Move>)
    requires dst.Valid() && dst.isDefined && src.Valid() && src.isDefined
    requires srcIv.Size() == dstIv.Size()
    requires dstIv.begin >= 0 && srcIv.begin >= 0
    requires dstIv.end < dst.nComp && srcIv.end < src.nComp
    requires forall f :: f in sub ==> f in dst.faces
    requires forall m :: m in ms <==>
      m.face in sub && 0 <= m.to - dstIv.begin < srcIv.Size() && m.from - srcIv.begin == m.to - dstIv.begin
    ensures Transfer(dst, src, ms).Ok? <==>
      || srcIv.Size() <= 0
      || forall f :: f in sub ==> f in src.faces && f.direction == src.direction && f.direction == dst.direction
  {
    if srcIv.Size() > 0 {
      if !Transfer(dst, src, ms).Ok? {
        var m :| m in ms && !(src.Addressable(m.face, m.from) && dst.Addressable(m.face, m.to));
        assert m.face in sub;
      } else {
        forall f | f in sub
          ensures f in src.faces && f.direction == src.direction && f.direction == dst.direction
        {
          assert Move(f, srcIv.begin, dstIv.begin) in ms;
        }
      }
    }
  }

  /** Every listed (face, destination component) is moved from the source
      component at the same offset, and the moved values arrived. */
  lemma TransferMovesValues<T>(dst: MiniIFFab<T>, src: MiniIFFab<T>, r: MiniIFFab<T>, srcIv: Interval, dstIv: Interval,
                     sub: seq<FaceIndex>, ms: seq<Move>)
    requires dst.Valid() && src.Valid() && r.Valid() && SameShape(r, dst)
    requires forall f, c :: f in sub && dstIv.Has(c) ==> Move(f, c - dstIv.begin + srcIv.begin, c) in ms
    requires forall m :: m in ms ==>
      && src.Addressable(m.face, m.from) && dst.Addressable(m.face, m.to)
      && r.Value(m.face, m.to) == src.Value(m.face, m.from)
    ensures forall f, c :: f in sub && dstIv.Has(c) ==>
      f in src.faces && f in dst.faces && 0 <= c < dst.nComp && 0 <= c - dstIv.begin + srcIv.begin < src.nComp &&
      r.Value(f, c) == src.Value(f, c - dstIv.begin + srcIv.begin)
  {
    forall f, c | f in sub && dstIv.Has(c)
      ensures f in src.faces && f in dst.faces && 0 <= c < dst.nComp && 0 <= c - dstIv.begin + srcIv.begin < src.nComp
      ensures r.Value(f, c) == src.Value(f, c - dstIv.begin + srcIv.begin)
    {
      MovedValueAt(dst, src, r, ms, Move(f, c - dstIv.begin + srcIv.begin, c));
    }
  }

  lemma MovedValueAt<T>(dst: MiniIFFab<T>, src: MiniIFFab<T>, r: MiniIFFab<T>, ms: seq<Move>, m: Move)
    requires dst.Valid() && src.Valid() && r.Valid() && SameShape(r, dst)
    requires forall m :: m in ms ==>
      && src.Addressable(m.face, m.from) && dst.Addressable(m.face, m.to)
      && r.Value(m.face, m.to) == src.Value(m.face, m.from)
    requires m in ms
    ensures m.face in src.faces && m.face in dst.faces && 0 <= m.to < dst.nComp && 0 <= m.from < src.nComp
    ensures r.Value(m.face, m.to) == src.Value(m.face, m.from)
  {
  }

  /** Each face of the list, with each destination component of the
      interval, has its move. */
  lemma MovesListAll(faces: seq<FaceIndex>, srcBegin: int, dstIv: Interval)
    ensures forall f, c :: f in faces && dstIv.Has(c) ==>
      Move(f, c - dstIv.begin + srcBegin, c) in Moves(faces, srcBegin, dstIv.begin, dstIv.Size())
  {
  }

  lemma TransferMovesFrame<T>(dst: MiniIFFab<T>, src: MiniIFFab<T>, srcIv: Interval, dstIv: Interval,
                     sub: seq<FaceIndex>, ms: seq<Move>)
    requires dst.Valid() && dst.isDefined && src.Valid() && src.isDefined
    requires srcIv.Size() == dstIv.Size()
    requires ms == Moves(sub, srcIv.begin, dstIv.begin, srcIv.Size())
    requires Transfer(dst, src, ms).Ok?
    ensures forall p: nat, c: nat ::
      (p < dst.nFaces && c < dst.nComp && !(dst.IsFirst(p) && dst.faces[p] in sub && dstIv.Has(c))) ==>
        Transfer(dst, src, ms).value.SlotValue(p, c) == dst.SlotValue(p, c)
  {
    TransferFrame(dst, src, ms);
    forall p: nat, c: nat | p < dst.nFaces && c < dst.nComp && !(dst.IsFirst(p) && dst.faces[p] in sub && dstIv.Has(c))
      ensures Transfer(dst, src, ms).value.SlotValue(p, c) == dst.SlotValue(p, c)
    {
      TargetsMoves(dst, sub, srcIv.begin, dstIv.begin, srcIv.Size(), p, c);
    }
  }
}
