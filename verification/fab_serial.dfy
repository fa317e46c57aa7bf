/** The MiniIFFAB serialiser used for parallel exchange: `size` predicts the
    byte count, `linearOut` writes the face list of a region followed by the
    requested components of each listed face, and `linearIn` reads such a
    buffer back into a fab. */
module FabSerial {
  import opened Base
  import opened Geometry
  import opened IFFab
  import opened FabCopy

  /** The element encoding `CH_XD::linearOut` / `linearIn` of the value type.
      Only its soundness matters: reading a buffer that starts with the
      encoding of `x` gives back `x`.  Its `linearSize` is the encoding's length. */
  datatype ElementCodec<!T(!new)> = ElementCodec(write: T -> seq<byte>, read: seq<byte> -> T) {
    ghost predicate Sound() {
      forall x, rest :: read(write(x) + rest) == x
    }
  }

  /** The face-list encoding `linearListOut` / `linearListIn`; its
      `linearListSize` is the encoding's length. */
  datatype FaceListCodec = FaceListCodec(write: seq<FaceIndex> -> seq<byte>, read: seq<byte> -> seq<FaceIndex>) {
    ghost predicate Sound() {
      forall fs, rest :: read(write(fs) + rest) == fs
    }
  }

  /** The moves "for each face, for icomp from comps.begin() to comps.end()"
      that the serialiser loops visit, each keeping its component. */
  function SerialMoves(faces: seq<FaceIndex>, comps: Interval): seq<Move> {
    Moves(faces, comps.begin, comps.begin, comps.Size())
  }

  /** The accessor accepts every (face, component) the loops visit: the
      loops run not at all, or the components are in range and every face
      is held by the fab and has its direction. */
  predicate Reachable<T>(fab: MiniIFFab<T>, faces: seq<FaceIndex>, comps: Interval) {
    || faces == [] || comps.Size() <= 0
    || (&& 0 <= comps.begin && comps.end < fab.nComp
        && forall f :: f in faces ==> f in fab.faces && f.direction == fab.direction)
  }

  lemma SerialMovesAddressable<T>(fab: MiniIFFab<T>, faces: seq<FaceIndex>, comps: Interval)
    ensures (forall m :: m in SerialMoves(faces, comps) ==> fab.Addressable(m.face, m.to)) <==> Reachable(fab, faces, comps)
    ensures forall m :: m in SerialMoves(faces, comps) ==> m.from == m.to
  {
    var ms := SerialMoves(faces, comps);
    if (forall m :: m in ms ==> fab.Addressable(m.face, m.to)) && faces != [] && comps.Size() > 0 {
      assert Move(faces[0], comps.begin, comps.begin) in ms;
      assert Move(faces[0], comps.end, comps.end) in ms;
      forall f | f in faces
        ensures f in fab.faces && f.direction == fab.direction
      {
        assert Move(f, comps.begin, comps.begin) in ms;
      }
    }
  }

  /** The data half of linearOut: each visited value's encoding, in order. */
  function EncodeData<T(!new)>(fab: MiniIFFab<T>, ms: seq<Move>, ec: ElementCodec<T>): (r: Result<seq<byte>>)
    requires fab.Valid() && fab.isDefined
    ensures r.Ok? <==> forall m :: m in ms ==> fab.Addressable(m.face, m.from)
    decreases |ms|
  {
    if ms == [] then Ok([])
    else
      assert ms == [ms[0]] + ms[1..];
      match Locate(fab, ms[0].face, ms[0].from)
      case Fail(e) => Fail(e)
      case Ok(k) =>
        match EncodeData(fab, ms[1..], ec)
        case Fail(e) => Fail(e)
        case Ok(rest) => Ok(ec.write(fab.data[k]) + rest)
  }

  /** The data half of size: the summed encoded sizes of the visited values;
      it fails exactly when writing them fails and otherwise counts exactly
      the bytes written. */
  function DataSize<T(!new)>(fab: MiniIFFab<T>, ms: seq<Move>, ec: ElementCodec<T>): (r: Result<int>)
    requires fab.Valid() && fab.isDefined
    ensures r.Ok? <==> EncodeData(fab, ms, ec).Ok?
    ensures r.Ok? ==> r.value == |EncodeData(fab, ms, ec).value|
    decreases |ms|
  {
    if ms == [] then Ok(0)
    else
      match Locate(fab, ms[0].face, ms[0].from)
      case Fail(e) => Fail(e)
      case Ok(k) =>
        match DataSize(fab, ms[1..], ec)
        case Fail(e) => Fail(e)
        case Ok(n) => Ok(|ec.write(fab.data[k])| + n)
  }

  /** linearOut: the encoded face list of `region`, then for each of those
      faces the encodings of components comps.begin() .. comps.end(). */
  function LinearOut<T(!new)>(fab: MiniIFFab<T>, region: Box, comps: Interval, ec: ElementCodec<T>, lc: FaceListCodec): (r: Result<seq<byte>>)
    requires fab.Valid() && fab.isDefined
    ensures r.Ok? <==> Reachable(fab, FaceSubset(fab.faces, region), comps)
    ensures r.Ok? ==> lc.write(FaceSubset(fab.faces, region)) <= r.value
  {
    var faces := FaceSubset(fab.faces, region);
    SerialMovesAddressable(fab, faces, comps);
    match EncodeData(fab, SerialMoves(faces, comps), ec)
    case Fail(e) => Fail(e)
    case Ok(data) => Ok(lc.write(faces) + data)
  }

  /** size: the face list's encoded length plus the encoded sizes of the
      values; it is exactly the length of what linearOut writes. */
  function Size<T(!new)>(fab: MiniIFFab<T>, region: Box, comps: Interval, ec: ElementCodec<T>, lc: FaceListCodec): (r: Result<int>)
    requires fab.Valid() && fab.isDefined
    ensures r.Ok? <==> LinearOut(fab, region, comps, ec, lc).Ok?
    ensures r.Ok? ==> r.value == |LinearOut(fab, region, comps, ec, lc).value|
  {
    var faces := FaceSubset(fab.faces, region);
    var facesize := |lc.write(faces)|;
    match DataSize(fab, SerialMoves(faces, comps), ec)
    case Fail(e) => Fail(e)
    case Ok(datasize) => Ok(facesize + datasize)
  }

  /** The data half of linearIn, on the bytes not yet consumed: for each
      move, locate the destination value (fatal if the fab refuses it), read
      one element and step past its encoding. */
  function ReadInto<T(!new)>(fab: MiniIFFab<T>, ms: seq<Move>, buf: seq<byte>, ec: ElementCodec<T>): (r: Result<MiniIFFab<T>>)
    requires fab.Valid() && fab.isDefined
    ensures r.Ok? ==> r.value.Valid() && SameShape(r.value, fab)
    ensures r.Ok? ==> forall m :: m in ms ==> fab.Addressable(m.face, m.to)
    decreases |ms|
  {
    if ms == [] then Ok(fab)
    else
      assert ms == [ms[0]] + ms[1..];
      match Locate(fab, ms[0].face, ms[0].to)
      case Fail(e) => Fail(e)
      case Ok(k) =>
        var v := ec.read(buf);
        var n := |ec.write(v)|;
        if n > |buf| then Fail(BufferOverrun)
        else
          assert fab.(data := fab.data[k := v]) == fab.WriteSlot(fab.Position(ms[0].face), ms[0].to, v);
          ReadInto(fab.(data := fab.data[k := v]), ms[1..], buf[n..], ec)
  }

  /** linearIn: the face list comes from the buffer, not from `region`,
      which is ignored; every listed face must be held by the fab. */
  function LinearIn<T(!new)>(fab: MiniIFFab<T>, buf: seq<byte>, region: Box, comps: Interval, ec: ElementCodec<T>, lc: FaceListCodec): (r: Result<MiniIFFab<T>>)
    requires fab.Valid() && fab.isDefined
    ensures r.Ok? ==> r.value.Valid() && SameShape(r.value, fab)
    ensures r.Ok? ==> Reachable(fab, lc.read(buf), comps)
  {
    var faces := lc.read(buf);
    var n := |lc.write(faces)|;
    if n > |buf| then Fail(BufferOverrun)
    else
      var r := ReadInto(fab, SerialMoves(faces, comps), buf[n..], ec);
      SerialMovesAddressable(fab, faces, comps);
      r
  }

  /** One value written, the rest still to write. */
  lemma EncodeStep<T(!new)>(src: MiniIFFab<T>, ms: seq<Move>, ec: ElementCodec<T>)
    requires src.Valid() && src.isDefined
    requires ms != [] && EncodeData(src, ms, ec).Ok?
    ensures ms[0].face in src.faces && 0 <= ms[0].from < src.nComp
    ensures EncodeData(src, ms[1..], ec).Ok?
    ensures EncodeData(src, ms, ec).value ==
      ec.write(src.Value(ms[0].face, ms[0].from)) + EncodeData(src, ms[1..], ec).value
  {
    assert ms[0] in ms;
  }

  /** One value read, the rest still to read. */
  lemma ReadStep<T(!new)>(dst: MiniIFFab<T>, ms: seq<Move>, v: T, tail: seq<byte>, ec: ElementCodec<T>)
    requires dst.Valid() && dst.isDefined && ec.Sound()
    requires ms != [] && dst.Addressable(ms[0].face, ms[0].to)
    ensures ReadInto(dst, ms, ec.write(v) + tail, ec) ==
      ReadInto(dst.WriteSlot(dst.Position(ms[0].face), ms[0].to, v), ms[1..], tail, ec)
  {
    assert (ec.write(v) + tail)[|ec.write(v)|..] == tail;
  }

  /** Reading back what EncodeData wrote, followed by anything, performs
      the same moves as a direct transfer from the fab that was written. */
  lemma {:induction false} ReadIntoMatchesTransfer<T(!new)>(dst: MiniIFFab<T>, src: MiniIFFab<T>, ms: seq<Move>,
                                                    ec: ElementCodec<T>, enc: seq<byte>, trailing: seq<byte>)
    requires dst.Valid() && dst.isDefined && src.Valid() && src.isDefined
    requires ec.Sound()
    requires EncodeData(src, ms, ec) == Ok(enc)
    requires forall m :: m in ms ==> dst.Addressable(m.face, m.to)
    ensures ReadInto(dst, ms, enc + trailing, ec) == Transfer(dst, src, ms)
    decreases |ms|
  {
    if ms != [] {
      assert ms[0] in ms;
      EncodeStep(src, ms, ec);
      var v := src.Value(ms[0].face, ms[0].from);
      var rest := EncodeData(src, ms[1..], ec).value;
      assert enc + trailing == ec.write(v) + (rest + trailing);
      ReadStep(dst, ms, v, rest + trailing, ec);
      TransferStep(dst, src, ms);
      var d1 := dst.WriteSlot(dst.Position(ms[0].face), ms[0].to, v);
      assert forall m :: m in ms[1..] ==> m in ms;
      ReadIntoMatchesTransfer(d1, src, ms[1..], ec, rest, trailing);
    }
  }

  /** Round trip: reading what linearOut wrote (with anything after it, and
      whatever region) into a fab that holds every written face restores
      each written (face, component) value and leaves every other slot as
      it was. */
  lemma LinearRoundTrip<T(!new)>(src: MiniIFFab<T>, dst: MiniIFFab<T>, region: Box, anyRegion: Box, comps: Interval,
                           ec: ElementCodec<T>, lc: FaceListCodec, out: seq<byte>, trailing: seq<byte>)
      returns (r: MiniIFFab<T>)
    requires src.Valid() && src.isDefined && dst.Valid() && dst.isDefined
    requires ec.Sound() && lc.Sound()
    requires LinearOut(src, region, comps, ec, lc) == Ok(out)
    requires Reachable(dst, FaceSubset(src.faces, region), comps)
    ensures LinearIn(dst, out + trailing, anyRegion, comps, ec, lc) == Ok(r)
    ensures r.Valid() && SameShape(r, dst)
    ensures forall f, c :: f in FaceSubset(src.faces, region) && comps.Has(c) ==>
      f in src.faces && f in dst.faces && 0 <= c < src.nComp && 0 <= c < dst.nComp && r.Value(f, c) == src.Value(f, c)
    ensures forall p: nat, c: nat ::
      (p < dst.nFaces && c < dst.nComp && !(dst.IsFirst(p) && dst.faces[p] in FaceSubset(src.faces, region) && comps.Has(c))) ==>
        r.SlotValue(p, c) == dst.SlotValue(p, c)
  {
    var sub := FaceSubset(src.faces, region);
    LinearOutIn(src, dst, region, anyRegion, comps, ec, lc, out, trailing);
    r := Transfer(dst, src, SerialMoves(sub, comps)).value;
    SerialTransferValues(dst, src, sub, comps, r);
    SerialTransferFrame(dst, src, sub, comps);
  }

  /** Reading back what linearOut wrote succeeds and is a transfer along
      the moves that wrote it. */
  lemma LinearOutIn<T(!new)>(src: MiniIFFab<T>, dst: MiniIFFab<T>, region: Box, anyRegion: Box, comps: Interval,
                             ec: ElementCodec<T>, lc: FaceListCodec, out: seq<byte>, trailing: seq<byte>)
    requires src.Valid() && src.isDefined && dst.Valid() && dst.isDefined
    requires ec.Sound() && lc.Sound()
    requires LinearOut(src, region, comps, ec, lc) == Ok(out)
    requires Reachable(dst, FaceSubset(src.faces, region), comps)
    ensures Transfer(dst, src, SerialMoves(FaceSubset(src.faces, region), comps)).Ok?
    ensures LinearIn(dst, out + trailing, anyRegion, comps, ec, lc) == Transfer(dst, src, SerialMoves(FaceSubset(src.faces, region), comps))
  {
    var sub := FaceSubset(src.faces, region);
    var enc := LinearOutParts(src, region, comps, ec, lc, out);
    assert out + trailing == lc.write(sub) + (enc + trailing);
    LinearInIsTransfer(src, dst, anyRegion, comps, ec, lc, sub, enc, trailing);
    SerialTransferOk(dst, src, sub, comps, ec);
  }

  /** Reading back an encoded face list and its encoded data is a transfer
      along the same moves. */
  lemma LinearInIsTransfer<T(!new)>(src: MiniIFFab<T>, dst: MiniIFFab<T>, anyRegion: Box, comps: Interval,
                                    ec: ElementCodec<T>, lc: FaceListCodec, sub: seq<FaceIndex>, enc: seq<byte>, trailing: seq<byte>)
    requires src.Valid() && src.isDefined && dst.Valid() && dst.isDefined
    requires ec.Sound() && lc.Sound()
    requires EncodeData(src, SerialMoves(sub, comps), ec) == Ok(enc)
    requires Reachable(dst, sub, comps)
    ensures LinearIn(dst, lc.write(sub) + (enc + trailing), anyRegion, comps, ec, lc) == Transfer(dst, src, SerialMoves(sub, comps))
  {
    LinearInReads(dst, anyRegion, comps, ec, lc, sub, enc + trailing);
    SerialMovesAddressable(dst, sub, comps);
    ReadIntoMatchesTransfer(dst, src, SerialMoves(sub, comps), ec, enc, trailing);
  }

  /** The moves of a list the source could write and the destination can
      take are all carried out. */
  lemma SerialTransferOk<T(!new)>(dst: MiniIFFab<T>, src: MiniIFFab<T>, sub: seq<FaceIndex>, comps: Interval, ec: ElementCodec<T>)
    requires src.Valid() && src.isDefined && dst.Valid() && dst.isDefined
    requires EncodeData(src, SerialMoves(sub, comps), ec).Ok?
    requires Reachable(dst, sub, comps)
    ensures Transfer(dst, src, SerialMoves(sub, comps)).Ok?
  {
    SerialMovesAddressable(dst, sub, comps);
  }

  /** What linearOut wrote: the face list, then the data. */
  lemma LinearOutParts<T(!new)>(src: MiniIFFab<T>, region: Box, comps: Interval, ec: ElementCodec<T>, lc: FaceListCodec, out: seq<byte>)
      returns (enc: seq<byte>)
    requires src.Valid() && src.isDefined
    requires LinearOut(src, region, comps, ec, lc) == Ok(out)
    ensures EncodeData(src, SerialMoves(FaceSubset(src.faces, region), comps), ec) == Ok(enc)
    ensures out == lc.write(FaceSubset(src.faces, region)) + enc
  {
    enc := EncodeData(src, SerialMoves(FaceSubset(src.faces, region), comps), ec).value;
  }

  /** linearIn on a buffer that starts with an encoded face list reads the
      list back and goes on with the bytes right after it. */
  lemma LinearInReads<T(!new)>(dst: MiniIFFab<T>, region: Box, comps: Interval, ec: ElementCodec<T>,
                               lc: FaceListCodec, faces: seq<FaceIndex>, tail: seq<byte>)
    requires dst.Valid() && dst.isDefined && lc.Sound()
    ensures lc.read(lc.write(faces) + tail) == faces
    ensures LinearIn(dst, lc.write(faces) + tail, region, comps, ec, lc) == ReadInto(dst, SerialMoves(faces, comps), tail, ec)
  {
    assert (lc.write(faces) + tail)[|lc.write(faces)|..] == tail;
  }

  /** A transfer along the serialiser's moves copies each listed
      (face, component) value across unchanged. */
  lemma SerialTransferValues<T>(dst: MiniIFFab<T>, src: MiniIFFab<T>, sub: seq<FaceIndex>, comps: Interval, r: MiniIFFab<T>)
    requires dst.Valid() && dst.isDefined && src.Valid() && src.isDefined
    requires Transfer(dst, src, SerialMoves(sub, comps)) == Ok(r)
    ensures forall f, c :: f in sub && comps.Has(c) ==>
      f in src.faces && f in dst.faces && 0 <= c < src.nComp && 0 <= c < dst.nComp && r.Value(f, c) == src.Value(f, c)
  {
    var ms := SerialMoves(sub, comps);
    MovesCoherent(sub, comps.begin, comps.begin, comps.Size());
    TransferMoved(dst, src, ms);
    MovesListAll(sub, comps.begin, comps);
    TransferMovesValues(dst, src, r, comps, comps, sub, ms);
    forall f, c | f in sub && comps.Has(c)
      ensures f in src.faces && f in dst.faces && 0 <= c < src.nComp && 0 <= c < dst.nComp
      ensures r.Value(f, c) == src.Value(f, c)
    {
      assert c - comps.begin + comps.begin == c;
    }
  }

  /** A transfer along the serialiser's moves touches no other slot. */
  lemma SerialTransferFrame<T>(dst: MiniIFFab<T>, src: MiniIFFab<T>, sub: seq<FaceIndex>, comps: Interval)
    requires dst.Valid() && dst.isDefined && src.Valid() && src.isDefined
    requires Transfer(dst, src, SerialMoves(sub, comps)).Ok?
    ensures forall p: nat, c: nat ::
      (p < dst.nFaces && c < dst.nComp && !(dst.IsFirst(p) && dst.faces[p] in sub && comps.Has(c))) ==>
        Transfer(dst, src, SerialMoves(sub, comps)).value.SlotValue(p, c) == dst.SlotValue(p, c)
  {
    TransferMovesFrame(dst, src, comps, comps, sub, SerialMoves(sub, comps));
  }

  /** With a fixed-width element encoding, size is the face list's length
      plus one element per listed face and component. */
  lemma SizeFixedWidth<T(!new)>(fab: MiniIFFab<T>, region: Box, comps: Interval, ec: ElementCodec<T>, lc: FaceListCodec, w: nat)
    requires fab.Valid() && fab.isDefined
    requires forall x :: |ec.write(x)| == w
    requires Size(fab, region, comps, ec, lc).Ok?
    ensures var sub := FaceSubset(fab.faces, region);
      Size(fab, region, comps, ec, lc).value ==
        |lc.write(sub)| + |sub| * (if comps.Size() < 0 then 0 else comps.Size()) * w
  {
    var sub := FaceSubset(fab.faces, region);
    var ms := SerialMoves(sub, comps);
    MovesCount(sub, comps.begin, comps.begin, comps.Size());
    DataSizeFixedWidth(fab, ms, ec, w);
    var n := if comps.Size() < 0 then 0 else comps.Size();
    assert |ms| * w == |sub| * n * w;
  }

  lemma {:induction false} MovesCount(faces: seq<FaceIndex>, srcBegin: int, dstBegin: int, count: int)
    ensures |Moves(faces, srcBegin, dstBegin, count)| == |faces| * (if count < 0 then 0 else count)
    decreases |faces|
  {
    if faces != [] {
      MovesCount(faces[1..], srcBegin, dstBegin, count);
      var n := if count < 0 then 0 else count;
      assert |faces| * n == n + (|faces| - 1) * n;
    }
  }

  lemma {:induction false} DataSizeFixedWidth<T(!new)>(fab: MiniIFFab<T>, ms: seq<Move>, ec: ElementCodec<T>, w: nat)
    requires fab.Valid() && fab.isDefined
    requires forall x :: |ec.write(x)| == w
    requires DataSize(fab, ms, ec).Ok?
    ensures DataSize(fab, ms, ec).value == |ms| * w
    decreases |ms|
  {
    if ms != [] {
      assert ms[0] in ms;
      DataSizeFixedWidth(fab, ms[1..], ec, w);
      assert |ms| * w == w + (|ms| - 1) * w;
    }
  }
}
