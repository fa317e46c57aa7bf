/** Index-space vocabulary: cells, boxes of cells, component intervals and
    the faces between two cells. */
module Geometry {

  /** Chombo fixes the space dimension at compile time; the model uses three. */
  const SpaceDim: nat := 3

  type IntVect = v: seq<int> | |v| == SpaceDim witness [0, 0, 0]

  function Max(a: int, b: int): int { if a < b then b else a }
  function Min(a: int, b: int): int { if a < b then a else b }

  /** A cell-centred box given by its low and high corners (both inclusive). */
  datatype Box = Box(smallEnd: IntVect, bigEnd: IntVect) {

    predicate IsEmpty() {
      exists d :: 0 <= d < SpaceDim && bigEnd[d] < smallEnd[d]
    }

    predicate Contains(iv: IntVect) {
      forall d :: 0 <= d < SpaceDim ==> smallEnd[d] <= iv[d] <= bigEnd[d]
    }

    /** The box `this &= other` leaves behind. */
    function Intersect(other: Box): Box {
      Box(seq(SpaceDim, d requires 0 <= d < SpaceDim => Max(smallEnd[d], other.smallEnd[d])),
          seq(SpaceDim, d requires 0 <= d < SpaceDim => Min(bigEnd[d], other.bigEnd[d])))
    }
  }

  /** The box a default-constructed `Box` holds: low corner 1, high corner 0. */
  const EmptyBox: Box := Box([1, 1, 1], [0, 0, 0])

  /** A box holds a cell exactly when it is not empty somewhere, and an
      intersection holds exactly the cells both boxes hold. */
  lemma BoxContainment(a: Box, b: Box, iv: IntVect)
    ensures a.IsEmpty() ==> !a.Contains(iv)
    ensures !a.IsEmpty() ==> a.Contains(a.smallEnd)
    ensures a.Intersect(b).Contains(iv) <==> a.Contains(iv) && b.Contains(iv)
  {
    if a.IsEmpty() {
      var d :| 0 <= d < SpaceDim && a.bigEnd[d] < a.smallEnd[d];
      assert !(a.smallEnd[d] <= iv[d] <= a.bigEnd[d]);
    }
    var c := a.Intersect(b);
    if c.Contains(iv) {
      forall d | 0 <= d < SpaceDim
        ensures a.smallEnd[d] <= iv[d] <= a.bigEnd[d] && b.smallEnd[d] <= iv[d] <= b.bigEnd[d]
      {
        assert c.smallEnd[d] <= iv[d] <= c.bigEnd[d];
      }
    }
  }

  /** A closed range of component indices; `Interval(0, -1)` is the empty one. */
  datatype Interval = Interval(begin: int, end: int) {
    function Size(): int { end - begin + 1 }
    predicate Has(comp: int) { begin <= comp <= end }
  }

  /** A control volume: a cell of index space together with the number that
      tells apart the disconnected fluid regions sharing that cell. */
  datatype VolIndex = VolIndex(gridIndex: IntVect, cellIndex: int)

  /** A face in coordinate direction `direction` between the volume on its
      low side and the volume on its high side. */
  datatype FaceIndex = FaceIndex(direction: int, lo: VolIndex, hi: VolIndex) {

    /** The face has its low or its high cell in `box`. */
    predicate Touches(box: Box) {
      box.Contains(lo.gridIndex) || box.Contains(hi.gridIndex)
    }
  }
}
