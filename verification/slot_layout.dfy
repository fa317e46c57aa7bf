/** The flat storage of a MiniIFFAB is component-major: the value of the face
    at position `p` and component `c` lives at slot `p + c * nFaces`. */
module SlotLayout {

  function Slot(nFaces: nat, nComp: nat, p: nat, c: nat): (k: nat)
    requires p < nFaces && c < nComp
    ensures k < nComp * nFaces
  {
    SlotBelowEnd(nFaces, nComp, p, c);
    p + c * nFaces
  }

  lemma SlotBelowEnd(nFaces: nat, nComp: nat, p: nat, c: nat)
    requires p < nFaces && c < nComp
    ensures p + c * nFaces < nComp * nFaces
  {
    assert c + 1 <= nComp;
    assert (c + 1) * nFaces <= nComp * nFaces;
  }

  /** Distinct (position, component) pairs own distinct slots. */
  lemma SlotInjective(nFaces: nat, nComp: nat, p1: nat, c1: nat, p2: nat, c2: nat)
    requires p1 < nFaces && c1 < nComp && p2 < nFaces && c2 < nComp
    requires Slot(nFaces, nComp, p1, c1) == Slot(nFaces, nComp, p2, c2)
    ensures p1 == p2 && c1 == c2
  {
    if c1 < c2 {
      SlotOrdered(nFaces, p1, c1, p2, c2);
    } else if c2 < c1 {
      SlotOrdered(nFaces, p2, c2, p1, c1);
    }
  }

  /** Every slot of a lower component lies before every slot of a higher one. */
  lemma SlotOrdered(nFaces: nat, p1: nat, c1: nat, p2: nat, c2: nat)
    requires p1 < nFaces && p2 < nFaces && c1 < c2
    ensures p1 + c1 * nFaces < p2 + c2 * nFaces
  {
    assert (c1 + 1) * nFaces <= c2 * nFaces;
  }

  /** A slot index below the end belongs to a component in range. */
  lemma SlotInRange(nFaces: nat, nComp: nat, p: nat, c: nat)
    requires p < nFaces && p + c * nFaces < nComp * nFaces
    ensures c < nComp
  {
    assert (nComp - c) * nFaces > 0;
  }

  /** The face-major slot `i + j * nComp` of component `i` of the face at
      position `j`: the layout the strided loop of setVal(ivar, value)
      walks, which is not the layout the accessor reads. */
  function FaceMajorSlot(nComp: nat, nFaces: nat, i: nat, j: nat): (k: nat)
    requires i < nComp && j < nFaces
    ensures k < nFaces * nComp
  {
    SlotBelowEnd(nComp, nFaces, i, j);
    i + j * nComp
  }

  /** Distinct (component, position) pairs own distinct face-major slots. */
  lemma FaceMajorInjective(nComp: nat, nFaces: nat, i1: nat, j1: nat, i2: nat, j2: nat)
    requires i1 < nComp && j1 < nFaces && i2 < nComp && j2 < nFaces
    requires FaceMajorSlot(nComp, nFaces, i1, j1) == FaceMajorSlot(nComp, nFaces, i2, j2)
    ensures i1 == i2 && j1 == j2
  {
    if j1 < j2 {
      SlotOrdered(nComp, i1, j1, i2, j2);
    } else if j2 < j1 {
      SlotOrdered(nComp, i2, j2, i1, j1);
    }
  }

  /** A face-major slot index below the end belongs to a face in range. */
  lemma FaceMajorInRange(nComp: nat, nFaces: nat, i: nat, j: nat)
    requires i < nComp && i + j * nComp < nFaces * nComp
    ensures j < nFaces
  {
    SlotInRange(nComp, nFaces, i, j);
  }
}
