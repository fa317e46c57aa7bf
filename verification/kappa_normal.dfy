/** KappaSquareNormal: turns a volume-fraction-weighted cell field κ·Q back
    into Q by a weighted average over each cell's monotone-path
    neighbourhood, in place, on a range of components.  Only the class
    declaration is modelled; the averaging rule follows its documentation. */
module KappaNormal {
  import opened Base
  import opened Geometry
  import opened RealSum

  /** What the normaliser uses of an EBLevelGrid: the cells of the level, the
      volume fraction κ of each cell, the weight each cell carries in the
      average (κ itself for a κ²-normalisation, 1 for a plain volume
      average), the monotone-path radius the grid determines, and the cells
      a monotone path of a given radius reaches from a cell. */
  datatype LevelGrid = LevelGrid(
    cells: set<VolIndex>,
    volFrac: VolIndex -> real,
    weight: VolIndex -> real,
    radius: nat,
    monotonePath: (VolIndex, nat) -> seq<VolIndex>)
  {
    /** The cells within the monotone-path radius of `c`. */
    function Neighbourhood(c: VolIndex): seq<VolIndex> {
      monotonePath(c, radius)
    }

    /** Volume fractions and weights are non-negative, and every
        neighbourhood holds its own cell and stays inside the level. */
    ghost predicate WellFormed() {
      && (forall c :: c in cells ==> 0.0 <= volFrac(c) <= 1.0 && weight(c) >= 0.0)
      && (forall c :: c in cells ==> c in Neighbourhood(c))
      && (forall c, d :: c in cells && d in Neighbourhood(c) ==> d in cells)
    }
  }

  /** A LevelData<EBCellFAB>: `nComp` values in every cell it covers. */
  datatype LevelData = LevelData(nComp: nat, values: map<VolIndex, seq<real>>) {
    predicate Valid() {
      forall v :: v in values ==> |values[v]| == nComp
    }

    /** The field is defined on every cell of the grid. */
    predicate Covers(grid: LevelGrid) {
      forall c :: c in grid.cells ==> c in values
    }
  }

  /** The normaliser: bound to one level grid at construction, which fixes
      the neighbourhoods; it has no other state and no default or copy
      construction. */
  datatype KappaSquareNormal = KappaSquareNormal(levelGrid: LevelGrid)

  /** The terms weight(d) · X(d)[k] of the cells `nb`. */
  function SumTerms(grid: LevelGrid, nb: seq<VolIndex>, x: LevelData, k: nat): seq<real>
    requires x.Valid() && k < x.nComp
    requires forall d :: d in nb ==> d in x.values
  {
    seq(|nb|, (i: int) requires 0 <= i < |nb| => grid.weight(nb[i]) * x.values[nb[i]][k])
  }

  /** The terms weight(d) · κ(d) of the cells `nb`. */
  function VolumeTerms(grid: LevelGrid, nb: seq<VolIndex>): seq<real> {
    seq(|nb|, (i: int) requires 0 <= i < |nb| => grid.weight(nb[i]) * grid.volFrac(nb[i]))
  }

  /** Σ weight(d) · X(d)[k] over the cells `nb`. */
  function WeightedSum(grid: LevelGrid, nb: seq<VolIndex>, x: LevelData, k: nat): real
    requires x.Valid() && k < x.nComp
    requires forall d :: d in nb ==> d in x.values
  {
    Sum(SumTerms(grid, nb, x, k))
  }

  /** Σ weight(d) · κ(d) over the cells `nb`. */
  function WeightedVolume(grid: LevelGrid, nb: seq<VolIndex>): real {
    Sum(VolumeTerms(grid, nb))
  }

  /** The normalised value of component `k` at cell `c`: the weighted sum of
      κ·Q over the neighbourhood divided by its weighted volume. */
  function NormalizedValue(grid: LevelGrid, x: LevelData, c: VolIndex, k: nat): real
    requires x.Valid() && k < x.nComp
    requires forall d :: d in grid.Neighbourhood(c) ==> d in x.values
    requires WeightedVolume(grid, grid.Neighbourhood(c)) != 0.0
  {
    WeightedSum(grid, grid.Neighbourhood(c), x, k) / WeightedVolume(grid, grid.Neighbourhood(c))
  }

  /** Some grid cell's neighbourhood has no weighted volume to divide by. */
  predicate Degenerate(grid: LevelGrid) {
    exists c :: c in grid.cells && WeightedVolume(grid, grid.Neighbourhood(c)) == 0.0
  }

  /** The components `iv` of the in-range cell `c`, normalised. */
  function NormalizeCell(grid: LevelGrid, x: LevelData, c: VolIndex, iv: Interval): (row: seq<real>)
    requires x.Valid() && grid.WellFormed() && x.Covers(grid)
    requires c in grid.cells && 0 <= iv.begin && iv.end < x.nComp
    requires !Degenerate(grid)
    ensures |row| == x.nComp
    ensures forall k :: 0 <= k < x.nComp ==> row[k] == if iv.Has(k) then NormalizedValue(grid, x, c, k) else x.values[c][k]
  {
    seq(x.nComp, (k: int) requires 0 <= k < x.nComp =>
      if iv.Has(k) then NormalizedValue(grid, x, c, k) else x.values[c][k])
  }

  /** operator()(a_Q, a_compInterval): normalise components `iv` of every
      cell of the level; all other components, and cells outside the
      level, are left alone.  A zero weighted volume is a fault. */
  function Normalize(op: KappaSquareNormal, q: LevelData, iv: Interval): (r: Result<LevelData>)
    requires q.Valid() && op.levelGrid.WellFormed() && q.Covers(op.levelGrid)
    requires iv.Size() <= 0 || (0 <= iv.begin && iv.end < q.nComp)
    ensures r.Ok? <==> iv.Size() <= 0 || !Degenerate(op.levelGrid)
    ensures r.Fail? ==> r.fault == DegenerateNeighbourhood
    ensures r.Ok? ==> r.value.Valid() && r.value.nComp == q.nComp && r.value.values.Keys == q.values.Keys
    ensures r.Ok? ==> forall v, k :: v in q.values && 0 <= k < q.nComp && !(v in op.levelGrid.cells && iv.Has(k)) ==>
      r.value.values[v][k] == q.values[v][k]
    ensures r.Ok? ==> forall c, k :: c in op.levelGrid.cells && iv.Has(k) ==>
      0 <= k < q.nComp && !Degenerate(op.levelGrid) && r.value.values[c][k] == NormalizedValue(op.levelGrid, q, c, k)
  {
    var grid := op.levelGrid;
    if iv.Size() <= 0 then Ok(q)
    else if Degenerate(grid) then Fail(DegenerateNeighbourhood)
    else Ok(NormalizedData(grid, q, iv))
  }

  /** Every cell of the level normalised, every other cell as it was. */
  function NormalizedData(grid: LevelGrid, q: LevelData, iv: Interval): (d: LevelData)
    requires q.Valid() && grid.WellFormed() && q.Covers(grid)
    requires 0 <= iv.begin && iv.end < q.nComp && !Degenerate(grid)
    ensures d.Valid() && d.nComp == q.nComp && d.values.Keys == q.values.Keys
    ensures forall v :: v in q.values && v !in grid.cells ==> d.values[v] == q.values[v]
    ensures forall c :: c in grid.cells ==> d.values[c] == NormalizeCell(grid, q, c, iv)
  {
    LevelData(q.nComp, map v | v in q.values :: if v in grid.cells then NormalizeCell(grid, q, v, iv) else q.values[v])
  }

  /** operator()(a_Q): every component of every cell of the level. */
  function NormalizeAll(op: KappaSquareNormal, q: LevelData): (r: Result<LevelData>)
    requires q.Valid() && op.levelGrid.WellFormed() && q.Covers(op.levelGrid)
    ensures r.Ok? <==> q.nComp == 0 || !Degenerate(op.levelGrid)
    ensures r.Ok? ==> r.value.Valid() && r.value.nComp == q.nComp && r.value.values.Keys == q.values.Keys
    ensures r.Ok? ==> forall v :: v in q.values && v !in op.levelGrid.cells ==> r.value.values[v] == q.values[v]
    ensures r.Ok? ==> forall c, k :: c in op.levelGrid.cells && 0 <= k < q.nComp ==>
      !Degenerate(op.levelGrid) && r.value.values[c][k] == NormalizedValue(op.levelGrid, q, c, k)
  {
    var r := Normalize(op, q, Interval(0, q.nComp - 1));
    assert r.Ok? ==> forall v :: v in q.values && v !in op.levelGrid.cells ==> r.value.values[v] == q.values[v] by {
      if r.Ok? {
        forall v | v in q.values && v !in op.levelGrid.cells
          ensures r.value.values[v] == q.values[v]
        {
          assert |r.value.values[v]| == |q.values[v]|;
        }
      }
    }
    r
  }

  /** The weighted volume of cells with non-negative weights and fractions
      is non-negative. */
  lemma VolumeNonNegative(grid: LevelGrid, nb: seq<VolIndex>)
    requires forall d :: d in nb ==> grid.weight(d) >= 0.0 && grid.volFrac(d) >= 0.0
    ensures WeightedVolume(grid, nb) >= 0.0
  {
    var vt := VolumeTerms(grid, nb);
    forall i | 0 <= i < |vt|
      ensures vt[i] >= 0.0
    {
      assert nb[i] in nb;
      ProductNonNegative(grid.weight(nb[i]), grid.volFrac(nb[i]));
    }
    SumNonNegative(vt);
  }

  /** Each listed cell contributes its own weighted volume at least. */
  lemma VolumeAtLeastMember(grid: LevelGrid, nb: seq<VolIndex>, d: VolIndex)
    requires d in nb
    requires forall e :: e in nb ==> grid.weight(e) >= 0.0 && grid.volFrac(e) >= 0.0
    ensures WeightedVolume(grid, nb) >= grid.weight(d) * grid.volFrac(d)
  {
    var vt := VolumeTerms(grid, nb);
    forall i | 0 <= i < |vt|
      ensures vt[i] >= 0.0
    {
      assert nb[i] in nb;
      ProductNonNegative(grid.weight(nb[i]), grid.volFrac(nb[i]));
    }
    var j :| 0 <= j < |nb| && nb[j] == d;
    SumAtLeastTerm(vt, j);
  }

  /** If every κ·Q value is at least lo·κ, the weighted sum is at least lo
      times the weighted volume. */
  lemma WeightedSumAbove(grid: LevelGrid, nb: seq<VolIndex>, x: LevelData, k: nat, lo: real)
    requires x.Valid() && k < x.nComp
    requires forall d :: d in nb ==> d in x.values
    requires forall d :: d in nb ==> grid.weight(d) >= 0.0 && lo * grid.volFrac(d) <= x.values[d][k]
    ensures lo * WeightedVolume(grid, nb) <= WeightedSum(grid, nb, x, k)
  {
    TermsAbove(grid, nb, x, k, lo);
    SumAbove(lo, VolumeTerms(grid, nb), SumTerms(grid, nb, x, k));
  }

  /** If every κ·Q value is at most hi·κ, the weighted sum is at most hi
      times the weighted volume. */
  lemma WeightedSumBelow(grid: LevelGrid, nb: seq<VolIndex>, x: LevelData, k: nat, hi: real)
    requires x.Valid() && k < x.nComp
    requires forall d :: d in nb ==> d in x.values
    requires forall d :: d in nb ==> grid.weight(d) >= 0.0 && x.values[d][k] <= hi * grid.volFrac(d)
    ensures WeightedSum(grid, nb, x, k) <= hi * WeightedVolume(grid, nb)
  {
    TermsBelow(grid, nb, x, k, hi);
    SumBelow(hi, VolumeTerms(grid, nb), SumTerms(grid, nb, x, k));
  }

  /** The lower bound of WeightedSumAbove, term by term. */
  lemma TermsAbove(grid: LevelGrid, nb: seq<VolIndex>, x: LevelData, k: nat, lo: real)
    requires x.Valid() && k < x.nComp
    requires forall d :: d in nb ==> d in x.values
    requires forall d :: d in nb ==> grid.weight(d) >= 0.0 && lo * grid.volFrac(d) <= x.values[d][k]
    ensures forall i :: 0 <= i < |nb| ==> lo * VolumeTerms(grid, nb)[i] <= SumTerms(grid, nb, x, k)[i]
  {
    forall i | 0 <= i < |nb|
      ensures lo * VolumeTerms(grid, nb)[i] <= SumTerms(grid, nb, x, k)[i]
    {
      assert nb[i] in nb;
      TermAbove(lo, grid.weight(nb[i]), grid.volFrac(nb[i]), x.values[nb[i]][k]);
    }
  }

  /** The upper bound of WeightedSumBelow, term by term. */
  lemma TermsBelow(grid: LevelGrid, nb: seq<VolIndex>, x: LevelData, k: nat, hi: real)
    requires x.Valid() && k < x.nComp
    requires forall d :: d in nb ==> d in x.values
    requires forall d :: d in nb ==> grid.weight(d) >= 0.0 && x.values[d][k] <= hi * grid.volFrac(d)
    ensures forall i :: 0 <= i < |nb| ==> SumTerms(grid, nb, x, k)[i] <= hi * VolumeTerms(grid, nb)[i]
  {
    forall i | 0 <= i < |nb|
      ensures SumTerms(grid, nb, x, k)[i] <= hi * VolumeTerms(grid, nb)[i]
    {
      assert nb[i] in nb;
      TermBelow(hi, grid.weight(nb[i]), grid.volFrac(nb[i]), x.values[nb[i]][k]);
    }
  }

  /** Dividing bounds by a positive quantity. */
  lemma QuotientBetween(lo: real, hi: real, s: real, v: real)
    requires v > 0.0 && lo * v <= s <= hi * v
    ensures lo <= s / v <= hi
  {
    var q := s / v;
    assert q * v == s;
    assert (q - lo) * v >= 0.0;
    assert (hi - q) * v >= 0.0;
  }

  /** The neighbourhood of a level cell has positive weighted volume once
      the normalisation succeeds. */
  lemma NeighbourhoodVolumePositive(grid: LevelGrid, c: VolIndex)
    requires grid.WellFormed() && c in grid.cells && !Degenerate(grid)
    ensures WeightedVolume(grid, grid.Neighbourhood(c)) > 0.0
  {
    VolumeNonNegative(grid, grid.Neighbourhood(c));
  }

  /** A maximum principle: where κ·Q lies between lo·κ and hi·κ over the
      whole neighbourhood of a cell, the normalised value lies between lo
      and hi. */
  lemma NormalizeBounded(op: KappaSquareNormal, q: LevelData, iv: Interval, c: VolIndex, k: nat, lo: real, hi: real)
    requires q.Valid() && op.levelGrid.WellFormed() && q.Covers(op.levelGrid)
    requires iv.Size() <= 0 || (0 <= iv.begin && iv.end < q.nComp)
    requires Normalize(op, q, iv).Ok?
    requires c in op.levelGrid.cells && iv.Has(k)
    requires forall d :: d in op.levelGrid.Neighbourhood(c) ==>
      lo * op.levelGrid.volFrac(d) <= q.values[d][k] <= hi * op.levelGrid.volFrac(d)
    ensures lo <= Normalize(op, q, iv).value.values[c][k] <= hi
  {
    NormalizedValueBounded(op.levelGrid, q, c, k, lo, hi);
  }

  /** The bound of NormalizeBounded, stated on the averaging rule itself. */
  lemma NormalizedValueBounded(grid: LevelGrid, q: LevelData, c: VolIndex, k: nat, lo: real, hi: real)
    requires q.Valid() && grid.WellFormed() && q.Covers(grid)
    requires c in grid.cells && k < q.nComp && !Degenerate(grid)
    requires forall d :: d in grid.Neighbourhood(c) ==> lo * grid.volFrac(d) <= q.values[d][k] <= hi * grid.volFrac(d)
    ensures lo <= NormalizedValue(grid, q, c, k) <= hi
  {
    var nb := grid.Neighbourhood(c);
    NeighbourhoodVolumePositive(grid, c);
    WeightedSumAbove(grid, nb, q, k, lo);
    WeightedSumBelow(grid, nb, q, k, hi);
    QuotientBetween(lo, hi, WeightedSum(grid, nb, q, k), WeightedVolume(grid, nb));
  }

  /** Given κ·Q of a field Q that is constant over a cell's neighbourhood,
      normalising yields that constant at the cell. */
  lemma NormalizeConstant(op: KappaSquareNormal, q: LevelData, iv: Interval, c: VolIndex, k: nat, value: real)
    requires q.Valid() && op.levelGrid.WellFormed() && q.Covers(op.levelGrid)
    requires iv.Size() <= 0 || (0 <= iv.begin && iv.end < q.nComp)
    requires Normalize(op, q, iv).Ok?
    requires c in op.levelGrid.cells && iv.Has(k)
    requires forall d :: d in op.levelGrid.Neighbourhood(c) ==> q.values[d][k] == op.levelGrid.volFrac(d) * value
    ensures Normalize(op, q, iv).value.values[c][k] == value
  {
    NormalizeBounded(op, q, iv, c, k, value, value);
  }

  /** Strictly positive volume fractions and weights throughout the level
      make every normalisation succeed. */
  lemma PositiveFractionsNormalize(op: KappaSquareNormal, q: LevelData, iv: Interval)
    requires q.Valid() && op.levelGrid.WellFormed() && q.Covers(op.levelGrid)
    requires iv.Size() <= 0 || (0 <= iv.begin && iv.end < q.nComp)
    requires forall c :: c in op.levelGrid.cells ==> op.levelGrid.volFrac(c) > 0.0 && op.levelGrid.weight(c) > 0.0
    ensures Normalize(op, q, iv).Ok?
  {
    var grid := op.levelGrid;
    forall c | c in grid.cells
      ensures WeightedVolume(grid, grid.Neighbourhood(c)) > 0.0
    {
      VolumeAtLeastMember(grid, grid.Neighbourhood(c), c);
      assert grid.weight(c) * grid.volFrac(c) > 0.0;
    }
  }

  /** The weighted sum of component `k` reads component `k` only. */
  lemma WeightedSumAgree(grid: LevelGrid, nb: seq<VolIndex>, x: LevelData, y: LevelData, k: nat)
    requires x.Valid() && y.Valid() && k < x.nComp && k < y.nComp
    requires forall d :: d in nb ==> d in x.values && d in y.values && x.values[d][k] == y.values[d][k]
    ensures WeightedSum(grid, nb, x, k) == WeightedSum(grid, nb, y, k)
  {
    forall i | 0 <= i < |nb|
      ensures SumTerms(grid, nb, x, k)[i] == SumTerms(grid, nb, y, k)[i]
    {
      assert nb[i] in nb;
    }
    assert SumTerms(grid, nb, x, k) == SumTerms(grid, nb, y, k);
  }

  /** Normalising components a..b and then b+1..c in place is normalising
      a..c at once: each component is averaged from its own values only. */
  lemma NormalizeSplit(op: KappaSquareNormal, q: LevelData, a: int, b: int, c: int)
    requires q.Valid() && op.levelGrid.WellFormed() && q.Covers(op.levelGrid)
    requires 0 <= a <= b < c < q.nComp
    requires !Degenerate(op.levelGrid)
    ensures Normalize(op, q, Interval(a, b)).Ok?
    ensures Normalize(op, Normalize(op, q, Interval(a, b)).value, Interval(b + 1, c)) == Normalize(op, q, Interval(a, c))
  {
    var grid := op.levelGrid;
    var r1 := Normalize(op, q, Interval(a, b)).value;
    var r2 := Normalize(op, r1, Interval(b + 1, c)).value;
    var r := Normalize(op, q, Interval(a, c)).value;
    forall v | v in q.values
      ensures r2.values[v] == r.values[v]
    {
      forall k | 0 <= k < q.nComp
        ensures r2.values[v][k] == r.values[v][k]
      {
        if v in grid.cells && b + 1 <= k <= c {
          SecondPassReadsInput(op, q, a, b, c, v, k);
        }
      }
    }
    assert r2.values == r.values;
  }

  /** In the second pass of NormalizeSplit, component k still holds the
      input's values, so its average is the input's average. */
  lemma SecondPassReadsInput(op: KappaSquareNormal, q: LevelData, a: int, b: int, c: int, v: VolIndex, k: nat)
    requires q.Valid() && op.levelGrid.WellFormed() && q.Covers(op.levelGrid)
    requires 0 <= a <= b < c < q.nComp
    requires !Degenerate(op.levelGrid)
    requires v in op.levelGrid.cells && b + 1 <= k <= c
    ensures Normalize(op, q, Interval(a, b)).Ok?
    ensures NormalizedValue(op.levelGrid, Normalize(op, q, Interval(a, b)).value, v, k) == NormalizedValue(op.levelGrid, q, v, k)
  {
    var grid := op.levelGrid;
    var r1 := Normalize(op, q, Interval(a, b)).value;
    WeightedSumAgree(grid, grid.Neighbourhood(v), r1, q, k);
  }
}
