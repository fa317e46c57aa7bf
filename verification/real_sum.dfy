/** Finite sums of reals, and the facts about them the normaliser's
    averaging rule rests on. */
module RealSum {

  /** Σ s. */
  function Sum(s: seq<real>): real
    decreases |s|
  {
    if s == [] then 0.0 else s[0] + Sum(s[1..])
  }

  /** Summing is monotone in every term. */
  lemma {:induction false} SumMonotone(a: seq<real>, b: seq<real>)
    requires |a| == |b|
    requires forall i :: 0 <= i < |a| ==> a[i] <= b[i]
    ensures Sum(a) <= Sum(b)
    decreases |a|
  {
    if a != [] {
      SumMonotone(a[1..], b[1..]);
    }
  }

  /** A common factor comes out of a sum. */
  lemma {:induction false} SumScale(f: real, a: seq<real>, fa: seq<real>)
    requires |fa| == |a|
    requires forall i :: 0 <= i < |a| ==> fa[i] == f * a[i]
    ensures Sum(fa) == f * Sum(a)
    decreases |a|
  {
    if a != [] {
      SumScale(f, a[1..], fa[1..]);
      assert Sum(fa) == f * a[0] + f * Sum(a[1..]);
    }
  }

  /** A sum of non-negative terms is non-negative. */
  lemma {:induction false} SumNonNegative(a: seq<real>)
    requires forall i :: 0 <= i < |a| ==> a[i] >= 0.0
    ensures Sum(a) >= 0.0
    decreases |a|
  {
    if a != [] {
      SumNonNegative(a[1..]);
    }
  }

  /** A sum of non-negative terms is at least each of its terms. */
  lemma {:induction false} SumAtLeastTerm(a: seq<real>, j: nat)
    requires j < |a|
    requires forall i :: 0 <= i < |a| ==> a[i] >= 0.0
    ensures Sum(a) >= a[j]
    decreases |a|
  {
    if j == 0 {
      SumNonNegative(a[1..]);
    } else {
      SumAtLeastTerm(a[1..], j - 1);
    }
  }

  /** The terms f · a[i]. */
  function Scaled(f: real, a: seq<real>): seq<real> {
    seq(|a|, (i: int) requires 0 <= i < |a| => f * a[i])
  }

  /** A termwise lower bound lo · a[i] <= b[i] carries over to the sums. */
  lemma SumAbove(lo: real, a: seq<real>, b: seq<real>)
    requires |a| == |b|
    requires forall i :: 0 <= i < |a| ==> lo * a[i] <= b[i]
    ensures lo * Sum(a) <= Sum(b)
  {
    SumScale(lo, a, Scaled(lo, a));
    SumMonotone(Scaled(lo, a), b);
  }

  /** A termwise upper bound b[i] <= hi · a[i] carries over to the sums. */
  lemma SumBelow(hi: real, a: seq<real>, b: seq<real>)
    requires |a| == |b|
    requires forall i :: 0 <= i < |a| ==> b[i] <= hi * a[i]
    ensures Sum(b) <= hi * Sum(a)
  {
    SumScale(hi, a, Scaled(hi, a));
    SumMonotone(b, Scaled(hi, a));
  }

  lemma ProductNonNegative(a: real, b: real)
    requires a >= 0.0 && b >= 0.0
    ensures a * b >= 0.0
  {
  }

  /** One weighted term respects the lower bound. */
  lemma TermAbove(lo: real, w: real, k: real, v: real)
    requires w >= 0.0 && lo * k <= v
    ensures lo * (w * k) <= w * v
  {
    assert w * (v - lo * k) >= 0.0;
  }

  /** One weighted term respects the upper bound. */
  lemma TermBelow(hi: real, w: real, k: real, v: real)
    requires w >= 0.0 && v <= hi * k
    ensures w * v <= hi * (w * k)
  {
    assert w * (hi * k - v) >= 0.0;
  }
}
