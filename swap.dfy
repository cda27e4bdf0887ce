/** A single transposition (src/swap.rs, the `Swap` half of the file). */
module Swaps {
  import opened Traits

  /** The transposition (low high). The source keeps the two fields private
      and builds every value with `New`, so low <= high always holds; a
      degenerate (x x) with low == high is the identity. `low` and `high`
      are the source's `low()` and `high()` accessors. */
  datatype Swap = Swap(low: U8, high: U8) {

    /** The storage invariant `New` establishes. */
    predicate Normalised() {
      low <= high
    }

    /** `Swap::new`: stores the two points as (min, max). */
    static function New(a: U8, b: U8): (r: Swap)
      ensures r.Normalised()
      ensures multiset{r.low, r.high} == multiset{a, b}
    {
      Swap(Min(a, b), Max(a, b))
    }

    /** Whether x is one of the two points: exactly the points whose image
        is again one of the two points. */
    predicate Contains(x: U8): (r: bool)
      ensures r <==> Apply(x) == low || Apply(x) == high
    {
      low == x || high == x
    }

    /** Whether the two transpositions share a point, which is what decides
        whether they commute. Asked from either side, the answer is the
        same. */
    predicate Overlaps(other: Swap): (r: bool)
      ensures r <==> Contains(other.low) || Contains(other.high)
    {
      other.Contains(low) || other.Contains(high)
    }

    /** `Mapping::apply`: exchanges low and high and fixes every other point. */
    function Apply(v: U8): (r: U8)
      ensures (r == low || r == high) <==> (v == low || v == high)
      ensures v != low && v != high ==> r == v
      ensures low != high && (v == low || v == high) ==> r != v
    {
      if v == low then high else if v == high then low else v
    }

    /** `Mapping::order`: the larger point. */
    function Order(): (r: U8)
      requires Normalised()
      ensures forall v: U8 :: r < v ==> Apply(v) == v
      ensures Contains(r)
    {
      high
    }
  }

  /** `new(a, b) == new(b, a)`: the argument order is forgotten. */
  lemma NewSymmetric(a: U8, b: U8)
    ensures Swap.New(a, b) == Swap.New(b, a)
  {
  }

  /** The swap built from a and b exchanges a and b, whatever their order. */
  lemma NewApply(a: U8, b: U8, v: U8)
    ensures Swap.New(a, b).Apply(v) == if v == a then b else if v == b then a else v
  {
  }

  /** A non-degenerate swap moves exactly the points it contains. */
  lemma ContainsIffMoved(s: Swap, x: U8)
    requires s.low != s.high
    ensures s.Contains(x) <==> s.Apply(x) != x
  {
  }

  /** `overlaps` holds exactly when some point is in both swaps. */
  lemma OverlapsIffSharedPoint(s: Swap, t: Swap)
    ensures s.Overlaps(t) <==> exists x: U8 :: s.Contains(x) && t.Contains(x)
  {
    if s.Overlaps(t) {
      if t.Contains(s.low) {
        assert s.Contains(s.low);
      } else {
        assert s.Contains(s.high) && t.Contains(s.high);
      }
    }
  }

  lemma OverlapsSymmetric(s: Swap, t: Swap)
    ensures s.Overlaps(t) <==> t.Overlaps(s)
  {
  }

  /** `apply` is self-inverse. */
  lemma ApplySelfInverse(s: Swap, v: U8)
    ensures s.Apply(s.Apply(v)) == v
  {
  }

  /** Swaps that do not overlap commute. */
  lemma DisjointCommute(s: Swap, t: Swap, v: U8)
    requires !s.Overlaps(t)
    ensures s.Apply(t.Apply(v)) == t.Apply(s.Apply(v))
  {
  }

  /** A swap of two positive points is a permutation whose order is its
      larger point. */
  lemma SwapContract(s: Swap)
    requires 1 <= s.low && s.Normalised()
    ensures MappingContract((v: U8) => s.Apply(v), s.Order())
  {
    var f := (v: U8) => s.Apply(v);
    forall v: U8, w: U8 | 1 <= v < w <= s.Order()
      ensures f(v) != f(w)
    {
      ApplySelfInverse(s, v);
      ApplySelfInverse(s, w);
    }
  }
}
