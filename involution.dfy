/** The older transposition type of src/involution.rs. It has the same
    storage and the same operations as `Swap`; the lemmas at the end say
    that the two agree on every input. */
module Involutions {
  import opened Traits
  import Swaps

  /** The involution (first second); `New` stores first <= second. */
  datatype Involution = Involution(first: U8, second: U8) {

    predicate Normalised() {
      first <= second
    }

    /** `Involution::new`: stores (min, max). */
    static function New(a: U8, b: U8): (r: Involution)
      ensures r.Normalised()
      ensures multiset{r.first, r.second} == multiset{a, b}
    {
      Involution(Min(a, b), Max(a, b))
    }

    /** `Mapping::apply`: exchanges the two stored points and fixes every
        other point. */
    function Apply(v: U8): (r: U8)
      ensures v == first ==> r == second
      ensures v != first && v == second ==> r == first
      ensures v != first && v != second ==> r == v
    {
      if v == first then second else if v == second then first else v
    }

    /** `Mapping::order`: the larger stored point, above which every point
        is fixed. */
    function Order(): (r: U8)
      requires Normalised()
      ensures forall v: U8 :: r < v ==> Apply(v) == v
      ensures r == Max(first, second)
    {
      second
    }

    /** The `Swap` with the same two points. */
    function AsSwap(): Swaps.Swap {
      Swaps.Swap(first, second)
    }
  }

  /** `apply` is self-inverse. */
  lemma ApplySelfInverse(p: Involution, v: U8)
    ensures p.Apply(p.Apply(v)) == v
  {
  }

  /** `new` forgets the argument order. */
  lemma NewSymmetric(a: U8, b: U8)
    ensures Involution.New(a, b) == Involution.New(b, a)
  {
  }

  /** `Involution::new` and `Swap::new` store the same two points. */
  lemma NewAgrees(a: U8, b: U8)
    ensures Involution.New(a, b).AsSwap() == Swaps.Swap.New(a, b)
  {
  }

  /** `apply` and `order` agree with the `Swap` on the same points. */
  lemma ApplyOrderAgree(p: Involution, v: U8)
    requires p.Normalised()
    ensures p.Apply(v) == p.AsSwap().Apply(v)
    ensures p.AsSwap().Normalised() && p.Order() == p.AsSwap().Order()
  {
  }

  /** An involution built from two positive points meets the mapping
      contract at its order. */
  lemma InvolutionContract(a: U8, b: U8)
    requires 1 <= a && 1 <= b
    ensures MappingContract((v: U8) => Involution.New(a, b).Apply(v), Involution.New(a, b).Order())
  {
    var p := Involution.New(a, b);
    var s := p.AsSwap();
    Swaps.SwapContract(s);
    ContractRespectsSameMapping((v: U8) => s.Apply(v), (v: U8) => p.Apply(v), s.Order());
  }
}
