/** The contract every permutation representation of the library meets
    (`Mapping`, `Composable`, `Identity` in src/traits.rs).

    Points and orders are single bytes. A representation's `apply` is
    modelled as a partial function that is defined at least on every point
    v >= 1 (v == 0 may fail), and its `order` is the n of S_n. */
module Traits {

  /** An unsigned byte: the type of every point and every order. */
  type U8 = x: int | 0 <= x < 256

  datatype Option<T> = None | Some(value: T)

  function Max(a: U8, b: U8): (r: U8)
    ensures a <= r && b <= r && (r == a || r == b)
  {
    if a < b then b else a
  }

  function Min(a: U8, b: U8): (r: U8)
    ensures r <= a && r <= b && (r == a || r == b)
  {
    if a < b then a else b
  }

  /** `f` is the `apply` of a permutation of {1..n} and `n` its `order`:
      defined for every v >= 1, fixing every point above n, sending
      {1..n} into {1..n} and never sending two points of {1..n} to the
      same image. */
  ghost predicate MappingContract(f: U8 --> U8, n: U8): (r: bool)
    ensures r ==> forall v: U8 :: 1 <= v ==> f.requires(v) && 1 <= f(v)
    ensures r ==> forall v: U8, w: U8 :: 1 <= v < w ==> f.requires(v) && f.requires(w) && f(v) != f(w)
  {
    && (forall v: U8 :: 1 <= v ==> f.requires(v))
    && (forall v: U8 :: n < v ==> f(v) == v)
    && (forall v: U8 :: 1 <= v <= n ==> 1 <= f(v) <= n)
    && (forall v: U8, w: U8 :: 1 <= v < w <= n ==> f(v) != f(w))
  }

  /** `Composable::compose`: self on the left, so `right` acts first. */
  function Then(left: U8 --> U8, right: U8 --> U8): (r: U8 --> U8)
    ensures forall v: U8 :: right.requires(v) && left.requires(right(v))
                            ==> r.requires(v) && r(v) == left(right(v))
  {
    (v: U8) requires right.requires(v) && left.requires(right(v)) => left(right(v))
  }

  /** Two applies that agree on every point v >= 1. */
  ghost predicate SameMapping(f: U8 --> U8, g: U8 --> U8) {
    forall v: U8 :: 1 <= v ==> f.requires(v) && g.requires(v) && f(v) == g(v)
  }

  /** The contract speaks only of points v >= 1, so two applies that agree
      there meet it for the same order. */
  lemma ContractRespectsSameMapping(f: U8 --> U8, g: U8 --> U8, n: U8)
    requires SameMapping(f, g) && MappingContract(f, n)
    ensures MappingContract(g, n)
  {
    forall v: U8, w: U8 | 1 <= v < w <= n
      ensures g(v) != g(w)
    {
      assert f(v) != f(w);
    }
  }

  /** The composite of two permutations is a permutation whose order is
      the larger of the two orders. */
  lemma {:induction false} ContractThen(f: U8 --> U8, n: U8, g: U8 --> U8, m: U8)
    requires MappingContract(f, n) && MappingContract(g, m)
    ensures MappingContract(Then(f, g), Max(n, m))
  {
    var h := Then(f, g);
    var k := Max(n, m);
    forall v: U8 | 1 <= v
      ensures g.requires(v) && 1 <= g(v) && f.requires(g(v)) && h.requires(v)
    {
      if v <= m {
        assert 1 <= g(v) <= m;
      } else {
        assert g(v) == v;
      }
    }
    forall v: U8 | k < v
      ensures h(v) == v
    {
      assert g(v) == v;
      assert f(v) == v;
    }
    forall v: U8 | 1 <= v <= k
      ensures 1 <= h(v) <= k
    {
      if v <= m {
        assert 1 <= g(v) <= m;
        if g(v) <= n {
          assert 1 <= f(g(v)) <= n;
        } else {
          assert f(g(v)) == g(v);
        }
      } else {
        assert g(v) == v;
        assert v <= n;
        assert 1 <= f(v) <= n;
      }
    }
    forall v: U8, w: U8 | 1 <= v < w <= k
      ensures h(v) != h(w)
    {
      GInjective(g, m, v, w);
      FInjective(f, n, g(v), g(w));
    }
  }

  /** A permutation with the contract is injective on every point v >= 1,
      not only on {1..n}. */
  lemma FInjective(f: U8 --> U8, n: U8, v: U8, w: U8)
    requires MappingContract(f, n)
    requires 1 <= v && 1 <= w && v != w
    ensures f(v) != f(w)
  {
    if v <= n && w <= n {
      if v < w { assert f(v) != f(w); } else { assert f(w) != f(v); }
    } else if v <= n {
      assert 1 <= f(v) <= n && f(w) == w;
    } else if w <= n {
      assert 1 <= f(w) <= n && f(v) == v;
    }
  }

  lemma GInjective(g: U8 --> U8, m: U8, v: U8, w: U8)
    requires MappingContract(g, m)
    requires 1 <= v && 1 <= w && v != w
    ensures g(v) != g(w) && 1 <= g(v) && 1 <= g(w)
  {
    FInjective(g, m, v, w);
    if v <= m { assert 1 <= g(v); } else { assert g(v) == v; }
    if w <= m { assert 1 <= g(w); } else { assert g(w) == w; }
  }

  /** The points {1..k}. */
  ghost function Points(k: U8): set<U8> {
    if k == 0 then {} else Points(k - 1) + {k}
  }

  /** The images of the points {1..k}. */
  ghost function Image(f: U8 --> U8, k: U8): set<U8>
    requires forall v: U8 :: 1 <= v ==> f.requires(v)
  {
    if k == 0 then {} else Image(f, k - 1) + {f(k)}
  }

  lemma {:induction false} PointsSize(k: U8)
    ensures |Points(k)| == k
    ensures forall w: U8 :: w in Points(k) <==> 1 <= w <= k
  {
    if k > 0 {
      PointsSize(k - 1);
    }
  }

  lemma {:induction false} ImageSize(f: U8 --> U8, n: U8, k: U8)
    requires MappingContract(f, n) && k <= n
    ensures |Image(f, k)| == k
    ensures forall w: U8 :: w in Image(f, k) ==> 1 <= w <= n
    ensures forall w: U8 :: w in Image(f, k) ==> exists v: U8 :: 1 <= v <= k && f(v) == w
  {
    if k > 0 {
      ImageSize(f, n, k - 1);
      forall v: U8 | 1 <= v <= k - 1
        ensures f(v) != f(k)
      {
        assert v < k;
      }
    }
  }

  /** `order()` is the n of S_n: on {1..n} the contract's `apply` is onto
      {1..n}, so it is a bijection of {1..n}. */
  lemma ContractOnto(f: U8 --> U8, n: U8, w: U8)
    requires MappingContract(f, n) && 1 <= w <= n
    ensures exists v: U8 :: 1 <= v <= n && f(v) == w
  {
    ImageSize(f, n, n);
    PointsSize(n);
    var img, pts := Image(f, n), Points(n);
    assert img <= pts;
    assert |pts - img| == |pts| - |img|;
    assert pts - img == {};
    assert w in pts;
  }
}
