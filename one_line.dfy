/** The dense one-line representation (src/one_line.rs, together with the
    `identity`, `new`, `validate`, `compose_swap_right` and
    `from_involutions` operations that src/swap.rs and the tests in
    src/lib.rs call).

    Convention: slot v-1 holds the image of point v, for v in [1, order()];
    every point above order() is fixed. The tests in src/lib.rs pin this
    convention down; src/one_line.rs as it stands is out of step with it:
    - line 8 indexes slot v (`self.0[v as usize]`), not slot v-1
      (see ApplyAsWritten and its counterexample lemma);
    - line 17 allocates a buffer of capacity `ord` but length 0
      (`Vec::with_capacity(..).into_boxed_slice()`), so the loop at line 18
      fills nothing and compose always returns the empty permutation
      (see OneLine.ComposeAsWritten);
    - line 6 implements a trait `Permutation` that src/traits.rs does not
      declare (its members are those of `Mapping` plus `Composable::compose`);
    - line 3 derives only `Debug`, yet the tests compare one-lines with
      `assert_eq`; here two one-lines are equal when their slots are. */
module OneLines {
  import opened Traits
  import opened Swaps

  /** `order()`: the number of slots, as a byte (`len() as u8` truncates). */
  function OrderOf(slots: seq<U8>): (r: U8)
    ensures r <= |slots|
    ensures |slots| < 256 ==> r == |slots|
  {
    |slots| % 256
  }

  /** `apply(v)` for v >= 1: slot v-1 up to the order, v itself above it. */
  function ApplyTo(slots: seq<U8>, v: U8): (r: U8)
    requires 1 <= v
    ensures OrderOf(slots) < v ==> r == v
    ensures NoZero(slots) ==> 1 <= r
  {
    if v <= OrderOf(slots) then slots[v - 1] else v
  }

  /** The one-line's `apply` as a mapping. */
  function AsMapping(slots: seq<U8>): U8 --> U8 {
    (v: U8) requires 1 <= v => ApplyTo(slots, v)
  }

  /** What `validate` accepts: no slot is 0 or exceeds the order, and no
      value repeats. */
  predicate ValidSlots(slots: seq<U8>) {
    && (forall i :: 0 <= i < |slots| ==> 1 <= slots[i] <= OrderOf(slots))
    && (forall i, j :: 0 <= i < j < |slots| ==> slots[i] != slots[j])
  }

  /** No slot holds 0, so `apply` never returns 0 for a point v >= 1. */
  predicate NoZero(slots: seq<U8>) {
    forall i :: 0 <= i < |slots| ==> 1 <= slots[i]
  }

  /** `identity(n)`: the slots 1, 2, ..., n. */
  function IdentitySlots(n: U8): seq<U8> {
    seq(n, (i: int) requires 0 <= i < n => (i + 1) as U8)
  }

  /** The one-line of a single swap: slot i holds the swap's image of i+1. */
  function SwapLine(s: Swap): seq<U8> {
    seq(s.high, (i: int) requires 0 <= i < s.high => s.Apply((i + 1) as U8))
  }

  /** `compose(self, right)`: max(order) slots, slot i holding
      self.apply(right.apply(i+1)). `right` may hold no 0, because `apply`
      is undefined there. */
  function ComposeSlots(left: seq<U8>, right: seq<U8>): (r: seq<U8>)
    requires NoZero(right)
    ensures |r| == Max(OrderOf(left), OrderOf(right))
    ensures NoZero(left) ==> NoZero(r)
  {
    var n := Max(OrderOf(left), OrderOf(right));
    seq(n, (i: int) requires 0 <= i < n => ApplyTo(left, ApplyTo(right, (i + 1) as U8)))
  }

  /** `from_involutions(l, r)`: max(l.high, r.high) slots, slot i holding
      l.apply(r.apply(i+1)). */
  function FromInvolutionsSlots(l: Swap, r: Swap): seq<U8> {
    var n := Max(l.high, r.high);
    seq(n, (i: int) requires 0 <= i < n => l.Apply(r.Apply((i + 1) as U8)))
  }

  /** The rotation x -> (x + j - 1) % n + 1 used by the `apply` test; the
      byte arithmetic does not overflow when n + j <= 255. */
  function RotationSlots(n: U8, j: U8): seq<U8>
    requires n + j <= 255
  {
    seq(n, (k: int) requires 0 <= k < n => ((k + 1 + j - 1) % n + 1) as U8)
  }

  // ---------------------------------------------------------------------
  // Properties of the specification

  /** `Composable::compose` puts self on the left:
      compose(l, r).apply(v) == l.apply(r.apply(v)) for every v >= 1. */
  lemma ComposeApply(left: seq<U8>, right: seq<U8>, v: U8)
    requires NoZero(right) && 1 <= v
    ensures ApplyTo(ComposeSlots(left, right), v) == ApplyTo(left, ApplyTo(right, v))
  {
    var c := ComposeSlots(left, right);
    if v > |c| {
      assert ApplyTo(right, v) == v;
    }
  }

  /** The one-line of a swap applies exactly as the swap does. */
  lemma SwapLineApply(s: Swap, v: U8)
    requires s.Normalised() && 1 <= v
    ensures ApplyTo(SwapLine(s), v) == s.Apply(v)
    ensures 1 <= s.low ==> NoZero(SwapLine(s))
  {
  }

  /** `identity(n)` passes `validate` and fixes every point, n == 0 included. */
  lemma IdentityLaw(n: U8)
    ensures |IdentitySlots(n)| == n
    ensures ValidSlots(IdentitySlots(n))
    ensures forall v: U8 :: 1 <= v ==> ApplyTo(IdentitySlots(n), v) == v
  {
  }

  /** Two one-lines of the same length (at most 255) that apply alike on
      every point are the same slots. */
  lemma SlotsDetermined(a: seq<U8>, b: seq<U8>)
    requires |a| == |b| <= 255
    requires forall v: U8 :: 1 <= v ==> ApplyTo(a, v) == ApplyTo(b, v)
    ensures a == b
  {
    forall i | 0 <= i < |a|
      ensures a[i] == b[i]
    {
      assert ApplyTo(a, (i + 1) as U8) == ApplyTo(b, (i + 1) as U8);
    }
  }

  /** `validate` accepts exactly the one-lines whose `apply` meets the
      mapping contract with `order()` as n. */
  lemma ValidIffContract(slots: seq<U8>)
    requires |slots| <= 255
    ensures ValidSlots(slots) <==> MappingContract(AsMapping(slots), OrderOf(slots))
  {
    if ValidSlots(slots) {
      ValidMeetsContract(slots);
    }
    if MappingContract(AsMapping(slots), OrderOf(slots)) {
      ContractMeansValid(slots);
    }
  }

  lemma ValidMeetsContract(slots: seq<U8>)
    requires |slots| <= 255 && ValidSlots(slots)
    ensures MappingContract(AsMapping(slots), OrderOf(slots))
  {
    var f := AsMapping(slots);
    forall v: U8, w: U8 | 1 <= v < w <= OrderOf(slots)
      ensures f(v) != f(w)
    {
      assert slots[v - 1] != slots[w - 1];
    }
  }

  lemma ContractMeansValid(slots: seq<U8>)
    requires |slots| <= 255 && MappingContract(AsMapping(slots), OrderOf(slots))
    ensures ValidSlots(slots)
  {
    var f := AsMapping(slots);
    forall i | 0 <= i < |slots|
      ensures 1 <= slots[i] <= OrderOf(slots)
    {
      assert f((i + 1) as U8) == slots[i];
    }
    forall i, j | 0 <= i < j < |slots|
      ensures slots[i] != slots[j]
    {
      assert f((i + 1) as U8) == slots[i] && f((j + 1) as U8) == slots[j];
    }
  }

  /** A valid one-line's `apply` never returns 0 and never sends two
      points to one image. */
  lemma ValidApplyInjective(slots: seq<U8>, v: U8, w: U8)
    requires |slots| <= 255 && ValidSlots(slots) && 1 <= v && 1 <= w
    ensures 1 <= ApplyTo(slots, v)
    ensures v != w ==> ApplyTo(slots, v) != ApplyTo(slots, w)
  {
    var n := |slots|;
    if v <= n && w <= n && v != w {
      assert slots[v - 1] != slots[w - 1] by {
        if v < w { assert v - 1 < w - 1; } else { assert w - 1 < v - 1; }
      }
    }
  }

  /** The composite of two valid one-lines is valid: results of `compose`
      need not be validated again. */
  lemma ComposeValid(left: seq<U8>, right: seq<U8>)
    requires |left| <= 255 && |right| <= 255
    requires ValidSlots(left) && ValidSlots(right)
    ensures NoZero(right) && ValidSlots(ComposeSlots(left, right))
  {
    assert NoZero(right);
    var c := ComposeSlots(left, right);
    forall i | 0 <= i < |c|
      ensures 1 <= c[i] <= OrderOf(c)
    {
      var x := ApplyTo(right, (i + 1) as U8);
      ValidApplyInjective(right, (i + 1) as U8, (i + 1) as U8);
      assert x <= |c|;
      ValidApplyInjective(left, x, x);
    }
    forall i, j | 0 <= i < j < |c|
      ensures c[i] != c[j]
    {
      var x, y := ApplyTo(right, (i + 1) as U8), ApplyTo(right, (j + 1) as U8);
      ValidApplyInjective(right, (i + 1) as U8, (j + 1) as U8);
      ValidApplyInjective(left, x, y);
    }
  }

  /** Exchanging the slots low-1 and high-1 in place is the generic
      composition with the swap's one-line: the fast path of
      `compose_swap_right` and the bulk path agree. */
  lemma SwapInPlaceIsCompose(p: seq<U8>, s: Swap)
    requires 1 <= s.low && s.Normalised() && s.high <= |p| <= 255
    ensures NoZero(SwapLine(s))
    ensures ComposeSlots(p, SwapLine(s)) == p[s.low - 1 := p[s.high - 1]][s.high - 1 := p[s.low - 1]]
  {
    SwapLineApply(s, 1);
    var c := ComposeSlots(p, SwapLine(s));
    var q := p[s.low - 1 := p[s.high - 1]][s.high - 1 := p[s.low - 1]];
    forall k | 0 <= k < |p|
      ensures c[k] == q[k]
    {
      SwapLineApply(s, (k + 1) as U8);
    }
  }

  /** `from_involutions(l, r)` is l composed with r. */
  lemma FromInvolutionsApply(l: Swap, r: Swap, v: U8)
    requires l.Normalised() && r.Normalised() && 1 <= v
    ensures ApplyTo(FromInvolutionsSlots(l, r), v) == l.Apply(r.Apply(v))
  {
  }

  /** ... and equals the generic composition of the two swaps' one-lines. */
  lemma FromInvolutionsIsCompose(l: Swap, r: Swap)
    requires 1 <= l.low && l.Normalised() && 1 <= r.low && r.Normalised()
    ensures NoZero(SwapLine(r))
    ensures FromInvolutionsSlots(l, r) == ComposeSlots(SwapLine(l), SwapLine(r))
  {
    SwapLineApply(r, 1);
    var a, b := FromInvolutionsSlots(l, r), ComposeSlots(SwapLine(l), SwapLine(r));
    assert OrderOf(SwapLine(l)) == l.high && OrderOf(SwapLine(r)) == r.high;
    forall i | 0 <= i < |a|
      ensures a[i] == b[i]
    {
      var v := (i + 1) as U8;
      SwapLineApply(r, v);
      SwapLineApply(l, r.Apply(v));
    }
  }

  /** The cases checked by the `from_involutions` test. */
  lemma FromInvolutionsExamples()
    ensures FromInvolutionsSlots(Swap.New(1, 2), Swap.New(2, 3)) == [2, 3, 1]
    ensures FromInvolutionsSlots(Swap.New(1, 2), Swap.New(1, 3)) == [3, 1, 2]
    ensures FromInvolutionsSlots(Swap.New(1, 3), Swap.New(1, 3)) == IdentitySlots(3)
  {
    assert FromInvolutionsSlots(Swap.New(1, 2), Swap.New(2, 3))[0] == 2;
    assert FromInvolutionsSlots(Swap.New(1, 2), Swap.New(1, 3))[0] == 3;
    assert FromInvolutionsSlots(Swap.New(1, 3), Swap.New(1, 3))[0] == 1;
  }

  /** Euclidean division has one quotient: a multiple of n strictly
      between -n and n is 0. */
  lemma MulZero(d: int, n: int)
    requires 0 < n && -n < d * n < n
    ensures d == 0
  {
  }

  lemma ModUnique(x: int, n: int, q: int, r: int)
    requires 0 < n && 0 <= r < n && x == q * n + r
    ensures x % n == r
  {
    var q', r' := x / n, x % n;
    assert (q - q') * n == r' - r;
    MulZero(q - q', n);
  }

  /** Shifting a residue a < n by j lands on a + j % n, wrapped once. */
  lemma ShiftedMod(a: int, j: int, n: int)
    requires 0 <= a < n && 0 <= j
    ensures (a + j) % n == if a + j % n < n then a + j % n else a + j % n - n
  {
    var q, r := j / n, j % n;
    if a + r < n {
      ModUnique(a + j, n, q, a + r);
    } else {
      assert (q + 1) * n == q * n + n;
      ModUnique(a + j, n, q + 1, a + r - n);
    }
  }

  /** The rotation of the `apply` test passes `validate`, and `apply(x)`
      returns exactly (x + j - 1) % n + 1. */
  lemma RotationLaw(n: U8, j: U8)
    requires n + j <= 255
    ensures ValidSlots(RotationSlots(n, j))
    ensures forall x: U8 :: 1 <= x <= n ==> ApplyTo(RotationSlots(n, j), x) == (x + j - 1) % n + 1
  {
    var r := RotationSlots(n, j);
    forall a, b | 0 <= a < b < |r|
      ensures r[a] != r[b]
    {
      ShiftedMod(a, j, n);
      ShiftedMod(b, j, n);
    }
  }

  // ---------------------------------------------------------------------
  // src/one_line.rs as written

  /** `apply` as written at src/one_line.rs:8: slot v, with None for the
      out-of-bounds panic that hits v == order(). */
  function ApplyAsWritten(slots: seq<U8>, v: U8): (r: Option<U8>)
    ensures r.None? <==> |slots| <= v
  {
    if v < |slots| then Some(slots[v]) else None
  }

  /** On identity(3) the written `apply` sends 1 to 2 and panics on 3, where
      the identity test expects 1 and 3. */
  lemma ApplyAsWrittenCounterexample()
    ensures ApplyAsWritten(IdentitySlots(3), 1) == Some(2)
    ensures ApplyAsWritten(IdentitySlots(3), 3) == None
    ensures ApplyTo(IdentitySlots(3), 1) == 1 && ApplyTo(IdentitySlots(3), 3) == 3
  {
  }

  /** With left = [2, 1] and right = [1, 2], the composite is [2, 1], which
      sends 1 to 2; the empty result of the written compose differs from it
      and fixes 1. */
  lemma ComposeAsWrittenCounterexample()
    ensures NoZero([1, 2])
    ensures ComposeSlots([2, 1], [1, 2]) == [2, 1] != []
    ensures ApplyTo(ComposeSlots([2, 1], [1, 2]), 1) == 2
    ensures ApplyTo([], 1) == 1
  {
    ComposeApply([2, 1], [1, 2], 1);
    ComposeApply([2, 1], [1, 2], 2);
  }

  // ---------------------------------------------------------------------
  // The object

  /** `OneLine(Box<[u8]>)`: the slots live in a fixed-size buffer that
      `compose_swap_right` updates in place. */
  class OneLine {
    var data: array<U8>

    /** `OneLine::new(values)`: no validation. */
    constructor New(values: seq<U8>)
      ensures fresh(data) && data[..] == values
    {
      data := new U8[|values|]((i: int) requires 0 <= i < |values| => values[i]);
    }

    /** The tuple constructor `OneLine(buffer)`. */
    constructor Wrap(buffer: array<U8>)
      ensures data == buffer
    {
      data := buffer;
    }

    /** `OneLine::identity(n)`: equal to `new([1..=n])`. */
    constructor Identity(n: U8)
      ensures fresh(data) && data[..] == IdentitySlots(n)
    {
      data := new U8[n]((i: int) requires 0 <= i < n => (i + 1) as U8);
    }

    function Order(): (r: U8)
      reads this, data
      ensures r <= data.Length
      ensures data.Length < 256 ==> r == data.Length
    {
      OrderOf(data[..])
    }

    function Apply(v: U8): (r: U8)
      requires 1 <= v
      reads this, data
      ensures Order() < v ==> r == v
      ensures NoZero(data[..]) ==> 1 <= r
    {
      ApplyTo(data[..], v)
    }

    /** `validate`: the source panics with `InvalidPermutation` where this
        returns false. Marks each value seen in an auxiliary buffer. */
    method Validate() returns (ok: bool)
      ensures ok <==> ValidSlots(data[..])
    {
      var n := Order();
      var seen := new bool[n + 1];
      forall x | 0 <= x <= n {
        seen[x] := false;
      }
      var i := 0;
      while i < data.Length
        invariant 0 <= i <= data.Length
        invariant forall k :: 0 <= k < i ==> 1 <= data[k] <= n
        invariant forall k, l :: 0 <= k < l < i ==> data[k] != data[l]
        invariant forall x :: 0 <= x <= n ==> (seen[x] <==> exists k :: 0 <= k < i && data[k] == x)
      {
        var x := data[i];
        if x == 0 || x > n {
          assert !(1 <= data[..][i] <= n);
          return false;
        }
        if seen[x] {
          var k :| 0 <= k < i && data[k] == x;
          assert data[..][k] == data[..][i];
          return false;
        }
        seen[x] := true;
        i := i + 1;
      }
      assert data[..] == data[..i];
      return true;
    }

    /** `compose(&self, right)`: a fresh one-line of max(order) slots, slot
        i holding self.apply(right.apply(i+1)); neither operand changes. */
    method Compose(right: OneLine) returns (r: OneLine)
      requires NoZero(right.data[..])
      ensures fresh(r) && fresh(r.data)
      ensures r.data[..] == ComposeSlots(data[..], right.data[..])
    {
      var ord := Max(Order(), right.Order());
      var buffer := new U8[ord];
      for i := 0 to ord
        invariant forall k :: 0 <= k < i ==> buffer[k] == ApplyTo(data[..], ApplyTo(right.data[..], (k + 1) as U8))
      {
        buffer[i] := Apply(right.Apply((i + 1) as U8));
      }
      r := new OneLine.Wrap(buffer);
    }

    /** `compose` as written at src/one_line.rs:15-21: the buffer has
        capacity `ord` but length 0, so the loop that should fill it has
        no slot to visit and the result is always empty. */
    method ComposeAsWritten(right: OneLine) returns (r: OneLine)
      ensures fresh(r) && r.data[..] == []
    {
      var buffer := new U8[0];
      r := new OneLine.Wrap(buffer);
    }

    /** `compose_swap_right(s)`: self := self ∘ s. When both slots low-1 and
        high-1 exist they are exchanged in place; otherwise the buffer is
        rebuilt at the swap's order. Either way the result is the generic
        composition with the swap's one-line. */
    method ComposeSwapRight(s: Swap)
      requires 1 <= s.low && s.Normalised() && data.Length <= 255
      modifies this, data
      ensures NoZero(SwapLine(s))
      ensures data[..] == ComposeSlots(old(data[..]), SwapLine(s))
      ensures data == old(data) || fresh(data)
      ensures s.high <= old(data.Length) ==> data == old(data)
    {
      SwapLineApply(s, 1);
      if s.high <= data.Length {
        SwapInPlaceIsCompose(data[..], s);
        data[s.low - 1], data[s.high - 1] := data[s.high - 1], data[s.low - 1];
      } else {
        ghost var was := data[..];
        var buffer := new U8[s.high];
        for i := 0 to s.high
          invariant data[..] == was
          invariant forall k :: 0 <= k < i ==> buffer[k] == ApplyTo(was, s.Apply((k + 1) as U8))
        {
          buffer[i] := Apply(s.Apply((i + 1) as U8));
        }
        data := buffer;
        forall k | 0 <= k < s.high
          ensures data[k] == ComposeSlots(was, SwapLine(s))[k]
        {
          SwapLineApply(s, (k + 1) as U8);
        }
      }
    }

    /** `OneLine::from_involutions(l, r)`: l ∘ r directly, without an
        identity pass. */
    static method FromInvolutions(left: Swap, right: Swap) returns (p: OneLine)
      ensures fresh(p) && fresh(p.data)
      ensures p.data[..] == FromInvolutionsSlots(left, right)
    {
      var n := Max(left.high, right.high);
      var buffer := new U8[n]((i: int) requires 0 <= i < n => left.Apply(right.Apply((i + 1) as U8)));
      p := new OneLine.Wrap(buffer);
    }
  }
}
