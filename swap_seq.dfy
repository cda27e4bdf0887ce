/** A word of transpositions (src/swap.rs, the `SwapSeq` half of the file):
    the permutation s1 ∘ s2 ∘ ... ∘ sk, held lazily in a double-ended queue
    and turned into a one-line by `evaluate`. */
module SwapSeqs {
  import opened Traits
  import opened Swaps
  import opened OneLines

  /** Every swap of the word is stored as (low, high) with low <= high, as
      `Swap::new` leaves it. */
  predicate Normalised(w: seq<Swap>) {
    forall i :: 0 <= i < |w| ==> w[i].Normalised()
  }

  /** No swap of the word touches the point 0. */
  predicate Positive(w: seq<Swap>) {
    forall i :: 0 <= i < |w| ==> 1 <= w[i].low
  }

  /** `Mapping::apply`: `iter().rev().fold(v, |x, swap| swap.apply(x))`,
      so the last swap of the word acts first. */
  function WordApply(w: seq<Swap>, v: U8): (r: U8)
    ensures Normalised(w) && Positive(w) && 1 <= v ==> 1 <= r
  {
    if w == [] then v else WordApply(w[..|w| - 1], w[|w| - 1].Apply(v))
  }

  /** `Mapping::order`: the largest `high` of the word, or 1 when the word
      is empty. */
  function WordOrder(w: seq<Swap>): (r: U8)
    ensures w == [] ==> r == 1
    ensures forall i :: 0 <= i < |w| ==> w[i].high <= r
    ensures w != [] ==> exists i :: 0 <= i < |w| && w[i].high == r
  {
    if w == [] then 1
    else if |w| == 1 then w[0].high
    else Max(w[0].high, WordOrder(w[1..]))
  }

  /** The word's `apply` as a mapping. */
  function WordMapping(w: seq<Swap>): U8 --> U8 {
    (v: U8) => WordApply(w, v)
  }

  /** The dense form of a word: WordOrder(w) slots, slot i holding the
      word's image of i+1. */
  function Dense(w: seq<Swap>): seq<U8> {
    seq(WordOrder(w), (i: int) requires 0 <= i < WordOrder(w) => WordApply(w, (i + 1) as U8))
  }

  /** The dense form of the prefix w[..k], at the order of the whole word:
      what `evaluate` holds after k swaps. */
  function PrefixDense(w: seq<Swap>, k: nat): seq<U8>
    requires k <= |w|
  {
    seq(WordOrder(w), (i: int) requires 0 <= i < WordOrder(w) => WordApply(w[..k], (i + 1) as U8))
  }

  /** The transpositions of one cycle (c0 c1 ... cm): (c0 c1), (c1 c2), ...,
      (c(m-1) cm), each built with `Swap::new`. */
  function CycleWord(c: seq<U8>): (r: seq<Swap>)
    ensures |r| == if |c| < 2 then 0 else |c| - 1
    ensures Normalised(r)
  {
    if |c| < 2 then [] else CycleWord(c[..|c| - 1]) + [Swap.New(c[|c| - 2], c[|c| - 1])]
  }

  /** Swap i of a cycle's word exchanges the neighbours c[i] and c[i+1]. */
  lemma {:induction false} CycleWordPairs(c: seq<U8>, i: int)
    requires 0 <= i < |c| - 1
    ensures i < |CycleWord(c)| && CycleWord(c)[i] == Swap.New(c[i], c[i + 1])
  {
    var p := c[..|c| - 1];
    if i < |c| - 2 {
      CycleWordPairs(p, i);
      assert CycleWord(c) == CycleWord(p) + [Swap.New(c[|c| - 2], c[|c| - 1])];
    }
  }

  /** The words of all the cycles, in order. */
  function CyclesWord(cycles: seq<seq<U8>>): (r: seq<Swap>)
    ensures Normalised(r)
    ensures (forall k :: 0 <= k < |cycles| ==> |cycles[k]| < 2) ==> r == []
  {
    if cycles == [] then []
    else
      var a, b := CyclesWord(cycles[..|cycles| - 1]), CycleWord(cycles[|cycles| - 1]);
      a + b
  }

  /** Before any swap, the prefix form is the identity at the word's order. */
  lemma PrefixDenseZero(w: seq<Swap>)
    ensures PrefixDense(w, 0) == IdentitySlots(WordOrder(w))
  {
    var p, q := PrefixDense(w, 0), IdentitySlots(WordOrder(w));
    assert w[..0] == [];
    forall i | 0 <= i < |p|
      ensures p[i] == q[i]
    {
      assert WordApply(w[..0], (i + 1) as U8) == (i + 1) as U8;
    }
  }

  /** Reading one more point of a cycle appends the swap of the last two. */
  lemma CycleWordStep(c: seq<U8>, j: int)
    requires 0 <= j < |c|
    ensures CycleWord(c[..j + 1]) == CycleWord(c[..j]) + (if j == 0 then [] else [Swap.New(c[j - 1], c[j])])
  {
    assert c[..j + 1][..j] == c[..j];
  }

  /** Reading one more cycle appends its word. */
  lemma CyclesWordStep(cycles: seq<seq<U8>>, k: int)
    requires 0 <= k < |cycles|
    ensures CyclesWord(cycles[..k + 1]) == CyclesWord(cycles[..k]) + CycleWord(cycles[k])
  {
    assert cycles[..k + 1][..k] == cycles[..k];
  }

  predicate Distinct(c: seq<U8>) {
    forall i, j :: 0 <= i < j < |c| ==> c[i] != c[j]
  }

  // ---------------------------------------------------------------------
  // Properties of the word

  lemma WordApplySnoc(w: seq<Swap>, s: Swap, v: U8)
    ensures WordApply(w + [s], v) == WordApply(w, s.Apply(v))
  {
    assert (w + [s])[..|w|] == w;
  }

  /** A point that no swap of the word contains is fixed. */
  lemma {:induction false} WordFixesUntouched(w: seq<Swap>, v: U8)
    requires forall i :: 0 <= i < |w| ==> !w[i].Contains(v)
    ensures WordApply(w, v) == v
  {
    if w != [] {
      var init := w[..|w| - 1];
      assert w[|w| - 1].Apply(v) == v;
      WordFixesUntouched(init, v);
    }
  }

  /** Concatenating words composes them: the right word acts first. */
  lemma {:induction false} WordApplyAppend(a: seq<Swap>, b: seq<Swap>, v: U8)
    ensures WordApply(a + b, v) == WordApply(a, WordApply(b, v))
  {
    if b == [] {
      assert a + b == a;
    } else {
      var init, s := b[..|b| - 1], b[|b| - 1];
      assert a + b == (a + init) + [s];
      assert b == init + [s];
      WordApplySnoc(a + init, s, v);
      WordApplyAppend(a, init, s.Apply(v));
      WordApplySnoc(init, s, v);
    }
  }

  /** apply(v) = s1(s2(...sk(v))): the head of the word acts last. */
  lemma WordApplyCons(s: Swap, w: seq<Swap>, v: U8)
    ensures WordApply([s] + w, v) == s.Apply(WordApply(w, v))
  {
    WordApplyAppend([s], w, v);
    WordApplySnoc([], s, WordApply(w, v));
  }

  /** Every point above the order is fixed. */
  lemma {:induction false} WordFixesAboveOrder(w: seq<Swap>, v: U8)
    ensures Normalised(w) && WordOrder(w) < v ==> WordApply(w, v) == v
  {
    if Normalised(w) && WordOrder(w) < v && w != [] {
      var init, s := w[..|w| - 1], w[|w| - 1];
      assert s.high <= WordOrder(w);
      if init != [] {
        var j :| 0 <= j < |init| && init[j].high == WordOrder(init);
        assert init[j] == w[j];
        WordFixesAboveOrder(init, v);
      }
    }
  }

  /** A word whose swaps all lie in {1..n} sends {1..n} into {1..n}. */
  lemma {:induction false} WordStaysInRange(w: seq<Swap>, n: U8, v: U8)
    requires forall i :: 0 <= i < |w| ==> 1 <= w[i].low <= w[i].high <= n
    requires 1 <= v <= n
    ensures 1 <= WordApply(w, v) <= n
  {
    if w != [] {
      var init, s := w[..|w| - 1], w[|w| - 1];
      assert 1 <= s.Apply(v) <= n;
      WordStaysInRange(init, n, s.Apply(v));
    }
  }

  /** A word never sends two points to the same image. */
  lemma {:induction false} WordInjective(w: seq<Swap>, v: U8, u: U8)
    requires WordApply(w, v) == WordApply(w, u)
    ensures v == u
  {
    if w != [] {
      var init, s := w[..|w| - 1], w[|w| - 1];
      WordInjective(init, s.Apply(v), s.Apply(u));
      ApplySelfInverse(s, v);
      ApplySelfInverse(s, u);
    }
  }

  /** A word of normalised swaps of positive points is a permutation of
      {1..order()}. */
  lemma WordContract(w: seq<Swap>)
    requires Normalised(w) && Positive(w)
    ensures MappingContract(WordMapping(w), WordOrder(w))
  {
    var f, n := WordMapping(w), WordOrder(w);
    forall v: U8 | n < v
      ensures f(v) == v
    {
      WordFixesAboveOrder(w, v);
    }
    forall v: U8 | 1 <= v <= n
      ensures 1 <= f(v) <= n
    {
      WordStaysInRange(w, n, v);
    }
    forall v: U8, u: U8 | 1 <= v < u <= n
      ensures f(v) != f(u)
    {
      if f(v) == f(u) {
        WordInjective(w, v, u);
      }
    }
  }

  /** The dense form applies exactly as the word does, on every point. */
  lemma DenseApply(w: seq<Swap>, v: U8)
    requires Normalised(w) && 1 <= v
    ensures ApplyTo(Dense(w), v) == WordApply(w, v)
  {
    if WordOrder(w) < v {
      WordFixesAboveOrder(w, v);
    }
  }

  /** The dense form of a word of normalised swaps of positive points
      passes `validate`. */
  lemma DenseValid(w: seq<Swap>)
    requires Normalised(w) && Positive(w)
    ensures ValidSlots(Dense(w))
  {
    var d := Dense(w);
    WordContract(w);
    forall v: U8 | 1 <= v
      ensures AsMapping(d)(v) == WordMapping(w)(v)
    {
      DenseApply(w, v);
    }
    ContractRespectsSameMapping(WordMapping(w), AsMapping(d), WordOrder(w));
    ContractMeansValid(d);
  }

  /** The empty word evaluates to identity(1). */
  lemma DenseEmpty()
    ensures Dense([]) == IdentitySlots(1)
  {
    assert Dense([])[0] == 1;
  }

  /** A one-swap word evaluates to identity(high) composed with the swap. */
  lemma DenseSingle(s: Swap)
    requires 1 <= s.low && s.Normalised()
    ensures NoZero(SwapLine(s))
    ensures ComposeSlots(IdentitySlots(s.high), SwapLine(s)) == Dense([s])
  {
    var p := IdentitySlots(s.high);
    SwapInPlaceIsCompose(p, s);
    var a, b := p[s.low - 1 := p[s.high - 1]][s.high - 1 := p[s.low - 1]], Dense([s]);
    assert |a| == |b|;
    forall i | 0 <= i < |a|
      ensures a[i] == b[i]
    {
      WordApplySnoc([], s, (i + 1) as U8);
    }
  }

  /** A two-swap word evaluates to `from_involutions` of its swaps. */
  lemma DensePair(l: Swap, r: Swap)
    ensures FromInvolutionsSlots(l, r) == Dense([l, r])
  {
    var a, b := FromInvolutionsSlots(l, r), Dense([l, r]);
    assert [l, r][1..] == [r];
    assert |a| == |b|;
    forall i | 0 <= i < |a|
      ensures a[i] == b[i]
    {
      var v := (i + 1) as U8;
      assert [l, r] == [l] + [r];
      WordApplyCons(l, [r], v);
      WordApplySnoc([], r, v);
    }
  }

  /** One step of `evaluate`'s general branch: composing the dense prefix
      with the next swap on the right gives the next dense prefix. */
  lemma PrefixDenseStep(w: seq<Swap>, k: nat)
    requires Normalised(w) && Positive(w) && k < |w|
    ensures NoZero(SwapLine(w[k]))
    ensures ComposeSlots(PrefixDense(w, k), SwapLine(w[k])) == PrefixDense(w, k + 1)
  {
    var s, n := w[k], WordOrder(w);
    assert s.high <= n;
    var p := PrefixDense(w, k);
    SwapInPlaceIsCompose(p, s);
    var c := p[s.low - 1 := p[s.high - 1]][s.high - 1 := p[s.low - 1]];
    var q := PrefixDense(w, k + 1);
    assert w[..k + 1] == w[..k] + [s];
    forall i | 0 <= i < n
      ensures c[i] == q[i]
    {
      WordApplySnoc(w[..k], s, (i + 1) as U8);
    }
  }

  /** (c0 c1)(c1 c2)...(c(m-1) cm) sends each ci to c(i+1) and cm back to
      c0: the word of a cycle of distinct points is that cycle. */
  lemma {:induction false} CycleWordMaps(c: seq<U8>, i: int)
    requires 2 <= |c| && Distinct(c) && 0 <= i < |c|
    ensures WordApply(CycleWord(c), c[i]) == if i + 1 < |c| then c[i + 1] else c[0]
  {
    var m := |c| - 1;
    var p, x, y := c[..m], c[m], c[m - 1];
    var s := Swap.New(y, x);
    CycleWordLast(c, c[i]);
    DistinctInit(c);
    NewApply(y, x, c[i]);
    if m == 1 {
      assert CycleWord(p) == [];
    } else if i == m {
      assert s.Apply(c[i]) == p[m - 1];
      CycleWordMaps(p, m - 1);
    } else if i == m - 1 {
      assert s.Apply(c[i]) == x;
      CycleWordFixes(p, x);
    } else {
      assert c[i] == p[i] && y == p[m - 1];
      assert s.Apply(c[i]) == p[i];
      CycleWordMaps(p, i);
    }
  }

  /** A cycle's word acts as its last swap followed by the word of the
      cycle without its last point. */
  lemma CycleWordLast(c: seq<U8>, v: U8)
    requires 2 <= |c|
    ensures WordApply(CycleWord(c), v)
            == WordApply(CycleWord(c[..|c| - 1]), Swap.New(c[|c| - 2], c[|c| - 1]).Apply(v))
  {
    WordApplySnoc(CycleWord(c[..|c| - 1]), Swap.New(c[|c| - 2], c[|c| - 1]), v);
  }

  /** Dropping the last point of a cycle of distinct points leaves distinct
      points, none of them the dropped one. */
  lemma DistinctInit(c: seq<U8>)
    requires 1 <= |c| && Distinct(c)
    ensures Distinct(c[..|c| - 1]) && c[|c| - 1] !in c[..|c| - 1]
  {
    var p := c[..|c| - 1];
    forall j | 0 <= j < |p|
      ensures p[j] != c[|c| - 1]
    {
      assert p[j] == c[j];
    }
  }

  /** ... and fixes every point outside the cycle. */
  lemma {:induction false} CycleWordFixes(c: seq<U8>, y: U8)
    requires y !in c
    ensures WordApply(CycleWord(c), y) == y
  {
    if 2 <= |c| {
      var p, x := c[..|c| - 1], c[|c| - 1];
      var s := Swap.New(c[|c| - 2], x);
      WordApplySnoc(CycleWord(p), s, y);
      assert y != c[|c| - 2];
      CycleWordFixes(p, y);
    }
  }

  /** `is_identity` only tests for the empty word: (1 2)(1 2) fixes every
      point and is still not reported as the identity. */
  lemma IsIdentityOnlyEmpty(p: SwapSeq, v: U8)
    requires p.word == [Swap.New(1, 2), Swap.New(1, 2)]
    ensures !p.IsIdentity() && p.Apply(v) == v
  {
    var s := Swap.New(1, 2);
    assert p.word == [s] + [s];
    WordApplyCons(s, [s], v);
    WordApplySnoc([], s, v);
    ApplySelfInverse(s, v);
  }

  /** A dense form is pinned down by its length and its slots. */
  lemma DenseFrom(w: seq<Swap>, d: seq<U8>)
    requires |d| == WordOrder(w)
    requires forall i :: 0 <= i < |d| ==> d[i] == WordApply(w, (i + 1) as U8)
    ensures Dense(w) == d
  {
  }

  /** A word of three swaps, unfolded. */
  lemma WordApplyThree(s1: Swap, s2: Swap, s3: Swap, v: U8)
    ensures WordApply([s1, s2, s3], v) == s1.Apply(s2.Apply(s3.Apply(v)))
  {
    assert [s1, s2, s3] == [s1, s2] + [s3];
    assert [s1, s2] == [s1] + [s2];
    WordApplySnoc([s1, s2], s3, v);
    WordApplySnoc([s1], s2, s3.Apply(v));
    WordApplySnoc([], s1, s2.Apply(s3.Apply(v)));
  }

  /** (1 2)(2 3)(3 4) as a function: 1 -> 2 -> 3 -> 4 -> 1. */
  lemma FirstWordApply(v: U8)
    ensures WordApply([Swap(1, 2), Swap(2, 3), Swap(3, 4)], v)
            == if v == 4 then 1 else if 1 <= v <= 3 then v + 1 else v
  {
    WordApplyThree(Swap(1, 2), Swap(2, 3), Swap(3, 4), v);
  }

  /** (1 2)(2 3)(3 4)(4 5) as a function: 1 -> 2 -> 3 -> 4 -> 5 -> 1. */
  lemma SecondWordApply(v: U8)
    ensures WordApply([Swap(1, 2), Swap(2, 3), Swap(3, 4), Swap(4, 5)], v)
            == if v == 5 then 1 else if 1 <= v <= 4 then v + 1 else v
  {
    var a := [Swap(1, 2), Swap(2, 3), Swap(3, 4)];
    assert [Swap(1, 2), Swap(2, 3), Swap(3, 4), Swap(4, 5)] == a + [Swap(4, 5)];
    WordApplySnoc(a, Swap(4, 5), v);
    FirstWordApply(Swap(4, 5).Apply(v));
  }

  /** The word (1 2)(2 3)(3 4) of the `mul` test. */
  lemma MulExampleFirst()
    ensures Dense([Swap(1, 2), Swap(2, 3), Swap(3, 4)]) == [2, 3, 4, 1]
  {
    var a := [Swap(1, 2), Swap(2, 3), Swap(3, 4)];
    var d: seq<U8> := [2, 3, 4, 1];
    assert WordOrder(a) == 4 by {
      assert a[2].high == 4;
    }
    forall i | 0 <= i < 4
      ensures d[i] == WordApply(a, (i + 1) as U8)
    {
      FirstWordApply((i + 1) as U8);
    }
    DenseFrom(a, d);
  }

  /** ... after `*= (4 5)`. */
  lemma MulExampleSecond()
    ensures Dense([Swap(1, 2), Swap(2, 3), Swap(3, 4), Swap(4, 5)]) == [2, 3, 4, 5, 1]
  {
    var b := [Swap(1, 2), Swap(2, 3), Swap(3, 4), Swap(4, 5)];
    var d: seq<U8> := [2, 3, 4, 5, 1];
    assert WordOrder(b) == 5 by {
      assert b[3].high == 5;
    }
    forall i | 0 <= i < 5
      ensures d[i] == WordApply(b, (i + 1) as U8)
    {
      SecondWordApply((i + 1) as U8);
    }
    DenseFrom(b, d);
  }

  /** ... after `compose_left((4 5))`. */
  lemma MulExampleThird()
    ensures Dense([Swap(4, 5), Swap(1, 2), Swap(2, 3), Swap(3, 4), Swap(4, 5)]) == [2, 3, 5, 4, 1]
  {
    var b := [Swap(1, 2), Swap(2, 3), Swap(3, 4), Swap(4, 5)];
    var c := [Swap(4, 5)] + b;
    assert c == [Swap(4, 5), Swap(1, 2), Swap(2, 3), Swap(3, 4), Swap(4, 5)];
    assert c[0].high == 5;
    forall v: U8 | 1 <= v <= 5
      ensures WordApply(c, v) == Swap(4, 5).Apply(if v == 5 then 1 else v + 1)
    {
      WordApplyCons(Swap(4, 5), b, v);
      SecondWordApply(v);
    }
    DenseFrom(c, [2, 3, 5, 4, 1]);
  }

  // ---------------------------------------------------------------------
  // The object

  /** `SwapSeq(VecDeque<Swap>)`: the queue is a sequence that the methods
      reassign at either end. */
  class SwapSeq {
    var word: seq<Swap>

    /** `SwapSeq::new()`: the empty word. */
    constructor New()
      ensures word == []
    {
      word := [];
    }

    /** `Identity::identity(_ord)`: the empty word; the order hint is
        ignored. */
    constructor Identity(ord: U8)
      ensures word == []
    {
      word := [];
    }

    /** `FromInvolutions::from_involutions(l, r)`: exactly the word [l, r]. */
    constructor FromInvolutions(left: Swap, right: Swap)
      ensures word == [left, right]
    {
      word := [left, right];
    }

    /** The derived `clone`. */
    constructor Clone(other: SwapSeq)
      ensures word == other.word
    {
      word := other.word;
    }

    function Apply(v: U8): (r: U8)
      reads this
      ensures Normalised(word) && Positive(word) && 1 <= v ==> 1 <= r
      ensures Normalised(word) && Order() < v ==> r == v
    {
      WordFixesAboveOrder(word, v);
      WordApply(word, v)
    }

    function Order(): (r: U8)
      reads this
      ensures word == [] ==> r == 1
      ensures forall i :: 0 <= i < |word| ==> word[i].high <= r
      ensures word != [] ==> exists i :: 0 <= i < |word| && word[i].high == r
    {
      WordOrder(word)
    }

    /** `Identity::is_identity`: true only for the empty word (see
        IsIdentityOnlyEmpty for a non-empty word that is the identity). */
    predicate IsIdentity()
      reads this
      ensures IsIdentity() ==> forall v: U8 :: Apply(v) == v
    {
      |word| == 0
    }

    /** `compose_left`: `push_front`. */
    method ComposeLeft(other: Swap)
      modifies this
      ensures word == [other] + old(word)
    {
      word := [other] + word;
    }

    /** `compose_right`: `push_back`. */
    method ComposeRight(other: Swap)
      modifies this
      ensures word == old(word) + [other]
    {
      word := word + [other];
    }

    /** `seq * swap`: compose_right on a clone; this word is unchanged. */
    method Mul(rhs: Swap) returns (out: SwapSeq)
      ensures fresh(out) && out.word == word + [rhs]
    {
      out := new SwapSeq.Clone(this);
      out.ComposeRight(rhs);
    }

    /** `seq *= swap`: compose_right in place. */
    method MulAssign(rhs: Swap)
      modifies this
      ensures word == old(word) + [rhs]
    {
      ComposeRight(rhs);
    }

    /** One cycle of `from_cycle_notation`: nothing for fewer than two
        points, otherwise each point after the first is paired with the one
        before it and the swap appended with `*=`. */
    method AppendCycle(cyc: seq<U8>)
      modifies this
      ensures word == old(word) + CycleWord(cyc)
    {
      if |cyc| < 2 {
        return;
      }
      ghost var start := word;
      var last: Option<U8> := None;
      for j := 0 to |cyc|
        invariant word == start + CycleWord(cyc[..j])
        invariant last == if j == 0 then None else Some(cyc[j - 1])
      {
        var x := cyc[j];
        CycleWordStep(cyc, j);
        if last.Some? {
          MulAssign(Swap.New(last.value, x));
          assert word == start + (CycleWord(cyc[..j]) + [Swap.New(cyc[j - 1], x)]);
        }
        last := Some(x);
      }
      assert cyc[..|cyc|] == cyc;
    }

    /** `from_cycle_notation`: for each cycle of at least two points, the
        swaps of neighbouring points in order, each appended with `*=`. */
    static method FromCycleNotation(cycles: seq<seq<U8>>) returns (out: SwapSeq)
      ensures fresh(out) && out.word == CyclesWord(cycles)
    {
      out := new SwapSeq.New();
      for k := 0 to |cycles|
        invariant fresh(out)
        invariant out.word == CyclesWord(cycles[..k])
      {
        CyclesWordStep(cycles, k);
        out.AppendCycle(cycles[k]);
      }
      assert cycles[..|cycles|] == cycles;
    }

    /** `evaluate`: the dense one-line of the word. The lengths 0, 1 and 2
        are special cases (identity(1); identity(order) composed with the
        one swap; `from_involutions`); longer words start from
        identity(order) and compose every swap on the right, head first.
        All four branches yield the same slots, the word's dense form. The
        length-2 branch never computes v - 1, so only the others need swaps
        of positive points. */
    method Evaluate() returns (r: OneLine)
      requires Normalised(word)
      requires |word| != 2 ==> Positive(word)
      ensures fresh(r) && fresh(r.data)
      ensures r.data[..] == Dense(word)
    {
      if |word| == 0 {
        r := new OneLine.Identity(1);
        DenseEmpty();
      } else if |word| == 1 {
        var s := word[0];
        r := new OneLine.Identity(s.Order());
        IdentityLaw(s.high);
        r.ComposeSwapRight(s);
        DenseSingle(s);
        assert word == [s];
      } else if |word| == 2 {
        r := OneLine.FromInvolutions(word[0], word[1]);
        DensePair(word[0], word[1]);
        assert word == [word[0], word[1]];
      } else {
        var n := WordOrder(word);
        r := new OneLine.Identity(n);
        PrefixDenseZero(word);
        for i := 0 to |word|
          invariant fresh(r) && fresh(r.data)
          invariant r.data[..] == PrefixDense(word, i)
        {
          PrefixDenseStep(word, i);
          r.ComposeSwapRight(word[i]);
        }
        assert word[..|word|] == word;
      }
    }
  }

  /** `swap * seq`: compose_left on a clone; the word is unchanged. */
  method SwapMul(lhs: Swap, rhs: SwapSeq) returns (out: SwapSeq)
    ensures fresh(out) && out.word == [lhs] + rhs.word
  {
    out := new SwapSeq.Clone(rhs);
    out.ComposeLeft(lhs);
  }
}
