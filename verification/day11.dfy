/** src/day11.rs: the stone rules, one blink over a list, and one blink over a table of counts. */
module Day11 {
  import opened Common

  /**
   * `maybe_split_even`: a positive number whose `ilog10` (one less than its digit count) is odd,
   * i.e. one with an even number of digits, splits into its left and right halves.
   */
  function MaybeSplitEven(i: nat): (r: Option<seq<nat>>)
    ensures r.Some? <==> i > 0 && Digits(i) % 2 == 0
    ensures r.Some? ==> |r.value| == 2
    ensures r.Some? ==> r.value[0] * Pow10(Digits(i) / 2) + r.value[1] == i && r.value[1] < Pow10(Digits(i) / 2)
  {
    if i == 0 then None
    else
      var base := Digits(i) - 1;
      if base % 2 == 1 then
        var split := Pow10(base / 2 + 1);
        assert base / 2 + 1 == Digits(i) / 2;
        DivSplit(i, split);
        Some([i / split, i % split])
      else None
  }

  /** Euclidean division of a natural number by a positive one, spelled out. */
  lemma DivSplit(i: nat, split: nat)
    requires split > 0
    ensures 0 <= i / split && 0 <= i % split < split
    ensures i / split * split + i % split == i
  {
  }

  /** The left half of a split has exactly half the digits (it has no leading zero). */
  lemma SplitHalves(i: nat)
    requires i > 0 && Digits(i) % 2 == 0
    ensures Digits(MaybeSplitEven(i).value[0]) == Digits(i) / 2
  {
    var k := Digits(i) / 2;
    var hi := MaybeSplitEven(i).value[0];
    assert hi == i / Pow10(k);
    DigitsBounds(i);
    Pow10Add(k - 1, k);
    Pow10Add(k, k);
    assert k - 1 + k == Digits(i) - 1 && k + k == Digits(i);
    DivBounds(i, Pow10(k), Pow10(k - 1), Pow10(k));
    DigitsOfBounds(hi, k);
  }

  /** `maybe_replace_zero`. */
  function MaybeReplaceZero(i: nat): (r: Option<seq<nat>>)
    ensures r.Some? <==> i == 0
    ensures r.Some? ==> r.value == [1]
  {
    if i == 0 then Some([1]) else None
  }

  /** `apply_rules`: the first rule that applies, among replacing zero, splitting and multiplying by 2024. */
  function ApplyRules(i: nat): (r: seq<nat>)
    ensures 1 <= |r| <= 2
    ensures i == 0 ==> r == [1]
    ensures i > 0 && Digits(i) % 2 == 0 ==> |r| == 2 && r[0] * Pow10(Digits(i) / 2) + r[1] == i
    ensures i > 0 && Digits(i) % 2 == 1 ==> r == [i * 2024]
  {
    match MaybeReplaceZero(i)
    case Some(v) => v
    case None =>
      match MaybeSplitEven(i)
      case Some(v) => v
      case None => [i * 2024]
  }

  /** `blink`: every stone replaced, in order, by what the rules make of it. */
  function Blink(ns: seq<nat>): (r: seq<nat>)
    ensures |ns| <= |r| <= 2 * |ns|
  {
    if ns == [] then [] else Blink(ns[..|ns| - 1]) + ApplyRules(ns[|ns| - 1])
  }

  /** Blinking a concatenation blinks each part: stones never influence one another. */
  lemma {:induction false} BlinkAppend(a: seq<nat>, b: seq<nat>)
    ensures Blink(a + b) == Blink(a) + Blink(b)
    decreases |b|
  {
    if b != [] {
      var b' := b[..|b| - 1];
      assert (a + b)[..|a + b| - 1] == a + b';
      assert (a + b)[|a + b| - 1] == b[|b| - 1];
      BlinkAppend(a, b');
      assert Blink(a + b) == Blink(a + b') + ApplyRules(b[|b| - 1]);
      assert Blink(b) == Blink(b') + ApplyRules(b[|b| - 1]);
    } else {
      assert a + b == a;
    }
  }

  /** The stones after blinking depend only on the multiset of stones before, not on their order. */
  lemma {:induction false} BlinkPermutation(a: seq<nat>, b: seq<nat>)
    requires multiset(a) == multiset(b)
    ensures multiset(Blink(a)) == multiset(Blink(b))
    decreases |a|
  {
    if a != [] {
      var x := a[|a| - 1];
      assert x in multiset(b);
      var j :| 0 <= j < |b| && b[j] == x;
      var rest := b[..j] + b[j + 1..];
      RemoveOne(a, b, j);
      BlinkPermutation(a[..|a| - 1], rest);
      BlinkWithout(b, j);
      calc {
        multiset(Blink(a));
        multiset(Blink(a[..|a| - 1]) + ApplyRules(x));
        multiset(Blink(rest)) + multiset(ApplyRules(x));
        multiset(Blink(b));
      }
    }
  }

  /** Taking the last stone of `a` and an equal stone of `b` leaves equal multisets. */
  lemma RemoveOne(a: seq<nat>, b: seq<nat>, j: nat)
    requires multiset(a) == multiset(b) && |a| >= 1 && j < |b| && b[j] == a[|a| - 1]
    ensures multiset(a[..|a| - 1]) == multiset(b[..j] + b[j + 1..])
  {
    var x := b[j];
    assert b == b[..j] + [x] + b[j + 1..];
    assert a == a[..|a| - 1] + [x];
    assert multiset(a[..|a| - 1]) == multiset(a) - multiset{x};
    assert multiset(b[..j] + b[j + 1..]) == multiset(b) - multiset{x};
  }

  /** Blinking `b` gives the stones of blinking `b` without its `j`-th stone, plus those of that stone. */
  lemma BlinkWithout(b: seq<nat>, j: nat)
    requires j < |b|
    ensures multiset(Blink(b)) == multiset(Blink(b[..j] + b[j + 1..])) + multiset(ApplyRules(b[j]))
  {
    var x, before, after := b[j], b[..j], b[j + 1..];
    Around(b, j);
    BlinkAppend(before + [x], after);
    BlinkAppend(before, [x]);
    BlinkAppend(before, after);
    BlinkOne(x);
  }

  /** A sequence is what comes before its `j`-th element, that element, and what comes after. */
  lemma Around(b: seq<nat>, j: nat)
    requires j < |b|
    ensures b == b[..j] + [b[j]] + b[j + 1..]
  {
  }

  /** Blinking a single stone applies the rules to it. */
  lemma BlinkOne(x: nat)
    ensures Blink([x]) == ApplyRules(x)
  {
    assert [x][..0] == [];
  }

  /** `n` blinks. */
  function BlinkN(ns: seq<nat>, n: nat): (r: seq<nat>)
    ensures |ns| <= |r|
  {
    if n == 0 then ns else Blink(BlinkN(ns, n - 1))
  }

  /** `blink25`: the stones after 25 blinks. */
  method Blink25(ns: seq<nat>) returns (r: seq<nat>)
    ensures r == BlinkN(ns, 25)
    ensures |ns| <= |r|
  {
    r := ns;
    for k := 0 to 25
      invariant r == BlinkN(ns, k)
    {
      r := Blink(r);
    }
  }

  /** `k` copies of the sequence `a`, one after another. */
  function Repeat(a: seq<nat>, k: nat): (r: seq<nat>)
    ensures |r| == k * |a|
  {
    if k == 0 then [] else Repeat(a, k - 1) + a
  }

  /** Repeating a concatenation gives, in count, the repetitions of its parts. */
  lemma {:induction false} RepeatAppend(a: seq<nat>, b: seq<nat>, k: nat)
    ensures multiset(Repeat(a + b, k)) == multiset(Repeat(a, k)) + multiset(Repeat(b, k))
  {
    if k > 0 {
      RepeatAppend(a, b, k - 1);
    }
  }

  /** `k` copies of one stone add `k` to its count and nothing else. */
  lemma {:induction false} RepeatOne(s: nat, k: nat, m: multiset<nat>)
    ensures m[s := m[s] + k] == m + multiset(Repeat([s], k))
  {
    if k > 0 {
      RepeatOne(s, k - 1, m);
      assert multiset(Repeat([s], k)) == multiset(Repeat([s], k - 1)) + multiset{s};
      forall y ensures m[s := m[s] + k][y] == (m + multiset(Repeat([s], k)))[y] {
        assert m[s := m[s] + (k - 1)][y] == (m + multiset(Repeat([s], k - 1)))[y];
      }
    }
  }

  /** Blinking `k` copies of a stone gives `k` copies of its rule's output. */
  lemma {:induction false} BlinkRepeat(x: nat, k: nat)
    ensures Blink(Repeat([x], k)) == Repeat(ApplyRules(x), k)
  {
    if k > 0 {
      BlinkRepeat(x, k - 1);
      BlinkAppend(Repeat([x], k - 1), [x]);
      BlinkOne(x);
    }
  }

  /**
   * `blink_with_counts`: the table of stone counts (a `HashMap` from stone to count, here the
   * multiset it denotes) after one blink. Each distinct stone `k` with count `v` adds `v` to the
   * count of every stone its rule produces. The result is the count table of `blink` applied to
   * any list with the given counts.
   */
  method BlinkWithCounts(counts: multiset<nat>) returns (next: multiset<nat>)
    ensures forall xs: seq<nat> | multiset(xs) == counts :: next == multiset(Blink(xs))
  {
    next := multiset{};
    var todo := set k | k in counts;
    ghost var done: seq<nat> := [];
    while todo != {}
      invariant forall y | y in todo :: y in counts
      invariant forall y :: multiset(done)[y] == if y in todo then 0 else counts[y]
      invariant next == multiset(Blink(done))
      decreases todo
    {
      var k :| k in todo;
      var v := counts[k];
      TakeKey(done, todo, counts, k);
      next := AddCopies(next, ApplyRules(k), v);
      BlinkStep(done, k, v);
      done := done + Repeat([k], v);
      todo := todo - {k};
    }
    assert multiset(done) == counts;
    forall xs: seq<nat> | multiset(xs) == counts
      ensures next == multiset(Blink(xs))
    {
      BlinkPermutation(done, xs);
    }
  }

  /** The inner `for_each` of `blink_with_counts`: add `v` to the count of every stone of `out`. */
  method AddCopies(counts: multiset<nat>, out: seq<nat>, v: nat) returns (next: multiset<nat>)
    ensures next == counts + multiset(Repeat(out, v))
  {
    next := counts;
    for j := 0 to |out|
      invariant next == counts + multiset(Repeat(out[..j], v))
    {
      AddOne(counts, out, v, j, next);
      next := next[out[j] := next[out[j]] + v];
    }
    assert out[..|out|] == out;
  }

  /** One more stone of `out` accounted for, `v` times. */
  lemma AddOne(counts: multiset<nat>, out: seq<nat>, v: nat, j: nat, next: multiset<nat>)
    requires j < |out| && next == counts + multiset(Repeat(out[..j], v))
    ensures next[out[j] := next[out[j]] + v] == counts + multiset(Repeat(out[..j + 1], v))
  {
    var done, one := multiset(Repeat(out[..j], v)), multiset(Repeat([out[j]], v));
    assert multiset(Repeat(out[..j + 1], v)) == done + one by {
      assert out[..j + 1] == out[..j] + [out[j]];
      RepeatAppend(out[..j], [out[j]], v);
    }
    assert next[out[j] := next[out[j]] + v] == next + one by {
      RepeatOne(out[j], v, next);
    }
    assert next + one == counts + (done + one);
  }

  /** Appending the `counts[k]` copies of a pending stone `k` moves it from pending to done. */
  lemma TakeKey(done: seq<nat>, todo: set<nat>, counts: multiset<nat>, k: nat)
    requires forall y :: multiset(done)[y] == if y in todo then 0 else counts[y]
    requires k in todo
    ensures forall y :: multiset(done + Repeat([k], counts[k]))[y] == if y in todo - {k} then 0 else counts[y]
  {
    RepeatOne(k, counts[k], multiset(done));
    assert multiset(done + Repeat([k], counts[k])) == multiset(done)[k := multiset(done)[k] + counts[k]];
  }

  /** Accounting for `v` more copies of stone `k`. */
  lemma BlinkStep(done: seq<nat>, k: nat, v: nat)
    ensures multiset(Blink(done + Repeat([k], v))) == multiset(Blink(done)) + multiset(Repeat(ApplyRules(k), v))
  {
    BlinkRepeat(k, v);
    BlinkAppend(done, Repeat([k], v));
  }

  /**
   * `blink75`: the count table of the stones of `ns`, blinked 75 times one table at a time. It is
   * the count table of the list `blink` would build in 75 steps, so its total is that list's length.
   */
  method Blink75(ns: seq<nat>) returns (counts: multiset<nat>)
    ensures counts == multiset(BlinkN(ns, 75))
    ensures |counts| == |BlinkN(ns, 75)|
  {
    counts := multiset(ns);
    for k := 0 to 75
      invariant counts == multiset(BlinkN(ns, k))
    {
      counts := BlinkWithCounts(counts);
    }
  }

  /** The split cases of the unit tests. */
  lemma SplitExamples()
    ensures MaybeSplitEven(0) == None && MaybeSplitEven(9) == None
    ensures MaybeSplitEven(100) == None && MaybeSplitEven(999) == None
    ensures MaybeSplitEven(10) == Some([1, 0]) && MaybeSplitEven(19) == Some([1, 9])
    ensures MaybeSplitEven(99) == Some([9, 9])
    ensures MaybeSplitEven(1000) == Some([10, 0]) && MaybeSplitEven(9999) == Some([99, 99])
  {
    assert Pow10(1) == 10 && Pow10(2) == 100;
  }

  /** One blink over `0 1 10 99 999`. */
  lemma FirstExample()
    ensures Blink([0, 1, 10, 99, 999]) == [1, 2024, 1, 0, 9, 9, 2021976]
  {
    var ns := [0, 1, 10, 99, 999];
    assert ns[..4] == [0, 1, 10, 99] && ns[..3] == [0, 1, 10] && ns[..2] == [0, 1] && ns[..1] == [0];
    assert Pow10(1) == 10 && Digits(1) == 1 && Digits(999) == 3;
    assert ApplyRules(10) == [1, 0] && ApplyRules(99) == [9, 9];
    assert [0, 1][..1] == [0] && [0, 1, 10][..2] == [0, 1] && [0, 1, 10, 99][..3] == [0, 1, 10];
    assert Blink([0, 1]) == [1, 2024];
    assert Blink([0, 1, 10]) == [1, 2024, 1, 0];
    assert Blink([0, 1, 10, 99]) == [1, 2024, 1, 0, 9, 9];
  }

  /** The first three blinks of `125 17`. */
  lemma SecondExampleStep1()
    ensures Blink([125, 17]) == [253000, 1, 7]
  {
    assert [125, 17][..1] == [125];
    assert Digits(125) == 3 && Digits(17) == 2 && Pow10(1) == 10;
  }

  lemma SecondExampleStep2()
    ensures Blink([253000, 1, 7]) == [253, 0, 2024, 14168]
  {
    assert [253000, 1, 7][..2] == [253000, 1] && [253000, 1][..1] == [253000];
    assert Digits(253000) == 6 && Digits(1) == 1 && Digits(7) == 1 && Pow10(3) == 1000;
  }

  lemma SecondExampleStep3()
    ensures Blink([253, 0, 2024, 14168]) == [512072, 1, 20, 24, 28676032]
  {
    assert [253, 0, 2024, 14168][..3] == [253, 0, 2024] && [253, 0, 2024][..2] == [253, 0];
    assert [253, 0][..1] == [253];
    assert Digits(253) == 3 && Digits(2024) == 4 && Digits(14168) == 5 && Pow10(2) == 100;
  }
}
