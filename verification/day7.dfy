/** src/day7.rs: calibration equations, evaluated strictly left to right. */
module Day7 {
  import opened Common
  import opened Text

  /** `ExtendedOp`; `Op` is the subset without concatenation. */
  datatype Operator = Plus | Times | Concat
  type Op = o: Operator | !o.Concat? witness Plus

  /** Rust's `l.to_string() + &r.to_string()` read back as a number, for a non-negative `r`. */
  function ConcatValue(l: int, r: nat): (v: int)
    ensures v < 0 <==> l < 0
  {
    var p := Pow10(Digits(r));
    if l >= 0 then
      assert l * p >= 0;
      l * p + r
    else
      assert l * p <= l;
      l * p - r
  }

  /**
   * `BinOp::eval`. Concatenation puts the digits of `r` after those of `l`; a negative `r` would put
   * a minus sign in the middle of the number and make Rust's parse panic, hence the precondition.
   */
  function EvalOp(o: Operator, l: int, r: int): (v: int)
    requires o.Concat? ==> r >= 0
    ensures o.Concat? ==> ParseInt(ShowInt(l) + ShowInt(r)) == Some(v)
  {
    match o
    case Plus => l + r
    case Times => l * r
    case Concat =>
      ConcatIsTextual(l, r);
      ConcatValue(l, r)
  }

  /** Concatenation is undone by splitting off the last `Digits(r)` decimal digits. */
  lemma ConcatSplits(l: nat, r: nat)
    ensures ConcatValue(l, r) / Pow10(Digits(r)) == l
    ensures ConcatValue(l, r) % Pow10(Digits(r)) == r
  {
    DigitsBounds(r);
    DivModUnique(ConcatValue(l, r), Pow10(Digits(r)), l, r);
  }

  /** For a positive `l` the digits of the concatenation are those of `l` followed by those of `r`. */
  lemma ConcatDigits(l: nat, r: nat)
    requires l > 0
    ensures Digits(ConcatValue(l, r)) == Digits(l) + Digits(r)
  {
    var dl, dr := Digits(l), Digits(r);
    var p := Pow10(dr);
    var v := l * p + r;
    assert v == ConcatValue(l, r);
    DigitsBounds(r);
    DigitsBounds(l);
    var lo, hi := Pow10(dl - 1), Pow10(dl);
    assert lo <= l < hi && r < p;
    Pow10Add(dl - 1, dr);
    Pow10Add(dl, dr);
    assert Pow10(dl + dr - 1) == lo * p && Pow10(dl + dr) == hi * p;
    LowerProduct(lo, l, p);
    LowerProduct(l + 1, hi, p);
    assert (l + 1) * p == l * p + p;
    DigitsOfBounds(v, dl + dr);
  }

  /**
   * The value `eval` computes on an operator list and an operand stack, in the order the loop pops
   * them: the top of the stack combined with the next one by the last operator, the result pushed
   * back, and so on while an operator and two operands remain; 0 when not even one step is possible.
   */
  function PopEval(ops: seq<Operator>, stack: seq<int>): int
    requires ConcatSafe(ops, stack)
  {
    if |ops| == 0 || |stack| < 2 then 0 else PopFold(ops, stack)
  }

  /** Every operand that can meet a concatenation is non-negative. */
  predicate ConcatSafe(ops: seq<Operator>, stack: seq<int>)
  {
    Concat in ops ==> forall i | 0 <= i < |stack| - 1 :: stack[i] >= 0
  }

  function PopFold(ops: seq<Operator>, stack: seq<int>): int
    requires |ops| >= 1 && |stack| >= 2 && ConcatSafe(ops, stack)
    decreases |ops|
  {
    var v := EvalOp(ops[|ops| - 1], stack[|stack| - 1], stack[|stack| - 2]);
    var stack' := stack[..|stack| - 2] + [v];
    if |ops| == 1 || |stack'| < 2 then v else PopFold(ops[..|ops| - 1], stack')
  }

  /** `eval`: pop an operator and two operands, push the result, until one of them runs out. */
  method Eval(ops: seq<Operator>, operands: seq<int>) returns (res: int)
    requires ConcatSafe(ops, operands)
    ensures res == PopEval(ops, operands)
  {
    res := 0;
    var os, stack := ops, operands;
    while |os| >= 1 && |stack| >= 2
      invariant ConcatSafe(os, stack)
      invariant PopEval(ops, operands) == if |os| >= 1 && |stack| >= 2 then PopFold(os, stack) else res
      decreases |os|
    {
      var op, l, r := os[|os| - 1], stack[|stack| - 1], stack[|stack| - 2];
      var v := EvalOp(op, l, r);
      res := v;
      ghost var os0, stack0 := os, stack;
      os := os[..|os| - 1];
      stack := stack[..|stack| - 2] + [v];
      assert ConcatSafe(os, stack) by {
        if Concat in os {
          assert os0 == os + [op];
          assert Concat in os0;
          assert forall i | 0 <= i < |stack| - 1 :: stack[i] == stack0[i];
        }
      }
    }
  }

  /**
   * The reading of the puzzle: starting from `acc`, combine with each operand in turn,
   * `((acc p0 y0) p1 y1) ...`, for as long as both an operand and an operator remain.
   */
  function Fold(acc: int, ys: seq<int>, ps: seq<Operator>): int
    requires Concat in ps ==> forall i | 0 <= i < |ys| :: ys[i] >= 0
    decreases |ys|
  {
    if ps == [] || ys == [] then acc
    else Fold(EvalOp(ps[0], acc, ys[0]), ys[1..], ps[1..])
  }

  /** `x0 o0 x1 o1 x2 ...` evaluated left to right, ignoring the usual precedence of `*`. */
  function LeftFold(xs: seq<int>, os: seq<Operator>): int
    requires |xs| == |os| + 1
    requires Concat in os ==> forall i | 1 <= i < |xs| :: xs[i] >= 0
  {
    Fold(xs[0], xs[1..], os)
  }

  function Reverse<T>(s: seq<T>): (r: seq<T>)
    ensures |r| == |s| && forall i | 0 <= i < |s| :: r[i] == s[|s| - 1 - i]
  {
    if s == [] then [] else [s[|s| - 1]] + Reverse(s[..|s| - 1])
  }

  /**
   * The callers push the operands reversed, so `eval` with `n` operators on `n + 1` operands
   * applies the last operator first: it is the left-to-right evaluation with the operators reversed.
   */
  lemma EvalLeftToRight(os: seq<Operator>, xs: seq<int>)
    requires |xs| == |os| + 1 && |os| >= 1
    requires Concat in os ==> forall i | 1 <= i < |xs| :: xs[i] >= 0
    ensures ConcatSafe(os, Reverse(xs))
    ensures PopEval(os, Reverse(xs)) == LeftFold(xs, Reverse(os))
  {
    assert Reverse(xs) == Reverse(xs[1..]) + [xs[0]];
    PopFoldIsFold(os, xs[1..], xs[0]);
  }

  /** With `acc` on top of the reversed operands `ys`, popping is folding from `acc`. */
  lemma {:induction false} PopFoldIsFold(os: seq<Operator>, ys: seq<int>, acc: int)
    requires |os| >= 1 && |ys| >= 1
    requires Concat in os ==> forall i | 0 <= i < |ys| :: ys[i] >= 0
    ensures ConcatSafe(os, Reverse(ys) + [acc])
    ensures PopFold(os, Reverse(ys) + [acc]) == Fold(acc, ys, Reverse(os))
    decreases |os|
  {
    var st := Reverse(ys) + [acc];
    assert ConcatSafe(os, st) by {
      if Concat in os {
        forall i | 0 <= i < |st| - 1 ensures st[i] >= 0 {
          assert st[i] == ys[|ys| - 1 - i];
        }
      }
    }
    assert Concat in Reverse(os) ==> Concat in os by {
      if Concat in Reverse(os) {
        var j :| 0 <= j < |os| && Reverse(os)[j] == Concat;
        assert os[|os| - 1 - j] == Concat;
      }
    }
    var v := EvalOp(os[|os| - 1], acc, ys[0]);
    assert st[|st| - 2] == ys[0];
    assert st[..|st| - 2] + [v] == Reverse(ys[1..]) + [v];
    assert Reverse(os)[0] == os[|os| - 1];
    if |os| > 1 && |ys| > 1 {
      var os' := os[..|os| - 1];
      assert Concat in os' ==> Concat in os;
      PopFoldIsFold(os', ys[1..], v);
      assert Reverse(os)[1..] == Reverse(os');
    }
  }

  /**
   * `product_with_repeat(items, n)`: every length-`n` tuple over `items`, the last position varying
   * fastest (the order of itertools' `multi_cartesian_product`).
   */
  function Product<T(==)>(items: seq<T>, n: nat): (r: seq<seq<T>>)
    ensures |r| == Power(|items|, n)
    ensures forall k | 0 <= k < |r| :: Draws(r[k], items)
  {
    if n == 0 then [[]]
    else
      ExtendDraws(Product(items, n - 1), items);
      Extend(Product(items, n - 1), items)
  }

  /** Each tuple of `ts`, in order, extended by each item, in order. */
  function Extend<T(==)>(ts: seq<seq<T>>, items: seq<T>): (r: seq<seq<T>>)
    ensures |r| == |ts| * |items|
  {
    if ts == [] then [] else seq(|items|, j requires 0 <= j < |items| => ts[0] + [items[j]]) + Extend(ts[1..], items)
  }

  /** Extending tuples drawn from `items` by items gives tuples drawn from `items`. */
  lemma {:induction false} ExtendDraws<T>(ts: seq<seq<T>>, items: seq<T>)
    requires forall k | 0 <= k < |ts| :: Draws(ts[k], items)
    ensures forall k | 0 <= k < |Extend(ts, items)| :: Draws(Extend(ts, items)[k], items)
    decreases |ts|
  {
    if ts != [] {
      ExtendDraws(ts[1..], items);
      var head := seq(|items|, j requires 0 <= j < |items| => ts[0] + [items[j]]);
      forall k | 0 <= k < |head| ensures Draws(head[k], items) {
        assert head[k] == ts[0] + [items[k]];
      }
    }
  }

  /** A tuple drawn from an alphabet without concatenation has none. */
  lemma DrawsConcat(t: seq<Operator>, alphabet: seq<Operator>)
    requires Draws(t, alphabet)
    ensures Concat in t ==> Concat in alphabet
  {
    if Concat in t {
      var i :| 0 <= i < |t| && t[i] == Concat;
    }
  }

  /** Every position of `t` holds one of `items`. */
  predicate Draws<T(==)>(t: seq<T>, items: seq<T>)
  {
    forall i | 0 <= i < |t| :: t[i] in items
  }

  function Power(b: nat, n: nat): nat
  {
    if n == 0 then 1 else Power(b, n - 1) * b
  }

  /** Reference: the tuple whose positions are the base-`|items|` digits of `i`, most significant first. */
  function Numeral<T>(items: seq<T>, n: nat, i: nat): (t: seq<T>)
    requires |items| > 0
    ensures |t| == n
  {
    if n == 0 then [] else Numeral(items, n - 1, i / |items|) + [items[i % |items|]]
  }

  /** The `i`-th tuple of the product is the numeral of `i`: the product lists the tuples in lexicographic order. */
  lemma {:induction false} ProductNumeral<T>(items: seq<T>, n: nat, i: nat)
    requires |items| > 0 && i < Power(|items|, n)
    ensures Product(items, n)[i] == Numeral(items, n, i)
  {
    if n > 0 {
      var m := |items|;
      ExtendIndex(Product(items, n - 1), items, i);
      DivBounds(i, m, 0, Power(m, n - 1));
      ProductNumeral(items, n - 1, i / m);
    }
  }

  /** Indexing into `Extend`. */
  lemma {:induction false} ExtendIndex<T>(ts: seq<seq<T>>, items: seq<T>, i: nat)
    requires |items| > 0 && i < |ts| * |items|
    ensures i / |items| < |ts|
    ensures Extend(ts, items)[i] == ts[i / |items|] + [items[i % |items|]]
    decreases |ts|
  {
    var m := |items|;
    if i < m {
      DivModUnique(i, m, 0, i);
    } else {
      var rest := ts[1..];
      MulPred(|ts|, m);
      assert i - m < |rest| * m;
      ExtendIndex(rest, items, i - m);
      DivModUnique(i, m, (i - m) / m + 1, (i - m) % m);
    }
  }

  /** `(a - 1) * m == a * m - m`. */
  lemma MulPred(a: nat, m: nat)
    requires a >= 1
    ensures (a - 1) * m == a * m - m
  {
  }

  /** The unit test: the eight binary triples in order. */
  lemma ProductExample()
    ensures Product([0, 1], 3) == [[0, 0, 0], [0, 0, 1], [0, 1, 0], [0, 1, 1], [1, 0, 0], [1, 0, 1], [1, 1, 0], [1, 1, 1]]
  {
    var p := Product([0, 1], 3);
    assert |p| == Power(2, 3) == 8;
    ProductExampleLow();
    ProductExampleHigh();
  }

  /** The first four triples start with 0. */
  lemma ProductExampleLow()
    ensures var p := Product([0, 1], 3);
      |p| == 8 && p[0] == [0, 0, 0] && p[1] == [0, 0, 1] && p[2] == [0, 1, 0] && p[3] == [0, 1, 1]
  {
    var p := Product([0, 1], 3);
    assert |p| == Power(2, 3) == 8;
    assert p[0] == [0, 0, 0] by {
      ProductNumeral([0, 1], 3, 0);
      assert Numeral([0, 1], 1, 0) == [0];
      assert Numeral([0, 1], 2, 0) == [0, 0];
    }
    assert p[1] == [0, 0, 1] by {
      ProductNumeral([0, 1], 3, 1);
      assert Numeral([0, 1], 1, 0) == [0];
      assert Numeral([0, 1], 2, 0) == [0, 0];
    }
    assert p[2] == [0, 1, 0] by {
      ProductNumeral([0, 1], 3, 2);
      assert Numeral([0, 1], 1, 0) == [0];
      assert Numeral([0, 1], 2, 1) == [0, 1];
    }
    assert p[3] == [0, 1, 1] by {
      ProductNumeral([0, 1], 3, 3);
      assert Numeral([0, 1], 1, 0) == [0];
      assert Numeral([0, 1], 2, 1) == [0, 1];
    }
  }

  /** The last four triples start with 1. */
  lemma ProductExampleHigh()
    ensures var p := Product([0, 1], 3);
      |p| == 8 && p[4] == [1, 0, 0] && p[5] == [1, 0, 1] && p[6] == [1, 1, 0] && p[7] == [1, 1, 1]
  {
    assert |Product([0, 1], 3)| == Power(2, 3) == 8;
    ProductExampleFourFive();
    ProductExampleSixSeven();
  }

  /** The triples 4 and 5 start with 1, 0. */
  lemma ProductExampleFourFive()
    ensures var p := Product([0, 1], 3); |p| == 8 && p[4] == [1, 0, 0] && p[5] == [1, 0, 1]
  {
    var p := Product([0, 1], 3);
    assert |p| == Power(2, 3) == 8;
    assert Numeral([0, 1], 1, 1) == [1];
    assert Numeral([0, 1], 2, 2) == [1, 0];
    ProductNumeral([0, 1], 3, 4);
    ProductNumeral([0, 1], 3, 5);
  }

  /** The triples 6 and 7 start with 1, 1. */
  lemma ProductExampleSixSeven()
    ensures var p := Product([0, 1], 3); |p| == 8 && p[6] == [1, 1, 0] && p[7] == [1, 1, 1]
  {
    var p := Product([0, 1], 3);
    assert |p| == Power(2, 3) == 8;
    assert Numeral([0, 1], 1, 1) == [1];
    assert Numeral([0, 1], 2, 3) == [1, 1];
    ProductNumeral([0, 1], 3, 6);
    ProductNumeral([0, 1], 3, 7);
  }

  /** Lines of the example: `190: 10 19`, `3267: 81 40 27`, `156: 15 6` and `7290: 6 8 6 15`. */
  lemma EquationExamples()
    ensures LeftFold([10, 19], [Times]) == 190
    ensures LeftFold([81, 40, 27], [Plus, Times]) == 3267
    ensures LeftFold([81, 40, 27], [Times, Plus]) == 3267
    ensures LeftFold([15, 6], [Concat]) == 156
    ensures LeftFold([6, 8, 6, 15], [Times, Concat, Times]) == 7290
  {
    assert Digits(6) == 1 && Pow10(1) == 10;
    assert [81, 40, 27][..2] == [81, 40] && [6, 8, 6, 15][..3] == [6, 8, 6] && [6, 8, 6][..2] == [6, 8];
  }

  /**
   * The partner of `ConcatValue`: it is what Rust computes, writing both numbers in decimal one
   * after the other and parsing the result.
   */
  lemma ConcatIsTextual(l: int, r: nat)
    ensures ParseInt(ShowInt(l) + ShowInt(r)) == Some(ConcatValue(l, r))
  {
    if l < 0 {
      NegativeTextual(l, r);
    } else {
      NonNegativeTextual(l, r);
    }
  }

  lemma NonNegativeTextual(l: nat, r: nat)
    ensures ParseInt(ShowInt(l) + ShowInt(r)) == Some(ConcatValue(l, r))
  {
    var s := ShowNat(l) + ShowNat(r);
    assert ShowInt(l) + ShowInt(r) == s;
    ConcatDigitsValue(l, r);
    ParseDigits(s);
  }

  lemma NegativeTextual(l: int, r: nat)
    requires l < 0
    ensures ParseInt(ShowInt(l) + ShowInt(r)) == Some(ConcatValue(l, r))
  {
    var m: nat := -l;
    var s := ShowNat(m) + ShowNat(r);
    assert ShowInt(l) + ShowInt(r) == ['-'] + s;
    ConcatDigitsValue(m, r);
    ParseDigits(s);
    NegatedConcat(l, m, r);
  }

  lemma ConcatDigitsValue(m: nat, r: nat)
    ensures AllDigits(ShowNat(m) + ShowNat(r))
    ensures Value(ShowNat(m) + ShowNat(r)) == m * Pow10(Digits(r)) + r
  {
    ValueAppend(ShowNat(m), ShowNat(r));
    ValueShow(m);
    ValueShow(r);
  }

  lemma NegatedConcat(l: int, m: nat, r: nat)
    requires l < 0 && m == -l
    ensures 0 - (m * Pow10(Digits(r)) + r) == ConcatValue(l, r)
  {
    var p := Pow10(Digits(r));
    assert -(m * p) == l * p;
  }

  /** The operators `enum_iterator::all` lists, in declaration order. */
  function Alphabet(extended: bool): (ops: seq<Operator>)
    ensures forall i | 0 <= i < |ops| :: ops[i].Concat? ==> extended
  {
    if extended then [Plus, Times, Concat] else [Plus, Times]
  }

  /**
   * Concatenation, when the alphabet has it, only ever meets non-negative right operands: every
   * operand but the first, which is where `eval` starts.
   */
  predicate ConcatReady(operands: seq<int>, alphabet: seq<Operator>)
  {
    Concat in alphabet ==> forall i | 1 <= i < |operands| :: operands[i] >= 0
  }

  /**
   * The check of the tests: some operator tuple from `product_with_repeat(all, n - 1)` makes `eval`
   * of the reversed operands return the expected value.
   */
  predicate Calibrated(expected: int, operands: seq<int>, alphabet: seq<Operator>)
    requires |operands| >= 1 && ConcatReady(operands, alphabet)
  {
    var tuples := Product(alphabet, |operands| - 1);
    var stack := Reverse(operands);
    exists k | 0 <= k < |tuples| :: PopEval(tuples[k], stack) == expected
  }

  /** A tuple is in `Product` exactly when it has the length and draws from `items`. */
  lemma ProductMembers<T>(items: seq<T>, n: nat, t: seq<T>)
    requires |items| > 0
    ensures t in Product(items, n) <==> |t| == n && forall i | 0 <= i < n :: t[i] in items
  {
    if t in Product(items, n) {
      var k :| 0 <= k < |Product(items, n)| && Product(items, n)[k] == t;
      ProductNumeral(items, n, k);
      NumeralMembers(items, n, k);
    }
    if |t| == n && forall i | 0 <= i < n :: t[i] in items {
      ProductComplete(items, n, t);
    }
  }

  lemma {:induction false} ProductComplete<T>(items: seq<T>, n: nat, t: seq<T>)
    requires |items| > 0 && |t| == n && forall i | 0 <= i < n :: t[i] in items
    ensures t in Product(items, n)
    decreases n
  {
    if n > 0 {
      var t' := t[..n - 1];
      ProductComplete(items, n - 1, t');
      var prev := Product(items, n - 1);
      var k :| 0 <= k < |prev| && prev[k] == t';
      var j :| 0 <= j < |items| && items[j] == t[n - 1];
      var m := |items|;
      var i := k * m + j;
      IndexBound(k, j, m, |prev|);
      ExtendIndex(prev, items, i);
      DivModUnique(i, m, k, j);
      assert t == t' + [t[n - 1]];
      assert Product(items, n)[i] == t;
    } else {
      assert t == [];
    }
  }

  lemma IndexBound(k: nat, j: nat, m: nat, len: nat)
    requires k < len && j < m
    ensures k * m + j < len * m
  {
    assert (k + 1) * m <= len * m;
  }

  lemma {:induction false} NumeralMembers<T>(items: seq<T>, n: nat, i: nat)
    requires |items| > 0
    ensures forall k | 0 <= k < n :: Numeral(items, n, i)[k] in items
    decreases n
  {
    if n > 0 {
      NumeralMembers(items, n - 1, i / |items|);
    }
  }

  lemma {:induction false} ReverseReverse<T>(s: seq<T>)
    ensures Reverse(Reverse(s)) == s
  {
  }

  /**
   * An equation of at least two operands passes the check exactly when some choice of operators
   * from the alphabet, evaluated left to right, gives the expected value. A single operand meets no
   * operator, so `eval` returns 0 and the line passes exactly when it expects 0.
   */
  lemma CalibratedIff(expected: int, operands: seq<int>, alphabet: seq<Operator>)
    requires |operands| >= 1 && |alphabet| > 0 && ConcatReady(operands, alphabet)
    ensures |operands| == 1 ==> (Calibrated(expected, operands, alphabet) <==> expected == 0)
    ensures |operands| >= 2 ==> (Calibrated(expected, operands, alphabet) <==>
      exists os: seq<Operator> | |os| == |operands| - 1 && Draws(os, alphabet) :: LeftFold(operands, os) == expected)
  {
    if |operands| == 1 {
      var tuples := Product(alphabet, 0);
      assert tuples == [[]] && Reverse(operands) == operands;
      assert PopEval(tuples[0], Reverse(operands)) == 0;
      return;
    }
    if Calibrated(expected, operands, alphabet) {
      CalibratedWitness(expected, operands, alphabet);
    }
    if exists os: seq<Operator> | |os| == |operands| - 1 && Draws(os, alphabet) :: LeftFold(operands, os) == expected {
      var os: seq<Operator> :| |os| == |operands| - 1 && Draws(os, alphabet) && LeftFold(operands, os) == expected;
      WitnessCalibrated(expected, operands, alphabet, os);
    }
  }

  /** The tuple that hits the expected value, reversed, is a left-to-right choice of operators that does. */
  lemma CalibratedWitness(expected: int, operands: seq<int>, alphabet: seq<Operator>)
    requires |operands| >= 2 && |alphabet| > 0 && ConcatReady(operands, alphabet)
    requires Calibrated(expected, operands, alphabet)
    ensures exists os: seq<Operator> | |os| == |operands| - 1 && Draws(os, alphabet) :: LeftFold(operands, os) == expected
  {
    var n := |operands| - 1;
    var tuples := Product(alphabet, n);
    var k :| 0 <= k < |tuples| && PopEval(tuples[k], Reverse(operands)) == expected;
    var t := tuples[k];
    assert |t| == n && forall i | 0 <= i < n :: t[i] in alphabet by {
      ProductMembers(alphabet, n, t);
    }
    var os := Reverse(t);
    assert LeftFold(operands, os) == expected by {
      DrawsConcat(t, alphabet);
      EvalLeftToRight(t, operands);
    }
    assert Draws(os, alphabet) by {
      forall i | 0 <= i < |os| ensures os[i] in alphabet {
        assert os[i] == t[n - 1 - i];
      }
    }
    assert |os| == |operands| - 1;
  }

  /** A left-to-right choice of operators that hits the expected value appears, reversed, among the tuples. */
  lemma WitnessCalibrated(expected: int, operands: seq<int>, alphabet: seq<Operator>, os: seq<Operator>)
    requires |operands| >= 2 && |alphabet| > 0 && ConcatReady(operands, alphabet)
    requires |os| == |operands| - 1 && Draws(os, alphabet) && LeftFold(operands, os) == expected
    ensures Calibrated(expected, operands, alphabet)
  {
    var n := |operands| - 1;
    var tuples := Product(alphabet, n);
    var t := Reverse(os);
    assert |t| == n && Draws(t, alphabet) by {
      assert forall i | 0 <= i < |t| :: t[i] == os[|os| - 1 - i];
    }
    ProductMembers(alphabet, n, t);
    var k :| 0 <= k < |tuples| && tuples[k] == t;
    ReverseReverse(os);
    DrawsConcat(t, alphabet);
    EvalLeftToRight(t, operands);
    assert PopEval(tuples[k], Reverse(operands)) == expected;
  }

  /** `83: 17 5` passes neither check: 17 + 5, 17 * 5 and 175 all miss. */
  lemma NotCalibratedExample(extended: bool)
    ensures !Calibrated(83, [17, 5], Alphabet(extended))
  {
    CalibratedIff(83, [17, 5], Alphabet(extended));
    forall os: seq<Operator> | |os| == 1 && Draws(os, Alphabet(extended))
      ensures LeftFold([17, 5], os) != 83
    {
      assert os == [os[0]];
      assert Digits(5) == 1;
    }
  }

  /** `190: 10 19` passes with `*`; `156: 15 6` passes once concatenation is allowed. */
  lemma CalibratedExamples()
    ensures Calibrated(190, [10, 19], Alphabet(false))
    ensures Calibrated(156, [15, 6], Alphabet(true))
  {
    CalibratedTimes();
    CalibratedConcat();
  }

  /** `190: 10 19` with `*`. */
  lemma CalibratedTimes()
    ensures Calibrated(190, [10, 19], Alphabet(false))
  {
    CalibratedIff(190, [10, 19], Alphabet(false));
    assert LeftFold([10, 19], [Times]) == 190;
  }

  /** `156: 15 6` with `||`. */
  lemma CalibratedConcat()
    ensures Calibrated(156, [15, 6], Alphabet(true))
  {
    CalibratedIff(156, [15, 6], Alphabet(true));
    assert Digits(6) == 1 && Pow10(1) == 10;
    assert LeftFold([15, 6], [Concat]) == 156;
  }

  /** A single operand and no operator: `eval` returns 0, whatever the operand. */
  lemma SingleOperand(x: int)
    ensures PopEval([], [x]) == 0
  {
  }

  /**
   * One line of `parse`: the target before `": "`, then the operands separated by single spaces.
   * `None` where an `unwrap` panics: no `": "`, or a piece that is not a number. An equation read
   * has one operand per space-separated piece, so at least one.
   */
  function ParseEquation(line: seq<char>): (r: Option<(int, seq<int>)>)
    ensures |Split(line, ": ")| < 2 ==> r.None?
    ensures r.Some? ==> Some(r.value.0) == ParseInt(Split(line, ": ")[0])
    ensures r.Some? ==> |r.value.1| == |Split(Split(line, ": ")[1], " ")| >= 1
  {
    var parts := Split(line, ": ");
    if |parts| < 2 then None
    else
      match (ParseInt(parts[0]), ParseInts(Split(parts[1], " ")))
      case (Some(t), Some(xs)) => Some((t, xs))
      case _ => None
  }

  /** `parse`: one equation per line; a line that does not parse makes the whole input fail. */
  function Parse(data: seq<char>): (r: Option<seq<(int, seq<int>)>>)
    ensures r.Some? ==> |r.value| == |Lines(data)| && forall i | 0 <= i < |r.value| :: ParseEquation(Lines(data)[i]) == Some(r.value[i])
    ensures r.None? ==> exists i | 0 <= i < |Lines(data)| :: ParseEquation(Lines(data)[i]).None?
  {
    ParseEquations(Lines(data))
  }

  function ParseEquations(lines: seq<seq<char>>): (r: Option<seq<(int, seq<int>)>>)
    ensures r.Some? ==> |r.value| == |lines| && forall i | 0 <= i < |lines| :: ParseEquation(lines[i]) == Some(r.value[i])
    ensures r.None? ==> exists i | 0 <= i < |lines| :: ParseEquation(lines[i]).None?
  {
    if lines == [] then Some([])
    else
      var rest := lines[1..];
      match (ParseEquation(lines[0]), ParseEquations(rest))
      case (Some(e), Some(es)) =>
        var r := [e] + es;
        forall i | 1 <= i < |lines| ensures ParseEquation(lines[i]) == Some(r[i]) {
          assert lines[i] == rest[i - 1] && r[i] == es[i - 1];
        }
        Some(r)
      case (None, _) => None
      case (_, None) =>
        var i :| 0 <= i < |rest| && ParseEquation(rest[i]).None?;
        assert lines[i + 1] == rest[i];
        None
  }

  /** The line `parse` reads back as `(t, xs)`. */
  function FormatEquation(t: int, xs: seq<int>): seq<char>
  {
    ShowInt(t) + ": " + Join(ShowInts(xs), " ")
  }

  /** `parse` reads back every line written by `FormatEquation`, as long as it has an operand. */
  lemma ParseFormatEquation(t: int, xs: seq<int>)
    requires |xs| >= 1
    ensures ParseEquation(FormatEquation(t, xs)) == Some((t, xs))
  {
    var ss := ShowInts(xs);
    forall i | 0 <= i < |ss| ensures Avoids(ss[i], " ") && Free(ss[i], ':') {
      ShowIntFree(xs[i], ' ');
      ShowIntFree(xs[i], ':');
    }
    JoinSplit(ss, " ");
    var rest := Join(ss, " ");
    JoinFree(ss, " ", ':');
    ShowIntFree(t, ':');
    JoinSplit([ShowInt(t), rest], ": ");
    assert Join([ShowInt(t), rest], ": ") == FormatEquation(t, xs);
    ParseShow(0, t);
    ParseShowInts(xs);
  }

  /** The first line of the example. */
  lemma ParseExample()
    ensures ParseEquation("190: 10 19") == Some((190, [10, 19]))
  {
    assert ShowInt(190) == "190" && ShowInt(10) == "10" && ShowInt(19) == "19";
    assert ShowInts([10, 19]) == ["10", "19"];
    assert FormatEquation(190, [10, 19]) == "190: 10 19";
    ParseFormatEquation(190, [10, 19]);
  }
}
