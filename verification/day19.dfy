/**
 * Towel arrangements (src/day19.rs): a pattern of stripe colours is to be written as a
 * concatenation of available towels. `search` finds one arrangement by depth-first search over
 * paths of towels, trying towels in list order; `search_combos` counts all arrangements, threading
 * a memo table from pattern to count. `parse` reads the towel list and the patterns.
 *
 * Towels and patterns are sequences of any equality type: the search reads bytes and the counter
 * reads characters, which coincide for ASCII input.
 */
module Day19 {
  import opened Common
  import opened Text

  /** Every towel has at least one stripe; `search` reads `t[0]` and `search_combos` recurses on the rest. */
  predicate Towels<T>(towels: seq<seq<T>>)
  {
    forall i | 0 <= i < |towels| :: |towels[i]| >= 1
  }

  /** The pieces of `path` laid end to end. */
  function Flatten<T>(path: seq<seq<T>>): (r: seq<T>)
    ensures |path| == 0 ==> r == []
  {
    if |path| == 0 then [] else Flatten(path[..|path| - 1]) + path[|path| - 1]
  }

  /** The zip of `cur` and `pattern` agrees wherever both have a stripe. */
  predicate Agree<T(==)>(cur: seq<T>, pattern: seq<T>)
  {
    forall i | 0 <= i < |cur| && i < |pattern| :: cur[i] == pattern[i]
  }

  /** How many stripes of the pattern are still to be covered, or 0 once it is overshot. */
  function Remaining<T>(pattern: seq<T>, path: seq<seq<T>>): nat
  {
    if |Flatten(path)| <= |pattern| then |pattern| - |Flatten(path)| else 0
  }

  /**
   * `search`: `None` when the path already disagrees with the pattern or overshoots it; the
   * path itself when it covers the pattern exactly; otherwise the first success over the towels.
   */
  function Search<T(==)>(towels: seq<seq<T>>, pattern: seq<T>, path: seq<seq<T>>): (r: Option<seq<seq<T>>>)
    requires Towels(towels)
    ensures r.Some? ==> Flatten(r.value) == pattern && ExtendsWithTowels(towels, r.value, path)
    decreases Remaining(pattern, path), 1, 0
  {
    var cur := Flatten(path);
    if !Agree(cur, pattern) || |cur| > |pattern| then None
    else if |cur| == |pattern| then
      assert cur == pattern;
      Some(path)
    else TryTowels(towels, pattern, path, 0)
  }

  /**
   * The loop of `search` from towel `i` on: extend the path by each towel whose first stripe is the
   * next one. A success covers the pattern exactly and only adds towels to the given path.
   */
  function TryTowels<T(==)>(towels: seq<seq<T>>, pattern: seq<T>, path: seq<seq<T>>, i: nat): (r: Option<seq<seq<T>>>)
    requires Towels(towels) && |Flatten(path)| < |pattern| && i <= |towels|
    ensures r.Some? ==> Flatten(r.value) == pattern && ExtendsWithTowels(towels, r.value, path)
    decreases Remaining(pattern, path), 0, |towels| - i
  {
    if i == |towels| then None
    else
      var t := towels[i];
      var next := path + [t];
      FlattenPush(path, t);
      if t[0] == pattern[|Flatten(path)|] then
        match Search(towels, pattern, next)
        case Some(r) =>
          assert r[..|path|] == r[..|next|][..|path|];
          assert r[|path|] == r[..|next|][|path|];
          Some(r)
        case None => TryTowels(towels, pattern, path, i + 1)
      else TryTowels(towels, pattern, path, i + 1)
  }

  lemma FlattenPush<T>(path: seq<seq<T>>, t: seq<T>)
    ensures Flatten(path + [t]) == Flatten(path) + t
  {
    assert (path + [t])[..|path|] == path;
  }

  /** `p` is an arrangement of towels for `s`. */
  predicate Arrangement<T(==)>(towels: seq<seq<T>>, p: seq<seq<T>>, s: seq<T>)
  {
    (forall k | 0 <= k < |p| :: p[k] in towels) && Flatten(p) == s
  }

  /** `path` followed only by towels. */
  predicate ExtendsWithTowels<T(==)>(towels: seq<seq<T>>, r: seq<seq<T>>, path: seq<seq<T>>)
  {
    |path| <= |r| && r[..|path|] == path && forall k | |path| <= k < |r| :: r[k] in towels
  }

  /**
   * `search` fails only when no arrangement of the rest of the pattern exists: given an
   * arrangement `q` of what follows an agreeing path, the search succeeds.
   */
  lemma {:induction false} SearchComplete<T>(towels: seq<seq<T>>, pattern: seq<T>, path: seq<seq<T>>, q: seq<seq<T>>)
    requires Towels(towels)
    requires |Flatten(path)| <= |pattern| && Flatten(path) == pattern[..|Flatten(path)|]
    requires Arrangement(towels, q, pattern[|Flatten(path)|..])
    ensures Search(towels, pattern, path).Some?
    decreases Remaining(pattern, path), 1, 0
  {
    var cur := Flatten(path);
    assert Agree(cur, pattern) by {
      forall i | 0 <= i < |cur| && i < |pattern| ensures cur[i] == pattern[i] {
        assert pattern[..|cur|][i] == pattern[i];
      }
    }
    if |cur| < |pattern| {
      assert |q| > 0;
      var j :| 0 <= j < |towels| && towels[j] == q[0];
      TryComplete(towels, pattern, path, q, 0, j);
    }
  }

  lemma {:induction false} TryComplete<T>(towels: seq<seq<T>>, pattern: seq<T>, path: seq<seq<T>>, q: seq<seq<T>>, i: nat, j: nat)
    requires Towels(towels)
    requires |Flatten(path)| < |pattern| && Flatten(path) == pattern[..|Flatten(path)|]
    requires Arrangement(towels, q, pattern[|Flatten(path)|..])
    requires i <= j < |towels| && |q| > 0 && towels[j] == q[0]
    ensures TryTowels(towels, pattern, path, i).Some?
    decreases Remaining(pattern, path), 0, |towels| - i
  {
    var t := towels[i];
    var next := path + [t];
    FlattenPush(path, t);
    var n := |Flatten(path)|;
    var rest := pattern[n..];
    FlattenFront(q);
    assert rest == q[0] + Flatten(q[1..]);
    if i == j {
      assert t[0] == rest[0] == pattern[n];
      assert pattern[..n + |t|] == pattern[..n] + t by {
        assert rest[..|t|] == t;
      }
      assert pattern[n + |t|..] == Flatten(q[1..]) by {
        assert rest[|t|..] == Flatten(q[1..]);
      }
      assert Arrangement(towels, q[1..], pattern[|Flatten(next)|..]) by {
        forall k | 0 <= k < |q[1..]| ensures q[1..][k] in towels {
          assert q[1..][k] == q[k + 1];
        }
      }
      SearchComplete(towels, pattern, next, q[1..]);
    } else if t[0] == pattern[n] && Search(towels, pattern, next).Some? {
    } else {
      TryComplete(towels, pattern, path, q, i + 1, j);
    }
  }

  lemma {:induction false} FlattenFront<T>(p: seq<seq<T>>)
    requires |p| > 0
    ensures Flatten(p) == p[0] + Flatten(p[1..])
    decreases |p|
  {
    if |p| > 1 {
      var last := p[|p| - 1];
      FlattenFront(p[..|p| - 1]);
      assert p[..|p| - 1][1..] == p[1..][..|p[1..]| - 1];
      assert p[..|p| - 1][0] == p[0];
    }
  }

  /** `search` from the empty path succeeds exactly when the pattern has an arrangement, and returns one. */
  lemma SearchFinds<T>(towels: seq<seq<T>>, pattern: seq<T>)
    requires Towels(towels)
    ensures Search(towels, pattern, []).Some? <==> exists q :: Arrangement(towels, q, pattern)
    ensures Search(towels, pattern, []).Some? ==> Arrangement(towels, Search(towels, pattern, []).value, pattern)
  {
    var r := Search(towels, pattern, []);
    if r.Some? {
      assert r.value[..0] == [];
      assert Arrangement(towels, r.value, pattern);
    }
    if q :| Arrangement(towels, q, pattern) {
      assert pattern[..0] == [] && pattern[0..] == pattern;
      SearchComplete(towels, pattern, [], q);
    }
  }

  // search_combos

  /** Whether towel `t` can start `s`, as the filter of `search_combos` decides. */
  predicate Starts<T(==)>(t: seq<T>, s: seq<T>)
  {
    |t| <= |s| && s[..|t|] == t
  }

  /**
   * The number of arrangements of `s`: one for the empty pattern, otherwise, for every towel
   * that starts it, the arrangements of what follows it.
   */
  function Ways<T(==)>(towels: seq<seq<T>>, s: seq<T>): nat
    decreases |s|, |towels| + 1
  {
    if |s| == 0 then 1 else WaysUpTo(towels, s, |towels|)
  }

  /** The part of the sum for a non-empty `s` contributed by the first `n` towels. */
  function WaysUpTo<T(==)>(towels: seq<seq<T>>, s: seq<T>, n: nat): nat
    requires n <= |towels|
    decreases |s|, n
  {
    if n == 0 then 0
    else
      var t := towels[n - 1];
      WaysUpTo(towels, s, n - 1) + if 1 <= |t| && Starts(t, s) then Ways(towels, s[|t|..]) else 0
  }

  /** There is an arrangement exactly when the count of arrangements is positive. */
  lemma {:induction false} WaysPositive<T>(towels: seq<seq<T>>, s: seq<T>)
    requires Towels(towels)
    ensures Ways(towels, s) > 0 <==> exists q :: Arrangement(towels, q, s)
    decreases |s|
  {
    if |s| == 0 {
      assert Arrangement(towels, [], s);
    } else {
      if Ways(towels, s) > 0 {
        var k := PositiveTerm(towels, s, |towels|);
        var t := towels[k];
        WaysPositive(towels, s[|t|..]);
        var q :| Arrangement(towels, q, s[|t|..]);
        FlattenFront([t] + q);
        assert ([t] + q)[1..] == q;
        assert s == t + s[|t|..];
        assert Arrangement(towels, [t] + q, s) by {
          forall k | 0 <= k < |[t] + q| ensures ([t] + q)[k] in towels {
            if k > 0 {
              assert ([t] + q)[k] == q[k - 1];
            }
          }
        }
      }
      if q :| Arrangement(towels, q, s) {
        FlattenEmpty(q);
        assert |q| > 0;
        FlattenFront(q);
        var t := q[0];
        var j :| 0 <= j < |towels| && towels[j] == t;
        assert Starts(t, s) by {
          assert s[..|t|] == (t + Flatten(q[1..]))[..|t|];
        }
        assert s[|t|..] == Flatten(q[1..]);
        assert Arrangement(towels, q[1..], s[|t|..]) by {
          forall k | 0 <= k < |q[1..]| ensures q[1..][k] in towels {
            assert q[1..][k] == q[k + 1];
          }
        }
        WaysPositive(towels, s[|t|..]);
        TermCounts(towels, s, j, |towels|);
      }
    }
  }

  lemma {:induction false} FlattenEmpty<T>(q: seq<seq<T>>)
    requires |Flatten(q)| > 0
    ensures |q| > 0
  {
  }

  /** A positive partial sum has a positive term. */
  lemma {:induction false} PositiveTerm<T>(towels: seq<seq<T>>, s: seq<T>, n: nat) returns (k: nat)
    requires Towels(towels) && |s| > 0 && n <= |towels| && WaysUpTo(towels, s, n) > 0
    ensures k < n && Starts(towels[k], s) && Ways(towels, s[|towels[k]|..]) > 0
    decreases n
  {
    var t := towels[n - 1];
    if Starts(t, s) && Ways(towels, s[|t|..]) > 0 {
      k := n - 1;
    } else {
      k := PositiveTerm(towels, s, n - 1);
    }
  }

  /** A positive term makes every partial sum that includes it positive. */
  lemma {:induction false} TermCounts<T>(towels: seq<seq<T>>, s: seq<T>, j: nat, n: nat)
    requires Towels(towels) && |s| > 0 && j < n <= |towels|
    requires Starts(towels[j], s) && Ways(towels, s[|towels[j]|..]) > 0
    ensures WaysUpTo(towels, s, n) > 0
    decreases n
  {
    if j < n - 1 {
      TermCounts(towels, s, j, n - 1);
    }
  }

  /** No towel appears twice in the list. */
  predicate Distinct<T(==)>(towels: seq<seq<T>>)
  {
    forall i, j | 0 <= i < j < |towels| :: towels[i] != towels[j]
  }

  /** The arrangements of `s`, built by the same recursion as `Ways`. */
  ghost function Arrs<T>(towels: seq<seq<T>>, s: seq<T>): set<seq<seq<T>>>
    decreases |s|, |towels| + 1
  {
    if |s| == 0 then {[]} else ArrsUpTo(towels, s, |towels|)
  }

  /** The arrangements of a non-empty `s` whose first towel is one of the first `n`. */
  ghost function ArrsUpTo<T>(towels: seq<seq<T>>, s: seq<T>, n: nat): set<seq<seq<T>>>
    requires n <= |towels|
    decreases |s|, n
  {
    if n == 0 then {}
    else
      var t := towels[n - 1];
      ArrsUpTo(towels, s, n - 1) + if 1 <= |t| && Starts(t, s) then Prefixed(t, Arrs(towels, s[|t|..])) else {}
  }

  /** Every path of `a` with `t` put in front. */
  ghost function Prefixed<T>(t: seq<T>, a: set<seq<seq<T>>>): set<seq<seq<T>>>
  {
    set q | q in a :: [t] + q
  }

  /** Putting the same towel in front loses no path. */
  lemma {:induction false} PrefixedCard<T>(t: seq<T>, a: set<seq<seq<T>>>)
    ensures |Prefixed(t, a)| == |a|
    decreases |a|
  {
    if a != {} {
      var x :| x in a;
      var b := a - {x};
      PrefixedCard(t, b);
      assert Prefixed(t, a) == Prefixed(t, b) + {[t] + x};
      forall y | y in b ensures [t] + y != [t] + x {
        assert ([t] + y)[1..] == y && ([t] + x)[1..] == x;
      }
    }
  }

  /** Every path counted among the first `n` towels starts with one of them. */
  lemma {:induction false} ArrsUpToFirst<T>(towels: seq<seq<T>>, s: seq<T>, n: nat, r: seq<seq<T>>)
    requires n <= |towels| && r in ArrsUpTo(towels, s, n)
    ensures |r| > 0 && exists k | 0 <= k < n :: r[0] == towels[k]
    decreases n
  {
    var t := towels[n - 1];
    if r !in ArrsUpTo(towels, s, n - 1) {
      var q :| q in Arrs(towels, s[|t|..]) && r == [t] + q;
      assert r[0] == towels[n - 1];
    } else {
      ArrsUpToFirst(towels, s, n - 1, r);
    }
  }

  /** With distinct towels, the paths of `Arrs` are as many as `Ways` counts. */
  lemma {:induction false} ArrsCount<T>(towels: seq<seq<T>>, s: seq<T>)
    requires Distinct(towels)
    ensures |Arrs(towels, s)| == Ways(towels, s)
    decreases |s|, |towels| + 1
  {
    if |s| > 0 {
      ArrsUpToCount(towels, s, |towels|);
    }
  }

  lemma {:induction false} ArrsUpToCount<T>(towels: seq<seq<T>>, s: seq<T>, n: nat)
    requires Distinct(towels) && |s| > 0 && n <= |towels|
    ensures |ArrsUpTo(towels, s, n)| == WaysUpTo(towels, s, n)
    decreases |s|, n
  {
    if n > 0 {
      var t := towels[n - 1];
      ArrsUpToCount(towels, s, n - 1);
      if 1 <= |t| && Starts(t, s) {
        var a := ArrsUpTo(towels, s, n - 1);
        var b := Prefixed(t, Arrs(towels, s[|t|..]));
        ArrsCount(towels, s[|t|..]);
        PrefixedCard(t, Arrs(towels, s[|t|..]));
        forall r | r in a ensures |r| > 0 && r[0] != t {
          ArrsUpToFirst(towels, s, n - 1, r);
        }
        forall r | r in b ensures |r| > 0 && r[0] == t {
          var q :| q in Arrs(towels, s[|t|..]) && r == [t] + q;
        }
        assert a * b == {};
        assert |a + b| == |a| + |b|;
      }
    }
  }

  /** A path is in `Arrs` exactly when it is an arrangement. */
  lemma {:induction false} ArrsSound<T>(towels: seq<seq<T>>, s: seq<T>, r: seq<seq<T>>)
    requires r in Arrs(towels, s)
    ensures Arrangement(towels, r, s)
    decreases |s|, |towels| + 1
  {
    if |s| > 0 {
      ArrsUpToSound(towels, s, |towels|, r);
    }
  }

  lemma {:induction false} ArrsUpToSound<T>(towels: seq<seq<T>>, s: seq<T>, n: nat, r: seq<seq<T>>)
    requires |s| > 0 && n <= |towels| && r in ArrsUpTo(towels, s, n)
    ensures Arrangement(towels, r, s)
    decreases |s|, n
  {
    var t := towels[n - 1];
    if r in ArrsUpTo(towels, s, n - 1) {
      ArrsUpToSound(towels, s, n - 1, r);
    } else {
      var q :| q in Arrs(towels, s[|t|..]) && r == [t] + q;
      ArrsSound(towels, s[|t|..], q);
      FlattenFront(r);
      assert r[1..] == q;
      assert s == t + s[|t|..];
      forall k | 0 <= k < |r| ensures r[k] in towels {
        if k > 0 {
          assert r[k] == q[k - 1];
        }
      }
    }
  }

  lemma {:induction false} ArrsComplete<T>(towels: seq<seq<T>>, s: seq<T>, r: seq<seq<T>>)
    requires Towels(towels) && Arrangement(towels, r, s)
    ensures r in Arrs(towels, s)
    decreases |s|
  {
    if |s| == 0 {
      NoEmptyTowel(towels, r);
    } else {
      FlattenEmpty(r);
      FlattenFront(r);
      var t := r[0];
      var j :| 0 <= j < |towels| && towels[j] == t;
      assert Starts(t, s) by {
        assert s[..|t|] == (t + Flatten(r[1..]))[..|t|];
      }
      assert s[|t|..] == Flatten(r[1..]);
      assert Arrangement(towels, r[1..], s[|t|..]) by {
        forall k | 0 <= k < |r[1..]| ensures r[1..][k] in towels {
          assert r[1..][k] == r[k + 1];
        }
      }
      ArrsComplete(towels, s[|t|..], r[1..]);
      assert r == [t] + r[1..];
      assert r in ArrsUpTo(towels, s, j + 1);
      ArrsUpToGrows(towels, s, j + 1, |towels|);
    }
  }

  /** Towels of at least one stripe lay out a non-empty pattern from a non-empty path. */
  lemma {:induction false} NoEmptyTowel<T>(towels: seq<seq<T>>, r: seq<seq<T>>)
    requires Towels(towels) && forall k | 0 <= k < |r| :: r[k] in towels
    ensures |r| > 0 ==> |Flatten(r)| > 0
  {
    if |r| > 0 {
      assert r[|r| - 1] in towels;
    }
  }

  /** Taking more towels into account keeps every path counted so far. */
  lemma {:induction false} ArrsUpToGrows<T>(towels: seq<seq<T>>, s: seq<T>, m: nat, n: nat)
    requires m <= n <= |towels|
    ensures ArrsUpTo(towels, s, m) <= ArrsUpTo(towels, s, n)
    decreases n
  {
    if m < n {
      ArrsUpToGrows(towels, s, m, n - 1);
    }
  }

  /**
   * `Ways` is the number of arrangements: with distinct towels of at least one stripe, the set
   * `Arrs` holds exactly the arrangements of `s`, and has `Ways(towels, s)` members.
   */
  lemma CountsArrangements<T>(towels: seq<seq<T>>, s: seq<T>)
    requires Towels(towels) && Distinct(towels)
    ensures forall r :: r in Arrs(towels, s) <==> Arrangement(towels, r, s)
    ensures |Arrs(towels, s)| == Ways(towels, s)
  {
    forall r ensures r in Arrs(towels, s) <==> Arrangement(towels, r, s) {
      if r in Arrs(towels, s) {
        ArrsSound(towels, s, r);
      }
      if Arrangement(towels, r, s) {
        ArrsComplete(towels, s, r);
      }
    }
    ArrsCount(towels, s);
  }

  /** Every entry of the memo table is the true count for its pattern. */
  predicate Memo<T(==)>(towels: seq<seq<T>>, cache: map<seq<T>, nat>)
  {
    forall k | k in cache :: cache[k] == Ways(towels, k)
  }

  /** `after` keeps every entry of `before`. */
  predicate Keeps<T(==)>(before: map<seq<T>, nat>, after: map<seq<T>, nat>)
  {
    forall k | k in before :: k in after && after[k] == before[k]
  }

  /**
   * `search_combos`: 1 for the empty pattern, the cached count when there is one, otherwise the
   * sum over the towels that start the pattern of the count for the rest, which is then cached.
   * The table only grows, and a table of true counts yields the true count and stays true.
   */
  method SearchCombos(towels: seq<string>, pattern: string, cache: map<string, nat>)
    returns (res: nat, cache': map<string, nat>)
    requires Towels(towels)
    ensures Keeps(cache, cache')
    ensures |pattern| > 0 ==> pattern in cache' && cache'[pattern] == res
    ensures Memo(towels, cache) ==> res == Ways(towels, pattern) && Memo(towels, cache')
    decreases |pattern|
  {
    if |pattern| == 0 {
      return 1, cache;
    }
    if pattern in cache {
      return cache[pattern], cache;
    }
    res := 0;
    cache' := cache;
    for i := 0 to |towels|
      invariant Keeps(cache, cache')
      invariant Memo(towels, cache) ==> Memo(towels, cache') && res == WaysUpTo(towels, pattern, i)
    {
      var t := towels[i];
      if |t| <= |pattern| && pattern[..|t|] == t {
        var n, c := SearchCombos(towels, pattern[|t|..], cache');
        res := res + n;
        cache' := c;
      }
    }
    cache' := cache'[pattern := res];
  }

  // parse

  /**
   * `parse`: the text up to the first blank line is the towel list, separated by ", "; the
   * lines of the next block are the patterns. `None` when there is no blank line, where the
   * second `unwrap` panics.
   */
  function Parse(data: string): (r: Option<(seq<string>, seq<string>)>)
    ensures r.None? <==> Find(data, "\n\n").None?
  {
    var parts := Split(data, "\n\n");
    if |parts| < 2 then None else Some((Split(parts[0], ", "), Lines(parts[1])))
  }

  /** The input text for a towel list and patterns. */
  function Layout(towels: seq<string>, patterns: seq<string>): string
  {
    Join(towels, ", ") + "\n\n" + Join(patterns, "\n")
  }

  /** A towel as it can be written in the list: no comma, no line feed. */
  predicate Writable(t: string)
  {
    Free(t, ',') && Free(t, '\n')
  }

  /** `parse` reads back the towels and patterns written by `Layout`. */
  lemma ParseLayout(towels: seq<string>, patterns: seq<string>)
    requires |towels| >= 1 && forall i | 0 <= i < |towels| :: Writable(towels[i])
    requires |patterns| >= 1 && forall i | 0 <= i < |patterns| :: IsLine(patterns[i]) && |patterns[i]| >= 1
    ensures Parse(Layout(towels, patterns)) == Some((towels, patterns))
  {
    var head := Join(towels, ", ");
    var body := Join(patterns, "\n");
    JoinFree(towels, ", ", '\n');
    FindAfter(head, "\n\n", body);
    JoinNoBlank(patterns);
    NoBlankFind(body);
    var data := Layout(towels, patterns);
    assert data[..|head|] == head && data[|head| + 2..] == body;
    assert Split(data, "\n\n") == [head] + Split(body, "\n\n");
    assert Split(body, "\n\n") == [body];
    JoinSplit(towels, ", ");
    LinesJoin(patterns);
  }

  // Examples

  /** The towels of the example. */
  function ExampleTowels(): seq<string>
  {
    ["r", "wr", "b", "g", "bwu", "rb", "gb", "br"]
  }

  /** "brwrr" is found as b, r, wr, r. */
  lemma SearchExample()
    ensures Search(ExampleTowels(), "brwrr", []) == Some(["b", "r", "wr", "r"])
  {
    var ts := ExampleTowels();
    var p := "brwrr";
    var p0: seq<string> := [];
    var p1 := p0 + [ts[2]];
    var p2 := p1 + [ts[0]];
    var p3 := p2 + [ts[1]];
    var p4 := p3 + [ts[0]];
    FlattenPush(p0, ts[2]);
    FlattenPush(p1, ts[0]);
    FlattenPush(p2, ts[1]);
    FlattenPush(p3, ts[0]);
    assert Flatten(p4) == p;
    assert Search(ts, p, p4) == Some(p4);
    assert Flatten(p3) == p[..4];
    assert Agree(Flatten(p3), p);
    assert TryTowels(ts, p, p3, 0) == Some(p4);
    assert Search(ts, p, p3) == Some(p4);
    assert Flatten(p2) == p[..2];
    assert Agree(Flatten(p2), p);
    assert TryTowels(ts, p, p2, 1) == Some(p4);
    assert TryTowels(ts, p, p2, 0) == Some(p4);
    assert Search(ts, p, p2) == Some(p4);
    assert Flatten(p1) == p[..1];
    assert Agree(Flatten(p1), p);
    assert TryTowels(ts, p, p1, 0) == Some(p4);
    assert Search(ts, p, p1) == Some(p4);
    assert TryTowels(ts, p, p0, 2) == Some(p4);
    assert TryTowels(ts, p, p0, 1) == Some(p4);
    assert TryTowels(ts, p, p0, 0) == Some(p4);
    assert p4 == ["b", "r", "wr", "r"];
  }

  /** Towels that do not start `s` add nothing to the count. */
  lemma {:induction false} Skip<T>(towels: seq<seq<T>>, s: seq<T>, m: nat, n: nat)
    requires m <= n <= |towels|
    requires forall k | m <= k < n :: !Starts(towels[k], s)
    ensures WaysUpTo(towels, s, n) == WaysUpTo(towels, s, m)
    decreases n
  {
    if m < n {
      Skip(towels, s, m, n - 1);
    }
  }

  /** A towel that does not start the pattern adds nothing. */
  lemma SkipOne<T>(towels: seq<seq<T>>, s: seq<T>, n: nat)
    requires n < |towels| && !Starts(towels[n], s)
    ensures WaysUpTo(towels, s, n + 1) == WaysUpTo(towels, s, n)
  {
  }

  /** A towel that differs from `s` at a stripe they both have does not start it. */
  lemma NotStartAt<T>(t: seq<T>, s: seq<T>, i: nat)
    requires i < |t| && i < |s| && t[i] != s[i]
    ensures !Starts(t, s)
  {
    if |t| <= |s| {
      assert s[..|t|][i] == s[i];
    }
  }

  /** "brwrr" has two arrangements: b, r, wr, r and br, wr, r. */
  lemma CombosExample()
    ensures Ways(ExampleTowels(), "brwrr") == 2
  {
    var ts := ExampleTowels();
    var s := "brwrr";
    CombosRwrr();
    CombosWrr();
    NotStartAt(ts[0], s, 0);
    SkipOne(ts, s, 0);
    NotStartAt(ts[1], s, 0);
    SkipOne(ts, s, 1);
    assert s[1..] == "rwrr" && s[2..] == "wrr";
    assert WaysUpTo(ts, s, 3) == 1;
    NotStartAt(ts[3], s, 0);
    SkipOne(ts, s, 3);
    NotStartAt(ts[4], s, 1);
    SkipOne(ts, s, 4);
    NotStartAt(ts[5], s, 0);
    SkipOne(ts, s, 5);
    NotStartAt(ts[6], s, 0);
    SkipOne(ts, s, 6);
  }

  lemma CombosRwrr()
    ensures Ways(ExampleTowels(), "rwrr") == 1
  {
    var ts := ExampleTowels();
    var s := "rwrr";
    CombosWrr();
    assert s[1..] == "wrr";
    assert WaysUpTo(ts, s, 1) == 1;
    NotStartAt(ts[1], s, 0);
    SkipOne(ts, s, 1);
    NotStartAt(ts[2], s, 0);
    SkipOne(ts, s, 2);
    NotStartAt(ts[3], s, 0);
    SkipOne(ts, s, 3);
    NotStartAt(ts[4], s, 0);
    SkipOne(ts, s, 4);
    NotStartAt(ts[5], s, 1);
    SkipOne(ts, s, 5);
    NotStartAt(ts[6], s, 0);
    SkipOne(ts, s, 6);
    NotStartAt(ts[7], s, 0);
    SkipOne(ts, s, 7);
  }

  lemma CombosWrr()
    ensures Ways(ExampleTowels(), "wrr") == 1
  {
    var ts := ExampleTowels();
    var s := "wrr";
    CombosR();
    NotStartAt(ts[0], s, 0);
    SkipOne(ts, s, 0);
    assert s[2..] == "r";
    assert WaysUpTo(ts, s, 2) == 1;
    NotStartAt(ts[2], s, 0);
    SkipOne(ts, s, 2);
    NotStartAt(ts[3], s, 0);
    SkipOne(ts, s, 3);
    NotStartAt(ts[4], s, 0);
    SkipOne(ts, s, 4);
    NotStartAt(ts[5], s, 0);
    SkipOne(ts, s, 5);
    NotStartAt(ts[6], s, 0);
    SkipOne(ts, s, 6);
    NotStartAt(ts[7], s, 0);
    SkipOne(ts, s, 7);
  }

  lemma CombosR()
    ensures Ways(ExampleTowels(), "r") == 1
  {
    var ts := ExampleTowels();
    var s := "r";
    assert s[1..] == [];
    assert WaysUpTo(ts, s, 1) == 1;
    NotStartAt(ts[1], s, 0);
    SkipOne(ts, s, 1);
    NotStartAt(ts[2], s, 0);
    SkipOne(ts, s, 2);
    NotStartAt(ts[3], s, 0);
    SkipOne(ts, s, 3);
    NotStartAt(ts[4], s, 0);
    SkipOne(ts, s, 4);
    assert !Starts(ts[5], s);
    SkipOne(ts, s, 5);
    NotStartAt(ts[6], s, 0);
    SkipOne(ts, s, 6);
    NotStartAt(ts[7], s, 0);
    SkipOne(ts, s, 7);
  }

  /** "ubwu" has no arrangement: no towel starts with 'u'. */
  lemma ImpossibleExample()
    ensures Search(ExampleTowels(), "ubwu", []) == None
    ensures Ways(ExampleTowels(), "ubwu") == 0
  {
    var ts := ExampleTowels();
    var s := "ubwu";
    forall k | 0 <= k < 8 ensures ts[k][0] != s[0] && !Starts(ts[k], s) {
      NotStartAt(ts[k], s, 0);
    }
    Skip(ts, s, 0, 8);
    assert TryTowels(ts, s, [], 0) == None;
  }
}
