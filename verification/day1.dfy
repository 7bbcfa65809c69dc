/** src/day1.rs: two sorted location lists, their distance and their similarity score. */
module Day1 {
  import opened Common
  import opened Text

  predicate Sorted(s: seq<int>)
  {
    forall i, j | 0 <= i < j < |s| :: s[i] <= s[j]
  }

  /** `SortedVec::push`: insert `x` before the first element greater than it. */
  function Insert(s: seq<int>, x: int): (r: seq<int>)
    requires Sorted(s)
    ensures Sorted(r) && multiset(r) == multiset(s) + multiset{x} && |r| == |s| + 1
  {
    if s == [] || x <= s[0] then
      [x] + s
    else
      var t := Insert(s[1..], x);
      InsertBehind(s, x, t);
      [s[0]] + t
  }

  /** Putting the first element back in front of the insertion into the rest keeps the list sorted. */
  lemma InsertBehind(s: seq<int>, x: int, t: seq<int>)
    requires Sorted(s) && s != [] && s[0] < x
    requires Sorted(t) && multiset(t) == multiset(s[1..]) + multiset{x}
    ensures Sorted([s[0]] + t) && multiset([s[0]] + t) == multiset(s) + multiset{x}
  {
    assert multiset(s) == multiset{s[0]} + multiset(s[1..]) by { assert s == [s[0]] + s[1..]; }
    forall k | 0 <= k < |t| ensures t[k] >= s[0] {
      assert t[k] in multiset(t);
      if t[k] != x {
        assert t[k] in multiset(s[1..]);
        assert t[k] in s[1..];
      }
    }
  }

  /**
   * One line of `deserialize`: the first two whitespace-separated words, each parsed as an `i64`.
   * A line with fewer than two words, or a word that does not parse, is the `unwrap` panic (`None`);
   * words after the second are never read.
   */
  function ParsePair(line: seq<char>): (r: Option<(int, int)>)
    ensures |Words(line)| < 2 ==> r.None?
    ensures r.Some? ==> Some(r.value.0) == ParseInt(Words(line)[0]) && Some(r.value.1) == ParseInt(Words(line)[1])
  {
    var ws := Words(line);
    if |ws| < 2 then None
    else
      match (ParseInt(ws[0]), ParseInt(ws[1]))
      case (Some(l), Some(r)) => Some((l, r))
      case _ => None
  }

  /** A line holding two written numbers, then any further words, separated by whitespace, parses to the two numbers. */
  lemma ParsePairShow(l: int, r: int, rest: seq<seq<char>>, gap: seq<char>)
    requires gap != [] && forall k | 0 <= k < |gap| :: IsSpace(gap[k])
    requires forall i | 0 <= i < |rest| :: IsWord(rest[i])
    ensures ParsePair(Join([ShowInt(l), ShowInt(r)] + rest, gap)) == Some((l, r))
  {
    var ws := [ShowInt(l), ShowInt(r)] + rest;
    ShowIntWord(l);
    ShowIntWord(r);
    AllWords(ShowInt(l), ShowInt(r), rest);
    WordsJoin(ws, gap);
    ParseShow(0, l);
    ParseShow(0, r);
    assert ParseInt(ws[0]) == Some(l) && ParseInt(ws[1]) == Some(r);
  }

  /** Two words in front of words give words throughout. */
  lemma AllWords(a: seq<char>, b: seq<char>, rest: seq<seq<char>>)
    requires IsWord(a) && IsWord(b) && forall i | 0 <= i < |rest| :: IsWord(rest[i])
    ensures var ws := [a, b] + rest; forall i | 0 <= i < |ws| :: IsWord(ws[i])
  {
    var ws := [a, b] + rest;
    forall i | 2 <= i < |ws| ensures IsWord(ws[i]) {
      assert ws[i] == rest[i - 2];
    }
  }

  /** A written number is one word. */
  lemma ShowIntWord(i: int)
    ensures IsWord(ShowInt(i))
  {
    var w := ShowInt(i);
    forall k | 0 <= k < |w| ensures !IsSpace(w[k]) {
      assert IsDigit(w[k]) || w[k] == '-';
    }
  }

  /** An indented line of the example, with several spaces between the numbers. */
  lemma ParsePairExample()
    ensures ParsePair("            4   3") == Some((4, 3))
  {
    assert ShowInt(4) == "4" && ShowInt(3) == "3";
    assert Join(["4", "3"], "   ") == "4   3";
    ParsePairShow(4, 3, [], "   ");
    assert "            4   3" == "            " + "4   3";
    WordsAfterSpace("            ", "4   3");
  }

  /** Every line parses. */
  predicate AllPairs(lines: seq<seq<char>>)
  {
    forall i | 0 <= i < |lines| :: ParsePair(lines[i]).Some?
  }

  /** The pairs of lines that all parse. */
  function Pairs(lines: seq<seq<char>>): (ps: seq<(int, int)>)
    requires AllPairs(lines)
    ensures |ps| == |lines| && forall i | 0 <= i < |lines| :: ParsePair(lines[i]) == Some(ps[i])
  {
    seq(|lines|, i requires 0 <= i < |lines| => ParsePair(lines[i]).value)
  }

  /** One more parsed line extends the parsed prefix by its pair. */
  lemma PairsSnoc(lines: seq<seq<char>>, i: nat)
    requires i < |lines| && AllPairs(lines[..i]) && ParsePair(lines[i]).Some?
    ensures AllPairs(lines[..i + 1])
    ensures Pairs(lines[..i + 1]) == Pairs(lines[..i]) + [ParsePair(lines[i]).value]
  {
    assert lines[..i + 1] == lines[..i] + [lines[i]];
  }

  /**
   * `deserialize`: every line of the input gives a left and a right number, pushed into two sorted
   * vectors. The result is `None`, the `unwrap` panic, exactly when some line does not parse;
   * otherwise both columns are sorted and hold exactly the lines' left and right numbers.
   */
  method Deserialize(data: seq<char>) returns (r: Option<(seq<int>, seq<int>)>)
    ensures r.None? <==> !AllPairs(Lines(data))
    ensures r.Some? ==> var pairs := Pairs(Lines(data));
      && Sorted(r.value.0) && Sorted(r.value.1)
      && |r.value.0| == |pairs| && |r.value.1| == |pairs|
      && multiset(r.value.0) == multiset(Lefts(pairs)) && multiset(r.value.1) == multiset(Rights(pairs))
  {
    var lines := Lines(data);
    var left, right := [], [];
    for i := 0 to |lines|
      invariant AllPairs(lines[..i])
      invariant Sorted(left) && Sorted(right)
      invariant |left| == i && |right| == i
      invariant multiset(left) == multiset(Lefts(Pairs(lines[..i])))
      invariant multiset(right) == multiset(Rights(Pairs(lines[..i])))
    {
      var p := ParsePair(lines[i]);
      if p.None? {
        assert !AllPairs(lines) by {
          assert ParsePair(lines[i]).None?;
        }
        return None;
      }
      PairsSnoc(lines, i);
      LeftsRightsAppend(Pairs(lines[..i]), p.value);
      left := Insert(left, p.value.0);
      right := Insert(right, p.value.1);
    }
    assert lines[..|lines|] == lines;
    r := Some((left, right));
  }

  function Lefts(lines: seq<(int, int)>): (r: seq<int>)
    ensures |r| == |lines|
  {
    seq(|lines|, i requires 0 <= i < |lines| => lines[i].0)
  }

  function Rights(lines: seq<(int, int)>): (r: seq<int>)
    ensures |r| == |lines|
  {
    seq(|lines|, i requires 0 <= i < |lines| => lines[i].1)
  }

  lemma LeftsRightsAppend(lines: seq<(int, int)>, p: (int, int))
    ensures Lefts(lines + [p]) == Lefts(lines) + [p.0]
    ensures Rights(lines + [p]) == Rights(lines) + [p.1]
  {
  }

  function Abs(x: int): nat
  {
    if x < 0 then -x else x
  }

  /** `count_distance`: the sum of `|l - r|` over the zipped pairs. */
  function CountDistance(left: seq<int>, right: seq<int>): (r: int)
    ensures r >= 0 && (left == right ==> r == 0)
  {
    if |left| == 0 || |right| == 0 then 0
    else Abs(left[0] - right[0]) + CountDistance(left[1..], right[1..])
  }

  /** The distance is non-negative, symmetric, and only reads the first `min(|left|, |right|)` pairs. */
  lemma {:induction false} CountDistanceProperties(left: seq<int>, right: seq<int>)
    ensures CountDistance(left, right) >= 0
    ensures CountDistance(left, right) == CountDistance(right, left)
    ensures |left| <= |right| ==> CountDistance(left, right) == CountDistance(left, right[..|left|])
    ensures |right| <= |left| ==> CountDistance(left, right) == CountDistance(left[..|right|], right)
  {
    if |left| != 0 && |right| != 0 {
      CountDistanceProperties(left[1..], right[1..]);
      if |left| <= |right| {
        assert right[..|left|][1..] == right[1..][..|left| - 1];
      }
      if |right| <= |left| {
        assert left[..|right|][1..] == left[1..][..|right| - 1];
      }
    }
  }

  /**
   * `chunk_by(|a, b| a == b)`: the maximal runs of equal neighbours, in order. The chunks put back
   * together give the list, each holds copies of one value, and neighbouring chunks hold different
   * values.
   */
  function Chunks(d: seq<int>): (r: seq<seq<int>>)
    ensures forall c | c in r :: |c| > 0
    ensures Flatten(r) == d
    ensures forall i | 0 <= i < |r| :: Constant(r[i])
    ensures forall i | 0 <= i < |r| - 1 :: r[i][0] != r[i + 1][0]
    decreases |d|
  {
    if d == [] then []
    else
      var n := RunLength(d, 1);
      var rest := Chunks(d[n..]);
      assert rest != [] ==> rest[0][0] == d[n] by {
        if rest != [] {
          assert Flatten(rest) == rest[0] + Flatten(rest[1..]);
        }
      }
      assert d[..n] + d[n..] == d;
      [d[..n]] + rest
  }

  /** Every element of `c` is its first one. */
  predicate Constant(c: seq<int>)
  {
    forall k | 0 <= k < |c| :: c[k] == c[0]
  }

  /** The chunks put back together. */
  function Flatten(cs: seq<seq<int>>): seq<int>
  {
    if cs == [] then [] else cs[0] + Flatten(cs[1..])
  }

  /** The length of the run of copies of `d[0]` at the front of `d`, scanning from `i`. */
  function RunLength(d: seq<int>, i: nat): (n: nat)
    requires 1 <= i <= |d|
    requires forall k | 0 <= k < i :: d[k] == d[0]
    ensures i <= n <= |d|
    ensures forall k | 0 <= k < n :: d[k] == d[0]
    ensures n < |d| ==> d[n] != d[0]
    decreases |d| - i
  {
    if i < |d| && d[i] == d[0] then RunLength(d, i + 1) else i
  }

  /** Collecting `(chunk[0], chunk.len())` pairs into a map; a later pair overwrites an earlier one. */
  function CollectCounts(chunks: seq<seq<int>>): map<int, nat>
    requires forall c | c in chunks :: |c| > 0
  {
    if chunks == [] then map[]
    else CollectCounts(chunks[..|chunks| - 1])[chunks[|chunks| - 1][0] := |chunks[|chunks| - 1]|]
  }

  /** `frequency`. */
  function Frequency(d: seq<int>): map<int, nat>
  {
    CollectCounts(Chunks(d))
  }

  /** On a sorted list, `frequency` maps each distinct value to its number of occurrences, and nothing else. */
  lemma {:induction false} FrequencyCounts(d: seq<int>)
    requires Sorted(d)
    ensures forall x :: x in Frequency(d) <==> x in d
    ensures forall x | x in Frequency(d) :: Frequency(d)[x] == multiset(d)[x]
    decreases |d|
  {
    if d != [] {
      var n := RunLength(d, 1);
      var rest := d[n..];
      FrequencyCounts(rest);
      FrequencyStep(d, n);
      RunCounts(d, n);
    }
  }

  /** How the occurrences of each value split between the leading run and the rest. */
  lemma RunCounts(d: seq<int>, n: nat)
    requires d != [] && n == RunLength(d, 1) && d[0] !in d[n..]
    ensures multiset(d)[d[0]] == n
    ensures forall x | x != d[0] :: multiset(d)[x] == multiset(d[n..])[x]
    ensures forall x :: x in d <==> x == d[0] || x in d[n..]
  {
    assert d == d[..n] + d[n..];
    assert d[..n] == seq(n, _ => d[0]);
    ConstantCount(n, d[0]);
    assert multiset(d) == multiset(d[..n]) + multiset(d[n..]);
    forall x | x != d[0] ensures multiset(d[..n])[x] == 0 {
      assert x !in d[..n];
    }
  }

  /** Splitting off the leading run of a sorted list. */
  lemma FrequencyStep(d: seq<int>, n: nat)
    requires Sorted(d) && d != [] && n == RunLength(d, 1)
    ensures Sorted(d[n..]) && d[0] !in d[n..]
    ensures Frequency(d) == Frequency(d[n..])[d[0] := n]
  {
    var rest := d[n..];
    RestAbove(d, n);
    ChunksCons(d);
    ChunkKeys(rest);
    CollectPrepend(d[..n], Chunks(rest));
  }

  /** After the leading run of a sorted list every value is greater than the first. */
  lemma RestAbove(d: seq<int>, n: nat)
    requires Sorted(d) && d != [] && n == RunLength(d, 1)
    ensures Sorted(d[n..]) && forall x | x in d[n..] :: x > d[0]
  {
    forall x | x in d[n..] ensures x > d[0] {
      var k :| n <= k < |d| && d[k] == x;
      assert d[n] != d[0] && d[0] <= d[n] <= d[k];
    }
  }

  /** `chunk_by` cuts the leading run off first. */
  lemma ChunksCons(d: seq<int>)
    requires d != []
    ensures Chunks(d) == [d[..RunLength(d, 1)]] + Chunks(d[RunLength(d, 1)..])
  {
  }

  lemma {:induction false} ConstantCount(n: nat, x: int)
    ensures multiset(seq(n, _ => x))[x] == n
  {
    if n > 0 {
      assert seq(n, _ => x) == seq(n - 1, _ => x) + [x];
      ConstantCount(n - 1, x);
    }
  }

  /** Prepending a chunk whose key no later chunk uses adds that key with the chunk's length. */
  lemma {:induction false} CollectPrepend(c: seq<int>, chunks: seq<seq<int>>)
    requires |c| > 0 && forall k | k in chunks :: |k| > 0
    requires forall k | k in chunks :: k[0] != c[0]
    ensures CollectCounts([c] + chunks) == CollectCounts(chunks)[c[0] := |c|]
    decreases |chunks|
  {
    if chunks != [] {
      var init := chunks[..|chunks| - 1];
      assert ([c] + chunks)[..|chunks|] == [c] + init;
      CollectPrepend(c, init);
    }
  }

  lemma {:induction false} ChunkKeys(d: seq<int>)
    ensures forall k | k in Chunks(d) :: k[0] in d
    decreases |d|
  {
    if d != [] {
      var n := RunLength(d, 1);
      ChunkKeys(d[n..]);
      forall k | k in Chunks(d[n..]) ensures k[0] in d {
        assert k[0] in d[n..];
      }
    }
  }

  /** `prob2`: the similarity score, each left value times its frequency among the right values. */
  function Similarity(left: seq<int>, freq: map<int, nat>): int
  {
    if left == [] then 0
    else Similarity(left[..|left| - 1], freq) + left[|left| - 1] * (if left[|left| - 1] in freq then freq[left[|left| - 1]] else 0)
  }

  /**
   * `prob2` on the columns `deserialize` gives: the right column is a `SortedVec`, and the score is
   * each left value times the number of times it occurs on the right.
   */
  function Prob2(left: seq<int>, right: seq<int>): (r: int)
    requires Sorted(right)
    ensures r == SimilarityReference(left, right)
  {
    SimilarityIsReference(left, right);
    Similarity(left, Frequency(right))
  }

  /** Reference definition: every left value times the number of times it occurs on the right. */
  function SimilarityReference(left: seq<int>, right: seq<int>): int
  {
    if left == [] then 0
    else SimilarityReference(left[..|left| - 1], right) + left[|left| - 1] * multiset(right)[left[|left| - 1]]
  }

  /** On a sorted right column, the score through the frequency map is the reference similarity score. */
  lemma {:induction false} SimilarityIsReference(left: seq<int>, right: seq<int>)
    requires Sorted(right)
    ensures Similarity(left, Frequency(right)) == SimilarityReference(left, right)
    decreases |left|
  {
    FrequencyCounts(right);
    if left != [] {
      SimilarityIsReference(left[..|left| - 1], right);
      var x := left[|left| - 1];
      if x !in Frequency(right) {
        assert x !in right;
      }
    }
  }

  /** The worked example of the unit tests, on the sorted columns. */
  lemma DistanceExample()
    ensures CountDistance([1, 2, 3, 3, 3, 4], [3, 3, 3, 4, 5, 9]) == 11
  {
  }

  lemma SimilarityExample()
    ensures Prob2([1, 2, 3, 3, 3, 4], [3, 3, 3, 4, 5, 9]) == 31
  {
    ExampleRightSorted();
    SimilarityReferenceExample();
  }

  lemma ExampleRightSorted()
    ensures Sorted([3, 3, 3, 4, 5, 9])
  {
  }

  lemma SimilarityReferenceExample()
    ensures SimilarityReference([1, 2, 3, 3, 3, 4], [3, 3, 3, 4, 5, 9]) == 31
  {
    var right := [3, 3, 3, 4, 5, 9];
    ExampleRightCounts();
    assert SimilarityReference([1], right) == 0 by { assert [1][..0] == []; }
    assert SimilarityReference([1, 2], right) == 0 by { assert [1, 2][..1] == [1]; }
    assert SimilarityReference([1, 2, 3], right) == 9 by { assert [1, 2, 3][..2] == [1, 2]; }
    assert SimilarityReference([1, 2, 3, 3], right) == 18 by { assert [1, 2, 3, 3][..3] == [1, 2, 3]; }
    assert SimilarityReference([1, 2, 3, 3, 3], right) == 27 by { assert [1, 2, 3, 3, 3][..4] == [1, 2, 3, 3]; }
    assert [1, 2, 3, 3, 3, 4][..5] == [1, 2, 3, 3, 3];
  }

  /** How often 1, 2, 3 and 4 occur in the example's right list. */
  lemma ExampleRightCounts()
    ensures var m := multiset([3, 3, 3, 4, 5, 9]); m[1] == 0 && m[2] == 0 && m[3] == 3 && m[4] == 1
  {
    assert multiset([3, 3, 3, 4, 5, 9]) == multiset{3, 3, 3, 4, 5, 9};
  }
}
