/**
 * The pieces of Rust's string handling that the puzzle parsers rely on: `str::split` on a fixed
 * separator, `str::lines`, `str::parse` for integers and `to_string`. Strings are sequences of
 * characters; integer overflow during parsing is not modelled.
 */
module Text {
  import opened Common

  predicate IsDigit(c: char)
  {
    '0' <= c <= '9'
  }

  predicate AllDigits(s: seq<char>)
  {
    forall i | 0 <= i < |s| :: IsDigit(s[i])
  }

  function DigitOf(c: char): nat
    requires IsDigit(c)
  {
    (c as int) - ('0' as int)
  }

  function DigitChar(d: nat): (c: char)
    requires d < 10
    ensures IsDigit(c) && DigitOf(c) == d
  {
    (('0' as int) + d) as char
  }

  /** The number a string of decimal digits denotes, most significant digit first. */
  function Value(s: seq<char>): nat
    requires AllDigits(s)
  {
    if s == [] then 0 else Value(s[..|s| - 1]) * 10 + DigitOf(s[|s| - 1])
  }

  /** Digit strings that are not empty. */
  function Unsigned(s: seq<char>): Option<nat>
  {
    if |s| > 0 && AllDigits(s) then Some(Value(s)) else None
  }

  /** `str::parse::<usize>`: an optional `+`, then one or more ASCII digits. */
  function ParseNat(s: seq<char>): (r: Option<nat>)
    ensures r.Some? ==> |s| >= 1 && (s[0] == '+' || IsDigit(s[0]))
    ensures |s| > 0 && AllDigits(s) ==> r == Some(Value(s))
  {
    if |s| > 0 && s[0] == '+' then Unsigned(s[1..]) else Unsigned(s)
  }

  /** `str::parse::<i64>`: an optional `+` or `-`, then one or more ASCII digits. */
  function ParseInt(s: seq<char>): (r: Option<int>)
  {
    if |s| > 0 && s[0] == '-' then
      match Unsigned(s[1..])
      case Some(n) => Some(0 - n as int)
      case None => None
    else
      match ParseNat(s)
      case Some(n) => Some(n as int)
      case None => None
  }

  /** `to_string` of a non-negative integer: its decimal digits, without leading zeros. */
  function ShowNat(n: nat): (s: seq<char>)
    ensures |s| == Digits(n) && AllDigits(s)
  {
    if n < 10 then [DigitChar(n)] else ShowNat(n / 10) + [DigitChar(n % 10)]
  }

  /** `to_string` of an integer: a minus sign before the digits of a negative one. */
  function ShowInt(i: int): (s: seq<char>)
    ensures |s| > 0 && forall k | 0 <= k < |s| :: IsDigit(s[k]) || s[k] == '-'
  {
    if i < 0 then ['-'] + ShowNat(-i) else ShowNat(i)
  }

  /** Reading the digits `to_string` writes gives the number back. */
  lemma {:induction false} ValueShow(n: nat)
    ensures Value(ShowNat(n)) == n
  {
    if n >= 10 {
      var s := ShowNat(n);
      assert s[..|s| - 1] == ShowNat(n / 10);
      ValueShow(n / 10);
    }
  }

  /** `n.to_string().parse::<usize>()` and `i.to_string().parse::<i64>()` give the number back. */
  lemma ParseShow(n: nat, i: int)
    ensures ParseNat(ShowNat(n)) == Some(n)
    ensures ParseInt(ShowInt(i)) == Some(i)
  {
    ValueShow(n);
    if i < 0 {
      ValueShow(-i);
      assert ShowInt(i)[1..] == ShowNat(-i);
    } else {
      ValueShow(i);
    }
  }

  /** `parse` of a digit string, with or without a minus sign before it. */
  lemma ParseDigits(s: seq<char>)
    requires |s| > 0 && AllDigits(s)
    ensures ParseInt(s) == Some(Value(s) as int)
    ensures ParseInt(['-'] + s) == Some(0 - Value(s) as int)
  {
    assert IsDigit(s[0]);
    assert (['-'] + s)[1..] == s;
  }

  /** The value of two digit strings written one after the other. */
  lemma {:induction false} ValueAppend(a: seq<char>, b: seq<char>)
    requires AllDigits(a) && AllDigits(b)
    ensures AllDigits(a + b)
    ensures Value(a + b) == Value(a) * Pow10(|b|) + Value(b)
    decreases |b|
  {
    assert AllDigits(a + b) by {
      forall i | 0 <= i < |a + b| ensures IsDigit((a + b)[i]) {
        if i >= |a| {
          assert (a + b)[i] == b[i - |a|];
        }
      }
    }
    if b != [] {
      var b' := b[..|b| - 1];
      var d := DigitOf(b[|b| - 1]);
      assert (a + b)[..|a + b| - 1] == a + b';
      assert Value(a + b) == Value(a + b') * 10 + d;
      ValueAppend(a, b');
      assert Pow10(|b|) == Pow10(|b'|) * 10;
      assert Value(b) == Value(b') * 10 + d;
      Regroup(Value(a), Pow10(|b'|), Value(b'), d);
    } else {
      assert a + b == a;
    }
  }

  lemma Regroup(x: int, p: int, y: int, d: int)
    ensures (x * p + y) * 10 + d == x * (p * 10) + (y * 10 + d)
  {
  }

  /** `sep` occurs in `s` starting at index `j`. */
  predicate OccursAt(s: seq<char>, sep: seq<char>, j: nat)
  {
    j + |sep| <= |s| && s[j..j + |sep|] == sep
  }

  /** `str::find`: the first index where `sep` occurs in `s`. */
  function Find(s: seq<char>, sep: seq<char>): (r: Option<nat>)
    requires |sep| > 0
    ensures r.Some? ==> OccursAt(s, sep, r.value) && s[r.value] == sep[0]
    ensures forall j: nat | OccursAt(s, sep, j) :: r.Some? && r.value <= j
    decreases |s|
  {
    if |s| < |sep| then None
    else if s[..|sep|] == sep then
      assert s[..|sep|][0] == s[0];
      Some(0)
    else
      var r := Find(s[1..], sep);
      assert forall j: nat | OccursAt(s, sep, j) :: j >= 1 && OccursAt(s[1..], sep, j - 1) by {
        forall j: nat | OccursAt(s, sep, j) ensures j >= 1 && OccursAt(s[1..], sep, j - 1) {
          assert s[1..][j - 1..j - 1 + |sep|] == s[j..j + |sep|];
        }
      }
      match r
      case None => None
      case Some(i) =>
        assert s[1..][i..i + |sep|] == s[i + 1..i + 1 + |sep|] && s[1..][i] == s[i + 1];
        Some(i + 1)
  }

  /** `s.split(sep)` for a non-empty separator: the pieces between the occurrences, left to right. */
  function Split(s: seq<char>, sep: seq<char>): (parts: seq<seq<char>>)
    requires |sep| > 0
    ensures |parts| >= 1
    decreases |s|
  {
    match Find(s, sep)
    case None => [s]
    case Some(i) => [s[..i]] + Split(s[i + |sep|..], sep)
  }

  /** The inverse of `Split`: the pieces with `sep` between neighbours. */
  function Join(parts: seq<seq<char>>, sep: seq<char>): seq<char>
  {
    if |parts| == 0 then [] else if |parts| == 1 then parts[0] else parts[0] + sep + Join(parts[1..], sep)
  }

  /** Putting the pieces back together gives the string. */
  lemma {:induction false} SplitJoin(s: seq<char>, sep: seq<char>)
    requires |sep| > 0
    ensures Join(Split(s, sep), sep) == s
    decreases |s|
  {
    var f := Find(s, sep);
    if f.Some? {
      var i := f.value;
      var rest := s[i + |sep|..];
      var ps := Split(rest, sep);
      SplitJoin(rest, sep);
      SplitSome(s, sep, i);
      JoinCons(s[..i], ps, sep);
      SliceThree(s, i, i + |sep|);
    }
  }

  lemma SplitSome(s: seq<char>, sep: seq<char>, i: nat)
    requires |sep| > 0 && Find(s, sep) == Some(i)
    ensures Split(s, sep) == [s[..i]] + Split(s[i + |sep|..], sep)
  {
  }

  lemma SliceThree(s: seq<char>, i: nat, j: nat)
    requires i <= j <= |s|
    ensures s == s[..i] + s[i..j] + s[j..]
  {
  }

  lemma JoinCons(p: seq<char>, ps: seq<seq<char>>, sep: seq<char>)
    requires |ps| >= 1
    ensures Join([p] + ps, sep) == p + sep + Join(ps, sep)
  {
    assert ([p] + ps)[1..] == ps;
  }

  /** No character of `s` is the first one of `sep`. */
  predicate Avoids(s: seq<char>, sep: seq<char>)
    requires |sep| > 0
  {
    Free(s, sep[0])
  }

  /** The first occurrence is the one right after a prefix that cannot start `sep`. */
  lemma FindAfter(p: seq<char>, sep: seq<char>, rest: seq<char>)
    requires |sep| > 0 && Avoids(p, sep)
    ensures Find(p + sep + rest, sep) == Some(|p|)
  {
    var s := p + sep + rest;
    assert OccursAt(s, sep, |p|) by {
      assert s[|p|..|p| + |sep|] == sep;
    }
    assert forall j | 0 <= j < |p| :: s[j] == p[j];
  }

  /** A string in which `sep` cannot start is a single piece. */
  lemma FindNone(p: seq<char>, sep: seq<char>)
    requires |sep| > 0 && Avoids(p, sep)
    ensures Find(p, sep) == None
  {
  }

  /** Splitting joined pieces gives them back, when no piece contains the first character of `sep`. */
  lemma {:induction false} JoinSplit(parts: seq<seq<char>>, sep: seq<char>)
    requires |sep| > 0 && |parts| >= 1
    requires forall i | 0 <= i < |parts| :: Avoids(parts[i], sep)
    ensures Split(Join(parts, sep), sep) == parts
    decreases |parts|
  {
    if |parts| == 1 {
      FindNone(parts[0], sep);
    } else {
      var rest := Join(parts[1..], sep);
      SplitCons(parts[0], sep, rest);
      JoinSplit(parts[1..], sep);
      assert parts == [parts[0]] + parts[1..];
    }
  }

  /** A first piece that cannot start `sep`, then `sep`, splits off as the first piece. */
  lemma SplitCons(p: seq<char>, sep: seq<char>, rest: seq<char>)
    requires |sep| > 0 && Avoids(p, sep)
    ensures Split(p + sep + rest, sep) == [p] + Split(rest, sep)
  {
    FindAfter(p, sep, rest);
    var s := p + sep + rest;
    assert s[..|p|] == p;
    assert s[|p| + |sep|..] == rest;
  }

  /**
   * `str::lines`: split at line feeds and strip one carriage return before each of them; the piece
   * after the last line feed is a line of its own, unstripped, unless it is empty.
   */
  function Lines(s: seq<char>): (ls: seq<seq<char>>)
    ensures var ps := Split(s, "\n");
      && |ls| == (if ps[|ps| - 1] == [] then |ps| - 1 else |ps|)
      && (forall i | 0 <= i < |ps| - 1 :: ls[i] == StripCr(ps[i]))
      && (ps[|ps| - 1] != [] ==> ls[|ps| - 1] == ps[|ps| - 1])
  {
    var ps := Split(s, "\n");
    var ended := seq(|ps| - 1, i requires 0 <= i < |ps| - 1 => StripCr(ps[i]));
    if ps[|ps| - 1] == [] then ended else ended + [ps[|ps| - 1]]
  }

  function StripCr(l: seq<char>): seq<char>
  {
    if |l| > 0 && l[|l| - 1] == '\r' then l[..|l| - 1] else l
  }

  /** Lines, each ended by a line feed. */
  function Unlines(ls: seq<seq<char>>): seq<char>
  {
    Join(ls + [[]], "\n")
  }

  /** A line as `lines` can return it: no line feed, no carriage return at its end. */
  predicate IsLine(l: seq<char>)
  {
    Avoids(l, "\n") && (|l| > 0 ==> l[|l| - 1] != '\r')
  }

  /** `lines` reads back the lines `Unlines` writes. */
  lemma LinesUnlines(ls: seq<seq<char>>)
    requires forall i | 0 <= i < |ls| :: IsLine(ls[i])
    ensures Lines(Unlines(ls)) == ls
  {
    var ps := ls + [[]];
    assert forall i | 0 <= i < |ps| :: Avoids(ps[i], "\n") by {
      forall i | 0 <= i < |ps| ensures Avoids(ps[i], "\n") {
        if i < |ls| {
          assert ps[i] == ls[i];
        }
      }
    }
    JoinSplit(ps, "\n");
    assert ps[..|ps| - 1] == ls;
    assert forall i | 0 <= i < |ls| :: StripCr(ls[i]) == ls[i];
  }

  /** The ASCII characters `char::is_whitespace` accepts: space, tab, line feed, vertical tab, form feed, carriage return. */
  predicate IsSpace(c: char)
  {
    c == ' ' || c == '\t' || c == '\n' || c == '\U{B}' || c == '\U{C}' || c == '\r'
  }

  /** A non-empty run of characters none of which is whitespace. */
  predicate IsWord(w: seq<char>)
  {
    |w| > 0 && forall k | 0 <= k < |w| :: !IsSpace(w[k])
  }

  /** The length of the run of non-whitespace characters at the front of `s`, scanning from `i`. */
  function WordLength(s: seq<char>, i: nat): (n: nat)
    requires i <= |s| && forall k | 0 <= k < i :: !IsSpace(s[k])
    ensures i <= n <= |s| && (forall k | 0 <= k < n :: !IsSpace(s[k])) && (n < |s| ==> IsSpace(s[n]))
    decreases |s| - i
  {
    if i < |s| && !IsSpace(s[i]) then WordLength(s, i + 1) else i
  }

  /** `str::split_whitespace`: the maximal runs of non-whitespace characters, in order. */
  function Words(s: seq<char>): (ws: seq<seq<char>>)
    ensures forall i | 0 <= i < |ws| :: IsWord(ws[i])
    decreases |s|
  {
    if s == [] then []
    else if IsSpace(s[0]) then Words(s[1..])
    else
      var n := WordLength(s, 1);
      [s[..n]] + Words(s[n..])
  }

  /** Whitespace before the text does not change its words. */
  lemma {:induction false} WordsAfterSpace(gap: seq<char>, s: seq<char>)
    requires forall k | 0 <= k < |gap| :: IsSpace(gap[k])
    ensures Words(gap + s) == Words(s)
    decreases |gap|
  {
    if gap != [] {
      var t := gap + s;
      assert t[0] == gap[0] && IsSpace(t[0]) && t[1..] == gap[1..] + s;
      assert Words(t) == Words(t[1..]);
      WordsAfterSpace(gap[1..], s);
    } else {
      assert gap + s == s;
    }
  }

  /** Words joined by whitespace gaps are read back by `split_whitespace`. */
  lemma {:induction false} WordsJoin(ws: seq<seq<char>>, gap: seq<char>)
    requires gap != [] && forall k | 0 <= k < |gap| :: IsSpace(gap[k])
    requires forall i | 0 <= i < |ws| :: IsWord(ws[i])
    ensures Words(Join(ws, gap)) == ws
    decreases |ws|
  {
    if ws == [] {
      assert Join(ws, gap) == [];
    } else if |ws| == 1 {
      var w := ws[0];
      assert Join(ws, gap) == w;
      assert IsWord(w) && !IsSpace(w[0]);
      assert WordLength(w, 1) == |w|;
      assert w[..|w|] == w && w[|w|..] == [];
      assert Words(w) == [w[..|w|]] + Words(w[|w|..]);
    } else {
      var w, r := ws[0], Join(ws[1..], gap);
      JoinCons(w, ws[1..], gap);
      var s := w + gap + r;
      assert WordLength(s, 1) == |w| by {
        WordLengthAt(s, |w|);
      }
      assert s[..|w|] == w && s[|w|..] == gap + r;
      WordsAfterSpace(gap, r);
      WordsJoin(ws[1..], gap);
    }
  }

  /** The scan of `WordLength` stops at the first whitespace character. */
  lemma WordLengthAt(s: seq<char>, n: nat)
    requires 1 <= n < |s| && (forall k | 0 <= k < n :: !IsSpace(s[k])) && IsSpace(s[n])
    ensures WordLength(s, 1) == n
  {
    var m := WordLength(s, 1);
    assert m <= n;
  }

  /** `c` does not occur in `s`. */
  predicate Free(s: seq<char>, c: char)
  {
    forall k | 0 <= k < |s| :: s[k] != c
  }

  /** A character that occurs neither in the pieces nor in the separator does not occur in their join. */
  lemma {:induction false} JoinFree(parts: seq<seq<char>>, sep: seq<char>, c: char)
    requires Free(sep, c) && forall i | 0 <= i < |parts| :: Free(parts[i], c)
    ensures Free(Join(parts, sep), c)
    decreases |parts|
  {
    if |parts| > 1 {
      JoinFree(parts[1..], sep, c);
      var s := parts[0] + sep + Join(parts[1..], sep);
      forall k | 0 <= k < |s| ensures s[k] != c {
        if k < |parts[0]| {
          assert s[k] == parts[0][k];
        } else if k < |parts[0]| + |sep| {
          assert s[k] == sep[k - |parts[0]|];
        } else {
          assert s[k] == Join(parts[1..], sep)[k - |parts[0]| - |sep|];
        }
      }
    }
  }

  /** A written integer holds no character other than digits and the minus sign. */
  lemma ShowIntFree(i: int, c: char)
    requires !IsDigit(c) && c != '-'
    ensures Free(ShowInt(i), c)
  {
  }

  /** Parses every piece, or fails when one of them does not parse. */
  function ParseInts(ss: seq<seq<char>>): (r: Option<seq<int>>)
    ensures r.Some? ==> |r.value| == |ss| && forall i | 0 <= i < |ss| :: ParseInt(ss[i]) == Some(r.value[i])
    ensures r.None? ==> exists i | 0 <= i < |ss| :: ParseInt(ss[i]).None?
  {
    if ss == [] then Some([])
    else
      match (ParseInt(ss[0]), ParseInts(ss[1..]))
      case (Some(x), Some(xs)) =>
        assert forall i | 1 <= i < |ss| :: ss[i] == ss[1..][i - 1];
        Some([x] + xs)
      case (None, _) => None
      case (_, None) =>
        var i :| 0 <= i < |ss[1..]| && ParseInt(ss[1..][i]).None?;
        assert ss[i + 1] == ss[1..][i];
        None
  }

  function ShowInts(xs: seq<int>): (r: seq<seq<char>>)
    ensures |r| == |xs| && forall i | 0 <= i < |xs| :: r[i] == ShowInt(xs[i])
  {
    seq(|xs|, i requires 0 <= i < |xs| => ShowInt(xs[i]))
  }

  /** Parsing the written numbers gives them back. */
  lemma ParseShowInts(xs: seq<int>)
    ensures ParseInts(ShowInts(xs)) == Some(xs)
  {
    var ss := ShowInts(xs);
    forall i | 0 <= i < |xs| ensures ParseInt(ss[i]) == Some(xs[i]) {
      ParseShow(0, xs[i]);
    }
    var r := ParseInts(ss);
    assert r.Some?;
    assert r.value == xs;
  }

  /** Parses every piece as a `usize`, or fails when one of them does not parse. */
  function ParseNats(ss: seq<seq<char>>): (r: Option<seq<nat>>)
    ensures r.Some? ==> |r.value| == |ss| && forall i | 0 <= i < |ss| :: ParseNat(ss[i]) == Some(r.value[i])
    ensures r.None? ==> exists i | 0 <= i < |ss| :: ParseNat(ss[i]).None?
  {
    if ss == [] then Some([])
    else
      match (ParseNat(ss[0]), ParseNats(ss[1..]))
      case (Some(x), Some(xs)) =>
        assert forall i | 1 <= i < |ss| :: ss[i] == ss[1..][i - 1];
        Some([x] + xs)
      case (None, _) => None
      case (_, None) =>
        var i :| 0 <= i < |ss[1..]| && ParseNat(ss[1..][i]).None?;
        assert ss[i + 1] == ss[1..][i];
        None
  }

  function ShowNats(xs: seq<nat>): (r: seq<seq<char>>)
    ensures |r| == |xs| && forall i | 0 <= i < |xs| :: r[i] == ShowNat(xs[i])
  {
    seq(|xs|, i requires 0 <= i < |xs| => ShowNat(xs[i]))
  }

  /** Parsing the written naturals gives them back. */
  lemma ParseShowNats(xs: seq<nat>)
    ensures ParseNats(ShowNats(xs)) == Some(xs)
  {
    var ss := ShowNats(xs);
    forall i | 0 <= i < |xs| ensures ParseNat(ss[i]) == Some(xs[i]) {
      ParseShow(xs[i], 0);
    }
    var r := ParseNats(ss);
    assert r.Some?;
    assert r.value == xs;
  }

  /** `lines` reads back lines joined by line feeds when the last one is not empty. */
  lemma LinesJoin(ls: seq<seq<char>>)
    requires |ls| >= 1 && ls[|ls| - 1] != []
    requires forall i | 0 <= i < |ls| :: IsLine(ls[i])
    ensures Lines(Join(ls, "\n")) == ls
  {
    forall i | 0 <= i < |ls| ensures Avoids(ls[i], "\n") && StripCr(ls[i]) == ls[i] {
      assert IsLine(ls[i]);
    }
    JoinSplit(ls, "\n");
    LinesOfPieces(Join(ls, "\n"), ls);
  }

  /** The lines of text whose pieces between line feeds are `ls`, the last one not empty. */
  lemma LinesOfPieces(s: seq<char>, ls: seq<seq<char>>)
    requires Split(s, "\n") == ls && ls[|ls| - 1] != []
    requires forall i | 0 <= i < |ls| :: StripCr(ls[i]) == ls[i]
    ensures Lines(s) == ls
  {
    assert forall i | 0 <= i < |ls| :: Lines(s)[i] == ls[i];
  }

  /** Joined pieces start with the first piece. */
  lemma JoinHead(parts: seq<seq<char>>, sep: seq<char>)
    requires |parts| >= 1 && |parts[0]| >= 1
    ensures |Join(parts, sep)| >= 1 && Join(parts, sep)[0] == parts[0][0]
  {
  }

  /** No two line feeds in a row. */
  predicate NoBlank(s: seq<char>)
  {
    forall j | 0 <= j < |s| - 1 :: s[j] != '\n' || s[j + 1] != '\n'
  }

  /** Non-empty lines joined by line feeds hold no blank line. */
  lemma {:induction false} JoinNoBlank(ls: seq<seq<char>>)
    requires |ls| >= 1
    requires forall i | 0 <= i < |ls| :: |ls[i]| >= 1 && Free(ls[i], '\n')
    ensures NoBlank(Join(ls, "\n"))
    decreases |ls|
  {
    var s := Join(ls, "\n");
    if |ls| > 1 {
      var l := ls[0];
      var r := Join(ls[1..], "\n");
      JoinNoBlank(ls[1..]);
      JoinHead(ls[1..], "\n");
      assert s == l + "\n" + r;
      forall j | 0 <= j < |s| - 1 ensures s[j] != '\n' || s[j + 1] != '\n' {
        if j < |l| {
          assert s[j] == l[j];
        } else if j == |l| {
          assert s[j + 1] == r[0] == ls[1..][0][0];
        } else {
          var k := j - |l| - 1;
          assert s[j] == r[k] && s[j + 1] == r[k + 1];
        }
      }
    }
  }

  /** Text without a blank line holds no double line feed. */
  lemma NoBlankFind(s: seq<char>)
    requires NoBlank(s)
    ensures Find(s, "\n\n") == None
  {
    forall j: nat | j + 2 <= |s| ensures !OccursAt(s, "\n\n", j) {
      assert s[j..j + 2][0] == s[j] && s[j..j + 2][1] == s[j + 1];
    }
  }
}
