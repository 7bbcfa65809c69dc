/** src/day2.rs: the report-safety state machine and the two puzzle counts. */
module Day2 {
  import opened Common
  import opened Text

  /** `is_safe`: one step between two levels is safe when the gap is 1..3 and, when a direction is given, it goes that way. */
  function IsSafe(last: nat, next: nat, asc: Option<bool>): (r: bool)
    ensures r <==> GoodGap(last, next) && (asc.Some? ==> (next > last) == asc.value)
  {
    var diff := if last < next then next - last else last - next;
    if diff > 3 || diff < 1 then false
    else
      var increasing := next > last;
      match asc
      case None => true
      case Some(b) => if b then increasing else !increasing
  }

  /** The gap between two levels is between 1 and 3. */
  predicate GoodGap(a: int, b: int)
  {
    (a < b && b - a <= 3) || (b < a && a - b <= 3)
  }

  datatype Report = Unstarted | Initial(last: nat) | Safe(last: nat, asc: bool) | Failed

  /** `Report::include`: feed one more level into the state machine. */
  function Include(r: Report, next: nat): (r': Report)
    ensures r.Failed? ==> r'.Failed?
    ensures r.Unstarted? ==> r' == Initial(next)
    ensures r.Initial? ==> r' == (if GoodGap(r.last, next) then Safe(next, next > r.last) else Failed)
    ensures r.Safe? ==> r' == (if GoodGap(r.last, next) && (next > r.last) == r.asc then Safe(next, r.asc) else Failed)
  {
    match r
    case Failed => r
    case Unstarted => Initial(next)
    case Initial(last) =>
      if IsSafe(last, next, None) then Safe(next, next > last) else Failed
    case Safe(last, asc) =>
      if IsSafe(last, next, Some(asc)) then Safe(next, asc) else Failed
  }

  /** `From<Report> for bool`: a report that never started or has failed is unsafe, any other is safe. */
  function ToBool(r: Report): (b: bool)
    ensures !b <==> r == Unstarted || r == Failed
  {
    r.Initial? || r.Safe?
  }

  /**
   * `is_safe_report`: the left fold of `include` starting from `Unstarted`. The state remembers
   * the last level once one has been read.
   */
  function IsSafeReport(data: seq<nat>): (r: Report)
    ensures r.Unstarted? <==> data == []
    ensures r.Initial? <==> |data| == 1
    ensures r.Initial? || r.Safe? ==> r.last == data[|data| - 1]
  {
    if data == [] then Unstarted
    else Include(IsSafeReport(data[..|data| - 1]), data[|data| - 1])
  }

  /** Every adjacent gap is 1..3 and every step goes up (asc) or every step goes down (not asc). */
  predicate Monotone(data: seq<nat>, asc: bool)
  {
    forall i | 0 <= i < |data| - 1 :: GoodGap(data[i], data[i + 1]) && (data[i + 1] > data[i]) == asc
  }

  /** Reference definition of a safe report. */
  predicate SafeLevels(data: seq<nat>)
  {
    |data| > 0 && (Monotone(data, true) || Monotone(data, false))
  }

  /** What state the fold reaches on each kind of input. */
  lemma {:induction false} IsSafeReportState(data: seq<nat>)
    ensures IsSafeReport(data).Unstarted? <==> data == []
    ensures IsSafeReport(data).Initial? <==> |data| == 1
    ensures IsSafeReport(data).Safe? <==> |data| >= 2 && (Monotone(data, true) || Monotone(data, false))
    ensures IsSafeReport(data).Safe? ==>
      IsSafeReport(data) == Safe(data[|data| - 1], data[1] > data[0]) && Monotone(data, data[1] > data[0])
    decreases |data|
  {
    if data != [] {
      var init := data[..|data| - 1];
      IsSafeReportState(init);
      var x := data[|data| - 1];
      if |data| >= 2 {
        assert data[0] == init[0];
        if |data| >= 3 {
          assert data[1] == init[1];
          // A monotone report stays monotone when its last level is dropped.
          forall asc | Monotone(data, asc) ensures Monotone(init, asc) {
            forall i | 0 <= i < |init| - 1
              ensures GoodGap(init[i], init[i + 1]) && (init[i + 1] > init[i]) == asc
            {
              assert init[i] == data[i] && init[i + 1] == data[i + 1];
            }
          }
          if Monotone(data, true) || Monotone(data, false) {
            assert data[|data| - 2] == init[|init| - 1];
          }
        } else {
          assert IsSafeReport(init) == Initial(data[0]);
        }
      }
    }
  }

  /** `is_safe_report(..).into()` holds exactly for the safe reports: non-empty, gaps 1..3, one direction. */
  lemma IsSafeReportCorrect(data: seq<nat>)
    ensures ToBool(IsSafeReport(data)) <==> SafeLevels(data)
  {
    IsSafeReportState(data);
  }

  /** An empty report is unsafe and a single level is safe. */
  lemma ShortReports(x: nat)
    ensures !ToBool(IsSafeReport([])) && ToBool(IsSafeReport([x]))
  {
    assert [x][..0] == [];
  }

  /** `Failed` is absorbing: once failed, no further level can rescue the report. */
  lemma {:induction false} FailedAbsorbing(data: seq<nat>, more: seq<nat>)
    requires IsSafeReport(data).Failed?
    ensures IsSafeReport(data + more).Failed?
    decreases |more|
  {
    if more != [] {
      var init := more[..|more| - 1];
      FailedAbsorbing(data, init);
      var all := data + more;
      assert all[..|all| - 1] == data + init;
      assert IsSafeReport(all) == Include(IsSafeReport(data + init), all[|all| - 1]);
    } else {
      assert data + more == data;
    }
  }

  /** `prob1`: the number of safe reports. */
  function Prob1(reports: seq<seq<nat>>): (n: nat)
    ensures n <= |reports|
  {
    if reports == [] then 0
    else Prob1(reports[..|reports| - 1]) + (if ToBool(IsSafeReport(reports[|reports| - 1])) then 1 else 0)
  }

  /** `Vec::remove(n)`: the report without its `n`-th level. */
  function Remove(v: seq<nat>, n: nat): (r: seq<nat>)
    requires n < |v|
    ensures |r| == |v| - 1
    ensures forall i | 0 <= i < |r| :: r[i] == if i < n then v[i] else v[i + 1]
  {
    v[..n] + v[n + 1..]
  }

  /** Whether removing one of the first `k` levels makes the report safe (the `any` over `0..v.len()`). */
  function AnyRemovalSafe(v: seq<nat>, k: nat): bool
    requires k <= |v|
  {
    if k == 0 then false
    else AnyRemovalSafe(v, k - 1) || ToBool(IsSafeReport(Remove(v, k - 1)))
  }

  lemma {:induction false} AnyRemovalSafeSpec(v: seq<nat>, k: nat)
    requires k <= |v|
    ensures AnyRemovalSafe(v, k) <==> exists n | 0 <= n < k :: SafeLevels(Remove(v, n))
  {
    if k > 0 {
      AnyRemovalSafeSpec(v, k - 1);
      IsSafeReportCorrect(Remove(v, k - 1));
      LastRemoval(v, k);
    }
  }

  /** A removal among the first `k` is one among the first `k - 1` or the `k`-th. */
  lemma LastRemoval(v: seq<nat>, k: nat)
    requires 0 < k <= |v|
    ensures (exists n | 0 <= n < k :: SafeLevels(Remove(v, n)))
      <==> (exists n | 0 <= n < k - 1 :: SafeLevels(Remove(v, n))) || SafeLevels(Remove(v, k - 1))
  {
    if exists n | 0 <= n < k :: SafeLevels(Remove(v, n)) {
      var n :| 0 <= n < k && SafeLevels(Remove(v, n));
      if n < k - 1 {
        assert exists n | 0 <= n < k - 1 :: SafeLevels(Remove(v, n));
      }
    }
  }

  /** The per-report score of `prob2`: 1 unless the fold failed and no single removal repairs it. */
  function Tolerated(v: seq<nat>): bool
  {
    match IsSafeReport(v)
    case Failed => AnyRemovalSafe(v, |v|)
    case _ => true
  }

  /** `prob2`: the number of reports that are safe or become safe after removing one level. */
  function Prob2(reports: seq<seq<nat>>): (n: nat)
    ensures n <= |reports|
  {
    if reports == [] then 0
    else Prob2(reports[..|reports| - 1]) + (if Tolerated(reports[|reports| - 1]) then 1 else 0)
  }

  /**
   * A report counts for `prob2` exactly when it is empty (the fold is still `Unstarted`, which is not
   * `Failed`), safe, or safe after removing one level.
   */
  lemma ToleratedSpec(v: seq<nat>)
    ensures Tolerated(v) <==> v == [] || SafeLevels(v) || exists n | 0 <= n < |v| :: SafeLevels(Remove(v, n))
  {
    IsSafeReportState(v);
    AnyRemovalSafeSpec(v, |v|);
  }

  /** Every report `prob1` counts is counted by `prob2` too. */
  lemma {:induction false} Prob2AtLeastProb1(reports: seq<seq<nat>>)
    ensures Prob1(reports) <= Prob2(reports)
    decreases |reports|
  {
    if reports != [] {
      Prob2AtLeastProb1(reports[..|reports| - 1]);
      var v := reports[|reports| - 1];
      IsSafeReportState(v);
    }
  }

  /** One line of `parse`: its whitespace-separated pieces, each read as a `usize`, or `None` where the `unwrap` panics. */
  function ParseReport(line: string): (r: Option<seq<nat>>)
    ensures r.Some? ==> |r.value| == |Words(line)| && forall i | 0 <= i < |r.value| :: ParseNat(Words(line)[i]) == Some(r.value[i])
    ensures r.None? ==> exists i | 0 <= i < |Words(line)| :: ParseNat(Words(line)[i]).None?
  {
    ParseNats(Words(line))
  }

  /** Parses every line as a report, or fails when one of them does not parse. */
  function ParseReports(ls: seq<string>): (r: Option<seq<seq<nat>>>)
    ensures r.Some? ==> |r.value| == |ls| && forall i | 0 <= i < |ls| :: ParseReport(ls[i]) == Some(r.value[i])
    ensures r.None? ==> exists i | 0 <= i < |ls| :: ParseReport(ls[i]).None?
  {
    if ls == [] then Some([])
    else
      match (ParseReport(ls[0]), ParseReports(ls[1..]))
      case (Some(v), Some(vs)) =>
        assert forall i | 1 <= i < |ls| :: ls[i] == ls[1..][i - 1];
        Some([v] + vs)
      case (None, _) => None
      case (_, None) =>
        var i :| 0 <= i < |ls[1..]| && ParseReport(ls[1..][i]).None?;
        assert ls[i + 1] == ls[1..][i];
        None
  }

  /** `parse`: one report per line of the text; a blank line is an empty report. */
  function Parse(data: string): (r: Option<seq<seq<nat>>>)
    ensures r.Some? ==> |r.value| == |Lines(data)| && forall i | 0 <= i < |r.value| :: ParseReport(Lines(data)[i]) == Some(r.value[i])
    ensures r.None? ==> exists i | 0 <= i < |Lines(data)| :: ParseReport(Lines(data)[i]).None?
  {
    ParseReports(Lines(data))
  }

  /** `prob1` on the puzzle text: `None` exactly where `parse` panics, otherwise at most one count per line. */
  function Solve1(data: string): (r: Option<nat>)
    ensures r.None? <==> Parse(data).None?
    ensures r.Some? ==> r.value <= |Lines(data)|
  {
    match Parse(data)
    case None => None
    case Some(reports) => Some(Prob1(reports))
  }

  /** `prob2` on the puzzle text: `None` exactly where `parse` panics, otherwise at most one count per line. */
  function Solve2(data: string): (r: Option<nat>)
    ensures r.None? <==> Parse(data).None?
    ensures r.Some? ==> r.value <= |Lines(data)|
  {
    match Parse(data)
    case None => None
    case Some(reports) => Some(Prob2(reports))
  }

  /** On any text, every line `prob1` counts is counted by `prob2` too. */
  lemma Solve2AtLeastSolve1(data: string)
    ensures Solve1(data).Some? <==> Solve2(data).Some?
    ensures Solve1(data).Some? ==> Solve1(data).value <= Solve2(data).value
  {
    if Parse(data).Some? {
      Prob2AtLeastProb1(Parse(data).value);
    }
  }

  /** The input line for a report: its levels written out, separated by single spaces. */
  function ShowReport(v: seq<nat>): string
  {
    Join(ShowNats(v), " ")
  }

  /** The puzzle text for a list of reports: one line each, each ended by a line feed. */
  function Layout(reports: seq<seq<nat>>): string
  {
    Unlines(seq(|reports|, i requires 0 <= i < |reports| => ShowReport(reports[i])))
  }

  /** A written report is a line, and it reads back as the report. */
  lemma ParseShowReport(v: seq<nat>)
    ensures ParseReport(ShowReport(v)) == Some(v)
    ensures IsLine(ShowReport(v))
  {
    var ws := ShowNats(v);
    forall i | 0 <= i < |ws| ensures IsWord(ws[i]) && Free(ws[i], '\n') && Free(ws[i], '\r') {
      var w := ws[i];
      forall k | 0 <= k < |w| ensures IsDigit(w[k]) {
      }
    }
    WordsJoin(ws, " ");
    ParseShowNats(v);
    JoinFree(ws, " ", '\n');
    JoinFree(ws, " ", '\r');
  }

  /** The text written for any reports, blank lines included, parses back to them, so both counts are theirs. */
  lemma SolveLayout(reports: seq<seq<nat>>)
    ensures Parse(Layout(reports)) == Some(reports)
    ensures Solve1(Layout(reports)) == Some(Prob1(reports))
    ensures Solve2(Layout(reports)) == Some(Prob2(reports))
  {
    var ls := seq(|reports|, i requires 0 <= i < |reports| => ShowReport(reports[i]));
    forall i | 0 <= i < |ls| ensures IsLine(ls[i]) && ParseReport(ls[i]) == Some(reports[i]) {
      ParseShowReport(reports[i]);
    }
    LinesUnlines(ls);
    var r := ParseReports(ls);
    assert r.Some?;
    assert r.value == reports;
  }

  /** A blank line is an empty report: `prob2` counts it and `prob1` does not. */
  lemma BlankLine()
    ensures Solve1(Layout([[]])) == Some(0) && Solve2(Layout([[]])) == Some(1)
  {
    var rs: seq<seq<nat>> := [[]];
    SolveLayout(rs);
    assert rs[..0] == [];
  }

  /** Lines for reports where every line after the first is indented by `indent`. */
  function Indented(reports: seq<seq<nat>>, indent: string): seq<string>
  {
    seq(|reports|, i requires 0 <= i < |reports| => (if i == 0 then "" else indent) + ShowReport(reports[i]))
  }

  /** An indented written report is still a line. */
  lemma IndentedLine(gap: string, l: string)
    requires forall k | 0 <= k < |gap| :: gap[k] == ' '
    requires IsLine(l)
    ensures IsLine(gap + l)
  {
    var t := gap + l;
    forall k | 0 <= k < |t| ensures t[k] != '\n' {
      if k >= |gap| {
        assert t[k] == l[k - |gap|];
      }
    }
    if |l| > 0 {
      assert t[|t| - 1] == l[|l| - 1];
    }
  }

  /**
   * Indentation before the lines after the first, and no line feed after the last, change nothing:
   * `split_whitespace` skips leading blanks and `lines` needs no final line feed.
   */
  lemma ParseIndented(reports: seq<seq<nat>>, indent: string)
    requires |reports| >= 1 && reports[|reports| - 1] != []
    requires forall k | 0 <= k < |indent| :: indent[k] == ' '
    ensures Parse(Join(Indented(reports, indent), "\n")) == Some(reports)
  {
    var ls := Indented(reports, indent);
    forall i | 0 <= i < |ls| ensures IsLine(ls[i]) && ParseReport(ls[i]) == Some(reports[i]) {
      var gap: string := if i == 0 then "" else indent;
      var l := ShowReport(reports[i]);
      assert ls[i] == gap + l;
      ParseShowReport(reports[i]);
      IndentedLine(gap, l);
      WordsAfterSpace(gap, l);
    }
    var last := reports[|reports| - 1];
    JoinHead(ShowNats(last), " ");
    assert ls[|ls| - 1] == (if |ls| == 1 then "" else indent) + ShowReport(last);
    LinesJoin(ls);
    var r := ParseReports(ls);
    assert r.Some?;
    assert r.value == reports;
  }

  /** The tests' example text: six lines, all but the first indented by eight spaces, with no final line feed. */
  function ExampleText(): string
  {
    Join(Indented(ExampleReports(), "        "), "\n")
  }

  /** `prob1` and `prob2` of the example text are 2 and 4. */
  lemma ExampleSolve()
    ensures Solve1(ExampleText()) == Some(2) && Solve2(ExampleText()) == Some(4)
  {
    ParseIndented(ExampleReports(), "        ");
    ExampleProb1();
    ExampleProb2();
  }

  /** The six example reports. */
  function ExampleReports(): seq<seq<nat>>
  {
    [[7, 6, 4, 2, 1], [1, 2, 7, 8, 9], [9, 7, 6, 2, 1], [1, 3, 2, 4, 5], [8, 6, 4, 4, 1], [1, 3, 6, 7, 9]]
  }

  lemma ExampleSafe()
    ensures ToBool(IsSafeReport([7, 6, 4, 2, 1])) && ToBool(IsSafeReport([1, 3, 6, 7, 9]))
  {
    assert ToBool(IsSafeReport([7, 6, 4, 2, 1])) by {
      assert Monotone([7, 6, 4, 2, 1], false);
      IsSafeReportCorrect([7, 6, 4, 2, 1]);
    }
    assert ToBool(IsSafeReport([1, 3, 6, 7, 9])) by {
      assert Monotone([1, 3, 6, 7, 9], true);
      IsSafeReportCorrect([1, 3, 6, 7, 9]);
    }
  }

  lemma ExampleUnsafe()
    ensures !ToBool(IsSafeReport([1, 2, 7, 8, 9])) && !ToBool(IsSafeReport([9, 7, 6, 2, 1]))
    ensures !ToBool(IsSafeReport([1, 3, 2, 4, 5])) && !ToBool(IsSafeReport([8, 6, 4, 4, 1]))
  {
    Unsafe([1, 2, 7, 8, 9], 1);
    Unsafe([9, 7, 6, 2, 1], 2);
    UnsafeTurn([1, 3, 2, 4, 5], 0, 1);
    Unsafe([8, 6, 4, 4, 1], 2);
  }

  /** A report with one bad gap is unsafe. */
  lemma Unsafe(data: seq<nat>, i: nat)
    requires i + 1 < |data| && !GoodGap(data[i], data[i + 1])
    ensures !ToBool(IsSafeReport(data))
  {
    IsSafeReportCorrect(data);
  }

  /** A report that goes both up and down is unsafe. */
  lemma UnsafeTurn(data: seq<nat>, i: nat, j: nat)
    requires i + 1 < |data| && j + 1 < |data|
    requires (data[i + 1] > data[i]) != (data[j + 1] > data[j])
    ensures !ToBool(IsSafeReport(data))
  {
    IsSafeReportCorrect(data);
  }

  lemma ExampleProb1()
    ensures Prob1(ExampleReports()) == 2
  {
    ExampleSafe();
    ExampleUnsafe();
    var r := ExampleReports();
    ExampleProb1Front();
    TakeNext(r, 3);
    Prob1Append(r[..3], r[3]);
    TakeNext(r, 4);
    Prob1Append(r[..4], r[4]);
    TakeNext(r, 5);
    Prob1Append(r[..5], r[5]);
    TakeAll(r);
  }

  /** Of the first three reports only the safe first one counts. */
  lemma ExampleProb1Front()
    ensures Prob1(ExampleReports()[..3]) == 1
  {
    ExampleSafe();
    ExampleUnsafe();
    var r := ExampleReports();
    TakeNext(r, 0);
    Prob1Append(r[..0], r[0]);
    TakeNext(r, 1);
    Prob1Append(r[..1], r[1]);
    TakeNext(r, 2);
    Prob1Append(r[..2], r[2]);
  }

  lemma Prob1Append(rs: seq<seq<nat>>, v: seq<nat>)
    ensures Prob1(rs + [v]) == Prob1(rs) + if ToBool(IsSafeReport(v)) then 1 else 0
  {
    assert (rs + [v])[..|rs|] == rs;
  }

  /** Only the two reports repaired by one removal join the two safe ones. */
  lemma ExampleProb2()
    ensures Prob2(ExampleReports()) == 4
  {
    var r := ExampleReports();
    assert Tolerated(r[5]) by { ExampleTolerated(); }
    ExampleProb2Middle();
    TakeNext(r, 5);
    Prob2Append(r[..5], r[5]);
    TakeAll(r);
  }

  /** The fourth and fifth reports are repaired by one removal. */
  lemma ExampleProb2Middle()
    ensures Prob2(ExampleReports()[..5]) == 3
  {
    var r := ExampleReports();
    assert Tolerated(r[3]) && Tolerated(r[4]) by { ExampleTolerated(); }
    ExampleProb2Front();
    TakeNext(r, 3);
    Prob2Append(r[..3], r[3]);
    TakeNext(r, 4);
    Prob2Append(r[..4], r[4]);
  }

  /** Of the first three reports only the safe first one counts. */
  lemma ExampleProb2Front()
    ensures Prob2(ExampleReports()[..3]) == 1
  {
    ExampleTolerated();
    ExampleBeyondRepair1();
    ExampleBeyondRepair2();
    var r := ExampleReports();
    TakeNext(r, 0);
    Prob2Append(r[..0], r[0]);
    TakeNext(r, 1);
    Prob2Append(r[..1], r[1]);
    TakeNext(r, 2);
    Prob2Append(r[..2], r[2]);
  }

  lemma Prob2Append(rs: seq<seq<nat>>, v: seq<nat>)
    ensures Prob2(rs + [v]) == Prob2(rs) + if Tolerated(v) then 1 else 0
  {
    assert (rs + [v])[..|rs|] == rs;
  }

  /** The two safe reports, and the two that one removal repairs, are tolerated. */
  lemma ExampleTolerated()
    ensures Tolerated([7, 6, 4, 2, 1]) && Tolerated([1, 3, 6, 7, 9])
    ensures Tolerated([1, 3, 2, 4, 5]) && Tolerated([8, 6, 4, 4, 1])
  {
    ExampleSafe();
    ShortOrSafeTolerated([7, 6, 4, 2, 1]);
    ShortOrSafeTolerated([1, 3, 6, 7, 9]);
    ExampleRepaired1();
    ExampleRepaired2();
  }

  lemma ExampleRepaired1()
    ensures Tolerated([1, 3, 2, 4, 5])
  {
    var v := [1, 3, 2, 4, 5];
    assert Monotone(Remove(v, 1), true);
    RepairedTolerated(v, 1, Remove(v, 1));
  }

  lemma ExampleRepaired2()
    ensures Tolerated([8, 6, 4, 4, 1])
  {
    var v := [8, 6, 4, 4, 1];
    assert Monotone(Remove(v, 2), false);
    RepairedTolerated(v, 2, Remove(v, 2));
  }

  lemma ExampleBeyondRepair1()
    ensures !Tolerated([1, 2, 7, 8, 9])
  {
    var v := [1, 2, 7, 8, 9];
    Unsafe(v, 1);
    RemovalUnsafe(v, 0, 0);
    RemovalUnsafe(v, 1, 0);
    RemovalUnsafe(v, 2, 1);
    RemovalUnsafe(v, 3, 1);
    RemovalUnsafe(v, 4, 1);
    NotTolerated(v);
  }

  lemma ExampleBeyondRepair2()
    ensures !Tolerated([9, 7, 6, 2, 1])
  {
    var v := [9, 7, 6, 2, 1];
    Unsafe(v, 2);
    RemovalUnsafe(v, 0, 1);
    RemovalUnsafe(v, 1, 1);
    RemovalUnsafe(v, 2, 1);
    RemovalUnsafe(v, 3, 2);
    RemovalUnsafe(v, 4, 2);
    NotTolerated(v);
  }

  /** A removal that leaves a bad gap leaves an unsafe report. */
  lemma RemovalUnsafe(v: seq<nat>, n: nat, i: nat)
    requires n < |v| && i + 2 < |v| && !GoodGap(Remove(v, n)[i], Remove(v, n)[i + 1])
    ensures !ToBool(IsSafeReport(Remove(v, n)))
  {
    Unsafe(Remove(v, n), i);
  }

  lemma ShortOrSafeTolerated(v: seq<nat>)
    requires ToBool(IsSafeReport(v))
    ensures Tolerated(v)
  {
  }

  /** A report that one removal makes safe is tolerated. */
  lemma RepairedTolerated(v: seq<nat>, n: nat, w: seq<nat>)
    requires n < |v| && Remove(v, n) == w && SafeLevels(w)
    ensures Tolerated(v)
  {
    ToleratedSpec(v);
  }

  /** A failed report that no single removal makes safe is not tolerated. */
  lemma NotTolerated(v: seq<nat>)
    requires v != [] && !ToBool(IsSafeReport(v))
    requires forall n | 0 <= n < |v| :: !ToBool(IsSafeReport(Remove(v, n)))
    ensures !Tolerated(v)
  {
    IsSafeReportState(v);
    NoRemoval(v, |v|);
  }

  lemma {:induction false} NoRemoval(v: seq<nat>, k: nat)
    requires k <= |v|
    requires forall n | 0 <= n < k :: !ToBool(IsSafeReport(Remove(v, n)))
    ensures !AnyRemovalSafe(v, k)
  {
    if k > 0 {
      NoRemoval(v, k - 1);
    }
  }
}
