/** src/poc.rs: the calibration decoder (first and last digit of a line). */
module Poc {
  import opened Common

  predicate IsAsciiDigit(c: char)
  {
    '0' <= c <= '9'
  }

  function DigitValue(c: char): (d: nat)
    requires IsAsciiDigit(c)
    ensures d < 10
  {
    (c as int) - ('0' as int)
  }

  /** The fold accumulator: the first digit seen and the most recent digit seen. */
  datatype Digits = Digits(first: Option<char>, last: Option<char>)

  /** One step of the fold: non-digits leave the accumulator alone. */
  function Step(acc: Digits, c: char): (r: Digits)
    ensures !IsAsciiDigit(c) ==> r == acc
    ensures IsAsciiDigit(c) && acc.first.Some? == acc.last.Some? ==>
      r.last == Some(c) && r.first == (if acc.first.Some? then acc.first else Some(c))
  {
    if !IsAsciiDigit(c) then acc
    else match acc
      case Digits(None, None) => Digits(Some(c), Some(c))
      case Digits(Some(c1), _) => Digits(Some(c1), Some(c))
      case _ => acc
  }

  /** The left fold of `Step` over the characters of `s`, starting from `(None, None)`. */
  function Fold(s: seq<char>): Digits
  {
    if s == [] then Digits(None, None) else Step(Fold(s[..|s| - 1]), s[|s| - 1])
  }

  /**
   * `decode_string`: two-digit number made of the first and last digit.
   * `None` stands for the panic of `unwrap` on a line without any digit.
   */
  function DecodeString(s: seq<char>): (r: Option<nat>)
    ensures r.Some? ==> Fold(s).first.Some? && IsAsciiDigit(Fold(s).first.value)
    ensures r.Some? ==> Fold(s).last.Some? && IsAsciiDigit(Fold(s).last.value)
    ensures r.Some? ==> r.value / 10 == DigitValue(Fold(s).first.value) && r.value % 10 == DigitValue(Fold(s).last.value)
  {
    var d := Fold(s);
    if d.first.Some? && d.last.Some? && IsAsciiDigit(d.first.value) && IsAsciiDigit(d.last.value) then
      Some(10 * DigitValue(d.first.value) + DigitValue(d.last.value))
    else
      None
  }

  predicate NoDigitIn(s: seq<char>, lo: int, hi: int)
    requires 0 <= lo <= hi <= |s|
  {
    forall k | lo <= k < hi :: !IsAsciiDigit(s[k])
  }

  /** The fold sees no digit before the first digit, and afterwards keeps that first digit and the latest one. */
  lemma {:induction false} FoldSpec(s: seq<char>)
    ensures NoDigitIn(s, 0, |s|) ==> Fold(s) == Digits(None, None)
    ensures forall i, j | 0 <= i <= j < |s| && IsAsciiDigit(s[i]) && IsAsciiDigit(s[j])
                          && NoDigitIn(s, 0, i) && NoDigitIn(s, j + 1, |s|) ::
              Fold(s) == Digits(Some(s[i]), Some(s[j]))
  {
    if s != [] {
      var s' := s[..|s| - 1];
      FoldSpec(s');
      forall i, j | 0 <= i <= j < |s| && IsAsciiDigit(s[i]) && IsAsciiDigit(s[j])
                    && NoDigitIn(s, 0, i) && NoDigitIn(s, j + 1, |s|)
        ensures Fold(s) == Digits(Some(s[i]), Some(s[j]))
      {
        if j < |s| - 1 {
          assert !IsAsciiDigit(s[|s| - 1]);
          assert NoDigitIn(s', j + 1, |s'|);
        } else if i == j {
          assert NoDigitIn(s', 0, |s'|);
        } else {
          // the last digit of the prefix
          var j' :| i <= j' < |s'| && IsAsciiDigit(s'[j']) && NoDigitIn(s', j' + 1, |s'|) by {
            LastDigitExists(s', i);
          }
        }
      }
    }
  }

  lemma {:induction false} LastDigitExists(s: seq<char>, i: nat)
    requires i < |s| && IsAsciiDigit(s[i])
    ensures exists j :: i <= j < |s| && IsAsciiDigit(s[j]) && NoDigitIn(s, j + 1, |s|)
  {
    if IsAsciiDigit(s[|s| - 1]) {
      assert NoDigitIn(s, |s|, |s|);
    } else {
      LastDigitExists(s[..|s| - 1], i);
      var j :| i <= j < |s| - 1 && IsAsciiDigit(s[j]) && NoDigitIn(s[..|s| - 1], j + 1, |s| - 1);
      assert NoDigitIn(s, j + 1, |s|);
    }
  }

  /** With first digit at `i` and last digit at `j`, the line decodes to `10*s[i] + s[j]`. */
  lemma DecodeFirstLast(s: seq<char>, i: nat, j: nat)
    requires i <= j < |s| && IsAsciiDigit(s[i]) && IsAsciiDigit(s[j])
    requires NoDigitIn(s, 0, i) && NoDigitIn(s, j + 1, |s|)
    ensures DecodeString(s) == Some(10 * DigitValue(s[i]) + DigitValue(s[j]))
  {
    FoldSpec(s);
  }

  /** A line without any ASCII digit is the `unwrap` panic. */
  lemma DecodeNoDigit(s: seq<char>)
    requires NoDigitIn(s, 0, |s|)
    ensures DecodeString(s) == None
  {
    FoldSpec(s);
  }

  /** Exactly the lines with at least one digit decode, and they decode to a number below 100. */
  lemma DecodeRange(s: seq<char>)
    ensures DecodeString(s).Some? <==> exists k :: 0 <= k < |s| && IsAsciiDigit(s[k])
    ensures DecodeString(s).Some? ==> DecodeString(s).value <= 99
  {
    if k :| 0 <= k < |s| && IsAsciiDigit(s[k]) {
      var i := FirstDigit(s, k);
      LastDigitExists(s, i);
      var j :| i <= j < |s| && IsAsciiDigit(s[j]) && NoDigitIn(s, j + 1, |s|);
      DecodeFirstLast(s, i, j);
    } else {
      DecodeNoDigit(s);
    }
  }

  lemma {:induction false} FirstDigitHelper(s: seq<char>, k: nat, lo: nat) returns (i: nat)
    requires lo <= k < |s| && IsAsciiDigit(s[k]) && NoDigitIn(s, 0, lo)
    ensures i <= k && IsAsciiDigit(s[i]) && NoDigitIn(s, 0, i)
    decreases k - lo
  {
    if IsAsciiDigit(s[lo]) {
      i := lo;
    } else {
      i := FirstDigitHelper(s, k, lo + 1);
    }
  }

  lemma FirstDigit(s: seq<char>, k: nat) returns (i: nat)
    requires k < |s| && IsAsciiDigit(s[k])
    ensures i <= k && IsAsciiDigit(s[i]) && NoDigitIn(s, 0, i)
  {
    i := FirstDigitHelper(s, k, 0);
  }

  /** A line with a single digit `d` decodes to `11*d`. */
  lemma DecodeSingleDigit(s: seq<char>, i: nat)
    requires i < |s| && IsAsciiDigit(s[i]) && NoDigitIn(s, 0, i) && NoDigitIn(s, i + 1, |s|)
    ensures DecodeString(s) == Some(11 * DigitValue(s[i]))
  {
    DecodeFirstLast(s, i, i);
  }

  /** The unit test's lines. */
  lemma DecodeExamples()
    ensures DecodeString("1abc2") == Some(12)
    ensures DecodeString("pqr3stu8vwx") == Some(38)
    ensures DecodeString("a1b2c3d4e5f") == Some(15)
    ensures DecodeString("treb7uchet") == Some(77)
  {
    DecodeFirstLast("1abc2", 0, 4);
    DecodeFirstLast("pqr3stu8vwx", 3, 7);
    DecodeFirstLast("a1b2c3d4e5f", 1, 9);
    DecodeSingleDigit("treb7uchet", 4);
  }
}
