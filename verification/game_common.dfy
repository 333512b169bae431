/** Vocabulary shared by the three games: the difficulty selector and the `mm:ss` timer display. */
module GameCommon {

  /** The values of the difficulty `<select>` of the Sudoku and word-search games. */
  datatype Difficulty = Easy | Medium | Hard

  predicate IsDigitChar(c: char) {
    '0' <= c <= '9'
  }

  predicate AllDigits(s: string) {
    forall i :: 0 <= i < |s| ==> IsDigitChar(s[i])
  }

  /** The number a string of decimal digits denotes, most significant digit first. */
  function DigitsValue(s: string): nat
    requires AllDigits(s)
  {
    if |s| == 0 then 0
    else DigitsValue(s[..|s| - 1]) * 10 + (s[|s| - 1] as int - '0' as int)
  }

  /** `n.toString()` for a natural number. */
  function Decimal(n: nat): (r: string)
    ensures 1 <= |r| && AllDigits(r)
    ensures n < 10 ==> |r| == 1
    ensures 10 <= n < 100 ==> |r| == 2
    ensures n > 0 ==> r[0] != '0'
    ensures DigitsValue(r) == n
  {
    var d := ['0' + (n % 10) as char];
    if n < 10 then d
    else
      var r := Decimal(n / 10) + d;
      assert r[..|r| - 1] == Decimal(n / 10);
      r
  }

  /** `s.padStart(2, "0")`: left-pads with zeros up to length two, never truncates. */
  function PadTwo(s: string): (r: string)
    requires AllDigits(s)
    ensures AllDigits(r) && |r| == if |s| < 2 then 2 else |s|
    ensures DigitsValue(r) == DigitsValue(s)
  {
    if |s| == 0 then "00"
    else if |s| == 1 then LeadingZero(s); "0" + s
    else s
  }

  /** A leading zero does not change the value of a digit string. */
  lemma {:induction false} LeadingZero(s: string)
    requires AllDigits(s)
    ensures AllDigits("0" + s) && DigitsValue("0" + s) == DigitsValue(s)
    decreases |s|
  {
    if |s| > 0 {
      var t := "0" + s;
      assert t[..|t| - 1] == "0" + s[..|s| - 1];
      LeadingZero(s[..|s| - 1]);
    }
  }

  /** `formatTime(seconds)`: minutes and seconds, each zero-padded to at least two
      digits, separated by a colon. Reading the two fields back gives `seconds`. The
      minutes field has two digits below 100 minutes and otherwise no leading zero. */
  function FormatTime(seconds: nat): (r: string)
    ensures |r| >= 5 && r[|r| - 3] == ':'
    ensures seconds < 6000 <==> |r| == 5
    ensures |r| > 5 ==> r[0] != '0'
    ensures AllDigits(r[..|r| - 3]) && AllDigits(r[|r| - 2..])
    ensures DigitsValue(r[..|r| - 3]) == seconds / 60
    ensures DigitsValue(r[|r| - 2..]) == seconds % 60
    ensures DigitsValue(r[..|r| - 3]) * 60 + DigitsValue(r[|r| - 2..]) == seconds
  {
    var mins := PadTwo(Decimal(seconds / 60));
    var secs := PadTwo(Decimal(seconds % 60));
    var r := mins + ":" + secs;
    assert r[..|r| - 3] == mins;
    assert r[|r| - 2..] == secs;
    r
  }

  /** Zero seconds shows as "00:00". */
  lemma FormatTimeZero()
    ensures FormatTime(0) == "00:00"
  {
    var z := Decimal(0);
    assert z == "0";
    assert PadTwo(z) == "00";
    assert "00" + ":" + "00" == "00:00";
  }

  /** 75 seconds shows as "01:15". */
  lemma FormatTimeMinute()
    ensures FormatTime(75) == "01:15"
  {
    assert 75 / 60 == 1 && 75 % 60 == 15;
    var m := Decimal(1);
    assert m == "1";
    var sec := Decimal(15);
    assert sec == m + "5";
    assert PadTwo(m) == "01";
    assert PadTwo(sec) == "15";
    assert "01" + ":" + "15" == "01:15";
  }

  /** A hundred minutes are not truncated: 6000 seconds shows as "100:00". */
  lemma FormatTimeLong()
    ensures FormatTime(6000) == "100:00"
  {
    assert 6000 / 60 == 100 && 6000 % 60 == 0;
    var one := Decimal(1);
    assert one == "1";
    var ten := Decimal(10);
    assert ten == one + "0";
    var hundred := Decimal(100);
    assert hundred == ten + "0";
    assert hundred == "100";
    assert PadTwo(hundred) == "100";
    var z := Decimal(0);
    assert z == "0";
    assert PadTwo(z) == "00";
    assert "100" + ":" + "00" == "100:00";
  }
}
