/** The checkout page's reservation countdown: the whole seconds left when the page loads, the
    one-second step of the timer, and the m:ss text it is shown as. Times are in milliseconds. */
module Checkout {
  import opened Types
  import opened Seqs
  import opened Decimal

  /** Math.max(0, Math.floor((expiry - now) / 1000)). Dafny's division by a positive number
      rounds down, as Math.floor of the quotient does. */
  function RemainingSeconds(expiryMs: int, nowMs: int): (r: int)
    ensures r >= 0
    ensures r == 0 <==> expiryMs - nowMs < 1000
    ensures r > 0 ==> r * 1000 <= expiryMs - nowMs < (r + 1) * 1000
  {
    var q := (expiryMs - nowMs) / 1000;
    if q > 0 then q else 0
  }

  /** The interval's update: a positive count goes down by one, anything else (no count yet,
      zero or below) becomes 0. */
  function CountdownStep(prev: Option<int>): (r: int)
    ensures r >= 0
    ensures prev.Some? && prev.value > 0 ==> r == prev.value - 1
    ensures r > 0 ==> prev.Some? && r == prev.value - 1
  {
    if prev.Some? && prev.value > 0 then prev.value - 1 else 0
  }

  /** The count after `k` ticks starting from `t`. */
  function Ticks(t: int, k: nat): int
    decreases k
  {
    if k == 0 then t else Ticks(CountdownStep(Some(t)), k - 1)
  }

  /** From `t` seconds the timer counts t, t-1, ..., 1, 0 and then stays at 0. */
  lemma {:induction false} TicksCount(t: nat, k: nat)
    ensures Ticks(t, k) == if k <= t then t - k else 0
  {
    if k > 0 {
      TicksCount(CountdownStep(Some(t)), k - 1);
    }
  }

  /** JavaScript's % with a positive divisor: the remainder takes the sign of the dividend. */
  function JsRem(a: int, b: int): (r: int)
    requires b > 0
    ensures a >= 0 ==> 0 <= r < b && r == a % b
    ensures a < 0 ==> -b < r <= 0
  {
    if a >= 0 then a % b else -((-a) % b)
  }

  /** formatTime: minutes, a colon, and the seconds with a "0" put in front below ten. */
  function FormatTime(seconds: int): string {
    var minutes := seconds / 60;
    var rest := JsRem(seconds, 60);
    IntToString(minutes) + ":" + (if rest < 10 then "0" else "") + IntToString(rest)
  }

  /** The two-digit text of a count of seconds below a minute. */
  function TwoDigits(s: nat): string
    requires s < 60
  {
    (if s < 10 then "0" else "") + NatToString(s)
  }

  /** For a count that is not negative, the text is the minutes, a colon and exactly two digits
      giving the seconds, which are below 60. */
  lemma FormatTimeShape(seconds: nat)
    ensures FormatTime(seconds) == NatToString(seconds / 60) + ":" + TwoDigits(seconds % 60)
    ensures |TwoDigits(seconds % 60)| == 2 && AllDigits(TwoDigits(seconds % 60))
  {
  }

  /** Read "m:ss" back: the digits before the first colon are the minutes, and exactly two digits
      below 60 after it are the seconds. */
  function ReadTime(t: string): Option<int> {
    match FindFirst(t, (c: char) => c == ':')
    case None => None
    case Some(k) =>
      match (ParseNat(t[..k]), ParseNat(t[k + 1..]))
      case (Some(m), Some(s)) => if |t[k + 1..]| == 2 && s < 60 then Some(m * 60 + s) else None
      case _ => None
  }

  /** The two digits read back as their value. */
  lemma TwoDigitsValue(s: nat)
    requires s < 60
    ensures ParseNat(TwoDigits(s)) == Some(s)
  {
    ParseNatToString(s);
    if s < 10 {
      var t := TwoDigits(s);
      assert t == ['0', DigitChar(s)];
      assert AllDigits(t);
      assert t[..|t| - 1] == ['0'];
      assert DigitsValue(['0']) == 0 by { assert ['0'][..0] == []; }
      assert DigitsValue(t) == s;
    }
  }

  /** Text with no colon before the first one splits there. */
  lemma ReadTimeSplit(m: string, ss: string)
    requires forall j :: 0 <= j < |m| ==> m[j] != ':'
    ensures ReadTime(m + ":" + ss) ==
            match (ParseNat(m), ParseNat(ss))
            case (Some(a), Some(b)) => if |ss| == 2 && b < 60 then Some(a * 60 + b) else None
            case _ => None
  {
    var t := m + ":" + ss;
    assert t[|m|] == ':';
    assert forall j :: 0 <= j < |m| ==> t[j] == m[j];
    assert t[..|m|] == m;
    assert t[|m| + 1..] == ss;
  }

  /** Round trip: the text formatTime shows for a count of seconds reads back as that count. */
  lemma ReadFormatTime(seconds: nat)
    ensures ReadTime(FormatTime(seconds)) == Some(seconds)
  {
    FormatTimeShape(seconds);
    var m := NatToString(seconds / 60);
    assert forall j :: 0 <= j < |m| ==> m[j] != ':' by {
      assert AllDigits(m);
    }
    ReadTimeSplit(m, TwoDigits(seconds % 60));
    ParseNatToString(seconds / 60);
    TwoDigitsValue(seconds % 60);
  }

  /** formatTime is never given a negative count (the countdown stops at 0); given one, it
      shows the floor of the minutes and the signed remainder: -5 seconds shows as "-1:0-5". */
  lemma FormatTimeOfNegative()
    ensures FormatTime(-5) == "-1:0-5"
  {
    assert NatToString(1) == "1";
    assert NatToString(5) == "5";
  }
}
