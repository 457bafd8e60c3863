/**
 * The pure helpers behind the live display: the `MM:SS` clock face of a
 * countdown, and the choice of the "next" task shown in the main ring.
 */
module Display {
  import opened Wrappers
  import opened Tasks

  predicate IsDigit(c: char) {
    '0' <= c <= '9'
  }

  function DigitChar(d: int): (c: char)
    requires 0 <= d < 10
    ensures IsDigit(c) && c as int - '0' as int == d
  {
    ('0' as int + d) as char
  }

  function DigitValue(c: char): (d: int)
    requires IsDigit(c)
    ensures 0 <= d < 10
  {
    c as int - '0' as int
  }

  /** The number a string of decimal digits spells, most significant first. */
  function DigitsValue(s: string): nat
    requires forall i | 0 <= i < |s| :: IsDigit(s[i])
    decreases |s|
  {
    if |s| == 0 then 0 else DigitsValue(s[..|s| - 1]) * 10 + DigitValue(s[|s| - 1])
  }

  /** `String(n)` for a non-negative integer: its decimal digits, no leading zero. */
  function NatToString(n: nat): (r: string)
    ensures 1 <= |r|
    ensures forall i | 0 <= i < |r| :: IsDigit(r[i])
    ensures DigitsValue(r) == n
    ensures |r| > 1 ==> r[0] != '0'
    ensures n < 10 <==> |r| == 1
    decreases n
  {
    if n < 10 then [DigitChar(n)]
    else
      var high := NatToString(n / 10);
      var r := high + [DigitChar(n % 10)];
      assert r[..|r| - 1] == high;
      r
  }

  /** `String(i)` for any integer: a minus sign before the digits of `-i` when negative. */
  function IntToString(i: int): string {
    if i < 0 then "-" + NatToString(-i) else NatToString(i)
  }

  /** `padStart(2, '0')`: zeros in front up to length 2; longer text is kept as it is. */
  function PadStart2(s: string): (r: string)
    ensures |r| == if |s| >= 2 then |s| else 2
    ensures r[|r| - |s|..] == s
    ensures forall i | 0 <= i < |r| - |s| :: r[i] == '0'
  {
    if |s| >= 2 then s else if |s| == 1 then "0" + s else "00"
  }

  /** The quotient rounded toward zero, as `Math.trunc(a / b)`. */
  function TruncDiv(a: int, b: int): int
    requires b > 0
  {
    if a >= 0 then a / b else -((-a) / b)
  }

  /**
   * JavaScript's `%`: what is left over after taking out the quotient
   * rounded toward zero, so the remainder carries the sign of the dividend.
   */
  function JsRem(a: int, b: int): (r: int)
    requires b > 0
    ensures a == b * TruncDiv(a, b) + r
    ensures a >= 0 ==> 0 <= r < b
    ensures a < 0 ==> -b < r <= 0
    ensures a >= 0 ==> r == a % b
  {
    if a >= 0 then a % b
    else
      var m := -a;
      assert m == b * (m / b) + m % b;
      assert b * TruncDiv(a, b) == -(b * (m / b));
      -(m % b)
  }

  /**
   * `formatTime`: whole minutes (`Math.floor(seconds / 60)`, which is
   * Dafny's `/` for the positive divisor 60) and the JavaScript remainder,
   * each padded to two characters, around a colon.
   */
  function FormatTime(seconds: int): string {
    ClockFace(seconds / 60, JsRem(seconds, 60))
  }

  /** The two padded fields of `formatTime` around the colon. */
  function ClockFace(mins: int, secs: int): string {
    PadStart2(IntToString(mins)) + ":" + PadStart2(IntToString(secs))
  }

  /** Reads an `MM:SS` clock face (seconds field below 60) back as seconds. */
  function ParseClock(r: string): (v: Option<int>)
    ensures v.Some? ==> 0 <= v.value < 6000
  {
    if |r| == 5 && IsDigit(r[0]) && IsDigit(r[1]) && r[2] == ':'
       && IsDigit(r[3]) && IsDigit(r[4]) && DigitValue(r[3]) < 6
    then Some((DigitValue(r[0]) * 10 + DigitValue(r[1])) * 60 + DigitValue(r[3]) * 10 + DigitValue(r[4]))
    else None
  }

  lemma TwoDigits(n: int)
    requires 0 <= n < 100
    ensures PadStart2(IntToString(n)) == [DigitChar(n / 10), DigitChar(n % 10)]
  {
    if n < 10 {
      assert n / 10 == 0 && n % 10 == n;
      var digits := NatToString(n);
      assert digits == [DigitChar(n)];
      assert IntToString(n) == digits;
      assert PadStart2(digits) == "0" + digits;
      assert DigitChar(0) == '0';
    } else {
      var hi, lo := n / 10, n % 10;
      assert 0 < hi < 10 && 0 <= lo < 10;
      assert NatToString(hi) == [DigitChar(hi)];
      var digits := NatToString(n);
      assert digits == NatToString(hi) + [DigitChar(lo)];
      assert digits == [DigitChar(hi), DigitChar(lo)];
      assert IntToString(n) == digits;
      assert PadStart2(digits) == digits;
    }
  }

  /** The face spelled by two two-digit fields. */
  function DigitFace(mins: int, secs: int): string
    requires 0 <= mins < 100 && 0 <= secs < 60
  {
    [DigitChar(mins / 10), DigitChar(mins % 10), ':', DigitChar(secs / 10), DigitChar(secs % 10)]
  }

  /** A face spelled by two fields below 100 and 60 reads back as `mins*60 + secs`. */
  lemma DigitFaceReadsBack(mins: int, secs: int)
    requires 0 <= mins < 100 && 0 <= secs < 60
    ensures var r := DigitFace(mins, secs);
      && |r| == 5 && r[2] == ':'
      && (forall i | 0 <= i < 5 && i != 2 :: IsDigit(r[i]))
      && DigitValue(r[0]) * 10 + DigitValue(r[1]) == mins
      && DigitValue(r[3]) * 10 + DigitValue(r[4]) == secs
      && ParseClock(r) == Some(mins * 60 + secs)
  {
    var a, b, c, d := mins / 10, mins % 10, secs / 10, secs % 10;
    assert a * 10 + b == mins && c * 10 + d == secs && c < 6;
    var r := DigitFace(mins, secs);
    assert DigitValue(r[0]) == a && DigitValue(r[1]) == b && DigitValue(r[3]) == c && DigitValue(r[4]) == d;
  }

  /** Two fields below 100 and 60 make an `MM:SS` face. */
  lemma ClockFaceDigits(mins: int, secs: int)
    requires 0 <= mins < 100 && 0 <= secs < 60
    ensures ClockFace(mins, secs) == DigitFace(mins, secs)
  {
    var m, s := PadStart2(IntToString(mins)), PadStart2(IntToString(secs));
    assert ClockFace(mins, secs) == m + ":" + s;
    TwoDigits(mins);
    TwoDigits(secs);
    Spell(DigitChar(mins / 10), DigitChar(mins % 10), DigitChar(secs / 10), DigitChar(secs % 10));
  }

  lemma Spell(a: char, b: char, c: char, d: char)
    ensures [a, b] + ":" + [c, d] == [a, b, ':', c, d]
  {
  }

  lemma MinutesAndSeconds(seconds: int)
    requires 0 <= seconds < 6000
    ensures 0 <= seconds / 60 < 100 && 0 <= seconds % 60 < 60
    ensures seconds / 60 * 60 + seconds % 60 == seconds
    ensures FormatTime(seconds) == ClockFace(seconds / 60, seconds % 60)
  {
    assert JsRem(seconds, 60) == seconds % 60;
  }

  /**
   * Below 100 minutes the clock face is exactly `MM:SS`: five characters,
   * the minutes `seconds / 60` and the seconds `seconds % 60 < 60` in two
   * digits each, reading back as the same number of seconds.
   */
  lemma FormatTimeClock(seconds: int)
    requires 0 <= seconds < 6000
    ensures var r := FormatTime(seconds);
      && |r| == 5 && r[2] == ':'
      && (forall i | 0 <= i < 5 && i != 2 :: IsDigit(r[i]))
      && DigitValue(r[0]) * 10 + DigitValue(r[1]) == seconds / 60
      && DigitValue(r[3]) * 10 + DigitValue(r[4]) == seconds % 60 < 60
      && ParseClock(r) == Some(seconds)
  {
    MinutesAndSeconds(seconds);
    ClockFaceDigits(seconds / 60, seconds % 60);
    DigitFaceReadsBack(seconds / 60, seconds % 60);
  }

  lemma NatToStringThreeDigits(n: nat)
    requires n >= 100
    ensures |NatToString(n)| >= 3
  {
    assert n / 10 >= 10;
    assert |NatToString(n / 10)| >= 2;
  }

  /** From 100 minutes on the minutes field outgrows two characters. */
  lemma FormatTimeWidensAt100Minutes(seconds: int)
    requires seconds >= 6000
    ensures |FormatTime(seconds)| > 5
  {
    var mins := seconds / 60;
    var secs := JsRem(seconds, 60);
    assert mins >= 100;
    NatToStringThreeDigits(mins);
    assert |PadStart2(IntToString(mins))| >= 3;
    assert |PadStart2(IntToString(secs))| >= 2;
    assert FormatTime(seconds) == ClockFace(mins, secs);
  }

  lemma ClockFaceNegative()
    ensures ClockFace(-1, -1) == "-1:-1"
    ensures ClockFace(-2, -1) == "-2:-1"
  {
    assert NatToString(1) == "1";
    assert NatToString(2) == "2";
    assert IntToString(-1) == "-1";
    assert IntToString(-2) == "-2";
    assert PadStart2("-1") == "-1";
    assert PadStart2("-2") == "-2";
  }

  /** A negative integer in text: the minus sign, then the digits of its magnitude, never padded. */
  lemma NegativeField(i: int)
    requires i < 0
    ensures PadStart2(IntToString(i)) == "-" + NatToString(-i)
  {
    assert |IntToString(i)| >= 2;
  }

  /**
   * A negative input keeps JavaScript's signs: the minutes field is
   * `Math.floor(seconds / 60)`, a minus sign and its magnitude; the seconds
   * field is `"00"` on a whole minute and otherwise a minus sign and the
   * magnitude of the truncating remainder. Neither field is zero-padded.
   */
  lemma FormatTimeNegative(seconds: int)
    requires seconds < 0
    ensures var mins := seconds / 60; var secs := JsRem(seconds, 60);
      && mins < 0 && mins * 60 <= seconds < mins * 60 + 60
      && -60 < secs <= 0
      && FormatTime(seconds)
         == "-" + NatToString(-mins) + ":" + (if secs == 0 then "00" else "-" + NatToString(-secs))
  {
    var mins := seconds / 60;
    var secs := JsRem(seconds, 60);
    NegativeField(mins);
    if secs == 0 {
      assert PadStart2(IntToString(secs)) == "00";
    } else {
      NegativeField(secs);
    }
  }

  /** Two instances: -1 s reads `-1:-1` and -61 s reads `-2:-1`. */
  lemma FormatTimeNegativeExamples()
    ensures FormatTime(-1) == "-1:-1"
    ensures FormatTime(-61) == "-2:-1"
  {
    assert -1 / 60 == -1;
    assert JsRem(-1, 60) == -1;
    assert -61 / 60 == -2;
    assert JsRem(-61, 60) == -1;
    ClockFaceNegative();
  }

  // ------------------------------------------------------------- next task

  /** A task the "next task" scan may pick: enabled, with a countdown entry. */
  predicate Candidate(ts: seq<Task>, cds: map<TaskId, int>, i: int) {
    0 <= i < |ts| && ts[i].enabled && ts[i].id in cds
  }

  /** `i` is the first candidate among positions `< n` whose countdown is least among them. */
  ghost predicate FirstLeastBelow(ts: seq<Task>, cds: map<TaskId, int>, i: int, n: int) {
    && i < n
    && Candidate(ts, cds, i)
    && (forall j | 0 <= j < n && Candidate(ts, cds, j) :: cds[ts[i].id] <= cds[ts[j].id])
    && (forall j | 0 <= j < i && Candidate(ts, cds, j) :: cds[ts[i].id] < cds[ts[j].id])
  }

  /** The task the main ring shows: the first enabled task with the least countdown. */
  ghost predicate IsNext(ts: seq<Task>, cds: map<TaskId, int>, i: int) {
    FirstLeastBelow(ts, cds, i, |ts|)
  }

  /** At most one position is the next task. */
  lemma IsNextUnique(ts: seq<Task>, cds: map<TaskId, int>, i: int, j: int)
    requires IsNext(ts, cds, i) && IsNext(ts, cds, j)
    ensures i == j
  {
  }

  /** `c < minTime`, where an absent `minTime` stands for `Infinity`. */
  predicate Below(c: int, minTime: Option<int>) {
    minTime.None? || c < minTime.value
  }

  /**
   * The scan of `updateLiveValues`: a strict `<` against the running
   * minimum, so among equal countdowns the earliest task in list order
   * wins; no candidate leaves it `null`.
   */
  method NextTask(ts: seq<Task>, cds: map<TaskId, int>) returns (next: Option<Task>)
    ensures next.None? <==> forall i | 0 <= i < |ts| :: !Candidate(ts, cds, i)
    ensures next.Some? ==> exists i :: IsNext(ts, cds, i) && ts[i] == next.value
  {
    next := None;
    var minTime: Option<int> := None;
    ghost var at := -1;
    var i := 0;
    while i < |ts|
      invariant 0 <= i <= |ts|
      invariant next.None? ==> at == -1 && minTime.None? && forall j | 0 <= j < i :: !Candidate(ts, cds, j)
      invariant next.Some? ==> 0 <= at < i && ts[at] == next.value && ts[at].id in cds
      invariant next.Some? ==> minTime == Some(cds[ts[at].id])
      invariant next.Some? ==> FirstLeastBelow(ts, cds, at, i)
    {
      var t := ts[i];
      if t.enabled && t.id in cds && Below(cds[t.id], minTime) {
        minTime := Some(cds[t.id]);
        next := Some(t);
        at := i;
      }
      i := i + 1;
    }
  }
}
