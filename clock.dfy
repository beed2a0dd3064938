/** The exam countdown: the `mm:ss` display of the remaining seconds and the
    once-a-second tick that stops at zero and ends the exam. */
module Clock {
  import opened Wrappers
  import opened Strings

  /** The quotient JavaScript's `%` goes with: `a / b` truncated toward zero
      (Dafny's `/` is Euclidean, the floor for a positive divisor). */
  function JsQuot(a: int, b: int): int
    requires b > 0
  {
    if a >= 0 then a / b else -((-a) / b)
  }

  /** JavaScript's `%`: the remainder of the division truncated toward zero,
      so it takes the sign of the dividend (Dafny's `%` is Euclidean and
      never negative). */
  function JsRem(a: int, b: int): (r: int)
    requires b > 0
    ensures a == JsQuot(a, b) * b + r
    ensures a >= 0 ==> 0 <= r < b && r == a % b
    ensures a < 0 ==> -b < r <= 0
  {
    if a >= 0 then a % b else -((-a) % b)
  }

  /** `formatTime`: minutes `Math.floor(seconds / 60)` and seconds
      `seconds % 60`, each written in decimal and padded to two characters.
      (For a positive divisor Dafny's `/` is the floor.) */
  function FormatTime(seconds: int): (r: string)
    ensures |r| >= 5
  {
    PadStart2(IntToString(seconds / 60)) + ":" + PadStart2(IntToString(JsRem(seconds, 60)))
  }

  /** Reads an `m...m:ss` display back into a number of seconds. */
  function ReadClock(r: string): Option<int> {
    if |r| >= 4 && r[|r| - 3] == ':' && AllDigits(r[..|r| - 3]) && AllDigits(r[|r| - 2..])
    then Some(DigitsValue(r[..|r| - 3]) * 60 + DigitsValue(r[|r| - 2..]))
    else None
  }

  /** Every non-negative time the display shows reads back as the same
      number of seconds. */
  lemma FormatTimeRoundTrip(seconds: int)
    requires seconds >= 0
    ensures ReadClock(FormatTime(seconds)) == Some(seconds)
  {
    FormatTimeFields(seconds);
    ReadBack(seconds / 60, seconds % 60);
  }

  /** For a non-negative time the two fields are plain decimal numbers. */
  lemma FormatTimeFields(seconds: int)
    requires seconds >= 0
    ensures seconds / 60 >= 0 && seconds % 60 < 60 && seconds / 60 * 60 + seconds % 60 == seconds
    ensures FormatTime(seconds) == Fields(seconds / 60, seconds % 60)
  {
  }

  /** The display built from a minutes and a seconds value. */
  function Fields(m: nat, s: nat): string {
    PadStart2(NatToString(m)) + ":" + PadStart2(NatToString(s))
  }

  /** Minutes and seconds read back from the display. */
  lemma ReadBack(m: nat, s: nat)
    requires s < 60
    ensures ReadClock(Fields(m, s)) == Some(m * 60 + s)
  {
    var mm, ss := PadStart2(NatToString(m)), PadStart2(NatToString(s));
    assert |mm| >= 1 && AllDigits(mm) && DigitsValue(mm) == m by {
      PaddedValue(m);
    }
    assert |ss| == 2 && AllDigits(ss) && DigitsValue(ss) == s by {
      PaddedValue(s);
      TwoDigitsAtMost(s);
    }
    ReadFields(mm, ss, m, s);
  }

  /** A padded decimal field reads back as its number. */
  lemma PaddedValue(n: nat)
    ensures AllDigits(PadStart2(NatToString(n)))
    ensures |PadStart2(NatToString(n))| >= 2
    ensures DigitsValue(PadStart2(NatToString(n))) == n
  {
    PadStart2Value(NatToString(n));
    NatToStringRoundTrip(n);
  }

  /** An `m...m:ss` text reads back as minutes times 60 plus seconds. */
  lemma ReadFields(mm: string, ss: string, m: nat, s: nat)
    requires |mm| >= 1 && AllDigits(mm) && DigitsValue(mm) == m
    requires |ss| == 2 && AllDigits(ss) && DigitsValue(ss) == s
    ensures ReadClock(mm + ":" + ss) == Some(m * 60 + s)
  {
    var r := mm + ":" + ss;
    assert r[..|r| - 3] == mm;
    assert r[|r| - 2..] == ss;
  }

  /** Below 100 minutes the display is the five characters `mm:ss`. */
  lemma FormatTimeShape(seconds: int)
    requires 0 <= seconds < 6000
    ensures |FormatTime(seconds)| == 5 && FormatTime(seconds)[2] == ':'
  {
    FormatTimeFields(seconds);
    FieldsShape(seconds / 60, seconds % 60);
  }

  lemma FieldsShape(m: nat, s: nat)
    requires m < 100 && s < 60
    ensures |Fields(m, s)| == 5 && Fields(m, s)[2] == ':'
  {
    TwoDigitsAtMost(m);
    TwoDigitsAtMost(s);
  }

  /** A number below 100 pads to exactly two characters. */
  lemma TwoDigitsAtMost(n: nat)
    requires n < 100
    ensures |PadStart2(NatToString(n))| == 2
  {
    var t := NatToString(n);
    if n >= 10 {
      assert |NatToString(n / 10)| == 1;
      assert |t| == 2;
    } else {
      assert |t| == 1;
    }
    assert PadStart2(t) == Zeros(2 - |t|) + t;
  }

  /** What one run of the interval callback does with `prev`: the next
      value of the countdown, and whether it ends the exam. */
  datatype TickOutcome = TickOutcome(next: int, finishes: bool)

  /** The interval callback: at zero (or below) it stops the timer, ends the
      exam and stays at zero; otherwise it counts down by one second. */
  function Tick(prev: int): (t: TickOutcome)
    ensures t.next >= 0
    ensures t.finishes <==> prev <= 0
    ensures prev > 0 ==> t.next == prev - 1
    ensures prev <= 0 ==> t.next == 0
  {
    if prev <= 0 then TickOutcome(0, true) else TickOutcome(prev - 1, false)
  }

  /** The interval as a whole: the remaining time, how many times it has
      ended the exam, and whether it still runs (it is cleared on finishing). */
  datatype Interval = Interval(timeLeft: int, finishCalls: nat, running: bool)

  /** One second of the interval: a cleared interval does nothing; a running
      one ticks, ends the exam at most once more, and clears itself exactly
      when it finds the time at zero. */
  function Step(iv: Interval): (r: Interval)
    ensures !iv.running ==> r == iv
    ensures iv.running ==> r.timeLeft >= 0 && (r.running <==> iv.timeLeft > 0)
    ensures iv.running ==> r.finishCalls == iv.finishCalls + (if r.running then 0 else 1)
  {
    if !iv.running then iv
    else
      var t := Tick(iv.timeLeft);
      Interval(t.next, iv.finishCalls + (if t.finishes then 1 else 0), !t.finishes)
  }

  function Run(iv: Interval, k: nat): Interval
    decreases k
  {
    if k == 0 then iv else Run(Step(iv), k - 1)
  }

  /** From `t` seconds, the first `t` ticks count down to zero without
      ending the exam; every later tick leaves it at zero with the exam
      ended exactly once. */
  lemma {:induction false} Countdown(t: nat, k: nat)
    ensures k <= t ==> Run(Interval(t, 0, true), k) == Interval(t - k, 0, true)
    ensures k > t ==> Run(Interval(t, 0, true), k) == Interval(0, 1, false)
  {
    if k > 0 {
      if t > 0 {
        Countdown(t - 1, k - 1);
      } else {
        Stopped(Interval(0, 1, false), k - 1);
      }
    }
  }

  lemma {:induction false} Stopped(iv: Interval, k: nat)
    requires !iv.running
    ensures Run(iv, k) == iv
  {
    if k > 0 {
      Stopped(Step(iv), k - 1);
    }
  }
}
