/** Model of metronome.c: the metronome's globals (declared in metronome.h)
    as the fields of one object, its timer-interval arithmetic, and the
    tick-consuming state machine DoMetronome with beat and measure
    counting. The sound played by DoTick is recorded as the tick kind it
    is given (0 = accent, 1 = plain tick). */
module Metronome {

  const DefaultBpm: int := 100
  const UsecPerSec: int := 1000000

  const AccentTick: int := 0
  const PlainTick: int := 1

  /** struct timeval: seconds and microseconds. */
  datatype TimeVal = TimeVal(sec: int, usec: int)

  // ---------------------------------------------------------------------
  // C integer division
  // ---------------------------------------------------------------------

  /** C's `/` on int: the quotient truncated toward zero. */
  function CDiv(a: int, b: int): (q: int)
    requires b != 0
    ensures a >= 0 && b > 0 ==> q == a / b
    ensures a >= 0 && b < 0 ==> q == -(a / -b)
    ensures a >= 0 && b < 0 ==> q <= 0
  {
    if a >= 0 && b > 0 then a / b
    else if a >= 0 then -(a / -b)
    else if b < 0 then (-a) / (-b)
    else -((-a) / b)
  }

  function Abs(x: int): int {
    if x < 0 then -x else x
  }

  /** C's rule for `/`: the quotient rounds toward zero, so it has the sign
      of a * b (or is 0), and what it leaves, a - b * q, is smaller than |b|
      in magnitude and has the sign of the dividend. */
  lemma CDivTruncates(a: int, b: int)
    requires b != 0
    ensures (a >= 0) == (b > 0) ==> CDiv(a, b) >= 0
    ensures (a >= 0) != (b > 0) ==> CDiv(a, b) <= 0
    ensures a >= 0 ==> 0 <= a - b * CDiv(a, b) < Abs(b)
    ensures a < 0 ==> -Abs(b) < a - b * CDiv(a, b) <= 0
  {
    if a >= 0 && b > 0 {
      RemainderOf(a, b, CDiv(a, b));
    } else if a >= 0 {
      RemainderDivisorNegative(a, b);
    } else if b < 0 {
      RemainderBothNegative(a, b);
    } else {
      RemainderDividendNegative(a, b);
    }
  }

  /** For n >= 0 and m > 0, with d the Euclidean quotient, n - m * d is
      the Euclidean remainder. */
  lemma RemainderOf(n: int, m: int, d: int)
    requires n >= 0 && m > 0 && d == n / m
    ensures 0 <= n - m * d < m
  {
    DivModIdentity(n, m);
  }

  lemma RemainderDivisorNegative(a: int, b: int)
    requires a >= 0 && b < 0
    ensures 0 <= a - b * CDiv(a, b) < -b
  {
    var q := CDiv(a, b);
    RemainderOf(a, -b, -q);
    assert b * q == (-b) * (-q);
  }

  lemma RemainderBothNegative(a: int, b: int)
    requires a < 0 && b < 0
    ensures b < a - b * CDiv(a, b) <= 0
  {
    var q := CDiv(a, b);
    RemainderOf(-a, -b, q);
    assert b * q == -((-b) * q);
  }

  lemma RemainderDividendNegative(a: int, b: int)
    requires a < 0 && b > 0
    ensures -b < a - b * CDiv(a, b) <= 0
  {
    var q := CDiv(a, b);
    RemainderOf(-a, b, -q);
    assert b * q == -(b * (-q));
  }

  /** C's `%` on int: what the truncated quotient leaves, with the sign of
      the dividend. */
  function CRem(a: int, b: int): (r: int)
    requires b != 0
    ensures a >= 0 && b > 0 ==> r == a % b
    ensures a >= 0 && b < 0 ==> r == a % -b
  {
    assert a >= 0 && b < 0 ==> b * CDiv(a, b) == (-b) * (a / -b);
    a - b * CDiv(a, b)
  }

  lemma MulMono(x: int, b: int)
    requires x >= 1 && b > 0
    ensures x * b >= b
  {
    if x > 1 {
      MulMono(x - 1, b);
      assert x * b == (x - 1) * b + b;
    }
  }

  lemma MulLe(x: int, y: int, b: int)
    requires x <= y && b > 0
    ensures x * b <= y * b
  {
    if x < y {
      MulMono(y - x, b);
      assert y * b == (y - x) * b + x * b;
    }
  }

  lemma MulStrictCancel(x: int, y: int, b: int)
    requires b > 0 && x * b < y * b
    ensures x < y
  {
    if x >= y { MulLe(y, x, b); }
  }

  /** a / b < c when a < c * b. */
  lemma DivBelow(a: int, b: int, c: int)
    requires b > 0 && 0 <= a < c * b
    ensures a / b < c
  {
    var q := a / b;
    assert q * b <= a;
    MulStrictCancel(q, c, b);
  }

  /** The Euclidean division identity, stated once for the proofs below. */
  lemma DivModIdentity(a: int, b: int)
    requires b > 0
    ensures a == (a / b) * b + a % b && 0 <= a % b < b
  {
  }

  /** Scaling a remainder r < b by one second's microseconds keeps it below
      b seconds' worth. */
  lemma ScaledBelow(r: int, b: int)
    requires 0 <= r < b
    ensures 0 <= r * UsecPerSec < UsecPerSec * b
  {
    MulLe(r + 1, b, UsecPerSec);
    assert (r + 1) * UsecPerSec == r * UsecPerSec + UsecPerSec;
    if r > 0 { MulMono(r, UsecPerSec); }
  }

  /** Euclidean division is determined by its identity and remainder bound. */
  lemma DivModUnique(a: int, b: int, q: int, r: int)
    requires b > 0 && 0 <= r < b && a == q * b + r
    ensures a / b == q && a % b == r
  {
    var q' := a / b;
    var r' := a % b;
    assert a == q' * b + r';
    assert q * b < (q' + 1) * b;
    assert q' * b < (q + 1) * b;
    MulStrictCancel(q, q' + 1, b);
    MulStrictCancel(q', q + 1, b);
  }

  // ---------------------------------------------------------------------
  // Timer interval
  // ---------------------------------------------------------------------

  /** The interval EnableMetronome arms: 60/bpm seconds, split into whole
      seconds and the microseconds of the remainder, with C's truncating
      division. For a positive bpm both parts are non-negative and the
      microseconds stay under one second; a negative bpm gives a
      non-positive interval. */
  function TimerInterval(bpm: int): (t: TimeVal)
    requires bpm != 0
    ensures bpm > 0 ==> 0 <= t.sec && 0 <= t.usec < UsecPerSec
    ensures bpm < 0 ==> t.sec <= 0 && t.usec <= 0
  {
    IntervalBounds(bpm);
    TimeVal(CDiv(60, bpm), CDiv(CRem(60, bpm) * UsecPerSec, bpm))
  }

  lemma IntervalBounds(bpm: int)
    requires bpm != 0
    ensures bpm > 0 ==> 0 <= CDiv(60, bpm)
    ensures bpm > 0 ==> 0 <= CDiv(CRem(60, bpm) * UsecPerSec, bpm) < UsecPerSec
    ensures bpm < 0 ==> CDiv(60, bpm) <= 0 && CDiv(CRem(60, bpm) * UsecPerSec, bpm) <= 0
  {
    var rem := CRem(60, bpm);
    if bpm > 0 {
      DivModIdentity(60, bpm);
      ScaledBelow(rem, bpm);
      DivBelow(rem * UsecPerSec, bpm, UsecPerSec);
    } else {
      DivModIdentity(60, -bpm);
      ScaledBelow(rem, -bpm);
    }
  }

  /** The two parts add up to 60/bpm seconds, rounded down to whole
      microseconds. */
  lemma IntervalIsSixtySecondsOverBpm(bpm: int)
    requires bpm > 0
    ensures TimerInterval(bpm).sec * UsecPerSec + TimerInterval(bpm).usec
         == 60 * UsecPerSec / bpm
  {
    var q := 60 / bpm;
    var r := 60 % bpm;
    var u := (r * UsecPerSec) / bpm;
    var v := (r * UsecPerSec) % bpm;
    assert TimerInterval(bpm) == TimeVal(q, u);
    assert 60 == q * bpm + r;
    assert r * UsecPerSec == u * bpm + v;
    calc {
      60 * UsecPerSec;
      (q * bpm + r) * UsecPerSec;
      q * UsecPerSec * bpm + r * UsecPerSec;
      q * UsecPerSec * bpm + u * bpm + v;
      (q * UsecPerSec + u) * bpm + v;
    }
    DivModUnique(60 * UsecPerSec, bpm, q * UsecPerSec + u, v);
  }

  // ---------------------------------------------------------------------
  // Beat and measure counting
  // ---------------------------------------------------------------------

  datatype Counters = Counters(beat: int, measure: int)

  /** The kind of tick DoMetronome plays for the current beat. */
  function TickKind(beat: int, beatsPerMeasure: int): int {
    if beat == 0 || beatsPerMeasure == 0 then AccentTick else PlainTick
  }

  /** The counter update of one acting DoMetronome call: free-running when
      beats_per_measure is 0; otherwise the beat is compared with the last
      beat of the measure before it is incremented, and wraps to 0 with the
      measure advanced. */
  function Advance(c: Counters, beatsPerMeasure: int): Counters {
    if beatsPerMeasure == 0 then Counters(c.beat + 1, c.measure)
    else if c.beat == beatsPerMeasure - 1 then Counters(0, c.measure + 1)
    else Counters(c.beat + 1, c.measure)
  }

  /** The counters after n acting calls. */
  function Run(c: Counters, beatsPerMeasure: int, n: nat): Counters
    decreases n
  {
    if n == 0 then c else Advance(Run(c, beatsPerMeasure, n - 1), beatsPerMeasure)
  }

  /** The tick kinds played by n acting calls, in order. */
  function Ticks(c: Counters, beatsPerMeasure: int, n: nat): (s: seq<int>)
    ensures |s| == n
    decreases n
  {
    if n == 0 then []
    else Ticks(c, beatsPerMeasure, n - 1)
         + [TickKind(Run(c, beatsPerMeasure, n - 1).beat, beatsPerMeasure)]
  }

  /** The counter invariant: counters are non-negative, and within a
      measure the beat stays in 0 .. beats_per_measure - 1. */
  predicate InMeasure(c: Counters, beatsPerMeasure: int) {
    0 <= c.beat && 0 <= c.measure && (beatsPerMeasure > 0 ==> c.beat < beatsPerMeasure)
  }

  lemma {:induction false} RunStaysInMeasure(c: Counters, k: int, n: nat)
    requires InMeasure(c, k)
    ensures InMeasure(Run(c, k, n), k)
    decreases n
  {
    if n > 0 {
      RunStaysInMeasure(c, k, n - 1);
    }
  }

  /** Within the first measure, j calls from beat 0 reach beat j. */
  lemma {:induction false} PartialMeasure(m: int, k: int, j: nat)
    requires 0 < k && j < k
    ensures Run(Counters(0, m), k, j) == Counters(j, m)
    decreases j
  {
    if j > 0 {
      PartialMeasure(m, k, j - 1);
    }
  }

  /** k calls from beat 0 complete exactly one measure. */
  lemma FullMeasure(m: int, k: int)
    requires 0 < k
    ensures Run(Counters(0, m), k, k) == Counters(0, m + 1)
  {
    PartialMeasure(m, k, k - 1);
  }

  /** From beat 0, n calls complete n / k measures and leave the beat at
      n % k. */
  lemma {:induction false} MeasuresAfter(m: int, k: int, n: nat)
    requires 0 < k
    ensures Run(Counters(0, m), k, n) == Counters(n % k, m + n / k)
    decreases n
  {
    if n > 0 {
      MeasuresAfter(m, k, n - 1);
      DivStep(n, k);
      assert Run(Counters(0, m), k, n)
          == Advance(Counters((n - 1) % k, m + (n - 1) / k), k);
    }
  }

  /** How n / k and n % k follow from (n - 1) / k and (n - 1) % k. */
  lemma DivStep(n: int, k: int)
    requires 0 < k
    ensures (n - 1) % k == k - 1 ==> n / k == (n - 1) / k + 1 && n % k == 0
    ensures (n - 1) % k != k - 1 ==> n / k == (n - 1) / k && n % k == (n - 1) % k + 1
  {
    var q := (n - 1) / k;
    var r := (n - 1) % k;
    DivModIdentity(n - 1, k);
    if r == k - 1 {
      assert (q + 1) * k == q * k + k;
      DivModUnique(n, k, q + 1, 0);
    } else {
      DivModUnique(n, k, q, r + 1);
    }
  }

  /** Free-running (beats_per_measure 0), and likewise a negative beats per
      measure from a non-negative beat: the beat only counts up and the
      measure never changes. */
  lemma {:induction false} FreeRunning(c: Counters, k: int, n: nat)
    requires k == 0 || (k < 0 && c.beat >= 0)
    ensures Run(c, k, n) == Counters(c.beat + n, c.measure)
    decreases n
  {
    if n > 0 {
      FreeRunning(c, k, n - 1);
    }
  }

  /** The first j ticks of a measure: one accent, then plain ticks. */
  function MeasurePattern(j: nat): (s: seq<int>)
    ensures |s| == j
  {
    if j == 0 then [] else [AccentTick] + seq(j - 1, _ => PlainTick)
  }

  lemma {:induction false} PartialMeasureTicks(m: int, k: int, j: nat)
    requires 0 < k && j <= k
    ensures Ticks(Counters(0, m), k, j) == MeasurePattern(j)
    decreases j
  {
    if j > 0 {
      PartialMeasureTicks(m, k, j - 1);
      PartialMeasure(m, k, j - 1);
      assert MeasurePattern(j) == MeasurePattern(j - 1) + [TickKind(j - 1, k)];
    }
  }

  /** A measure of k beats plays one accent followed by k - 1 plain ticks. */
  lemma MeasureTicks(m: int, k: int)
    requires 0 < k
    ensures Ticks(Counters(0, m), k, k) == [AccentTick] + seq(k - 1, _ => PlainTick)
  {
    PartialMeasureTicks(m, k, k);
  }

  /** Free-running, every tick is an accent. */
  lemma {:induction false} FreeRunningAccents(c: Counters, n: nat)
    ensures Ticks(c, 0, n) == seq(n, _ => AccentTick)
    decreases n
  {
    if n > 0 {
      FreeRunningAccents(c, n - 1);
    }
  }

  // ---------------------------------------------------------------------
  // The metronome's state
  // ---------------------------------------------------------------------

  /** The globals of metronome.h, plus what the model records of the
      timer (the last interval and first-fire time passed to setitimer)
      and of the sound (the kinds passed to DoTick). */
  class Metronome {
    var bpm: int
    var enabled: bool
    var timerFlag: bool
    var beat: int
    var measure: int
    var beatsPerMeasure: int
    var interval: TimeVal
    var firstFire: TimeVal
    var ticks: seq<int>

    ghost predicate Valid()
      reads this
    {
      InMeasure(Counters(beat, measure), beatsPerMeasure)
    }

    /** The globals as a C program starts: all zero. */
    constructor ()
      ensures bpm == 0 && !enabled && !timerFlag
      ensures beat == 0 && measure == 0 && beatsPerMeasure == 0
      ensures interval == TimeVal(0, 0) && firstFire == TimeVal(0, 0) && ticks == []
      ensures Valid()
    {
      bpm := 0;
      enabled := false;
      timerFlag := false;
      beat := 0;
      measure := 0;
      beatsPerMeasure := 0;
      interval := TimeVal(0, 0);
      firstFire := TimeVal(0, 0);
      ticks := [];
    }

    /** InitMetronome: defaults, disabled, free-running, counters at 0. */
    method InitMetronome()
      modifies this
      ensures bpm == DefaultBpm && !enabled && !timerFlag
      ensures beat == 0 && measure == 0 && beatsPerMeasure == 0
      ensures interval == old(interval) && firstFire == old(firstFire) && ticks == old(ticks)
      ensures Valid()
    {
      bpm := DefaultBpm;
      timerFlag := false;
      enabled := false;
      measure := 0;
      beat := 0;
      beatsPerMeasure := 0;
    }

    /** EnableMetronome: arm the timer with TimerInterval(bpm) as both the
        period and the first fire time, and mark the metronome enabled. */
    method EnableMetronome()
      requires bpm != 0
      modifies this
      ensures bpm == old(bpm) && enabled && interval == TimerInterval(bpm) && firstFire == interval
      ensures timerFlag == old(timerFlag) && beat == old(beat)
      ensures measure == old(measure) && beatsPerMeasure == old(beatsPerMeasure)
      ensures ticks == old(ticks)
    {
      var sec := CDiv(60, bpm);
      var usec := CDiv(CRem(60, bpm) * UsecPerSec, bpm);
      interval := TimeVal(sec, usec);
      firstFire := interval;
      enabled := true;
      assert interval == TimerInterval(bpm);
    }

    /** DisableMetronome: only the enabled flag is cleared; the timer stays
        armed. */
    method DisableMetronome()
      modifies this
      ensures !enabled
      ensures bpm == old(bpm) && timerFlag == old(timerFlag) && beat == old(beat)
      ensures measure == old(measure) && beatsPerMeasure == old(beatsPerMeasure)
      ensures interval == old(interval) && firstFire == old(firstFire) && ticks == old(ticks)
    {
      enabled := false;
    }

    /** KillMetronome: disable if enabled; either way it ends disabled. */
    method KillMetronome()
      modifies this
      ensures !enabled
      ensures bpm == old(bpm) && timerFlag == old(timerFlag) && beat == old(beat)
      ensures measure == old(measure) && beatsPerMeasure == old(beatsPerMeasure)
      ensures interval == old(interval) && firstFire == old(firstFire) && ticks == old(ticks)
    {
      if enabled {
        DisableMetronome();
      }
    }

    /** DoMetronome: when enabled and the timer has fired, play the tick
        for the current beat, advance the counters and clear the flag;
        otherwise nothing changes. */
    method DoMetronome()
      modifies this
      ensures old(enabled && timerFlag) ==>
                Counters(beat, measure)
                  == Advance(Counters(old(beat), old(measure)), beatsPerMeasure)
                && ticks == old(ticks) + [TickKind(old(beat), beatsPerMeasure)]
                && !timerFlag
      ensures !old(enabled && timerFlag) ==>
                beat == old(beat) && measure == old(measure)
                && ticks == old(ticks) && timerFlag == old(timerFlag)
      ensures bpm == old(bpm) && enabled == old(enabled)
      ensures beatsPerMeasure == old(beatsPerMeasure)
      ensures interval == old(interval) && firstFire == old(firstFire)
      ensures old(Valid()) ==> Valid()
    {
      if enabled && timerFlag {
        if beat == 0 || beatsPerMeasure == 0 {
          ticks := ticks + [AccentTick];
        } else {
          ticks := ticks + [PlainTick];
        }
        if beatsPerMeasure == 0 {
          beat := beat + 1;
        } else {
          var last := beat == beatsPerMeasure - 1;
          beat := beat + 1;
          if last {
            beat := 0;
            measure := measure + 1;
          }
        }
        timerFlag := false;
      }
    }

    /** setBeatsPerMinute: disable, store the new rate, re-enable (which
        re-arms the timer with the new interval). */
    method SetBeatsPerMinute(newBpm: int)
      requires newBpm != 0
      modifies this
      ensures bpm == newBpm && enabled
      ensures interval == TimerInterval(newBpm) && firstFire == interval
      ensures timerFlag == old(timerFlag) && beat == old(beat) && measure == old(measure)
      ensures beatsPerMeasure == old(beatsPerMeasure) && ticks == old(ticks)
    {
      DisableMetronome();
      bpm := newBpm;
      EnableMetronome();
    }

    /** setBeatsPerMeasure: a new time signature restarts the count. */
    method SetBeatsPerMeasure(newBeatsPerMeasure: int)
      modifies this
      ensures beat == 0 && measure == 0 && beatsPerMeasure == newBeatsPerMeasure
      ensures bpm == old(bpm) && enabled == old(enabled) && timerFlag == old(timerFlag)
      ensures interval == old(interval) && firstFire == old(firstFire) && ticks == old(ticks)
      ensures Valid()
    {
      beat := 0;
      measure := 0;
      beatsPerMeasure := newBeatsPerMeasure;
    }

    /** MetronomeTimerProc: the timer has fired. */
    method MetronomeTimerProc()
      modifies this
      ensures timerFlag
      ensures bpm == old(bpm) && enabled == old(enabled) && beat == old(beat)
      ensures measure == old(measure) && beatsPerMeasure == old(beatsPerMeasure)
      ensures interval == old(interval) && firstFire == old(firstFire) && ticks == old(ticks)
    {
      timerFlag := true;
    }

    /** The usage loop of the header comment for one measure: with the
        metronome enabled at the start of a measure of k beats, k timer
        firings each followed by DoMetronome play one accent and k - 1
        plain ticks and advance the measure by exactly one. */
    method PlayMeasure()
      requires enabled && beatsPerMeasure > 0 && beat == 0
      modifies this
      ensures bpm == old(bpm) && enabled && beatsPerMeasure == old(beatsPerMeasure)
      ensures beat == 0 && measure == old(measure) + 1
      ensures ticks == old(ticks) + MeasurePattern(beatsPerMeasure)
      ensures !timerFlag
    {
      var k := beatsPerMeasure;
      ghost var start := Counters(0, measure);
      for i := 0 to k
        invariant enabled && beatsPerMeasure == k && bpm == old(bpm)
        invariant Counters(beat, measure) == Run(start, k, i)
        invariant ticks == old(ticks) + Ticks(start, k, i)
        invariant i > 0 ==> !timerFlag
      {
        MetronomeTimerProc();
        DoMetronome();
      }
      FullMeasure(start.measure, k);
      MeasureTicks(start.measure, k);
    }
  }
}
