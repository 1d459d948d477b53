/** The four-hour mock-test countdown hook: resuming from the stored snapshot,
    the one-second tick that writes the snapshot, the `hh:mm:ss` display, and
    the reset. The clock is the explicit parameter `now` (milliseconds). */
module MockTimer {
  import opened Wrappers
  import Text
  import opened JsMath

  /** 4 * 60 * 60 * 1000 milliseconds. */
  const TOTAL_MS: int := 14_400_000

  datatype Timer = Timer(remainingMs: int, paused: bool)

  const Initial := Timer(TOTAL_MS, false)

  /** The parsed timer snapshot. `remainingMs` is None when the stored value
      is not a finite number; `lastTick` is None when it is missing. */
  datatype TimerRecord = TimerRecord(isMockTest: bool, remainingMs: Option<int>, paused: bool, lastTick: Option<int>)

  /** The stored item: absent (or empty), not parseable as an object, or a record. */
  datatype StoredTimer = NoTimer | Unreadable | Saved(rec: TimerRecord)

  /** A snapshot resumes iff it is flagged as a mock test and holds a finite
      remaining time. */
  predicate Resumable(stored: StoredTimer) {
    stored.Saved? && stored.rec.isMockTest && stored.rec.remainingMs.Some?
  }

  /** `timer.lastTick || now`: a missing or zero tick means no time elapsed. */
  function LastTickOr(rec: TimerRecord, now: int): int {
    if rec.lastTick.Some? && rec.lastTick.value != 0 then rec.lastTick.value else now
  }

  /** `loadTimer()`. A running snapshot loses the time elapsed since its last
      tick (never less than zero, never below zero remaining); a paused one is
      restored as is; anything else restarts the full four hours. */
  function Resume(t: Timer, stored: StoredTimer, now: int): (r: Timer)
    ensures Resumable(stored) && !stored.rec.paused ==>
      r == Timer(Max(0, stored.rec.remainingMs.value - Max(0, now - LastTickOr(stored.rec, now))), t.paused)
    ensures Resumable(stored) && stored.rec.paused ==> r == Timer(stored.rec.remainingMs.value, true)
    ensures !Resumable(stored) ==> r == Initial
    ensures !(Resumable(stored) && stored.rec.paused) ==> 0 <= r.remainingMs
  {
    if Resumable(stored) then
      var rec := stored.rec;
      if !rec.paused then
        var elapsed := Max(0, now - LastTickOr(rec, now));
        Timer(Max(0, rec.remainingMs.value - elapsed), t.paused)
      else
        Timer(rec.remainingMs.value, true)
    else
      Initial
  }

  /** The interval callback: the new timer and the snapshot it writes, if any. */
  datatype TickResult = TickResult(timer: Timer, written: Option<TimerRecord>)

  /** One tick at time `now`. */
  function Tick(t: Timer, now: int): (r: TickResult)
    ensures r.written.Some? <==> !t.paused && t.remainingMs > 0
    ensures r.written.None? ==> r.timer == t
    ensures r.written.Some? ==>
      && 0 <= r.timer.remainingMs < t.remainingMs
      && r.timer.remainingMs == Max(0, t.remainingMs - 1000)
      && r.timer.paused == t.paused
      && r.written.value == TimerRecord(true, Some(r.timer.remainingMs), false, Some(now))
  {
    if !t.paused && t.remainingMs > 0 then
      var next := Max(0, t.remainingMs - 1000);
      TickResult(Timer(next, t.paused), Some(TimerRecord(true, Some(next), false, Some(now))))
    else
      TickResult(t, None)
  }

  /** Resuming from the snapshot a tick wrote loses exactly the time since that
      tick (clamped at zero); resuming at the tick's own instant loses nothing. */
  lemma TickResumeRoundTrip(t: Timer, now: int, later: int, other: Timer)
    requires !t.paused && t.remainingMs > 0
    requires now != 0 && now <= later
    ensures var r := Tick(t, now);
      Resume(other, Saved(r.written.value), later)
        == Timer(Max(0, r.timer.remainingMs - (later - now)), other.paused)
    ensures Resume(other, Saved(Tick(t, now).written.value), now).remainingMs == Tick(t, now).timer.remainingMs
  {
  }

  /** k ticks of a running timer, one second apart. */
  function RunTicks(t: Timer, k: nat, now: int): Timer
    decreases k
  {
    if k == 0 then t else Tick(RunTicks(t, k - 1, now), now + 1000 * (k - 1)).timer
  }

  /** A running countdown loses one second per tick and stops at zero. */
  lemma {:induction false} RunTicksClamp(t: Timer, k: nat, now: int)
    requires !t.paused && t.remainingMs >= 0
    ensures RunTicks(t, k, now) == Timer(Max(0, t.remainingMs - 1000 * k), false)
    decreases k
  {
    if k > 0 {
      RunTicksClamp(t, k - 1, now);
    }
  }

  /** A paused timer does not move. */
  lemma {:induction false} PausedStays(t: Timer, k: nat, now: int)
    requires t.paused
    ensures RunTicks(t, k, now) == t
    decreases k
  {
    if k > 0 {
      PausedStays(t, k - 1, now);
    }
  }

  // ---------------------------------------------------------------------------
  // Display

  /** The three displayed fields. `Math.floor` of a quotient by a positive
      divisor is Dafny's `/` on int. */
  function Hours(ms: int): int { (ms / 1000) / 3600 }
  function Minutes(ms: int): int { JsRem(ms / 1000, 3600) / 60 }
  function Seconds(ms: int): int { JsRem(ms / 1000, 60) }

  function Field(n: int): string { Text.PadTwo(Text.IntToString(n)) }

  /** `formatTime()`. */
  function FormatTime(ms: int): string {
    Text.JoinWith([Field(Hours(ms)), Field(Minutes(ms)), Field(Seconds(ms))], ':')
  }

  /** For a non-negative remaining time the fields are a proper clock reading
      of the whole seconds left. */
  lemma FieldsAreClock(ms: int)
    requires ms >= 0
    ensures 0 <= Hours(ms) && 0 <= Minutes(ms) < 60 && 0 <= Seconds(ms) < 60
    ensures Hours(ms) * 3600 + Minutes(ms) * 60 + Seconds(ms) == ms / 1000
  {
    var ts := ms / 1000;
    assert Minutes(ms) == (ts % 3600) / 60 && Seconds(ms) == ts % 60;
    SecondsSplit(ts);
  }

  /** Whole seconds as hours, minutes and seconds. */
  lemma SecondsSplit(ts: nat)
    ensures (ts / 3600) * 3600 + ((ts % 3600) / 60) * 60 + ts % 60 == ts
    ensures 0 <= (ts % 3600) / 60 < 60
  {
    var q, r := ts / 3600, ts % 3600;
    assert ts == q * 3600 + r;
    assert r == (r / 60) * 60 + r % 60;
    ModOfHour(q, r);
  }

  /** Whole hours do not change the seconds within the minute. */
  lemma ModOfHour(q: nat, r: nat)
    ensures (q * 3600 + r) % 60 == r % 60
  {
    assert q * 3600 + r == (q * 60) * 60 + r;
  }

  /** Each field of a non-negative reading is at least two digits (exactly two
      for minutes and seconds), and the digits denote the field. */
  lemma FieldDigits(n: int)
    requires 0 <= n
    ensures |Field(n)| >= 2
    ensures n < 100 ==> |Field(n)| == 2
    ensures forall i :: 0 <= i < |Field(n)| ==> Text.IsDigit(Field(n)[i])
    ensures ':' !in Field(n)
    ensures Text.DigitsValue(Field(n)) == n
  {
    Text.NatToStringRoundTrip(n);
    Text.PadTwoValue(Text.NatToString(n));
    if n < 100 {
      if n >= 10 {
        assert Text.NatToString(n) == Text.NatToString(n / 10) + [Text.DigitChar(n % 10)];
      }
    }
  }

  /** Three clock fields joined with ':' split back into themselves, each
      all digits and reading back as its number. */
  lemma ClockText(hh: int, mm: int, ss: int)
    requires 0 <= hh && 0 <= mm < 60 && 0 <= ss < 60
    ensures var parts := Text.SplitOn(Text.JoinWith([Field(hh), Field(mm), Field(ss)], ':'), ':');
      && |parts| == 3
      && |parts[0]| >= 2 && |parts[1]| == 2 && |parts[2]| == 2
      && (forall k, i :: 0 <= k < 3 && 0 <= i < |parts[k]| ==> Text.IsDigit(parts[k][i]))
      && Text.DigitsValue(parts[0]) == hh && Text.DigitsValue(parts[1]) == mm && Text.DigitsValue(parts[2]) == ss
  {
    var f0, f1, f2 := Field(hh), Field(mm), Field(ss);
    FieldDigits(hh);
    FieldDigits(mm);
    FieldDigits(ss);
    FieldsSplitBack(hh, mm, ss);
    ClockParts(f0, f1, f2, hh, mm, ss);
  }

  /** The clock conclusion for any three digit fields that split back out of
      their join. */
  lemma ClockParts(f0: string, f1: string, f2: string, hh: int, mm: int, ss: int)
    requires |f0| >= 2 && |f1| == 2 && |f2| == 2
    requires forall i :: 0 <= i < |f0| ==> Text.IsDigit(f0[i])
    requires forall i :: 0 <= i < |f1| ==> Text.IsDigit(f1[i])
    requires forall i :: 0 <= i < |f2| ==> Text.IsDigit(f2[i])
    requires Text.DigitsValue(f0) == hh && Text.DigitsValue(f1) == mm && Text.DigitsValue(f2) == ss
    requires Text.SplitOn(Text.JoinWith([f0, f1, f2], ':'), ':') == [f0, f1, f2]
    ensures var parts := Text.SplitOn(Text.JoinWith([f0, f1, f2], ':'), ':');
      && |parts| == 3
      && |parts[0]| >= 2 && |parts[1]| == 2 && |parts[2]| == 2
      && (forall k, i :: 0 <= k < 3 && 0 <= i < |parts[k]| ==> Text.IsDigit(parts[k][i]))
      && Text.DigitsValue(parts[0]) == hh && Text.DigitsValue(parts[1]) == mm && Text.DigitsValue(parts[2]) == ss
  {
    var parts := Text.SplitOn(Text.JoinWith([f0, f1, f2], ':'), ':');
    assert parts[0] == f0 && parts[1] == f1 && parts[2] == f2;
    ThreeDigitFields(f0, f1, f2);
  }

  /** Three digit strings, viewed as a list of parts. */
  lemma ThreeDigitFields(f0: string, f1: string, f2: string)
    requires forall i :: 0 <= i < |f0| ==> Text.IsDigit(f0[i])
    requires forall i :: 0 <= i < |f1| ==> Text.IsDigit(f1[i])
    requires forall i :: 0 <= i < |f2| ==> Text.IsDigit(f2[i])
    ensures var parts := [f0, f1, f2];
      forall k, i :: 0 <= k < 3 && 0 <= i < |parts[k]| ==> Text.IsDigit(parts[k][i])
  {
    var parts := [f0, f1, f2];
    forall k, i | 0 <= k < 3 && 0 <= i < |parts[k]|
      ensures Text.IsDigit(parts[k][i])
    {
      if k == 0 {
        assert parts[k] == f0;
      } else if k == 1 {
        assert parts[k] == f1;
      } else {
        assert parts[k] == f2;
      }
    }
  }

  lemma FieldsSplitBack(hh: int, mm: int, ss: int)
    requires 0 <= hh && 0 <= mm && 0 <= ss
    ensures Text.SplitOn(Text.JoinWith([Field(hh), Field(mm), Field(ss)], ':'), ':') == [Field(hh), Field(mm), Field(ss)]
  {
    FieldNoColon(hh);
    FieldNoColon(mm);
    FieldNoColon(ss);
    var fields := [Field(hh), Field(mm), Field(ss)];
    assert forall i :: 0 <= i < |fields| ==> ':' !in fields[i] by {
      assert fields[0] == Field(hh) && fields[1] == Field(mm) && fields[2] == Field(ss);
    }
    Text.JoinSplitRoundTrip(fields, ':');
  }

  lemma FieldNoColon(n: int)
    requires 0 <= n
    ensures ':' !in Field(n)
  {
    FieldDigits(n);
  }

  /** Splitting the display at ':' gives three digit fields that read back as
      hours, minutes and seconds adding up to the whole seconds left. */
  lemma FormatTimeReadsBack(ms: int)
    requires ms >= 0
    ensures var parts := Text.SplitOn(FormatTime(ms), ':');
      && |parts| == 3
      && |parts[0]| >= 2 && |parts[1]| == 2 && |parts[2]| == 2
      && (forall k, i :: 0 <= k < 3 && 0 <= i < |parts[k]| ==> Text.IsDigit(parts[k][i]))
      && Text.DigitsValue(parts[0]) * 3600 + Text.DigitsValue(parts[1]) * 60 + Text.DigitsValue(parts[2]) == ms / 1000
  {
    FieldsAreClock(ms);
    ClockText(Hours(ms), Minutes(ms), Seconds(ms));
  }

  /** `clearTimer()`: the snapshot is removed and the full four hours restored. */
  function ClearTimer(t: Timer): (r: Timer)
    ensures r.remainingMs == TOTAL_MS && r.paused == t.paused
  {
    t.(remainingMs := TOTAL_MS)
  }

  /** The hook's timer together with the stored snapshot. */
  datatype Hook = Hook(timer: Timer, stored: StoredTimer)

  /** `clearTimer()` on both halves: the stored item is removed as well. */
  function Clear(h: Hook): Hook {
    Hook(ClearTimer(h.timer), NoTimer)
  }

  /** After a clear, the next resume finds no snapshot and starts over; it is
      the removal that does it, since resuming from the snapshot of a running
      test that has used some time would not give the fresh timer. */
  lemma ClearThenResume(h: Hook, now: int)
    ensures Resume(Clear(h).timer, Clear(h).stored, now) == Initial
    ensures Resumable(h.stored) && !h.stored.rec.paused && h.stored.rec.remainingMs.value < TOTAL_MS ==>
      Resume(h.timer, h.stored, now) != Initial
  {
  }
}
