/** The countdown timer: a duration, the time left and whether it is running, changed by
    start, pause, reset, the animation-frame tick and the settings dialog. Time is in whole
    milliseconds and every tick is given the time elapsed since the previous one. */
module Timer {
  import opened Wrappers
  import opened Text

  /** 25:00. */
  const DefaultMs: int := 25 * 60 * 1000

  /** The shortest duration `applyNewDuration` accepts. */
  const MinimumMs: int := 1000

  /** The time left and the running flag after a tick of `dt` milliseconds from `rem`: at or
      below zero the countdown stops at zero. */
  function AfterTick(rem: int, dt: nat): (r: (int, bool))
    ensures r.0 == if rem - dt <= 0 then 0 else rem - dt
    ensures r.1 <==> rem - dt > 0
  {
    var left := rem - dt;
    if left <= 0 then (0, false) else (left, true)
  }

  /** Two ticks are one tick of their combined length (the one that reaches zero ends it). */
  lemma TickAdditive(rem: int, d1: nat, d2: nat)
    ensures var (r1, running) := AfterTick(rem, d1);
      if running then AfterTick(r1, d2) == AfterTick(rem, d1 + d2)
      else (r1, running) == AfterTick(rem, d1 + d2)
  {
  }

  /** `mm:ss` for the time left: minutes and seconds, each padded to two digits. */
  function Clock(rem: nat): string {
    Pad2(rem / 60000) + ":" + Pad2((rem % 60000) / 1000)
  }

  /** The display reads back as the whole seconds left: the field after the colon is two
      digits below 60, and sixty times the minutes plus the seconds is `rem / 1000`. */
  lemma ClockReadsBack(rem: nat)
    ensures var c := Clock(rem);
      |c| >= 5 && c[|c| - 3] == ':' && AllDigits(c[..|c| - 3], 10) && AllDigits(c[|c| - 2..], 10) &&
      ParseBase(c[..|c| - 3], 10) == rem / 60000 &&
      ParseBase(c[|c| - 2..], 10) == (rem % 60000) / 1000 < 60 &&
      60 * ParseBase(c[..|c| - 3], 10) + ParseBase(c[|c| - 2..], 10) == rem / 1000
  {
    var mm, ss := Pad2(rem / 60000), Pad2((rem % 60000) / 1000);
    var c := Clock(rem);
    assert c == mm + ":" + ss;
    assert |ss| == 2;
    assert c[..|c| - 3] == mm && c[|c| - 2..] == ss;
    ParsePad2(rem / 60000);
    ParsePad2((rem % 60000) / 1000);
  }

  /** The dialog's submit: minutes at least 0, seconds clamped to 0..59, and the duration
      that `applyNewDuration` keeps. */
  function DialogDuration(minutes: int, seconds: int): (ms: int)
    ensures ms >= MinimumMs && ms % 1000 == 0
  {
    var m := if minutes < 0 then 0 else minutes;
    var s := if seconds < 0 then 0 else if seconds > 59 then 59 else seconds;
    var d := (m * 60 + s) * 1000;
    if d < MinimumMs then MinimumMs else d
  }

  /** The clamps of the dialog: seconds above 59 count as 59 and below 0 as 0, minutes below 0
      as 0; fields already in range give their own duration, or the one-second minimum for
      `0:00`. */
  lemma DialogClamp(minutes: int, seconds: int)
    ensures seconds > 59 ==> DialogDuration(minutes, seconds) == DialogDuration(minutes, 59)
    ensures seconds < 0 ==> DialogDuration(minutes, seconds) == DialogDuration(minutes, 0)
    ensures minutes < 0 ==> DialogDuration(minutes, seconds) == DialogDuration(0, seconds)
    ensures minutes >= 0 && 0 <= seconds <= 59 && minutes * 60 + seconds >= 1 ==>
      DialogDuration(minutes, seconds) == (minutes * 60 + seconds) * 1000
    ensures minutes >= 0 && 0 <= seconds <= 59 && minutes * 60 + seconds == 0 ==>
      DialogDuration(minutes, seconds) == MinimumMs
  {
  }

  /** The dialog opens on the current duration; saving it unchanged keeps a duration of whole
      seconds. */
  lemma PrefillSubmit(total: int)
    requires total >= MinimumMs && total % 1000 == 0
    ensures DialogDuration(ParseInt(NatToString(total / 60000)), ParseInt(NatToString((total % 60000) / 1000))) == total
  {
    var m, sec := total / 60000, (total % 60000) / 1000;
    ParseNatToString(m);
    ParseNatToString(sec);
    assert 0 <= sec <= 59 && (m * 60 + sec) * 1000 == total;
  }

  class CountdownTimer {
    var totalMs: int
    var remainingMs: int
    var ticking: bool
    /** The value stored under `timer.durationMs`. */
    var savedDuration: Option<string>

    predicate Valid()
      reads this
    {
      MinimumMs <= totalMs && 0 <= remainingMs <= totalMs
    }

    /** The state at page load when nothing is stored: 25:00, stopped. */
    constructor ()
      ensures Valid()
      ensures totalMs == DefaultMs && remainingMs == DefaultMs && !ticking && savedDuration == None
    {
      totalMs := DefaultMs;
      remainingMs := DefaultMs;
      ticking := false;
      savedDuration := None;
    }

    /** What the clock face shows. */
    function Display(): string
      reads this
      requires Valid()
    {
      Clock(remainingMs)
    }

    /** `start()`: nothing while running; otherwise an elapsed countdown starts over, the timer
        runs, and the first tick comes at once with the `firstDt` milliseconds since the start
        stamp. */
    method Start(firstDt: nat)
      requires Valid()
      modifies this`remainingMs, this`ticking
      ensures Valid()
      ensures old(ticking) ==> remainingMs == old(remainingMs) && ticking
      ensures !old(ticking) ==>
        (remainingMs, ticking) == AfterTick(if old(remainingMs) <= 0 then totalMs else old(remainingMs), firstDt)
    {
      if ticking {
        return;
      }
      if remainingMs <= 0 {
        remainingMs := totalMs;
      }
      ticking := true;
      Tick(firstDt);
    }

    /** `pause()`: stops, keeping the time left. */
    method Pause()
      requires Valid()
      modifies this`ticking
      ensures Valid()
      ensures !ticking
    {
      ticking := false;
    }

    /** `reset()`: stops and refills the countdown. */
    method Reset()
      requires Valid()
      modifies this`ticking, this`remainingMs
      ensures Valid()
      ensures !ticking && remainingMs == totalMs
    {
      ticking := false;
      remainingMs := totalMs;
    }

    /** `tick(ts)` with `dt` the time since the previous frame: nothing when stopped;
        otherwise the time left drops by `dt`, stopping at zero. */
    method Tick(dt: nat)
      requires Valid()
      modifies this`remainingMs, this`ticking
      ensures Valid()
      ensures !old(ticking) ==> remainingMs == old(remainingMs) && !ticking
      ensures old(ticking) ==> (remainingMs, ticking) == AfterTick(old(remainingMs), dt)
      ensures remainingMs <= old(remainingMs)
    {
      if !ticking {
        return;
      }
      remainingMs := remainingMs - dt;
      if remainingMs <= 0 {
        remainingMs := 0;
        ticking := false;
        return;
      }
    }

    /** `applyNewDuration(ms)`: at least one second, stored, and the countdown refilled; a
        running timer keeps running. */
    method ApplyNewDuration(ms: int)
      modifies this`totalMs, this`remainingMs, this`savedDuration
      ensures Valid()
      ensures totalMs == (if ms < MinimumMs then MinimumMs else ms) && remainingMs == totalMs
      ensures savedDuration == Some(IntToString(totalMs))
      ensures savedDuration.Some? && ParseInt(savedDuration.value) == totalMs
    {
      totalMs := if ms < MinimumMs then MinimumMs else ms;
      savedDuration := Some(IntToString(totalMs));
      remainingMs := totalMs;
      ParseIntToString(totalMs);
    }

    /** A preset button of `seconds` seconds. */
    method ApplyPreset(seconds: int)
      modifies this`totalMs, this`remainingMs, this`savedDuration
      ensures Valid()
      ensures totalMs == (if seconds * 1000 < MinimumMs then MinimumMs else seconds * 1000)
      ensures remainingMs == totalMs && savedDuration == Some(IntToString(totalMs))
    {
      ApplyNewDuration(seconds * 1000);
    }

    /** `openDialog()`: the fields show the whole minutes and the seconds left over of the
        duration; read back, they give the duration up to its milliseconds. */
    method OpenDialog() returns (minText: string, secText: string)
      requires Valid()
      ensures minText == NatToString(totalMs / 60000) && secText == NatToString((totalMs % 60000) / 1000)
      ensures ParseBase(secText, 10) < 60
      ensures ParseBase(minText, 10) * 60000 + ParseBase(secText, 10) * 1000 + totalMs % 1000 == totalMs
    {
      minText := NatToString(totalMs / 60000);
      secText := NatToString((totalMs % 60000) / 1000);
      ParseToBase(totalMs / 60000, 10);
      ParseToBase((totalMs % 60000) / 1000, 10);
    }

    /** The dialog's submit with the two fields read as integers. */
    method SubmitDialog(minutes: int, seconds: int)
      modifies this`totalMs, this`remainingMs, this`savedDuration
      ensures Valid()
      ensures totalMs == DialogDuration(minutes, seconds) && remainingMs == totalMs
      ensures savedDuration == Some(IntToString(totalMs))
    {
      var m := if minutes < 0 then 0 else minutes;
      var s := if seconds < 0 then 0 else if seconds > 59 then 59 else seconds;
      ApplyNewDuration((m * 60 + s) * 1000);
    }
  }
}
