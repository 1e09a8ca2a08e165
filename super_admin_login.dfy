/**
 * The super-admin login page: how a failed login sets the error message and
 * the lockout, how the once-a-second tick turns the remaining lock time into
 * a countdown label and lifts the lock when it runs out, how the effect keyed
 * on `lockedUntil` starts and stops the one repeating timer, and where a
 * successful login navigates to.
 *
 * Time is an explicit integer number of milliseconds `now`; the browser's
 * interval table is the field `liveIntervals`.
 */
module SuperAdminLogin {
  import opened Wrappers
  import opened Decimal

  const MS_PER_MINUTE: nat := 60000
  const MS_PER_SECOND: nat := 1000

  /** HTTP 429 Too Many Requests (section 4 of RFC 6585). */
  const TOO_MANY_REQUESTS: int := 429

  const LOCKED_MESSAGE: string := "Account is temporarily locked."
  const FAILED_MESSAGE: string := "Login failed. Please try again."
  const DEFAULT_DESTINATION: string := "/super-admin/dashboard"

  // ---------------------------------------------------------------------
  // The countdown label
  // ---------------------------------------------------------------------

  /**
   * The label for `diff` milliseconds of lock left: whole minutes and the
   * whole seconds past them, "{m}m {ss}s" with seconds padded to two digits
   * when at least a minute is left, "{s}s" otherwise.
   */
  function FormatCountdown(diff: int): (text: string)
    requires diff > 0
    ensures |text| > 0 && text[|text| - 1] == 's'
  {
    var mins := diff / MS_PER_MINUTE;
    var secs := (diff % MS_PER_MINUTE) / MS_PER_SECOND;
    if mins > 0 then ToDecimal(mins) + "m " + PadStart(ToDecimal(secs), 2, '0') + "s"
    else ToDecimal(secs) + "s"
  }

  /**
   * Reads a countdown label back into its (minutes, seconds) pair. Only the
   * two shapes the label takes are read: "{s}s" with shortest seconds, and
   * "{m}m {ss}s" with positive shortest minutes and exactly two digits of
   * seconds; seconds are below sixty in both.
   */
  function ParseCountdown(text: string): Option<(nat, nat)> {
    if |text| == 0 || text[|text| - 1] != 's' then None
    else
      var body := text[..|text| - 1];
      if IsDecimal(body) && ValueOf(body) < 60 then Some((0, ValueOf(body)))
      else if |body| >= 5 && body[|body| - 4..|body| - 2] == "m "
              && IsDecimal(body[..|body| - 4]) && body[0] != '0'
              && AllDigits(body[|body| - 2..]) && ValueOf(body[|body| - 2..]) < 60
      then Some((ValueOf(body[..|body| - 4]), ValueOf(body[|body| - 2..])))
      else None
  }

  /** The seconds part of the label stays within a minute. */
  lemma CountdownSecondsBelowSixty(diff: int)
    requires diff > 0
    ensures 0 <= (diff % MS_PER_MINUTE) / MS_PER_SECOND <= 59
  {
  }

  /**
   * The label states exactly the whole minutes and the whole seconds past
   * them that remain: no digits are lost or misplaced by the padding.
   */
  lemma FormatCountdownRoundTrip(diff: int)
    requires diff > 0
    ensures ParseCountdown(FormatCountdown(diff))
         == Some((diff / MS_PER_MINUTE, (diff % MS_PER_MINUTE) / MS_PER_SECOND))
  {
    var mins := diff / MS_PER_MINUTE;
    var secs := (diff % MS_PER_MINUTE) / MS_PER_SECOND;
    var text := FormatCountdown(diff);
    var body := text[..|text| - 1];
    ValueOfToDecimal(secs);
    ToDecimalDigits(secs);
    CountdownSecondsBelowSixty(diff);
    if mins > 0 {
      var d := ToDecimal(mins);
      var p := PadStart(ToDecimal(secs), 2, '0');
      DecimalWidthBelow100(secs);
      ValueOfZeroPadded(ToDecimal(secs), 2);
      ValueOfToDecimal(mins);
      ToDecimalDigits(mins);
      assert |p| == 2;
      assert body == d + "m " + p;
      assert body[|d|] == 'm';
      assert body[|body| - 4..|body| - 2] == "m ";
      assert body[..|body| - 4] == d;
      assert body[|body| - 2..] == p;
      assert body[0] == d[0];
      assert !AllDigits(body) by { assert body[|d|] == 'm'; }
    } else {
      assert body == ToDecimal(secs);
    }
  }

  /** Minutes and seconds together are the whole seconds left. */
  lemma CountdownWholeSeconds(diff: int)
    requires diff > 0
    ensures (diff / MS_PER_MINUTE) * 60 + (diff % MS_PER_MINUTE) / MS_PER_SECOND == diff / MS_PER_SECOND
  {
    var q, r := diff / 60000, diff % 60000;
    var s, t := r / 1000, r % 1000;
    assert diff == 1000 * (60 * q + s) + t;
  }

  /** The number of whole seconds a label shows. */
  function LabelSeconds(text: string): Option<nat> {
    match ParseCountdown(text)
    case None => None
    case Some(ms) => Some(ms.0 * 60 + ms.1)
  }

  /** The label shows the whole seconds left. */
  lemma CountdownShowsWholeSeconds(diff: int)
    requires diff > 0
    ensures LabelSeconds(FormatCountdown(diff)) == Some(diff / MS_PER_SECOND)
  {
    FormatCountdownRoundTrip(diff);
    CountdownWholeSeconds(diff);
    var parsed := ParseCountdown(FormatCountdown(diff));
    assert parsed == Some((diff / MS_PER_MINUTE, (diff % MS_PER_MINUTE) / MS_PER_SECOND));
  }

  /**
   * As time passes the countdown never goes up: less time left never shows
   * more whole seconds.
   */
  lemma CountdownMonotone(shorter: int, longer: int)
    requires 0 < shorter <= longer
    ensures LabelSeconds(FormatCountdown(shorter)).Some?
    ensures LabelSeconds(FormatCountdown(longer)).Some?
    ensures LabelSeconds(FormatCountdown(shorter)).value <= LabelSeconds(FormatCountdown(longer)).value
  {
    CountdownShowsWholeSeconds(shorter);
    CountdownShowsWholeSeconds(longer);
    WholeSecondsMonotone(shorter, longer);
  }

  lemma WholeSecondsMonotone(a: int, b: int)
    requires 0 < a <= b
    ensures a / MS_PER_SECOND <= b / MS_PER_SECOND
  {
  }

  /** The minutes form is used exactly when a whole minute or more is left. */
  lemma CountdownMinutesForm(diff: int)
    requires diff > 0
    ensures 'm' in FormatCountdown(diff) <==> diff >= MS_PER_MINUTE
  {
    var secs := (diff % MS_PER_MINUTE) / MS_PER_SECOND;
    if diff >= MS_PER_MINUTE {
      assert FormatCountdown(diff)[|ToDecimal(diff / MS_PER_MINUTE)|] == 'm';
    } else {
      var s := ToDecimal(secs);
      ToDecimalDigits(secs);
      assert FormatCountdown(diff) == s + "s";
      assert forall i :: 0 <= i < |s| ==> s[i] != 'm';
    }
  }

  /** Ninety seconds read "1m 30s"; five and a half seconds read "5s". */
  lemma CountdownExamples()
    ensures FormatCountdown(90000) == "1m 30s"
    ensures FormatCountdown(5500) == "5s"
  {
    assert ToDecimal(30) == ToDecimal(3) + [DigitChar(0)];
  }

  /**
   * Conversely, every text the parser reads is the label of some time left:
   * a label is determined by its (minutes, seconds) pair, so no other
   * spelling of the same pair ("05s", "1m 5s") is ever shown.
   */
  lemma CountdownParseInverse(text: string)
    requires ParseCountdown(text).Some?
    ensures var ms := ParseCountdown(text).value;
      text == FormatCountdown(ms.0 * MS_PER_MINUTE + ms.1 * MS_PER_SECOND + 1)
  {
    var ms := ParseCountdown(text).value;
    var body := text[..|text| - 1];
    assert text == body + "s";
    var diff := ms.0 * MS_PER_MINUTE + ms.1 * MS_PER_SECOND + 1;
    SplitCountdown(ms.0, ms.1);
    if IsDecimal(body) && ValueOf(body) < 60 {
      ToDecimalOfValue(body);
    } else {
      var m := body[..|body| - 4];
      var t := body[|body| - 2..];
      assert body == m + "m " + t;
      assert m[0] == body[0];
      ValueOfPositive(m);
      ToDecimalOfValue(m);
      PaddedSeconds(t);
    }
  }

  /** Other spellings of a shown pair are not labels. */
  lemma ParseRejectsOtherSpellings()
    ensures ParseCountdown("05s") == None
    ensures ParseCountdown("1m 5s") == None
    ensures ParseCountdown("0m 05s") == None
  {
    assert "05s"[..2] == "05";
    assert "1m 5s"[..4] == "1m 5" && "1m 5"[..0] == "";
    assert "0m 05s"[..5] == "0m 05";
  }

  /** Minutes and seconds below sixty, plus one millisecond, split back into themselves. */
  lemma SplitCountdown(m: nat, sec: nat)
    requires sec < 60
    ensures (m * MS_PER_MINUTE + sec * MS_PER_SECOND + 1) / MS_PER_MINUTE == m
    ensures ((m * MS_PER_MINUTE + sec * MS_PER_SECOND + 1) % MS_PER_MINUTE) / MS_PER_SECOND == sec
  {
    var r := sec * 1000 + 1;
    assert 0 < r < 60000;
    assert (m * 60000 + r) / 60000 == m && (m * 60000 + r) % 60000 == r;
    assert r / 1000 == sec;
  }

  /** Two digits worth less than sixty are exactly the zero-padded seconds. */
  lemma PaddedSeconds(t: string)
    requires |t| == 2 && AllDigits(t) && ValueOf(t) < 60
    ensures PadStart(ToDecimal(ValueOf(t)), 2, '0') == t
  {
    if t[0] == '0' {
      var u := t[1..];
      assert IsDecimal(u);
      assert t[..1] == "0" && t == "0" + u;
      assert ValueOf(t[..1]) == 0;
      assert ValueOf(t) == ValueOf(u) by {
        assert u[..0] == [] && t[..|t| - 1] == t[..1];
      }
      ToDecimalOfValue(u);
      assert PadStart(u, 2, '0') == PadStart("0" + u, 2, '0');
    } else {
      ToDecimalOfValue(t);
    }
  }

  // ---------------------------------------------------------------------
  // Success: where to go
  // ---------------------------------------------------------------------

  /** A navigation request: the path, and whether it replaces the current history entry. */
  datatype Navigation = Navigation(path: string, replace: bool)

  /**
   * After a successful login: the return URL carried in the incoming
   * navigation state when it is present and non-empty, the dashboard
   * otherwise; either way the login page is replaced in the history.
   */
  function Destination(returnUrl: Option<string>): (nav: Navigation)
    ensures nav.replace
    ensures nav.path != ""
    ensures returnUrl.Some? && returnUrl.value != "" ==> nav.path == returnUrl.value
    ensures returnUrl.None? || returnUrl.value == "" ==> nav.path == DEFAULT_DESTINATION
  {
    if returnUrl.Some? && returnUrl.value != "" then Navigation(returnUrl.value, true)
    else Navigation(DEFAULT_DESTINATION, true)
  }

  // ---------------------------------------------------------------------
  // Failure: the error record
  // ---------------------------------------------------------------------

  /**
   * What a failed login reports: the HTTP status when the failure came with
   * a response (`None` for a network error or a non-HTTP exception), and the
   * payload's `message` and `lockedUntil`, `None` when absent or empty.
   */
  datatype LoginError = LoginError(status: Option<int>, message: Option<string>, lockedUntil: Option<int>)

  /** The message shown on a 429: the payload's own, or the fixed default when it has none. */
  function LockMessage(message: Option<string>): (shown: string)
    ensures shown != ""
    ensures message.Some? && message.value != "" ==> shown == message.value
    ensures message.None? || message.value == "" ==> shown == LOCKED_MESSAGE
  {
    if message.Some? && message.value != "" then message.value else LOCKED_MESSAGE
  }

  /** The handles of the interval an optional handle names. */
  function HandleSet(h: Option<nat>): set<nat> {
    if h.Some? then {h.value} else {}
  }

  // ---------------------------------------------------------------------
  // The page
  // ---------------------------------------------------------------------

  /**
   * One mounted login page. The first three fields are the component's
   * state, `timerRef` its ref to the interval handle. The others stand for
   * what the runtime keeps: the intervals still scheduled, the next handle
   * `setInterval` returns, the `lockedUntil` the running tick closure
   * captured, whether the last effect run returned a cleanup, whether
   * `lockedUntil` changed since the effect last ran, and whether the page
   * is still mounted.
   */
  class LoginPage {
    var error: string
    var lockedUntil: Option<int>
    var countdown: string
    var timerRef: Option<nat>

    var liveIntervals: set<nat>
    var nextHandle: nat
    var tickTarget: int
    var cleanupRegistered: bool
    var effectDue: bool
    var mounted: bool

    /** The submit button is disabled while a lock is set. */
    predicate SubmitDisabled()
      reads this
    {
      lockedUntil.Some?
    }

    /** The "Try again in" line sits inside the error box, so it needs an error as well. */
    predicate ShowsCountdown()
      reads this
    {
      error != "" && lockedUntil.Some? && countdown != ""
    }

    /**
     * Between renders, once the effect has caught up with `lockedUntil`: a
     * timer runs exactly while locked, its tick aims at the current lock, and
     * the countdown label is shown exactly while locked.
     */
    ghost predicate Settled()
      reads this
    {
      (lockedUntil.Some? <==> liveIntervals != {})
      && (lockedUntil.Some? ==> tickTarget == lockedUntil.value && countdown != "")
      && (lockedUntil.None? ==> countdown == "")
    }

    ghost predicate Valid()
      reads this
    {
      (timerRef.Some? ==> 0 < timerRef.value < nextHandle)
      && 0 < nextHandle
      && liveIntervals <= HandleSet(timerRef)
      && (liveIntervals != {} ==> cleanupRegistered && mounted)
      && (lockedUntil.Some? ==> error != "")
      && (mounted && !effectDue ==> Settled())
    }

    /** Mounting: empty state; the first effect run finds no lock and starts nothing. */
    constructor ()
      ensures Valid() && mounted && !effectDue
      ensures error == "" && lockedUntil == None && countdown == ""
      ensures timerRef == None && liveIntervals == {}
    {
      error, lockedUntil, countdown, timerRef := "", None, "", None;
      liveIntervals, nextHandle, tickTarget := {}, 1, 0;
      cleanupRegistered, effectDue, mounted := false, false, true;
    }

    /** At most one repeating timer is ever live, and it is the one the ref holds. */
    lemma AtMostOneTimer()
      requires Valid()
      ensures |liveIntervals| <= 1
      ensures liveIntervals != {} ==> liveIntervals == {timerRef.value}
    {
      if timerRef.Some? && timerRef.value in liveIntervals {
        assert liveIntervals == {timerRef.value};
      } else {
        assert liveIntervals == {};
      }
    }

    /** Between renders the countdown is shown exactly when the button is disabled. */
    lemma SettledView()
      requires Valid() && mounted && !effectDue
      ensures ShowsCountdown() <==> SubmitDisabled()
      ensures SubmitDisabled() <==> liveIntervals != {}
    {
    }

    /** `if (timerRef.current) clearInterval(timerRef.current)`; the ref keeps the stale handle. */
    method ClearTimerRef()
      modifies this`liveIntervals
      ensures liveIntervals == old(liveIntervals) - HandleSet(timerRef)
    {
      if timerRef.Some? {
        liveIntervals := liveIntervals - {timerRef.value};
      }
    }

    /**
     * The body of `tick`, for the lock its closure captured: with no time
     * left it lifts the lock, clears label and message and stops the timer,
     * and emits no label; otherwise it sets the label for the time left.
     */
    method RunTick(now: int)
      modifies this`lockedUntil, this`countdown, this`error, this`liveIntervals, this`effectDue
      ensures tickTarget - now <= 0 ==>
        && lockedUntil == None && countdown == "" && error == ""
        && liveIntervals == old(liveIntervals) - HandleSet(timerRef)
        && effectDue == (old(effectDue) || old(lockedUntil).Some?)
      ensures tickTarget - now > 0 ==>
        && countdown == FormatCountdown(tickTarget - now)
        && lockedUntil == old(lockedUntil) && error == old(error)
        && liveIntervals == old(liveIntervals) && effectDue == old(effectDue)
    {
      if tickTarget - now <= 0 {
        if lockedUntil.Some? {
          effectDue := true;
        }
        lockedUntil := None;
        countdown := "";
        error := "";
        ClearTimerRef();
        return;
      }
      countdown := FormatCountdown(tickTarget - now);
    }

    /**
     * The live interval fires at time `now`. A page with no live interval
     * sees nothing happen; otherwise the tick of the closure that started
     * the interval runs.
     */
    method Tick(now: int)
      requires Valid()
      modifies this`lockedUntil, this`countdown, this`error, this`liveIntervals, this`effectDue
      ensures Valid()
      ensures old(liveIntervals) == {} ==> unchanged(this)
      ensures old(liveIntervals) != {} && tickTarget <= now ==>
        && lockedUntil == None && countdown == "" && error == "" && liveIntervals == {}
        && effectDue == (old(effectDue) || old(lockedUntil).Some?)
      ensures old(liveIntervals) != {} && tickTarget > now ==>
        && countdown == FormatCountdown(tickTarget - now)
        && lockedUntil == old(lockedUntil) && error == old(error)
        && liveIntervals == old(liveIntervals) && effectDue == old(effectDue)
      ensures tickTarget == old(tickTarget) && timerRef == old(timerRef) && mounted == old(mounted)
    {
      if liveIntervals != {} {
        RunTick(now);
      }
    }

    /**
     * `onError`. A 429 shows the payload's message or the default and, when
     * the payload carries `lockedUntil`, sets it (a new value each time, so
     * the effect is due again); otherwise the lock is left as it was. Any
     * other failure drops the lock and shows the fixed failure message.
     * State updates reach an unmounted page no more.
     */
    method OnError(e: LoginError)
      requires Valid()
      modifies this`error, this`lockedUntil, this`effectDue
      ensures Valid()
      ensures !old(mounted) ==> unchanged(this)
      ensures old(mounted) ==> error != ""
      ensures old(mounted) && e.status == Some(TOO_MANY_REQUESTS) ==>
        && error == LockMessage(e.message)
        && lockedUntil == (if e.lockedUntil.Some? then e.lockedUntil else old(lockedUntil))
        && effectDue == (old(effectDue) || e.lockedUntil.Some?)
      ensures old(mounted) && e.status != Some(TOO_MANY_REQUESTS) ==>
        && error == FAILED_MESSAGE && lockedUntil == None
        && effectDue == (old(effectDue) || old(lockedUntil).Some?)
    {
      if !mounted {
        return;
      }
      if e.status == Some(TOO_MANY_REQUESTS) {
        error := LockMessage(e.message);
        if e.lockedUntil.Some? {
          lockedUntil := e.lockedUntil;
          effectDue := true;
        }
      } else {
        if lockedUntil.Some? {
          effectDue := true;
        }
        lockedUntil := None;
        error := FAILED_MESSAGE;
      }
    }

    /**
     * The effect keyed on `lockedUntil`, run after a render in which it
     * changed: first the previous run's cleanup, then the body. With no
     * lock the label is cleared and the timer stopped. With a lock the tick
     * runs once at once, then a fresh interval is started and its handle
     * stored, with a cleanup that stops it. Nothing happens when the effect
     * is not due.
     */
    method OnLockChange(now: int)
      requires Valid()
      modifies this`lockedUntil, this`countdown, this`error, this`liveIntervals, this`effectDue
      modifies this`tickTarget, this`nextHandle, this`timerRef, this`cleanupRegistered
      ensures Valid()
      ensures !old(mounted && effectDue) ==> unchanged(this)
      ensures old(mounted && effectDue) && old(lockedUntil).None? ==>
        && lockedUntil == None && countdown == "" && error == old(error)
        && liveIntervals == {} && !effectDue && !cleanupRegistered
        && timerRef == old(timerRef) && tickTarget == old(tickTarget) && nextHandle == old(nextHandle)
      ensures old(mounted && effectDue) && old(lockedUntil).Some? ==>
        && nextHandle == old(nextHandle) + 1
        && tickTarget == old(lockedUntil).value
        && timerRef == Some(old(nextHandle)) && old(nextHandle) !in old(liveIntervals)
        && liveIntervals == {old(nextHandle)} && cleanupRegistered
      ensures old(mounted && effectDue) && old(lockedUntil).Some? && tickTarget <= now ==>
        && lockedUntil == None && countdown == "" && error == "" && effectDue
      ensures old(mounted && effectDue) && old(lockedUntil).Some? && tickTarget > now ==>
        && lockedUntil == old(lockedUntil) && countdown == FormatCountdown(tickTarget - now)
        && error == old(error) && !effectDue
      ensures mounted == old(mounted)
    {
      if !(mounted && effectDue) {
        return;
      }
      EffectCleanup();
      assert liveIntervals == {};
      effectDue := false;
      if lockedUntil.None? {
        countdown := "";
        ClearTimerRef();
        return;
      }
      StartLockTimer(lockedUntil.value, now);
    }

    /** The previous effect run's cleanup, when it returned one: stop the timer the ref holds. */
    method EffectCleanup()
      modifies this`liveIntervals, this`cleanupRegistered
      ensures !cleanupRegistered
      ensures liveIntervals == if old(cleanupRegistered) then old(liveIntervals) - HandleSet(timerRef)
                               else old(liveIntervals)
    {
      if cleanupRegistered {
        ClearTimerRef();
        cleanupRegistered := false;
      }
    }

    /**
     * The effect body for a lock ending at `target`: run the tick once, then
     * start a fresh interval, store its handle and register the cleanup.
     */
    method StartLockTimer(target: int, now: int)
      modifies this`tickTarget, this`lockedUntil, this`countdown, this`error, this`liveIntervals
      modifies this`effectDue, this`nextHandle, this`timerRef, this`cleanupRegistered
      ensures tickTarget == target && nextHandle == old(nextHandle) + 1
      ensures timerRef == Some(old(nextHandle)) && cleanupRegistered
      ensures liveIntervals == (old(liveIntervals) - (if target <= now then HandleSet(old(timerRef)) else {}))
                               + {old(nextHandle)}
      ensures target <= now ==>
        && lockedUntil == None && countdown == "" && error == ""
        && effectDue == (old(effectDue) || old(lockedUntil).Some?)
      ensures target > now ==>
        && countdown == FormatCountdown(tickTarget - now)
        && lockedUntil == old(lockedUntil) && error == old(error) && effectDue == old(effectDue)
    {
      tickTarget := target;
      RunTick(now);
      var handle := nextHandle;
      nextHandle := nextHandle + 1;
      liveIntervals := liveIntervals + {handle};
      timerRef := Some(handle);
      cleanupRegistered := true;
    }

    /**
     * Unmounting: the last effect run's cleanup stops its timer, so no
     * interval outlives the page and no tick fires after it.
     */
    method Cleanup()
      requires Valid()
      modifies this`liveIntervals, this`cleanupRegistered, this`mounted
      ensures Valid() && !mounted && liveIntervals == {}
    {
      if cleanupRegistered {
        ClearTimerRef();
        cleanupRegistered := false;
      }
      mounted := false;
    }
  }
}
