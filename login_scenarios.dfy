/**
 * Clients of the login page that drive it through whole lockout episodes,
 * using nothing but the contracts of its steps.
 */
module LoginScenarios {
  import opened Wrappers
  import opened SuperAdminLogin

  /** A 429 locking the account for ninety seconds: the countdown starts at "1m 30s" and the button is disabled. */
  method NinetySecondLockStarts(now: int, message: Option<string>)
    returns (firstLabel: string, disabled: bool, timers: nat)
    ensures firstLabel == "1m 30s" && disabled
    ensures timers == 1
  {
    var page := new LoginPage();
    page.OnError(LoginError(Some(TOO_MANY_REQUESTS), message, Some(now + 90000)));
    page.OnLockChange(now);
    var left := page.tickTarget - now;
    firstLabel := page.countdown;
    disabled := page.SubmitDisabled();
    timers := |page.liveIntervals|;
    assert timers == 1;
    assert left == 90000 && firstLabel == FormatCountdown(left);
    CountdownExamples();
  }

  /**
   * The same lock at its expiry: the tick lifts the lock and clears the
   * message, and the effect that follows stops the timer.
   */
  method NinetySecondLockExpires(now: int, message: Option<string>)
    returns (errorAfter: string, lockAfter: Option<int>, labelAfter: string, timersAfter: nat)
    ensures errorAfter == "" && lockAfter == None && labelAfter == "" && timersAfter == 0
  {
    var page := new LoginPage();
    page.OnError(LoginError(Some(TOO_MANY_REQUESTS), message, Some(now + 90000)));
    page.OnLockChange(now);
    page.Tick(now + 90000);
    page.OnLockChange(now + 90000);
    errorAfter := page.error;
    lockAfter := page.lockedUntil;
    labelAfter := page.countdown;
    timersAfter := |page.liveIntervals|;
  }

  /** A 429 without `lockedUntil` shows its message, but no countdown, and leaves the button enabled. */
  method LockWithoutExpiry(message: Option<string>)
    returns (shownError: string, disabled: bool, countdownShown: bool)
    ensures shownError == LockMessage(message) && shownError != ""
    ensures !disabled && !countdownShown
  {
    var page := new LoginPage();
    page.OnError(LoginError(Some(TOO_MANY_REQUESTS), message, None));
    shownError := page.error;
    disabled := page.SubmitDisabled();
    countdownShown := page.ShowsCountdown();
  }

  /**
   * A 500 while locked drops the lock and shows the fixed failure message;
   * the effect that follows clears the label and stops the timer.
   */
  method FailureWhileLocked(now: int, until: int)
    returns (shownError: string, disabled: bool, labelAfter: string, timersAfter: nat)
    requires until > now
    ensures shownError == FAILED_MESSAGE && !disabled && labelAfter == "" && timersAfter == 0
  {
    var page := new LoginPage();
    page.OnError(LoginError(Some(TOO_MANY_REQUESTS), None, Some(until)));
    page.OnLockChange(now);
    page.OnError(LoginError(Some(500), None, None));
    page.OnLockChange(now);
    shownError := page.error;
    disabled := page.SubmitDisabled();
    labelAfter := page.countdown;
    timersAfter := |page.liveIntervals|;
  }

  /** Unmounting while locked stops the timer: a later interval firing finds nothing to do. */
  method UnmountWhileLocked(now: int, until: int, later: int)
    returns (timersAfter: nat, lockAfter: Option<int>, labelAfter: string)
    requires until > now
    ensures timersAfter == 0 && lockAfter == Some(until) && labelAfter == FormatCountdown(until - now)
  {
    var page := new LoginPage();
    page.OnError(LoginError(Some(TOO_MANY_REQUESTS), None, Some(until)));
    page.OnLockChange(now);
    page.Cleanup();
    page.Tick(later);
    timersAfter := |page.liveIntervals|;
    lockAfter := page.lockedUntil;
    labelAfter := page.countdown;
  }
}
