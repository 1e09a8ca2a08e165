# Super-admin login lockout, image-URL allow-list and logger gate, in Dafny

This project models three pieces of the charmBooking front end:

- **The super-admin login page** (`src/pages/superAdmin/superAdminLogin.tsx`).
  A failed login either rate-limits the account or fails generically. A
  rate-limit response is HTTP 429 Too Many Requests (section 4 of RFC 6585).
  It shows the server's message and may set `lockedUntil`. Any other failure
  drops the lock and shows a fixed message. While locked, a one-second
  interval recomputes a countdown label ("1m 30s", "5s"). The tick that finds
  no time left lifts the lock and clears the message. An effect keyed on
  `lockedUntil` starts and stops that single interval. A successful login
  navigates to the return URL or to the dashboard.
- **The image-URL validator** (`src/utils/validateImage.ts`). A URL is accepted
  only if all three checks pass: the protocol is `https:`, the host is exactly
  one of three allowed domains, and the path ends in an image extension,
  ignoring case.
- **The logger gate** (`src/utils/logger.ts`). Levels have ranks. The current
  level depends on the build mode. Each logger method either writes with its
  level's prefix or does nothing.

Modules: `SuperAdminLogin` (super_admin_login.dfy) holds the pure countdown
label, the navigation choice and the class `LoginPage`. `LoginScenarios`
(login_scenarios.dfy) drives the page through whole lockout episodes using
only its contracts. `ValidateImage` (validate_image.dfy) and `Logger`
(logger.dfy) model the other two files. `Decimal` (decimal.dfy) models the
number-to-text conversion and `padStart` used by the label. `Wrappers`
(wrappers.dfy) holds `Option`.

How the page is modelled:

- Time is an integer number of milliseconds, `now`, passed to each step that
  reads the clock.
- `LoginPage` keeps the component state (`error`, `lockedUntil`, `countdown`)
  and the ref `timerRef`.
- It also keeps what the React runtime and the browser would hold:
  - `liveIntervals`: the intervals still scheduled;
  - `nextHandle`: the next handle `setInterval` returns;
  - `tickTarget`: the `lockedUntil` that the running tick closure captured;
  - `cleanupRegistered`: whether the last effect run returned a cleanup;
  - `effectDue`: whether `lockedUntil` changed since the effect last ran;
  - `mounted`: whether the page is still mounted.
- The object invariant `Valid()` says two things:
  - at most one interval is live, and it is the one `timerRef` holds;
  - between renders, a timer runs exactly while a lock is set, and the
    countdown label is non-empty exactly then.

## Model

| member | source | states |
|---|---|---|
| `Decimal.ToDecimal` | src/pages/superAdmin/superAdminLogin.tsx:42 | the text `${n}` and `toString()` give a whole number: never empty; shown to be shortest decimal text by `Decimal.ToDecimalDigits` |
| `Decimal.ToDecimalDigits` | src/pages/superAdmin/superAdminLogin.tsx:42 | `toString()` of a whole number gives digits only, with no leading zero unless the number is 0 |
| `Decimal.ValueOfToDecimal` | src/pages/superAdmin/superAdminLogin.tsx:42 | reading back the decimal text of `n` gives `n` (proved by induction) |
| `Decimal.ToDecimalOfValue` | src/pages/superAdmin/superAdminLogin.tsx:42 | conversely, any shortest decimal text is the `toString()` of the number it denotes |
| `Decimal.PadStart` | src/pages/superAdmin/superAdminLogin.tsx:42 | `padStart(width, fill)`: the result is the text itself when at least `width` long, else exactly `width` long (contents in `Decimal.PadStartFillsFront`) |
| `Decimal.PadStartFillsFront` | src/pages/superAdmin/superAdminLogin.tsx:42 | a text shorter than `width` becomes `fill` repeated `width - length` times, followed by the text |
| `Decimal.ValueOfZeroPadded` | src/pages/superAdmin/superAdminLogin.tsx:42 | `padStart(2, '0')` keeps the text numeric and keeps its value |
| `SuperAdminLogin.FormatCountdown` | src/pages/superAdmin/superAdminLogin.tsx:39-43 | the label for `diff > 0` ms left is non-empty and ends in `s` |
| `SuperAdminLogin.FormatCountdownRoundTrip` | src/pages/superAdmin/superAdminLogin.tsx:39-43 | parsing the label gives back exactly `(diff div 60000, (diff mod 60000) div 1000)`: minutes, then seconds padded to two digits after "m ", or seconds alone |
| `SuperAdminLogin.CountdownParseInverse` | src/pages/superAdmin/superAdminLogin.tsx:39-43 | conversely, every text the label parser reads is the label of a time left, so each (minutes, seconds) pair has exactly one spelling |
| `SuperAdminLogin.ParseRejectsOtherSpellings` | src/pages/superAdmin/superAdminLogin.tsx:42 | "05s", "1m 5s" and "0m 05s" are not labels: no leading zero, two-digit seconds after minutes, minutes only when positive |
| `SuperAdminLogin.CountdownSecondsBelowSixty` | src/pages/superAdmin/superAdminLogin.tsx:40 | the seconds part is between 0 and 59 |
| `SuperAdminLogin.CountdownWholeSeconds` | src/pages/superAdmin/superAdminLogin.tsx:39-40 | minutes × 60 + seconds equals the whole seconds left, `diff div 1000` |
| `SuperAdminLogin.CountdownShowsWholeSeconds` | src/pages/superAdmin/superAdminLogin.tsx:39-43 | the label shows exactly the whole seconds left |
| `SuperAdminLogin.CountdownMonotone` | src/pages/superAdmin/superAdminLogin.tsx:29-43 | less time left never shows more seconds, so the countdown never goes up as `now` advances |
| `SuperAdminLogin.CountdownMinutesForm` | src/pages/superAdmin/superAdminLogin.tsx:42 | the "{m}m {ss}s" form (with an `m`) is used exactly when at least 60000 ms are left |
| `SuperAdminLogin.CountdownExamples` | src/pages/superAdmin/superAdminLogin.tsx:39-43 | 90000 ms gives "1m 30s"; 5500 ms gives "5s" |
| `SuperAdminLogin.Destination` | src/pages/superAdmin/superAdminLogin.tsx:70-74 | on success: the return URL when present and non-empty, else `/super-admin/dashboard`; always with `replace` |
| `SuperAdminLogin.LockMessage` | src/pages/superAdmin/superAdminLogin.tsx:80 | the 429 message: the payload's when non-empty, else "Account is temporarily locked."; never empty |
| `SuperAdminLogin.LoginPage.SubmitDisabled` | src/pages/superAdmin/superAdminLogin.tsx:137 | the submit button is disabled exactly while a lock is set |
| `SuperAdminLogin.LoginPage.ShowsCountdown` | src/pages/superAdmin/superAdminLogin.tsx:118-121 | the "Try again in" line shows when an error, a lock and a non-empty label are all present |
| `SuperAdminLogin.LoginPage.constructor` | src/pages/superAdmin/superAdminLogin.tsx:14-27 | mounting, together with the effect's first run with no lock: no error, no lock, empty label, no timer, the invariant holds and the effect is not due |
| `SuperAdminLogin.LoginPage.AtMostOneTimer` | src/pages/superAdmin/superAdminLogin.tsx:46-50 | under the invariant at most one interval is live, and it is the one in `timerRef` |
| `SuperAdminLogin.LoginPage.SettledView` | src/pages/superAdmin/superAdminLogin.tsx:118-137 | between renders the "Try again in" line shows exactly when the button is disabled, which is exactly when a timer runs |
| `SuperAdminLogin.LoginPage.ClearTimerRef` | src/pages/superAdmin/superAdminLogin.tsx:25 | clearing stops the interval the ref names, if any; the ref keeps the stale handle |
| `SuperAdminLogin.LoginPage.RunTick` | src/pages/superAdmin/superAdminLogin.tsx:29-44 | with `lockedUntil - now <= 0`: lock lifted (the effect becomes due if a lock was set), label and message cleared, the interval in the ref stopped; otherwise the label for the time left, nothing else changed |
| `SuperAdminLogin.LoginPage.Tick` | src/pages/superAdmin/superAdminLogin.tsx:29-47 | the interval firing at `now` keeps the invariant and changes only the component state, the live set and the effect flag; with no live interval nothing happens; otherwise as `RunTick` for the captured lock, and on unlock no interval is left live |
| `SuperAdminLogin.LoginPage.OnError` | src/pages/superAdmin/superAdminLogin.tsx:76-89 | 429: message set, `lockedUntil` overwritten only if the payload has one (last response wins); other failures: lock dropped, fixed message; the error is never empty afterwards; label and timers untouched |
| `SuperAdminLogin.LoginPage.OnLockChange` | src/pages/superAdmin/superAdminLogin.tsx:22-51 | the effect: no lock → label cleared, no live timer, no cleanup registered, the stale handle left in the ref; a lock → tick once, then exactly one fresh interval, with the next handle, live and stored in the ref; not due → nothing changes |
| `SuperAdminLogin.LoginPage.EffectCleanup` | src/pages/superAdmin/superAdminLogin.tsx:48-50 | the previous run's cleanup stops the interval in the ref, if that run registered one |
| `SuperAdminLogin.LoginPage.StartLockTimer` | src/pages/superAdmin/superAdminLogin.tsx:46-50 | runs the tick once for the lock, then adds one fresh handle to the live set and stores it in the ref |
| `SuperAdminLogin.LoginPage.Cleanup` | src/pages/superAdmin/superAdminLogin.tsx:48-50 | unmounting leaves no live interval |
| `LoginScenarios.NinetySecondLockStarts` | src/pages/superAdmin/superAdminLogin.tsx:22-89 | a 429 with `lockedUntil = now + 90s` starts the countdown at "1m 30s", disables the button and runs one timer |
| `LoginScenarios.NinetySecondLockExpires` | src/pages/superAdmin/superAdminLogin.tsx:22-89 | at `now + 90s` the lock is lifted, message and label are cleared, and no timer is left |
| `LoginScenarios.LockWithoutExpiry` | src/pages/superAdmin/superAdminLogin.tsx:78-84 | a 429 without `lockedUntil` shows the message but neither disables the button nor shows a countdown |
| `LoginScenarios.FailureWhileLocked` | src/pages/superAdmin/superAdminLogin.tsx:85-88 | a 500 while locked lifts the lock, shows the generic message, and the timer stops |
| `LoginScenarios.UnmountWhileLocked` | src/pages/superAdmin/superAdminLogin.tsx:48-50 | after unmounting while locked and a later interval firing, no timer is live and the lock and the last label are as they were |
| `ValidateImage.LowerChar` | src/utils/validateImage.ts:12 | the `i` flag's folding of one character as it acts on this pattern: ASCII upper-case letters to lower case, other characters unchanged. The flag also folds non-ASCII letters, but it never maps a non-ASCII character onto an ASCII one. The pattern's letters are ASCII and a parsed pathname is ASCII, so ASCII folding decides every comparison here |
| `ValidateImage.LowerIgnoresCase` | src/utils/validateImage.ts:12 | on ASCII text, two texts fold alike exactly when they have the same length and, position by position, are the same character or the two cases of one ASCII letter |
| `ValidateImage.EndsWithIgnoringCase` | src/utils/validateImage.ts:12 | a suffix compared under the `i` flag's folding |
| `ValidateImage.HasImageExtension` | src/utils/validateImage.ts:12 | what the anchored pattern `\.(jpg\|jpeg\|png\|webp\|avif\|gif)$` with the `i` flag accepts: a dot and one listed extension end the path, ignoring case |
| `ValidateImage.MatchesExtension` | src/utils/validateImage.ts:12 | the alternation, tried one alternative at a time, matches exactly when some `.ext` ends the path, ignoring case |
| `ValidateImage.IsValidImageUrl` | src/utils/validateImage.ts:1-18 | true exactly when the URL parsed, the protocol is `https:`, the host is in the allow-list and the path has an image extension; a parse failure gives false |
| `ValidateImage.AllowListIsExact` | src/utils/validateImage.ts:8-9 | no allowed domain with anything added before it (subdomain, look-alike) or after it is itself allowed |
| `ValidateImage.LookalikeHostRejected` | src/utils/validateImage.ts:8-9 | so `cdn.yourcdn.com`, `evilyourcdn.com`, `yourcdn.com.evil.net` and the like are rejected |
| `ValidateImage.ExtensionIgnoresCase` | src/utils/validateImage.ts:12 | any path ending in `.` plus a listed extension in any case (`.PNG`) passes the extension check |
| `ValidateImage.OtherExtensionRejected` | src/utils/validateImage.ts:12 | a path whose last dot is followed by anything that is not a listed extension, once folded, fails it |
| `ValidateImage.ValidatorAcceptsExample` | src/utils/validateImage.ts:2-17 | `https://images.payhere.lk/gallery/photo.PNG` is accepted; the same over `http:`, and an unparsable string, are not |
| `ValidateImage.ValidatorRejectsExamples` | src/utils/validateImage.ts:8-12 | `https://cdn.yourcdn.com/photo.png` and `https://trustedcdn.com/file.txt` are rejected |
| `Logger.RanksIncrease` | src/utils/logger.ts:14-19 | ranks strictly increase: debug < info < warn < error |
| `Logger.Rank` | src/utils/logger.ts:14-19 | the `LOG_LEVELS` table: debug 0, info 1, warn 2, error 3 (ordered by `Logger.RanksIncrease`) |
| `Logger.CurrentLevel` | src/utils/logger.ts:21 | debug in development, error otherwise |
| `Logger.ShouldLog` | src/utils/logger.ts:21-25 | a level is logged exactly in development; outside it nothing is, error included |
| `Logger.Tag` | src/utils/logger.ts:32-45 | each level's console prefix, a bracketed name |
| `Logger.MethodFor` | src/utils/logger.ts:32-45 | a level's method is the no-op exactly outside development; otherwise it writes on that level's own channel with that level's prefix |
| `Logger.MakeLogger` | src/utils/logger.ts:30-45 | outside development every method is the no-op; in development each writes to its own console channel with `[DEBUG]`, `[INFO]`, `[WARN]` or `[ERROR]` |

Facts about the code that shape the model:

- The host check is exact membership (`Array.includes`) in `yourcdn.com`,
  `images.payhere.lk` and `trustedcdn.com` (src/utils/validateImage.ts:8-9).
- `https:` is required in every build mode (src/utils/validateImage.ts:5).
- Nothing disables submission while a request is in flight: `subLoading` is
  never set to true (src/pages/superAdmin/superAdminLogin.tsx:18,128), and
  `isPending` is never read (line 53).
- The "Try again in" line is nested inside the error box (lines 118-121), so
  it shows only when `error`, `lockedUntil` and `countdown` are all non-empty.
- A return URL that is present but empty counts as absent, by JavaScript
  truthiness (line 70).

Determinism and freedom from side effects of `isValidImageUrl` hold because
it is modelled as a Dafny function. For the same reason the order of its checks
cannot be observed: a pure total function has no effect between them.

## Left out

- Rendering, styling and the form's `onChange` bindings (lines 97-147). Only the
  disabled condition and the countdown condition are modelled.
- The login request, axios, `axios.isAxiosError` and react-query's
  `useMutation`. They are network and library code. A failure is an input
  record `(status?, message?, lockedUntil?)`.
- `signIn` (session storage) and `navigate`. They are foreign calls. Only the
  chosen destination and the replace flag are modelled.
- `logger.debug` and `logger.error` calls inside the page. They only write
  diagnostics.
- Real scheduling. `setInterval`'s one-second period is not modelled; the
  interval firing is the step `Tick(now)`. `new Date()` is the parameter `now`.
- React's render cycle. It is reduced to the `effectDue` flag and the caller's
  order of steps. Strict-mode double effects are not modelled.
- Parsing `lockedUntil` from an ISO-8601 string. It arrives as an integer
  timestamp. An unparsable string would give an invalid date; the page would
  then show "NaNs" and stay locked. That case is outside the model.
- Falsy values other than absence or the empty string (`0`, `null`) for the
  payload's `message` and `lockedUntil` count as absent. They are folded into
  `None` by the caller.
- The WHATWG URL parser behind `new URL`. Its result is `Option<Url>`.
- The regular-expression engine. The extension test is a case-insensitive
  suffix check, equivalent for this anchored pattern.
- The `i` flag's folding of non-ASCII letters (`é` against `É`). It never
  maps a non-ASCII character onto an ASCII one. The pattern's letters are ASCII
  and a parsed pathname is ASCII, so only ASCII folding is modelled.
- Console output of the logger. Only the gate and the choice of method are
  modelled.
- A stale login response arriving after unmount. The model treats it as a
  no-op, as React drops state updates to an unmounted component.
