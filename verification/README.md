# Coaching-institute website: the decision logic, in Dafny

This project models the decision procedures of a coaching institute's
website (an Express back end and a React front end) as pure Dafny
functions over immutable data, and proves what each one promises.

The model covers:

- the student login endpoint and its in-memory attempt guard;
- the student login form (strength meter, input checks, lockout);
- the two client-side session timer implementations: the session manager
  singleton and the dashboard's own timers;
- the admin login and one-time admin bootstrap;
- the admin's student management (creation checks, grading, attendance,
  cascade delete);
- lead capture and the popup switch, and daily visit analytics;
- inline gallery images as data URLs, with base64 (section 4 of RFC 4648)
  and the data URL form (section 3 of RFC 2397);
- the two upload filters and the upload error mapping;
- the chatbot's keyword fallback and response extraction;
- the API server's cache header, CORS check, 404 and error mapping;
- the production configuration check;
- the auto-refresh interval registry;
- the carousels and lists (dedupe by id, embed links, cyclic index,
  distinct years, year filters, optimistic delete).

Time is an explicit millisecond clock (`now: nat`). Timers are a map from
handle to pending deadline and action, so a timer that is never cancelled
stays visible. Everything the code asks of the outside world is a
parameter: the database rows, bcrypt's compare, `validator.escape` and
`validator.isEmail`, the URL parser, the random file name bytes, and the
replies of the hosted language model. Stored strings are classified by
the shape `JSON.parse` sees (`Browser.Stored`), and `JSON.parse` and
`parseInt` of them are modelled (`Browser.ParseJson`,
`Browser.ParseNumber`, `Js.ParseInt`).

Modules: `Js` (JSON values, truthiness, JavaScript rounding, `parseInt`), `Text`
(trim, case, search, split, decimals), `Timers`, `Browser`
(`localStorage`), `Base64`, and one module per component.

## Model

| member | source | states |
|---|---|---|
| LoginGuard.Recent | backend/controllers/studentController.js:17 | The window keeps exactly the stored timestamps less than 300000 ms old and is never longer than the stored list. |
| LoginGuard.CheckAttempts | backend/controllers/studentController.js:12-24 | Blocked exactly when five or more attempts stored under the key lie in the window; a blocked answer's wait is at least one second; an array or object key, matched by identity in the `Map` and so never found, is never blocked. |
| LoginGuard.RecordAttempt | backend/controllers/studentController.js:26-30 | Exactly one timestamp (`now`) is appended under a string, number, boolean or null key and every other key is unchanged; an array or object key (a new object on every request, so never found again) leaves the table as it was. |
| LoginGuard.ClearAttempts | backend/controllers/studentController.js:32-34 | A string, number, boolean or null key is removed and every other key is unchanged; an array or object key, never stored, changes nothing. |
| LoginGuard.RecentOfSorted | backend/controllers/studentController.js:17-28 | The window of a clock-ordered list is clock-ordered. |
| LoginGuard.WaitIsOldestExpiry | backend/controllers/studentController.js:17-28 | With clock-ordered attempts, the reported wait is the oldest in-window attempt's expiry rounded up to whole seconds, and at most 300 seconds. |
| LoginGuard.FindActive | backend/controllers/studentController.js:79-81 | The lookup finds an active row with that id, and finds none exactly when there is none. |
| LoginGuard.ValidateInput | backend/controllers/studentController.js:51-74 | Accepts exactly when both fields are non-empty strings and the trimmed id has 3-20 and the trimmed password 4-64 characters as `validator.isLength` counts them (code points less U+FE0E/U+FE0F); the missing and non-string failures are keyed on the raw id, the length failures on the trimmed id. |
| LoginGuard.Authenticate | backend/controllers/studentController.js:76-129 | Unknown id and wrong password are the same 401 recorded under the escaped id; success needs an active row whose hash matches, returns that row's profile without the password and an 8-hour token, and clears the escaped key even when the secret is missing. |
| LoginGuard.Decide | backend/controllers/studentController.js:42-92 | A 429 is answered exactly when the guard blocks, with nothing recorded; unblocked, input the checks reject is answered with that check's 400 and recorded under its key, and accepted input is answered as the credential check decides; each later failure names the key it records under. |
| LoginGuard.LoginSucceedsIff | backend/controllers/studentController.js:37-129 | A login succeeds exactly when the id is not blocked, the input passes its checks, an active student has the escaped trimmed id, bcrypt accepts the password and the token secret is set; a success returns that student's profile and forgets the id's failures. |
| LoginGuard.Login | backend/controllers/studentController.js:37-95 | 429 exactly when the raw id is blocked, with the attempts untouched and the guard's wait reported, so an array or object id never gets 429; unblocked, rejected input is the check's 400 with one failure recorded under its key, and accepted input gets the credential check's reply. |
| LoginGuard.LoginRecords | backend/controllers/studentController.js:51-92 | Every 400 records one attempt under its check's key, and every 401 one attempt under the trimmed and escaped id. |
| LoginGuard.LoginClears | backend/controllers/studentController.js:94-100 | Getting past the password check clears the trimmed and escaped id, even when the token secret is then found missing. |
| LoginGuard.BlockedSkipsCredentials | backend/controllers/studentController.js:42-48 | A blocked request gives the same outcome whatever the table, bcrypt and the secret are. |
| LoginGuard.UnknownAndWrongPasswordAlike | backend/controllers/studentController.js:83-92 | An unknown id and a wrong password produce the same reply (401) and the same attempt map. |
| LoginGuard.Logout | backend/controllers/studentController.js:137-157 | Always 200; when the token carries a student id, that id has no attempts stored afterwards and every other key keeps its attempts; without one nothing changes. |
| LoginGuard.LogoutUnblocks | backend/controllers/studentController.js:12-157 | After a logout the guard lets that student id try again at once, and every other key keeps exactly the attempts it had. |
| LoginGuard.LogoutClearsLoginKey | backend/controllers/studentController.js:94-157 | A successful login is only ever given to a string id, and the token it issues carries the trimmed, escaped id, the key the login cleared and the one a later logout clears. |
| LoginGuard.ObjectIdNeverBlocked | backend/controllers/studentController.js:7-60 | An array or object as the id is never blocked: it gets the 400 for a non-string input each time and nothing is kept under it. |
| LoginGuard.RecentShrinks | backend/controllers/studentController.js:17 | As the clock advances, the window never gains attempts. |
| LoginGuard.WithinLater | backend/controllers/studentController.js:17-19 | The "at most five in the window" bound survives the passing of time. |
| LoginGuard.RecordAllowedKeepsWithin | backend/controllers/studentController.js:19-30 | Recording under a key the guard has just allowed keeps every key at five or fewer in the window. |
| LoginGuard.CanonicalKeepsWithin | backend/controllers/studentController.js:19-90 | Over sequential requests, for an id that is already trimmed and unchanged by escaping, a login request keeps every key at five or fewer attempts in the window. |
| LoginGuard.PaddedIdNeverBlocked | backend/controllers/studentController.js:42-90 | An id with surrounding whitespace is checked under the raw key but recorded under another, so the raw key never fills and the reply is never 429. |
| LoginGuard.PaddedIdUnlimitedGuesses | backend/controllers/studentController.js:42-90 | Any sequence of requests with a padded id gets no 429 at all. |
| LoginGuard.PaddedIdExample | backend/controllers/studentController.js:42-90 | `" NEET2024001"` guessed once a second, any number of times, is never refused with 429. |
| LoginGuard.LoginKeyed | backend/controllers/studentController.js:37-95 | The corrected handler checks, records and clears under one key (the trimmed, escaped id): 429 exactly when that key is blocked. |
| LoginGuard.KeyedKeepsWithin | backend/controllers/studentController.js:19-95 | With one key per request, over sequential requests every request keeps every key at five or fewer attempts in the window. |
| LoginGuard.KeyedAgreesOnCanonical | backend/controllers/studentController.js:42-95 | On canonical ids the corrected handler behaves exactly as the original. |
| LoginForm.Score | client/src/pages/StudentLogin.jsx:12-19 | The score is at most 5; it is 5 exactly when all five criteria hold and 0 exactly when none does; the two length criteria count UTF-16 code units (`length`), so an astral character counts twice. |
| LoginForm.GetStrength | client/src/pages/StudentLogin.jsx:11-31 | An empty password gets no label; any other gets the level equal to its score and that level's name. |
| LoginForm.StrengthMonotone | client/src/pages/StudentLogin.jsx:15-19 | Appending characters to a non-empty password never lowers its level. |
| LoginForm.StrengthExamples | client/src/pages/StudentLogin.jsx:15-30 | "a" is Weak and "abc123" Good. |
| LoginForm.StrongerExamples | client/src/pages/StudentLogin.jsx:15-30 | "Abc123" is Strong and "Abc123!@" Very Strong. |
| LoginForm.ExcellentExample | client/src/pages/StudentLogin.jsx:15-30 | "Abc123!@#X", meeting all five criteria, is Excellent. |
| LoginForm.EmojiStrength | client/src/pages/StudentLogin.jsx:15-30 | Three emoji are six UTF-16 code units, so they meet the six-character criterion and no other and are Fair. |
| LoginForm.Validate | client/src/pages/StudentLogin.jsx:208-226 | Valid exactly when the trimmed id is non-empty, the password non-empty, the untrimmed id at least 3 and the password at least 4 UTF-16 code units long; each message is shown exactly when its check is the first to fail. |
| LoginForm.Mount | client/src/pages/StudentLogin.jsx:160-179 | The box is ticked exactly when the stored credentials parse as JSON other than `null`, and a remembered id is restored; the form is locked exactly when the stored expiry, read by `parseInt`, lies ahead, showing that wait rounded up to seconds; the counter starts at zero. |
| LoginForm.AnyDocumentRemembered | client/src/pages/StudentLogin.jsx:160-168 | Any stored JSON document but `null` ticks the box, even one without a string `studentId`; `null` and text that does not parse do not. |
| LoginForm.Tick | client/src/pages/StudentLogin.jsx:182-199 | A tick at 1 second or less unlocks, zeroes the counter and removes the two lockout keys and nothing else; otherwise it counts down by one; an unlocked form is unchanged. |
| LoginForm.UnlocksOnLastTick | client/src/pages/StudentLogin.jsx:186-194 | From `T` seconds the form stays locked for `T - 1` ticks and unlocks on tick `T`. |
| LoginForm.AfterSuccess | client/src/pages/StudentLogin.jsx:248-271 | The counter and lockout keys are cleared, token, profile and login time stored, and the remembered id is the trimmed id when the box is ticked and absent otherwise. |
| LoginForm.AfterFailure | client/src/pages/StudentLogin.jsx:279-301 | One more failure is counted and stored; the fifth locks for 300 seconds with the expiry `now + 300000` stored; earlier ones report `5 - attempts` remaining. |
| LoginForm.Submit | client/src/pages/StudentLogin.jsx:228-305 | A locked form sends nothing and changes nothing; a request goes out exactly when unlocked and valid, carrying the trimmed id and the password as typed; its answer selects the success or failure branch. |
| LoginForm.StepsKeepConsistent | client/src/pages/StudentLogin.jsx:186-295 | Submit, tick and mount all keep an unlocked form below five counted failures. |
| LoginForm.LockoutSurvivesReload | client/src/pages/StudentLogin.jsx:173-292 | After the fifth failure, a reload at any time within five minutes comes back locked with 1 to 300 seconds shown. |
| LoginForm.RememberedIdRoundTrip | client/src/pages/StudentLogin.jsx:160-268 | After a successful login the next visit pre-fills the trimmed id exactly when remember-me was ticked. |
| SessionManager.Fresh | client/src/utils/sessionManager.js:17-21 | The singleton starts uninitialised and with no sessions, and its timer invariant holds. |
| SessionManager.Init | client/src/utils/sessionManager.js:26-30 | After `init` the manager is initialised and nothing else has changed. |
| SessionManager.InitIdempotent | client/src/utils/sessionManager.js:26-30 | A second `init` changes nothing. |
| SessionManager.OnActivity | client/src/utils/sessionManager.js:165-167 | One more listener is registered and nothing else about the manager (sessions, timers, storage, debounce) changes. |
| SessionManager.ListenerIsNotified | client/src/utils/sessionManager.js:35-167 | A registered listener is called: the next recorded activity notifies one more listener than before, and an ignored one notifies none; the timer invariant is kept. |
| SessionManager.Activity | client/src/utils/sessionManager.js:35-69 | Before `init` or while the debounce timer is pending an event changes nothing; otherwise it stores the time under `lastActivityTime`, starts a 1000 ms debounce timer and notifies every listener; session entries are never touched. |
| SessionManager.DebounceIgnoresSecondEvent | client/src/utils/sessionManager.js:38-47 | A second event while the first one's debounce timer is pending records nothing and notifies no one. |
| SessionManager.RearmOwn | client/src/utils/sessionManager.js:95-111 | After a re-arm the entry's only warning timer is its new handle, due 25 minutes ahead, and its only logout timer its new handle, due 30 minutes ahead. |
| SessionManager.RearmTracked | client/src/utils/sessionManager.js:95-111 | Re-arming one entry leaves every other entry with no timer beyond its own handles. |
| SessionManager.Reset | client/src/utils/sessionManager.js:89-112 | No entry: nothing changes. Otherwise exactly one warning (now + 25 min) and one logout (now + 30 min) are pending for the entry, its earlier ones are cancelled, and every other pending timer is kept. |
| SessionManager.Start | client/src/utils/sessionManager.js:74-84 | The entry is (re)created with a fresh generation and reset: one warning and one logout pending for it, other entries unchanged, and no pending timer cancelled. |
| SessionManager.Enter | client/src/utils/sessionManager.js:77-81 | A new entry without handles keeps the timer invariant, since no pending timer carries its fresh generation. |
| SessionManager.RestartLeavesEarlierTimers | client/src/utils/sessionManager.js:74-84 | Starting the same student twice leaves two distinct warning timers pending, the first start's and the second's. |
| SessionManager.End | client/src/utils/sessionManager.js:139-160 | The entry and both of its timers are gone and the four session keys removed; other entries and other storage keys are unchanged; every pending timer that is not one of the entry's own stays pending with its action, no timer is added, and without an entry the timers are untouched. |
| SessionManager.EndKeepsOtherTimers | client/src/utils/sessionManager.js:139-147 | Ending one student's session leaves every alarm other than that session's own warning and expiry exactly as pending as it was, so another session's timers still fire. |
| SessionManager.Dismiss | client/src/utils/sessionManager.js:143-147 | Dropping an entry after cancelling its timers leaves no timer for it and keeps the invariant; every other pending timer keeps its action, none is added, and nothing outside the entries and timers changes. |
| SessionManager.Disarm | client/src/utils/sessionManager.js:96-97 | Cancelling an entry's two handles leaves no timer for it and keeps every timer not named by those handles. |
| SessionManager.Fire | client/src/utils/sessionManager.js:42-44 | The fired timer leaves the queue and its action is reported; the debounce timer firing re-enables recording. |
| SessionManager.RemainingTime | client/src/utils/sessionManager.js:117-124 | Unparsable login time gives NaN; otherwise the result is never negative, at most 30 minutes after login, zero exactly when 30 minutes have passed, and otherwise adds up with the elapsed time to 30 minutes. |
| SessionManager.RemainingIgnoresActivity | client/src/utils/sessionManager.js:117-124 | Recording activity does not change the remaining time. |
| SessionManager.ClockReadsBack | client/src/utils/sessionManager.js:130-133 | The clock text splits at its one colon into digits and two digits below 60, and minutes times 60 plus seconds gives the count back. |
| SessionManager.FormatRemainingTime | client/src/utils/sessionManager.js:129-134 | For a non-negative time the text is `M:SS` with SS below 60 and `M * 60 + SS` the whole seconds. |
| SessionManager.Breakdown | client/src/utils/sessionManager.js:203-206 | Seconds lie in 0..59, minutes are the elapsed time floored to minutes, and together they give the whole seconds. |
| SessionManager.SessionDuration | client/src/utils/sessionManager.js:199-207 | Unparsable login time gives NaN; otherwise the breakdown of the elapsed time, with seconds below 60. |
| Timers.Schedule | client/src/utils/sessionManager.js:99-111 | A fresh positive handle, never used before, holds the new deadline and action; every other timer is kept. |
| Timers.Cancel | client/src/utils/sessionManager.js:96-97 | The named handle is gone; every other timer is kept; a missing handle is a no-op. |
| Timers.Fire | client/src/utils/sessionManager.js:42-44 | Only the fired handle leaves the queue. |
| Timers.ScheduleWith | client/src/utils/sessionManager.js:99-111 | Scheduling adds the new handle to its own action's timers and to no other action's. |
| Timers.CancelClears | client/src/utils/sessionManager.js:96-97 | Cancelling the only handle an action has leaves that action no timers. |
| Dashboard.Initial | client/src/pages/StudentDashboard.jsx:80-83 | A tab before the dashboard opens has no pending timer, no mounted instance and no listener. |
| Dashboard.ResetTimeout | client/src/pages/StudentDashboard.jsx:151-168 | Instance `i`'s ref names its only warning timer, due 25 minutes ahead; one new logout timer of `i`, due 30 minutes ahead, joins all earlier ones, none of which is cancelled; every other instance and its warning are untouched. |
| Dashboard.ResetLogouts | client/src/pages/StudentDashboard.jsx:162-167 | The reset's logout timer is fresh and joins the instance's earlier logout timers; no pending logout timer of any instance is removed. |
| Dashboard.StopInstance | client/src/pages/StudentDashboard.jsx:106-109 | The unmount cleanup leaves the instance no pending warning and stops its interval; every other instance, its warning and every logout timer are kept. |
| Dashboard.Mount | client/src/pages/StudentDashboard.jsx:86-110 | A dashboard on screen is not mounted again; without a token or profile, or with a profile `JSON.parse` rejects, only the page changes, to login; otherwise a new instance is on screen with one more set of listeners tagged with it, its interval running from the stored login time, exactly one warning and one new logout timer, while earlier instances, their warnings and every logout timer are untouched. |
| Dashboard.FirstMount | client/src/pages/StudentDashboard.jsx:86-100 | The first mount in a tab is instance 0 with one set of listeners. |
| Dashboard.MountAgain | client/src/pages/StudentDashboard.jsx:86-100 | With a token and a parsable profile stored, a mount adds the next instance on screen and appends its listeners to the earlier ones. |
| Dashboard.Leave | client/src/pages/StudentDashboard.jsx:106-109 | Navigating away unmounts the instance on screen: its warning is cleared and its interval stopped, its listeners stay attached, and the other instances and every logout timer are untouched. |
| Dashboard.Handler | client/src/pages/StudentDashboard.jsx:128-132 | A handler run of instance `i` stores the activity time and re-arms `i`'s warning 25 minutes ahead; it hides the banner only when `i` is on screen, and leaves the other instances, the logout timers and the countdowns alone. |
| Dashboard.HandlerRuns | client/src/pages/StudentDashboard.jsx:134-137 | Handlers run in sequence keep the page, the screen, the listeners and the countdowns, and store the activity time once any has run. |
| Dashboard.Activity | client/src/pages/StudentDashboard.jsx:127-142 | An input event runs the handlers of every instance ever mounted: each such instance then has exactly one warning, due 25 minutes ahead; instances without handlers are untouched; every logout timer and countdown stays; the banner is hidden when the instance on screen has handlers. |
| Dashboard.ActivityKeeps | client/src/pages/StudentDashboard.jsx:128-137 | After a run of handlers the banner is hidden when the instance on screen is among them, and unchanged otherwise. |
| Dashboard.ActivityWarns | client/src/pages/StudentDashboard.jsx:128-137 | Every instance whose handler ran has exactly one warning, due 25 minutes after the event. |
| Dashboard.ActivityLeaves | client/src/pages/StudentDashboard.jsx:134-137 | An instance with no handler in the run keeps its refs and its warning timer. |
| Dashboard.StayActive | client/src/pages/StudentDashboard.jsx:269-273 | "Stay Active" hides the banner and re-arms the warning of the instance on screen, keeping the countdowns and every logout timer. |
| Dashboard.ClearAll | client/src/pages/StudentDashboard.jsx:232-239 | Exactly the four session keys are removed; the calling instance's warning is cancelled and its interval stopped; logout timers, countdowns and other instances are untouched. |
| Dashboard.AutoLogout | client/src/pages/StudentDashboard.jsx:185-204 | The request is sent exactly when a token is stored; either way the session keys are removed, the caller's and the on-screen instance's warnings are cleared and the login page shown, while logout timers and countdowns stay. |
| Dashboard.ConfirmLogout | client/src/pages/StudentDashboard.jsx:210-230 | As the automatic logout of the instance on screen, ending on the home page. |
| Dashboard.LogoutIgnoresServerFailure | client/src/pages/StudentDashboard.jsx:185-230 | Both logouts end in the same state whether or not the server call fails, with the session keys removed. |
| Dashboard.FireTimer | client/src/pages/StudentDashboard.jsx:157-183 | A warning timer starts a 300-second countdown in its instance and shows the banner only if that instance is on screen; a logout timer clears the session and shows the login page. |
| Dashboard.WithoutTracked | client/src/pages/StudentDashboard.jsx:178-180 | A countdown that stops itself leaves the tab's timer invariant intact. |
| Dashboard.CountdownTick | client/src/pages/StudentDashboard.jsx:172-182 | A tick shows one second less as `m:ss` when its instance is on screen and changes no label otherwise; with more than a second left only that countdown changes; otherwise it stops and the tab logs out. |
| Dashboard.Countdown | client/src/pages/StudentDashboard.jsx:170-182 | Any number of countdown ticks keeps the timer invariant of the tab. |
| Dashboard.CountdownLogsOutOnLastTick | client/src/pages/StudentDashboard.jsx:170-182 | A countdown started at `c` still runs after `c - 1` ticks, showing the seconds left while its instance is on screen, and logs out on tick `c`. |
| Dashboard.CountdownRuns | client/src/pages/StudentDashboard.jsx:172-176 | Before its last tick, `k` ticks lower the countdown by `k`, keep the page and show the seconds left when its instance is on screen. |
| Dashboard.CountdownStep | client/src/pages/StudentDashboard.jsx:173-176 | A tick with time left lowers that countdown by one, keeps page, screen, timers and instances, and labels only its own instance. |
| Dashboard.CountdownIsRun | client/src/pages/StudentDashboard.jsx:172-182 | Ticks that leave time on the countdown are the plain repeated step. |
| Dashboard.RunCounts | client/src/pages/StudentDashboard.jsx:173 | `k` steps lower the countdown by `k` and move no other countdown. |
| Dashboard.RunShowsOwn | client/src/pages/StudentDashboard.jsx:174-176 | While its instance is on screen, after `k` steps the label shows the count left. |
| Dashboard.CountdownEnds | client/src/pages/StudentDashboard.jsx:178-181 | On its last tick a countdown logs out. |
| Dashboard.StepIsTick | client/src/pages/StudentDashboard.jsx:172-182 | The step is what the interval does while more than a second is left. |
| Dashboard.ActivityKeepsCountdown | client/src/pages/StudentDashboard.jsx:128-132 | Neither activity nor "Stay Active" stops a running countdown. |
| Dashboard.ElapsedTick | client/src/pages/StudentDashboard.jsx:113-124 | While the instance on screen runs its interval, the label is `Xm Ys` with X the elapsed minutes floored and Y in 0..59, together giving the whole seconds elapsed; no other instance's interval changes anything. |
| Dashboard.LogoutDespiteActivity | client/src/pages/StudentDashboard.jsx:148-167 | Activity after mounting re-arms the warning, yet leaves the mount's logout timer pending at mount + 30 minutes, earlier than the inactivity window that the activity opened. |
| Dashboard.StaleLogoutEndsNextSession | client/src/pages/StudentDashboard.jsx:163-167 | A logout leaves earlier logout timers pending; after a new login one firing clears the new session's token and shows the login page. |
| Dashboard.RemountStacksWarnings | client/src/pages/StudentDashboard.jsx:127-144 | After a logout and a second login in the same tab, one input event leaves two warnings pending 25 minutes ahead: the new instance's and the unmounted first instance's, whose listeners were never removed. |
| Dashboard.SecondMount | client/src/pages/StudentDashboard.jsx:86-144 | Logging out and in again mounts instance 1 on screen with the listeners of instances 0 and 1 both attached. |
| Dashboard.WarnedPair | client/src/pages/StudentDashboard.jsx:157-160 | Two instances warned at the same moment have two distinct warning timers, one each. |
| Dashboard.ResetBoth | client/src/pages/StudentDashboard.jsx:151-168 | The corrected reset of an instance leaves it exactly one warning (25 minutes ahead) and one logout (30 minutes ahead) and touches no other instance. |
| Dashboard.ResetBothLogouts | client/src/pages/StudentDashboard.jsx:162-167 | After the corrected reset every instance's logout ref is armed and the reset instance's names its only logout timer. |
| Dashboard.CancelBoth | client/src/pages/StudentDashboard.jsx:106-109 | Cancelling both refs of an instance removes exactly its timers and keeps every other instance's. |
| Dashboard.DropOwned | client/src/pages/StudentDashboard.jsx:170-182 | Stopping an instance's countdowns keeps exactly the countdowns of the other instances. |
| Dashboard.ActivityBoth | client/src/pages/StudentDashboard.jsx:128-132 | The corrected handler stores the time, hides its banner, stops its own countdowns and leaves its instance exactly one logout timer, 30 minutes ahead. |
| Dashboard.ClearAllBoth | client/src/pages/StudentDashboard.jsx:232-239 | The corrected clear leaves the instance no warning, logout timer or countdown, removes exactly the four session keys and stops its interval. |
| AdminAuth.FindActive | backend/routes/admin.js:36 | The lookup returns the first active row with that email, and none exactly when there is none. |
| AdminAuth.LoginFields | backend/routes/admin.js:17-33 | The missing-fields 400 is given exactly when either field is falsy; passing fields are strings; every failure here is a 400 or (a non-string to `trim`) a 500. |
| AdminAuth.LoginFieldsPass | backend/routes/admin.js:17-33 | The fields pass exactly when both are non-empty strings, the trimmed lower-cased email is well formed and the trimmed password is not empty. |
| AdminAuth.Login | backend/routes/admin.js:13-82 | Field failures come first and change nothing; a 401 is given exactly when no active admin has the email or the password does not match, and changes nothing; when the lookup and password succeed the admin's last activity is stamped, and the reply is that admin without the hash with an 8-hour token when the secret is set, otherwise the 500 "Login failed"; any success is for an active admin whose email and password match. |
| AdminAuth.LoginSucceedsIff | backend/routes/admin.js:13-82 | A login succeeds exactly when the fields pass, an active admin has the normalised email, the trimmed password matches its hash and the token secret is set; the admin in the reply is the one the lookup found. |
| AdminAuth.MissingFieldsSkipLookup | backend/routes/admin.js:17-19 | A missing field gets the same 400 whatever the table holds. |
| AdminAuth.BlankPasswordRefused | backend/routes/admin.js:23-33 | A whitespace-only password is refused with 400 and the table is untouched. |
| AdminAuth.EmailNormalised | backend/routes/admin.js:22 | An email with surrounding blanks or capitals logs in exactly as its trimmed lower-case form. |
| AdminAuth.NormalEmailIdempotent | backend/routes/admin.js:22 | Normalising an email twice is normalising it once, and keeps the trimmed length. |
| AdminAuth.UnknownAndWrongPasswordAlike | backend/routes/admin.js:36-47 | An unknown email and a wrong password both get the 401 "Invalid credentials". |
| AdminAuth.CheckNew | backend/routes/admin.js:124-137 | The new admin's fields pass exactly when the email is well formed, the trimmed password has at least 8 UTF-16 code units and the name is letters and spaces; passing fields come back normalised. |
| AdminAuth.CreateFields | backend/routes/admin.js:113-137 | Both fields must be non-empty strings and the name a string or falsy (defaulting to "Admin"); then the checks of `CheckNew`; failures are 400, or 500 for a value `trim` cannot take. |
| AdminAuth.CreateAdmin | backend/routes/admin.js:111-158 | An admin is created exactly when the fields pass and the table is empty; passing fields against a non-empty table get 403; nothing else changes the table; the reply carries the id, email and name only (no password and no role). |
| AdminAuth.AtMostOneAdmin | backend/routes/admin.js:139-149 | Over sequential requests, any run of bootstrap requests leaves at most one admin, and never touches a non-empty table. |
| AdminAuth.CreateAll | backend/routes/admin.js:139-149 | A run of bootstrap requests never removes or alters an admin already stored: the table before is a prefix of the table after. |
| AdminStudents.Optional | backend/controllers/adminStudentController.js:29-32 | An optional field is trimmed when it is a string, becomes "" when falsy, and fails (the 500 path) for a truthy value that is not a string. |
| AdminStudents.JsLength | backend/controllers/adminStudentController.js:39-42 | A string's `length` is its number of UTF-16 code units and an array's its number of items; undefined, null, booleans and numbers have none, so the length comparison is false. |
| AdminStudents.Sanitize | backend/controllers/adminStudentController.js:21-32 | The 400 for a missing field happens exactly when one of the five required fields is falsy; otherwise the trimmed fields (the email also lower-cased) come back, unless `trim` meets a non-string. |
| AdminStudents.CheckFormat | backend/controllers/adminStudentController.js:34-58 | The format checks pass exactly when the email is valid, the password is not shorter than 6 UTF-16 code units, the names have 2 to 50 and the id 3 to 20 characters as `validator.isLength` counts them, and the phone is empty or at least 10 code units; the failures are reported in the code's order: email, then password, then names, then id, then phone, each with its own message. |
| AdminStudents.Insert | backend/controllers/adminStudentController.js:60-98 | A taken student id is reported before a taken email; the row is inserted (and its public fields returned with 201) exactly when neither is taken and the password can be hashed; a failure leaves the table alone. |
| AdminStudents.CreateStudent | backend/controllers/adminStudentController.js:6-103 | A student is created exactly when the required-field, trimming, format and uniqueness checks all pass, and no failure changes the table. |
| AdminStudents.CreateKeepsUnique | backend/controllers/adminStudentController.js:60-85 | Over sequential requests, creation keeps student ids, emails and primary keys unique, every key below the next one issued. |
| AdminStudents.ApplyPatch | backend/controllers/adminStudentController.js:126-130 | Every column the body names takes the body's value, the key and `isActive` included; every other column is kept; a truthy password is stored hashed, a falsy one as sent, and no password keeps the hash. |
| AdminStudents.PatchIdempotent | backend/controllers/adminStudentController.js:126-130 | An empty body changes nothing, and a body without a truthy password applied twice is applied once. |
| AdminStudents.FindByPk | backend/controllers/adminStudentController.js:132-134 | The lookup finds a row whose key prints as the route parameter, or reports that none does. |
| AdminStudents.UpdateStudent | backend/controllers/adminStudentController.js:121-144 | The update succeeds exactly when the password can be hashed and the patched table keeps its keys distinct; a failure is the 500 "Failed to update student" with the table unchanged; a success patches exactly the rows whose key prints as the parameter and replies with the profile (no password) of the row now holding that key, or null when none does. |
| AdminStudents.Patched | backend/controllers/adminStudentController.js:130 | Exactly the rows whose key prints as the parameter are patched; the rest are kept, in place. |
| AdminStudents.FindByPkUnique | backend/controllers/adminStudentController.js:132-134 | With distinct keys, the lookup finds the row of that key wherever it is. |
| AdminStudents.UpdateUnknownKey | backend/controllers/adminStudentController.js:121-139 | Updating a key no row has changes nothing and replies 200 with a null student. |
| AdminStudents.UpdateShowsPatch | backend/controllers/adminStudentController.js:121-139 | Updating an existing row without moving its key replaces that row by its patched form and replies with the patched profile. |
| AdminStudents.UpdateOfKeyRepliesNull | backend/controllers/adminStudentController.js:126-139 | A body that moves the row to an unused key is saved, but the reply looks the old key up and carries a null student. |
| AdminStudents.UpdateKeepsUnique | backend/controllers/adminStudentController.js:121-139 | A body naming neither key, student id nor email succeeds exactly when its password can be hashed, and keeps ids, emails and keys unique. |
| AdminStudents.UpdateAdmitsDuplicateId | backend/controllers/adminStudentController.js:126-130 | A body copying another student's id is saved, leaving two students with one id. |
| AdminStudents.FindAttendance | backend/controllers/adminStudentController.js:152-154 | The lookup finds a record for that student and date, or reports that none exists. |
| AdminStudents.MarkAttendance | backend/controllers/adminStudentController.js:147-178 | A body without `studentId` or `date` makes the lookup throw: 500 and nothing written. Otherwise an existing record for the student and date is replaced in place with 200, and a new record is appended with 201 if there is none. |
| AdminStudents.MarkKeepsOnePerDay | backend/controllers/adminStudentController.js:152-172 | Marking keeps at most one record per student and date; when both keys are given, the record for that pair afterwards carries the new status. |
| AdminStudents.FindAttendanceUnique | backend/controllers/adminStudentController.js:152-154 | With one record per student and date, the lookup returns that record wherever it is. |
| AdminStudents.Percentage | backend/controllers/adminStudentController.js:195 | The percentage is obtained over maximum times 100; a zero maximum gives NaN exactly when nothing was obtained (otherwise an infinity). |
| AdminStudents.Grade | backend/controllers/adminStudentController.js:197-204 | The grade is A+ exactly at 90% or above and F exactly below 40% (NaN included). |
| AdminStudents.GradeBands | backend/controllers/adminStudentController.js:197-204 | A finite percentage earns a grade exactly when it reaches that band's floor (40, 50, 60, 70, 80, 90) and not the next one's. |
| AdminStudents.GradeMonotone | backend/controllers/adminStudentController.js:197-204 | A higher percentage never earns a lower grade. |
| AdminStudents.AddTestResult | backend/controllers/adminStudentController.js:181-228 | The new row is appended under the next key with the grade of its percentage; marks of at least 90% of a positive maximum earn A+. |
| AdminStudents.UpdateTestResult | backend/controllers/adminStudentController.js:231-268 | Exactly the rows with that key get the new marks, remarks and the percentage and grade derived from them; the reply is null, with nothing changed, exactly when no row has the key, and otherwise the row the lookup finds after the update, carrying the new grade; the update does not move any key. |
| AdminStudents.FindResultSameKeys | backend/controllers/adminStudentController.js:255-258 | Two tables with the same keys in the same places give the same lookup. |
| AdminStudents.FindResult | backend/controllers/adminStudentController.js:258-260 | The lookup finds a result whose key prints as the route parameter. |
| AdminStudents.AddAndUpdateAgree | backend/controllers/adminStudentController.js:195-245 | Adding and updating grade the same marks alike. |
| AdminStudents.FindResultFinds | backend/controllers/adminStudentController.js:258-260 | When some row has the key, the lookup finds one. |
| AdminStudents.Without | backend/controllers/adminStudentController.js:281-286 | A `destroy` with a condition keeps exactly the rows the condition does not select. |
| AdminStudents.DeleteStudent | backend/controllers/adminStudentController.js:271-293 | 404 and no change exactly when no student has the key; otherwise the student goes, and the attendance and results whose student id equals the route's key string go with it. |
| AdminStudents.DeleteLeavesOrphans | backend/controllers/adminStudentController.js:281-283 | Attendance of the deleted student survives whenever the student's own code differs from the printed key. |
| AdminStudents.DeleteStudentFixed | backend/controllers/adminStudentController.js:271-293 | The corrected delete removes the student and exactly the attendance and results carrying that student's own code. |
| AdminStudents.FixedDeleteLeavesNoOrphans | backend/controllers/adminStudentController.js:281-286 | After the corrected delete, an attendance record survives exactly when it belongs to another student. |
| Leads.CheckBody | backend/controllers/leadController.js:15-35 | The body passes exactly when both fields are non-empty strings whose trimmed forms are a name of 2 to 50 characters as `validator.isLength` counts them, made of letters and spaces, and a phone of exactly ten digits; a missing field is the 400 "Name and phone are required.". |
| Leads.CreateLead | backend/controllers/leadController.js:7-43 | A popup switched off refuses with 403 before the body is read; a lead (trimmed fields, next id, creation time) is appended exactly when the switch is not off and the body passes; otherwise the table is unchanged. |
| Leads.CreateKeepsValid | backend/models/Lead.js:14-20 | The controller's checks imply the column's ten-digit rule, so the table only ever holds valid leads. |
| Leads.GetPopupConfig | backend/controllers/leadController.js:57-68 | Reading reports the stored flag; a missing row is created switched on and reported as on. |
| Leads.GetIdempotent | backend/controllers/leadController.js:59-63 | Reading twice reads the same and changes nothing more. |
| Leads.SetPopupConfig | backend/controllers/leadController.js:71-92 | A value that is not a boolean is refused with 400 and the row left alone; a boolean is stored (creating the row if needed) and echoed. |
| Leads.SetThenGet | backend/controllers/leadController.js:9-87 | What was set is what is read back, and the lead endpoint refuses exactly when the switch was set off. |
| Analytics.ReadIps | backend/controllers/analyticsController.js:32-34 | A missing or unparsable list reads as empty; only a value that cannot be searched makes the tracker throw. |
| Analytics.Track | backend/controllers/analyticsController.js:18-47 | Only today's row changes; a new day starts at one hit, one visitor and the one address; otherwise hits go up by one and visitors go up exactly when the address is new, which is then appended; a row whose list cannot be searched keeps its old counts. |
| Analytics.TrackKeepsCounted | backend/controllers/analyticsController.js:23-38 | Every row with distinct addresses, one visitor per address and at least one hit per visitor stays so after a request. |
| Analytics.TrackKeepsCountedAt | backend/controllers/analyticsController.js:23-38 | Today's row is in that intact shape after a request whenever it was before or did not exist. |
| Analytics.TrackAllCounts | backend/controllers/analyticsController.js:23-38 | Over sequential requests, a run of requests on one day adds one hit per request and leaves the addresses seen so far plus the new ones, each once, with as many visitors as addresses. |
| Analytics.Change | backend/controllers/analyticsController.js:63-66 | With a non-zero yesterday the increase is today minus yesterday and the percentage that increase over yesterday; with zero yesterday the increase is today and the percentage 100. |
| Analytics.GetSummary | backend/controllers/analyticsController.js:50-80 | Today's hits and visitors are those of today's row (zero when missing), and each increase is the change against yesterday's row, a missing row counting as zero. |
| Analytics.TrackRaisesSummary | backend/controllers/analyticsController.js:18-80 | A tracked request raises today's hits and hits increase by one, and today's visitors and visitors increase by one exactly when the address is new today. |
| Analytics.SummaryOfDay | backend/controllers/analyticsController.js:18-80 | After a day's requests on a fresh day, the summary shows one hit per request and one visitor per distinct address. |
| ImageGallery.DataUrl | backend/controllers/imageGalleryController.js:22-24 | The stored string is `data:`, the mime type, `;base64,` and the base64 text of the bytes. |
| ImageGallery.LastSplit | backend/controllers/imageGalleryController.js:58 | The greedy first group ends at the last place at or before the bound where `;base64,` starts with at least one character on each side, or there is no such place. |
| ImageGallery.Match | backend/controllers/imageGalleryController.js:57-61 | A match splits the string into `data:`, a non-empty one-line mime type, `;base64,` and a non-empty one-line payload, at the last possible marker; for a one-line string after the scheme there is no match exactly when no split exists. |
| ImageGallery.MatchParts | backend/controllers/imageGalleryController.js:24-61 | A one-line mime type and a non-empty one-line payload without `;` come back out of the regular expression unchanged. |
| ImageGallery.OnlySplit | backend/controllers/imageGalleryController.js:24-58 | The marker written after the mime type is the last split point of the built string. |
| ImageGallery.MatchDataUrl | backend/controllers/imageGalleryController.js:22-62 | For a non-empty upload with a one-line mime type, the built string parses back to the mime type and the base64 text, which decodes to the original bytes. |
| ImageGallery.EmptyUploadUnservable | backend/controllers/imageGalleryController.js:22-59 | An empty upload is stored, but its string never matches, so serving it gives 400. |
| ImageGallery.Upload | backend/controllers/imageGalleryController.js:16-36 | A falsy category is refused with 400 before the file is looked at, a missing file with 400; otherwise the data URL is stored under the next id and returned. |
| ImageGallery.Find | backend/controllers/imageGalleryController.js:41 | The lookup finds the first image whose id prints as the parameter, or reports that none does. |
| ImageGallery.GetImage | backend/controllers/imageGalleryController.js:52-69 | 404 for no such image, 400 when the stored string does not match, otherwise the decoded payload under the stored mime type. |
| ImageGallery.DeleteImage | backend/controllers/imageGalleryController.js:38-50 | 404 and no change for no such image; otherwise the first image whose id prints as the parameter is removed and the others keep their order. |
| ImageGallery.DeleteRemovesIt | backend/controllers/imageGalleryController.js:38-69 | With distinct ids, a deleted image is gone: the gallery has one image fewer and serving it gives 404. |
| ImageGallery.DeleteKeepsOthers | backend/controllers/imageGalleryController.js:38-69 | Deleting one id leaves what every other id serves unchanged. |
| ImageGallery.FindSkipping | backend/controllers/imageGalleryController.js:41-47 | Removing a row with another id moves the lookup of an id down by one when the removed row came before the row found, and otherwise leaves it, found or not, as it was. |
| ImageGallery.FindIsFirst | backend/controllers/imageGalleryController.js:41 | The lookup returns the first row whose id prints as the parameter. |
| ImageGallery.UploadThenServe | backend/controllers/imageGalleryController.js:16-64 | Serving a freshly uploaded non-empty image by its id returns its mime type and exactly its bytes. |
| Base64.CharOf | backend/controllers/imageGalleryController.js:22 | An encoded sextet is never `=`, `;`, `,` or a line break. |
| Base64.CharRoundTrip | backend/controllers/imageGalleryController.js:22-62 | The decoder reads every character of the encoding alphabet back as the sextet it encodes. |
| Base64.Sextets | backend/controllers/imageGalleryController.js:22 | Four sextets per three bytes, and two or three for a final group of one or two bytes. |
| Base64.BytesOfSextets | backend/controllers/imageGalleryController.js:22-62 | Reassembling the sextets of a byte string gives the bytes back. |
| Base64.Encode | backend/controllers/imageGalleryController.js:22 | The encoding has four characters per started group of three bytes, all from the alphabet or `=`, none of them `;`, `,` or a line break, and is empty exactly for no bytes. |
| Base64.ReadChars | backend/controllers/imageGalleryController.js:62 | The decoder reads the data characters of an encoding back as its sextets and stops at the padding. |
| Base64.DecodeEncode | backend/controllers/imageGalleryController.js:22-62 | Decoding undoes encoding. |
| UploadFilter.Extension | backend/middleware/upload.js:17-25 | The extension is the text after the last dot of the lower-cased name, holds no dot, ends the lower-cased name, and is the whole lower-cased name when there is no dot. |
| UploadFilter.Filter | backend/middleware/upload.js:8-32 | On a downloads or study-materials URL a file passes exactly when its extension contains one of the document names, elsewhere exactly when it contains one of the image names; a refusal carries that route's message. |
| UploadFilter.DownloadAcceptsIff | backend/middleware/upload.js:16-21 | Because the alternation is unanchored, a download passes exactly when its extension contains pdf, doc, ppt, xls or txt anywhere. |
| UploadFilter.GifMatchesNoImageType | backend/middleware/upload.js:24 | None of the image alternatives occurs in `gif`. |
| UploadFilter.GifRejected | backend/middleware/upload.js:24-28 | A `.gif` file is refused on the image routes with the image message. |
| UploadFilter.WholeNameWithoutDot | backend/middleware/upload.js:17-21 | A name without a dot is judged on the whole name, so a file called `pdf` passes as a document. |
| UploadFilter.MimetypeIgnored | backend/middleware/upload.js:8-32 | Two files with the same name get the same verdict whatever mime types they report. |
| UploadMiddleware.Filter | backend/middleware/uploadMiddleware.js:19-44 | A file passes exactly when its mime type is one of the five, its name ends (in any case) with a dot and one of the five extensions, and the name holds no `..`, `/` or `\`; a name failing the type check is reported as the wrong type, otherwise as an invalid name. |
| UploadMiddleware.AcceptedShape | backend/middleware/uploadMiddleware.js:30-41 | An accepted name has no directory part and lower-cases to a stem, a dot and one of the five extensions. |
| UploadMiddleware.DropTrailingSlashes | backend/middleware/uploadMiddleware.js:13 | The path loses exactly its trailing slashes. |
| UploadMiddleware.SegmentExt | backend/middleware/uploadMiddleware.js:13 | A segment's extension is empty or a dot and a dot-free ending of the segment; a segment without a dot has none. |
| UploadMiddleware.Extname | backend/middleware/uploadMiddleware.js:13 | `path.extname` gives an empty string or a dot followed by text holding no dot and no slash. |
| UploadMiddleware.ExtnameOfSegment | backend/middleware/uploadMiddleware.js:13 | A name without slashes is judged as one segment. |
| UploadMiddleware.SegmentExtOfStem | backend/middleware/uploadMiddleware.js:13 | A non-empty stem, a dot and a dot-free ending has that ending as its extension. |
| UploadMiddleware.ExtnameOfStem | backend/middleware/uploadMiddleware.js:13 | The same holds for `path.extname` of a slash-free name. |
| UploadMiddleware.ExtnameOfDotfile | backend/middleware/uploadMiddleware.js:13 | A name whose only dot opens it has no extension. |
| UploadMiddleware.StoredName | backend/middleware/uploadMiddleware.js:10-15 | The stored name is the random part followed by the lower-cased extension of the original name. |
| UploadMiddleware.ExtensionLetters | backend/middleware/uploadMiddleware.js:30 | The five extensions are lower-case letters. |
| UploadMiddleware.DotNameAccepted | backend/middleware/uploadMiddleware.js:30-41 | A name that is just a dot and one of the five extensions, with an allowed mime type, passes the filter. |
| UploadMiddleware.DotfileStoredBare | backend/middleware/uploadMiddleware.js:10-41 | Such a name passes the filter yet is stored under the random part alone, with no extension. |
| UploadMiddleware.FixedKeepsImageExtension | backend/middleware/uploadMiddleware.js:10-41 | With the corrected naming, every accepted file is stored under one of the five lower-case extensions. |
| UploadMiddleware.LowerStemExt | backend/middleware/uploadMiddleware.js:13 | Lower-casing a stem, a dot and a dot-free ending leaves the lower-cased ending after the last dot. |
| UploadMiddleware.StemNamesAgree | backend/middleware/uploadMiddleware.js:10-15 | Both namings agree on a slash-free name with a non-empty stem before its last dot. |
| UploadMiddleware.FixedAgreesWithStem | backend/middleware/uploadMiddleware.js:10-41 | The correction changes nothing for an accepted name with a stem before its last dot. |
| UploadMiddleware.HandleUploadError | backend/middleware/uploadMiddleware.js:58-74 | Every upload-library error is a 400 (file too large, too many files, or the generic message, by code); any other error with a truthy message is a 400 with that message; only an error without one is passed on. |
| UploadMiddleware.FilterRefusalReported | backend/middleware/uploadMiddleware.js:35-70 | Every refusal of the filter reaches the client as a 400 carrying the refusal's text. |
| Chatbot.FirstRule | backend/routes/chatbotRoutes.js:11-41 | The rule chosen is the first from the given one on that the text mentions, or the default when none does. |
| Chatbot.MentionsRule | backend/routes/chatbotRoutes.js:11-36 | Each rule is mentioned exactly when one of its literal keywords occurs in the text. |
| Chatbot.FallbackIsFirstMatch | backend/routes/chatbotRoutes.js:7-42 | The canned answer is that of the first rule the lower-cased question mentions, in the fixed order, with the default last; so it is always one of the seven. |
| Chatbot.SubjectsByPrefix | backend/routes/chatbotRoutes.js:21-26 | The biology rule fires exactly when `bio` occurs and the chemistry rule exactly when `chem` occurs. |
| Chatbot.Extract | backend/routes/chatbotRoutes.js:92-107 | Extracted text is always truthy, and the extraction throws exactly on a null or undefined body or first array element. |
| Chatbot.GeneratedTextFirst | backend/routes/chatbotRoutes.js:94-103 | A truthy `generated_text` wins over `text`, both on an object and on the first element of an array. |
| Chatbot.ArrayReadsFirst | backend/routes/chatbotRoutes.js:94-107 | A non-empty array is read as its first element would be, unless that element is itself a non-empty array. |
| Chatbot.TryModels | backend/routes/chatbotRoutes.js:61-128 | The answer is the text and name of the first model, from the given one on, whose reply is OK and yields text (every earlier model failed); there is none exactly when no model's reply does. |
| Chatbot.HuggingFace | backend/routes/chatbotRoutes.js:45-50 | Without a configured key no model is tried. |
| Chatbot.Ask | backend/routes/chatbotRoutes.js:222-273 | A missing, empty or non-string question is the 400; with a key the answer is the text and name of the first model in order whose reply yields text, from the hosted provider, or a 500; without one it is the canned answer with model and provider `fallback`. |
| Chatbot.ConfiguredNeverFallsBack | backend/routes/chatbotRoutes.js:241-255 | With a key configured the canned answers are never used: the reply is a 500 exactly when no model yields text. |
| Server.CacheHeaders | backend/server.js:178-188 | `Cache-Control: public, max-age=300` is set exactly on GET requests whose path starts with `/api/` and mentions neither `/admin` nor `/auth`; no other header is set. |
| Server.AdminNeverCached | backend/server.js:181-185 | Admin and auth paths are never cached, whatever follows the prefix. |
| Server.Origins | backend/server.js:191-204 | The allowlist is the seven fixed origins plus `FRONTEND_URL` when it is set and not empty. |
| Server.NotFound | backend/server.js:282-288 | An unmatched route gets 404 carrying the original URL and no stack. |
| Server.NotFoundDistinct | backend/server.js:282-329 | A 404 reply is never one the error handler gives, and two 404 replies are equal exactly when their URLs are. |
| Server.HandleError | backend/server.js:290-329 | 400 exactly for a validation or cast error, 401 exactly for a bad or expired token, 409 exactly for a duplicate-key code under any other name, otherwise 500; only a 500 outside production carries the message and stack, and a production 500 says only "Internal server error". |
| Server.CorsRefusalIs500 | backend/server.js:206-214 | A refused origin is answered by the global handler with 500, whose body names CORS only outside production. |
| Server.ProductionHidesDetails | backend/server.js:323-328 | Any two production 500 replies are identical, so they reveal nothing about the error. |
| ProductionValidation.Missing | backend/config/productionValidation.js:13 | The missing list holds exactly the required names that are unset or empty. |
| ProductionValidation.Validate | backend/config/productionValidation.js:2-35 | It fails for missing variables exactly when some required name is unset or empty, listing exactly those names; it fails for a weak secret exactly when all are set and `JWT_SECRET` is shorter than 32 UTF-16 code units; otherwise it passes. |
| ProductionValidation.PassesIff | backend/config/productionValidation.js:2-35 | The check passes exactly when all seven variables are set and the secret has at least 32 UTF-16 code units. |
| ProductionValidation.DatabaseCheckUnreachable | backend/config/productionValidation.js:13-31 | The database check never fires: the missing-variables check already covers both of its names. |
| AutoRefresh.Stop | client/src/utils/autoRefresh.js:28-36 | Stopping a component clears its interval and forgets it in both maps; an unknown id (or a falsy handle) changes nothing. |
| AutoRefresh.Start | client/src/utils/autoRefresh.js:8-26 | Starting first stops the component's interval, then registers the callback and a new live handle under it. |
| AutoRefresh.StopAll | client/src/utils/autoRefresh.js:38-43 | Stopping all clears every registered interval and empties both maps. |
| AutoRefresh.ActiveCount | client/src/utils/autoRefresh.js:45-48 | The count is zero exactly when no interval is registered. |
| AutoRefresh.EmptyValid | client/src/utils/autoRefresh.js:3-6 | A new manager is consistent and counts zero. |
| AutoRefresh.AddKeepsValid | client/src/utils/autoRefresh.js:14-22 | Registering a fresh handle under a component that has none keeps both maps on the same keys and the live intervals equal to the registered ones. |
| AutoRefresh.StartKeepsValid | client/src/utils/autoRefresh.js:9-22 | Starting keeps both maps on the same keys with one live interval per component, so no interval leaks and the live intervals number the active count. |
| AutoRefresh.ValuesOfInjective | client/src/utils/autoRefresh.js:46-48 | A registry with distinct handles has as many handles as components. |
| AutoRefresh.StopKeepsValid | client/src/utils/autoRefresh.js:29-35 | Stopping keeps the registry consistent. |
| AutoRefresh.StopAllClears | client/src/utils/autoRefresh.js:39-48 | After stopping all, nothing is live and the count is zero. |
| AutoRefresh.CleanupUndoesStart | client/src/utils/autoRefresh.js:25-35 | The returned cleanup undoes exactly its start: for a component that had no interval, everything but the handle counter is as before. |
| Dedupe.FirstOccurrences | client/src/components/Events.jsx:20-27 | The reference deduplication keeps, in order, only records of the input, and no more of them than the input has. |
| Dedupe.FirstOccurrencesIds | client/src/components/Events.jsx:20-27 | The kept records carry every id of the input and no other, each once. |
| Dedupe.KeptIsFirst | client/src/components/Events.jsx:20-27 | Each kept record is the first record of the input with its id. |
| Dedupe.KeptAreFirst | client/src/components/Events.jsx:20-27 | Every kept record is the first record of the input with its id. |
| Dedupe.ReduceKeepsFirst | client/src/components/Testimonials.jsx:58-65 | The `reduce` deduplication keeps exactly the first occurrences, in order. |
| Dedupe.ReduceFrom | client/src/components/Testimonials.jsx:58-65 | Continuing the `reduce` from the first occurrences of a prefix gives the first occurrences of the whole input. |
| Dedupe.FirstStep | client/src/components/Testimonials.jsx:58-65 | One more record adds itself to the first occurrences exactly when no kept record has its id. |
| Dedupe.FindIndex | client/src/components/HomeSlider.jsx:26 | `findIndex` gives the first index with the id, or -1 exactly when no record has it. |
| Dedupe.FilterKeepsFirst | client/src/components/HomeSlider.jsx:26 | The `findIndex` filter keeps exactly the first occurrences too, so it agrees with the `reduce` formulation on every input. |
| Dedupe.FilterPrefix | client/src/components/HomeSlider.jsx:26 | Filtering a prefix keeps the first occurrences of that prefix. |
| Dedupe.DistinctObjectIdsAllKept | client/src/components/Events.jsx:20-27 | Ids that are arrays or objects compare by identity, so records with distinct such ids are all kept, even when the ids look alike. |
| Events.WithImages | client/src/components/Events.jsx:30-32 | Exactly the events with a truthy `imageUrl` survive, and nothing else. |
| Events.ShownIff | client/src/components/Events.jsx:20-33 | The ids shown are distinct and are the ids whose first event has an image. |
| Events.ShownOnlyFirst | client/src/components/Events.jsx:20-33 | An id is shown only when its first event has an image; a later duplicate with one does not bring it back. |
| Events.FirstWithImageShown | client/src/components/Events.jsx:20-33 | An id whose first event has an image is shown. |
| Events.IndexOf | client/src/components/Events.jsx:20-27 | The position found holds the element sought. |
| Events.DistinctFilter | client/src/components/Events.jsx:30-32 | Filtering keeps distinct ids distinct. |
| Events.Next | client/src/components/Events.jsx:49-51 | The next slide is the following index, wrapping to 0 after the last; with no events the index becomes NaN. |
| Events.Prev | client/src/components/Events.jsx:53-55 | The previous slide is the preceding index, wrapping to the last from 0; with no events the index becomes NaN. |
| Events.PrevUndoesNext | client/src/components/Events.jsx:49-55 | Stepping forward then back, or back then forward, returns to the slide shown. |
| Testimonials.ConvertToEmbed | client/src/components/Testimonials.jsx:18-50 | A falsy or non-string link, or one the URL parser refuses, gives ""; any other link gives the trimmed link itself or an embed URL of the requested kind (`https://www.youtube.com/embed...`, or `https://www.instagram.com/p/.../embed/`). |
| Testimonials.YouTubeForms | client/src/components/Testimonials.jsx:40-45 | A `youtu.be/<id>` link, a `/shorts/<id>` link and a `?v=<id>` link all embed `https://www.youtube.com/embed/<id>`. |
| Testimonials.PostPaths | client/src/components/Testimonials.jsx:28 | `/p/<id>` splits into "", `p` and the id, and `/p/<id>/` into those and a final "". |
| Testimonials.PostIdNeedsTrailingSlash | client/src/components/Testimonials.jsx:28-30 | A post link with a trailing slash embeds its post, but the same link without one embeds the post called `p`. |
| Testimonials.PostIdFixedBothForms | client/src/components/Testimonials.jsx:28-30 | With the corrected id, both spellings of a post link embed that post, and every path ending in a slash is read as before. |
| Testimonials.Prepare | client/src/components/Testimonials.jsx:67-73 | Each testimonial keeps its id and gets `hasVideo` and `hasInstagram` equal to the truthiness of its raw links. |
| Testimonials.Load | client/src/components/Testimonials.jsx:52-80 | The loaded list is the `reduce`-deduplicated list with each record prepared. |
| Testimonials.LoadKeepsFirst | client/src/components/Testimonials.jsx:58-73 | One testimonial per id, as many as the distinct ids fetched, each flag raised exactly when the first record of that id has the link. |
| Testimonials.Infinite | client/src/components/Testimonials.jsx:88 | Looping is on exactly when there are three testimonials or more. |
| Testimonials.LoopsIffThreeIds | client/src/components/Testimonials.jsx:58-88 | The carousel loops exactly when the fetched testimonials carry more than two distinct ids. |
| Testimonials.CopiesDoNotLoop | client/src/components/Testimonials.jsx:58-88 | Three copies of one testimonial make one card, and the carousel does not loop. |
| HomeSlider.WithUrls | client/src/components/HomeSlider.jsx:27-30 | Each kept slide keeps its id and fields and gets the image URL of its own id. |
| HomeSlider.Fetch | client/src/components/HomeSlider.jsx:18-40 | A failed request or a body that is not an array leaves no slides; otherwise the slides have distinct ids, at most as many as were fetched, and carry exactly the fetched ids. |
| HomeSlider.SlidesAreFirstOccurrences | client/src/components/HomeSlider.jsx:25-30 | The slides are the first occurrences of the fetched records, in order, with distinct ids, every fetched id present, no more of them than were fetched, each carrying the image URL of its own id; the `findIndex` filter agrees with the `reduce` deduplication. |
| HomeSlider.SettingsFor | client/src/components/HomeSlider.jsx:45-56 | Dots, arrows, looping and autoplay are on together, exactly for two slides or more; the speeds are 800 and 3000 ms. |
| HomeSlider.SettingsForSlides | client/src/components/HomeSlider.jsx:25-56 | Autoplay is on exactly when the fetched slides carry more than one distinct id. |
| HomeSlider.CopiesMakeOneSlide | client/src/components/HomeSlider.jsx:25-56 | Two copies of one slide make one slide, with autoplay off. |
| ResultsPage.YearsOf | client/src/pages/ResultsPage.jsx:23 | The year list has one entry per result, its year. |
| ResultsPage.Unique | client/src/pages/ResultsPage.jsx:23 | The `Set` keeps every year present once, and no other. |
| ResultsPage.Insert | client/src/pages/ResultsPage.jsx:23 | Placing a new year into a descending list keeps it descending and adds exactly that year. |
| ResultsPage.SortDescending | client/src/pages/ResultsPage.jsx:23 | Sorting distinct years with `b - a` gives a descending list of the same years. |
| ResultsPage.Years | client/src/pages/ResultsPage.jsx:23 | The year buttons list exactly the years present, from the latest down, no more of them than there are results. |
| ResultsPage.DistinctNoLonger | client/src/pages/ResultsPage.jsx:23 | Distinct values drawn from a list are no more than the list holds. |
| ResultsPage.DescendingUnique | client/src/pages/ResultsPage.jsx:23 | Two descending lists of the same values are the same list. |
| ResultsPage.YearsCanonical | client/src/pages/ResultsPage.jsx:23 | Whatever order the `Set` and the sort visit the years in, the result is the one descending list of the years present. |
| ResultsPage.Selected | client/src/pages/ResultsPage.jsx:25 | The default selection is one of the years, and there is none exactly when there are no years. |
| ResultsPage.SelectedIsLatest | client/src/pages/ResultsPage.jsx:23-25 | The default selection is the latest year among the results, and exists exactly when there are results. |
| ResultsPage.ByYear | client/src/pages/ResultsPage.jsx:37 | The results of a year are exactly those whose year it is. |
| ResultsPage.TextFilterIsYearFilter | client/src/pages/ResultsPage.jsx:37 | Comparing the years as text is comparing them as numbers. |
| ResultsPage.Filtered | client/src/pages/ResultsPage.jsx:36-38 | No selection, or the falsy year 0, shows nothing; otherwise exactly the results of the selected year are shown. |
| ResultsPage.FilteredKeepsOrder | client/src/pages/ResultsPage.jsx:36-38 | The filter shows the selected year's results in fetch order. |
| ResultsPage.EachInOneYear | client/src/pages/ResultsPage.jsx:23-38 | Every result's year has a button, and a result with a non-zero year is shown under exactly that one button; a result of year 0 under none. |
| ResultsPage.WithPhotos | client/src/pages/ResultsPage.jsx:17-20 | Each result gets the photo URL of its own id and fetch time, and nothing else changes. |
| ResultsPage.Fetch | client/src/pages/ResultsPage.jsx:13-31 | A failed fetch only ends loading; a successful one stores the results with their photo URLs, the year buttons and the default selection. |
| ResultsPage.Select | client/src/pages/ResultsPage.jsx:64 | A button press selects its year and changes nothing else. |
| ResultsPage.FetchSelectsLatest | client/src/pages/ResultsPage.jsx:13-25 | After a successful fetch the latest year is selected, and nothing is selected exactly when there are no results. |
| ResultsPage.SelectShowsYear | client/src/pages/ResultsPage.jsx:36-64 | Pressing the button of a non-zero year shows exactly that year's results. |
| ResultAdmin.OptionNotAll | client/src/pages/admin/ResultAdmin.jsx:160-163 | No year's option reads as the `all` option. |
| ResultAdmin.Shown | client/src/pages/admin/ResultAdmin.jsx:26-32 | `all` shows every result; anything else shows only results whose numeric year is strictly equal to the selection. |
| ResultAdmin.StrictlyEqual | client/src/pages/admin/ResultAdmin.jsx:30 | The strict filter keeps only results whose year is strictly equal to the value. |
| ResultAdmin.NoNumberIsText | client/src/pages/admin/ResultAdmin.jsx:30 | No numeric year is strictly equal to a text, so the strict filter on a text keeps nothing. |
| ResultAdmin.OptionShowsNothing | client/src/pages/admin/ResultAdmin.jsx:26-32 | Choosing the option of a year that some result has shows no result at all, while the text comparison shows that result. |
| ResultAdmin.ShownFixed | client/src/pages/admin/ResultAdmin.jsx:26-32 | The corrected filter still shows every result for `all` and never more results than there are. |
| ResultAdmin.ShownFixedIsYear | client/src/pages/admin/ResultAdmin.jsx:26-32 | With the comparison as text, a year's option (or the year as a number) shows exactly that year's results, in order. |
| ResultAdmin.FixedEachInOneOption | client/src/pages/admin/ResultAdmin.jsx:26-42 | With the corrected filter every result is shown under exactly one year option, its own year's. |
| ResultAdmin.SelectYear | client/src/pages/admin/ResultAdmin.jsx:157 | Choosing an option stores its text as the selection, keeping the results and year list. |
| ResultAdmin.SelectThenShown | client/src/pages/admin/ResultAdmin.jsx:26-157 | After choosing an option the table shows every result for `all` and no result for any other option. |
| ResultAdmin.Fetch | client/src/pages/admin/ResultAdmin.jsx:35-48 | A failed fetch changes nothing; otherwise the list is the rows (none for a falsy body) and the year list their distinct years, latest first; the form and selection are untouched. |
| ResultAdmin.FetchedYearsDescending | client/src/pages/admin/ResultAdmin.jsx:42 | After a fetch the year list is descending and holds exactly the years of the results. |
| ResultAdmin.Without | client/src/pages/admin/ResultAdmin.jsx:128 | Removal keeps exactly the results with another id, one fewer per result carrying the id. |
| ResultAdmin.WithoutAbsent | client/src/pages/admin/ResultAdmin.jsx:128 | Removing an id no result has changes nothing. |
| ResultAdmin.WithoutIdempotent | client/src/pages/admin/ResultAdmin.jsx:128 | Removing an id twice is removing it once. |
| ResultAdmin.BeginDelete | client/src/pages/admin/ResultAdmin.jsx:120-129 | A declined confirmation changes nothing; a confirmed one snapshots the list and removes the rows with that id at once, leaving the year list, form and selection alone. |
| ResultAdmin.FinishDelete | client/src/pages/admin/ResultAdmin.jsx:131-142 | A refused delete restores the snapshot; an accepted or declined one leaves the state as it is. |
| ResultAdmin.DeleteOutcome | client/src/pages/admin/ResultAdmin.jsx:120-142 | Over both halves, a refused or declined delete leaves the list as it was; an accepted one removes exactly the rows with that id and leaves the year list alone. |
| ResultAdmin.ResetForm | client/src/pages/admin/ResultAdmin.jsx:90-104 | Resetting empties the form and the preview and changes nothing else. |
| ResultAdmin.HandleEdit | client/src/pages/admin/ResultAdmin.jsx:107-117 | Editing loads the item's id and fields into the form with no image, and previews the stored image. |
| ResultAdmin.HandleChange | client/src/pages/admin/ResultAdmin.jsx:51-59 | A change sets only the named field; only a picked image file changes the preview. |
| ResultAdmin.Submit | client/src/pages/admin/ResultAdmin.jsx:62-77 | The request carries the four fields in order and the image only when one is set, and is a PUT of the form's id when that id is truthy, otherwise a POST. |
| ResultAdmin.AfterSubmit | client/src/pages/admin/ResultAdmin.jsx:72-86 | A saved form is reset; a failed save keeps the state. |
| ResultAdmin.AfterSubmitNext | client/src/pages/admin/ResultAdmin.jsx:62-104 | After a save the next submit creates a new result by POST; after a failure it repeats the request that failed. |
| ResultAdmin.ResetThenSubmitCreates | client/src/pages/admin/ResultAdmin.jsx:62-104 | A reset form submits a creation with four empty fields and no image. |
| ResultAdmin.EditThenSubmitUpdates | client/src/pages/admin/ResultAdmin.jsx:62-117 | An edited result is submitted as an update of its own id with its own fields and no image, and typing into a field keeps it an update; only id 0, being falsy, would be created anew. |
| ResultAdmin.ResetUndoesEdit | client/src/pages/admin/ResultAdmin.jsx:90-117 | Resetting after an edit gives back the initial form and no preview. |
| LoginGuard.LoginRecordsInput | backend/controllers/studentController.js:51-74 | Every 400 records exactly one attempt, under the key its failed check had in hand. |
| LoginGuard.LoginRecordsCredentials | backend/controllers/studentController.js:76-92 | Every 401 records exactly one attempt, under the trimmed and escaped id. |
| SessionManager.RearmFacts | client/src/utils/sessionManager.js:95-111 | After a re-arm the entry's only warning and logout timers are its new handles, due 25 and 30 minutes ahead, and every timer of other entries is kept. |
| SessionManager.PaddedSeconds | client/src/utils/sessionManager.js:133 | Seconds below 60, padded to two places, are two digits that read back as themselves. |
| Browser.ReadTime | client/src/pages/StudentDashboard.jsx:114 | A missing or empty stored time reads as the current time; a stored number reads as itself; text reads as `parseInt` reads it; other JSON documents read as NaN. |
| Browser.ReadTimeOfText | client/src/pages/StudentDashboard.jsx:114 | A stored "12abc" reads as 12 and "abc" as NaN. |
| Browser.ParseJson | client/src/pages/StudentDashboard.jsx:97 | `JSON.parse` throws on text that is not JSON and never yields `undefined`; stored credentials parse to an object holding the id as a string. |
| Browser.ParseNumber | client/src/pages/StudentLogin.jsx:174 | `parseInt` of a stored number's text is the number, of text is `parseInt` of it, and of stored credentials is NaN. |
| Js.ParseInt | client/src/pages/StudentLogin.jsx:174 | `parseInt` of empty text, or of text starting with a letter, is NaN. |
| Js.DigitRun | client/src/pages/StudentLogin.jsx:174 | The digit run read is the longest prefix of digits: every character in it is a digit and the next is not. |
| Js.ParseMagnitude | client/src/pages/StudentLogin.jsx:174 | After the sign, text not starting with a digit reads as NaN. |
| Js.ParseIntReadsPrefix | client/src/pages/StudentDashboard.jsx:114 | A number's decimal text followed by anything that cannot continue it reads back as the number. |
| Js.ParseIntNegative | client/src/pages/StudentLogin.jsx:174 | A leading minus negates the magnitude read after it. |
| Js.ParseIntOfIntString | client/src/pages/StudentLogin.jsx:174 | `parseInt(String(n))` is `n` for every integer, so a stored expiry or login time reads back as written. |
| Js.ParseIntExamples | client/src/pages/StudentDashboard.jsx:114 | "12abc" reads as 12, "abc" as NaN and "0x1A" as 26. |
| Js.ParseIntHex | client/src/pages/StudentLogin.jsx:174 | A `0x` prefix selects base 16: "0x1A" reads as 26. |
| Js.RadixValueDecimal | client/src/pages/StudentLogin.jsx:174 | In base 10 a run of digits has its decimal value. |
| Js.MagnitudeOfDecimal | client/src/pages/StudentLogin.jsx:174 | Decimal digits followed by a character that cannot continue them read as their value. |
| Browser.ClearSession | client/src/pages/StudentDashboard.jsx:232-238 | Clearing removes exactly the four session keys and keeps every other key with its value. |
| Js.CeilDiv | backend/controllers/studentController.js:20 | `Math.ceil(a / b)` is the least whole number of divisors covering the dividend. |
| Js.FloorDiv | client/src/utils/sessionManager.js:129-134 | `Math.floor(a / b)` is the greatest whole number of divisors not exceeding the dividend. |
| Js.TruncRem | client/src/utils/sessionManager.js:129-134 | JavaScript's `%` leaves a remainder whose sign follows the dividend. |
| Js.StrictEquals | client/src/pages/admin/ResultAdmin.jsx:30 | `===` holds only between equal values, and always between equal primitives. |
| Js.ToText | client/src/pages/ResultsPage.jsx:37 | `String` of a string is itself and of a number its decimal form. |
| Text.Trim | backend/controllers/studentController.js:62-63 | Trimming never lengthens a string and leaves neither end on white space. |
| Text.TrimShape | backend/controllers/studentController.js:62-63 | The trimmed string is a slice of the original with only white space cut off either end. |
| Text.TrimIdempotent | backend/controllers/studentController.js:62-63 | Trimming twice is trimming once. |
| Text.TrimEmptyIffAllSpace | client/src/pages/StudentLogin.jsx:209 | A string trims to nothing exactly when it is all white space. |
| Text.Lower | backend/routes/chatbotRoutes.js:8 | Lower-casing keeps the length and maps each character on its own. |
| Text.LowerIdempotent | backend/routes/chatbotRoutes.js:8 | Lower-casing twice is lower-casing once, and leaves no upper-case letter. |
| Text.Split | client/src/components/Testimonials.jsx:28 | Splitting gives at least one piece, none containing the separator. |
| Text.SplitJoin | client/src/components/Testimonials.jsx:28 | Joining the pieces with the separator gives the string back. |
| Text.Decimal | client/src/pages/ResultsPage.jsx:19 | The decimal form of a number is a non-empty run of digits, one digit exactly below 10. |
| Text.DecimalRoundTrip | client/src/pages/ResultsPage.jsx:19 | Reading the decimal form back gives the number. |
| Text.DecimalInjective | backend/controllers/imageGalleryController.js:41 | Two numbers print alike exactly when they are equal. |
| Text.IntStringInjective | client/src/pages/ResultsPage.jsx:37 | Two integers print alike exactly when they are equal. |
| Text.Pad2 | client/src/utils/sessionManager.js:133 | `padStart(2, "0")` leaves a string of two or more as it is and left-fills a shorter one with zeros to two characters. |
| Text.Utf16Length | backend/controllers/adminStudentController.js:40 | `length` counts each character once, or twice when it lies beyond the Basic Multilingual Plane: between the number of characters and twice that. |
| Text.Utf16LengthOfBmp | client/src/pages/StudentLogin.jsx:15-16 | `length` equals the number of characters exactly when no character is astral. |
| Text.Utf16LengthAppend | client/src/pages/StudentLogin.jsx:15-16 | The `length` of a concatenation is the sum of the lengths. |
| Text.IsLengthCount | backend/controllers/studentController.js:66-71 | `validator.isLength` counts no more than the characters. |
| Text.IsLengthCountPlain | backend/controllers/studentController.js:66-71 | `validator.isLength` counts every character exactly when no variation selector occurs. |
| Text.LengthsDiffer | backend/controllers/studentController.js:66-71 | Three emoji are six code units, and a letter with U+FE0F after it is one character to `isLength` but two code units. |

Two behaviours of the code are worth stating plainly:

- The login guard filters expired attempts only for counting
  (backend/controllers/studentController.js:14-17) and never writes the
  filtered list back (lines 27-29), so the stored list only grows until a
  success or a logout clears it (line 33). `LoginGuard.RecentShrinks` and
  `LoginGuard.RecordAllowedKeepsWithin` are stated over this growing list.
- The walkthrough in FEATURE_SHOWCASE.js:403 labels `abc123` "Fair". The
  strength meter scores it 2 (length and digit), which is "Good";
  `LoginForm.StrengthExamples` states the meter's answer.

## Left out

- ResultAdmin.Fetch: a truthy body that is not an array is not modelled: the code stores it as the list, then `.map` throws, the alert is shown and the year list keeps its old value.
- Network, database and crypto calls are parameters: rows are sequences, bcrypt's compare, JWT signing, `validator.escape` and `validator.isEmail` are oracles, and the database models are not part of this model beyond the columns the handlers read.
- Timestamps in replies (`new Date().toISOString()`), log lines and `console` output are not modelled.
- React rendering, loading flags, toasts, alerts and `window.confirm` (a parameter) are not modelled; only the state the handlers compute is.
- Floating point is not modelled: JavaScript numbers are integers in `Js.Value`, and percentages are exact reals.
- AdminStudents.Percentage: the `toFixed(2)` rounding before the grade comparison is not modelled, because the percentage is an exact real; a percentage such as 89.996 that rounds up to "90.00" gets A in the model and A+ in the code.
- Analytics.GetSummary: the `Math.round` of the two percentages is not modelled; the percentages are exact.
- Analytics.Track: a stored address column whose JSON parses to something other than an array is treated as unsearchable (the code throws before saving); a JSON string, whose `includes` searches substrings, is not modelled separately.
- `getTrends`, `getLeads` and `getCategoriesWithImages` only read and reorder rows and are not modelled.
- `getAllStudents` (which omits the password) and the student-side handlers `getStudentAttendance`, `getStudentTestResults`, `getAvailableTests`, `getStudentInfo` and `isAuthenticated` are not modelled; the public-profile type shows which fields replies carry.
- The chatbot's `tryCohere` and `tryLocalOllama` are never called by `/ask` and are not modelled, nor are the `/health` and `/test-huggingface` routes.
- Chatbot.Fallback: carries no `ensures` of its own; its contract is `Chatbot.FallbackIsFirstMatch`.
- Chatbot.HuggingFace: states only the unconfigured case; the configured case is `Chatbot.TryModels`, whose result it returns.
- The URL parser (`new URL`) is a parameter of `Testimonials.ConvertToEmbed`; the model does not parse URLs.
- Upload size and count limits are constants only: enforcing them is the upload library's work, and its errors reach `UploadMiddleware.HandleUploadError` by code.
- `path.extname` is modelled for POSIX paths only; Windows separators are not.
- `toLowerCase` is modelled for ASCII letters only; other characters are left as they are.
- Interval callbacks firing every few minutes (`AutoRefresh`) and the carousels' autoplay are not modelled; only the registry of live intervals is.
- `goToSlide` in the events carousel is a plain setter and is not modelled.
- The Redis cache-aside layers of the gallery and popup controllers depend on cache availability and request ordering and are not modelled.
- `Gallery.jsx` and `DownloadSection.jsx` repeat the testimonials' dedupe, and the other admin list pages repeat the results page's optimistic delete; only the originals are modelled (`Dedupe`, `ResultAdmin`).
- The faculty and achievement controllers only copy fields into the database and are not modelled; nor are the route wiring files, whose file filters copy the shared upload filter.
- `express-rate-limit` and helmet settings in the server, the animated background and other rendering-only components are not modelled.
- ResultAdmin: after a delete the year list is not recomputed, as in the code (`ResultAdmin.BeginDelete` keeps it).
- A result year of 0 is falsy; the model keeps that behaviour rather than treating it as a year.
- Concurrency is not modelled: requests are handled one at a time, while the handlers yield at every `await` between a check and the write it guards (the attempt check at backend/controllers/studentController.js:42 and the record after the lookup at lines 79-90; the admin count and create at backend/routes/admin.js:140-149; the day's row read and saved at backend/controllers/analyticsController.js:21-37; the uniqueness checks and insert at backend/controllers/adminStudentController.js:60-85). `LoginGuard.CanonicalKeepsWithin`, `LoginGuard.KeyedKeepsWithin`, `AdminAuth.AtMostOneAdmin`, `AdminStudents.CreateKeepsUnique` and `Analytics.TrackAllCounts` therefore hold over sequential requests only; two interleaved requests can both pass a check before either writes.
- LoginGuard.RecordAttempt: the entry the code adds under an array or object id is not kept, since a new body object is never looked up again; the code's map grows by one unreachable entry per such request, which the model does not show.
- AdminStudents.ApplyPatch: body keys that name no column, and values of the wrong type for their column (a number as the email, say), are not modelled; each patch field is typed like its column.
- AdminStudents.UpdateStudent: of the table's constraints only the distinct primary key is modelled; backend/models/Student.js is not part of this model, so a unique or validated column it may declare is not enforced on update (see `AdminStudents.UpdateAdmitsDuplicateId`).
- The default the student table gives `isActive` on creation is a parameter (`activeByDefault`), for the same reason.
- LoginGuard.FindActive: matches the student id exactly. The tables' collation is not part of this model (backend/config/db.js:4-29 sets none), and under MySQL's usual case-insensitive, accent-insensitive collations other spellings of an id also find the row. Attempts are therefore counted per spelling, not per student, and `LoginGuard.LogoutClearsLoginKey` holds only up to that collation.
- AdminAuth.FindActive: matches the normalised email exactly; a collation that also equates accented letters is not modelled.
- AdminStudents.HasStudentId, AdminStudents.HasEmail and AdminStudents.FindAttendance: compare values exactly; collation-equal spellings that the database would treat as duplicates or matches are not modelled.
- AdminStudents.FindByPk, AdminStudents.FindResult and ImageGallery.Find: find a key by its decimal text. MySQL converts a string compared with an integer key to a number, so "07" or "7abc" finds key 7 in the code and nothing in the model.
- ImageGallery.Upload: always stores the image. backend/models is not part of this model, so a foreign key on `category_id`, whose violation the code answers with 500, is not enforced.
- LoginForm.Mount: a remembered document whose `studentId` is missing or not a string still ticks the box, as in the code, but the model restores "" as the id where the code puts that value (or `undefined`) into the form.
- Dashboard: the countdown and elapsed-time labels are one pair per tab rather than one per instance. React drops the state updates of an unmounted instance, and the model shows this by changing the labels only for the instance on screen.
- Dashboard: the six event types the listeners watch are one `Activity` event, since every listener runs the same handler.
- ResultsPage: a result's year is an integer, which assumes the year column is numeric; a year stored as text is not modelled.

## Findings

| source | as written | input that shows it | evidently intended | confidence | as-written member | corrected member |
|---|---|---|---|---|---|---|
| backend/controllers/studentController.js:42-90 | The attempt check uses the raw id, but failures are recorded under the trimmed (and escaped) id. | Student id `" NEET2024001"` with wrong passwords, one per second. | One key per request, so five failures in five minutes block further guesses. | high, not executed | LoginGuard.PaddedIdUnlimitedGuesses | LoginGuard.KeyedKeepsWithin |
| client/src/pages/StudentDashboard.jsx:152-167 | Each reset schedules a 30-minute logout whose handle is discarded, so it is never cancelled. | Mount at time 0, activity at minute 10: logout still fires at minute 30. | Activity postpones the logout along with the warning. | high, not executed | Dashboard.LogoutDespiteActivity | Dashboard.ActivityBoth |
| client/src/pages/admin/ResultAdmin.jsx:26-32 | The year filter compares a numeric year with `===` against the select's text value. | Results of year 2024; choose the "2024" option: nothing is shown. | The option shows the results of that year. | medium, not executed | ResultAdmin.OptionShowsNothing | ResultAdmin.FixedEachInOneOption |
| backend/controllers/adminStudentController.js:281-283 | The cascade removes attendance and results whose `studentId` equals the route's primary key. | Student with key 7 and code `NEET001`: deleting key 7 keeps that student's attendance. | Remove the rows carrying the deleted student's own code, which is how `getStudentAttendance` finds them (backend/controllers/studentController.js:171-175). | medium, not executed | AdminStudents.DeleteLeavesOrphans | AdminStudents.FixedDeleteLeavesNoOrphans |
| backend/middleware/uploadMiddleware.js:13-34 | The stored name takes `path.extname` of the original name, which is empty for a name that starts with its only dot. | A file named `.png` of type `image/png`: accepted, stored with no extension. | Every accepted file is stored under its image extension. | medium, not executed | UploadMiddleware.DotfileStoredBare | UploadMiddleware.FixedKeepsImageExtension |
| client/src/components/Testimonials.jsx:28-30 | The post id is the second-to-last piece of the path. | `https://www.instagram.com/p/ABC` (no trailing slash) embeds post `p`. | The link's own post `ABC` is embedded. | medium, not executed | Testimonials.PostIdNeedsTrailingSlash | Testimonials.PostIdFixedBothForms |
