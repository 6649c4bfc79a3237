/** The student login endpoint and its in-memory attempt guard
    (`loginStudent`, `logoutStudent` and the three attempt helpers).

    The guard maps the JavaScript value a call site passes as the key to the
    list of failure timestamps recorded under it. The handler does not use
    one key throughout: the check takes the raw request value, the length
    failures record under the trimmed id, and the credential failures and
    the clear use the trimmed and escaped id. Every key is explicit here so
    that the divergence can be stated. */
module LoginGuard {

  import opened Js
  import Text

  const MaxAttempts: nat := 5
  const LockoutMs: nat := 300000
  /** `expiresIn: "8h"`, in seconds. */
  const TokenLifetime: nat := 28800

  /** JavaScript value used as the key -> timestamps recorded, in call order. */
  type Attempts = map<Value, seq<nat>>

  /** `loginAttempts.get(key) || []`. The arrays and objects of a parsed
      request body are new on every request, so an entry set under one can
      never be looked up again. */
  function Stored(m: Attempts, key: Value): (r: seq<nat>)
    ensures !Primitive(key) ==> r == []
  {
    if Primitive(key) && key in m then m[key] else []
  }

  /** `attempts.filter(time => now - time < LOCKOUT_TIME)`; the stored list
      itself is never replaced by the filtered one. */
  function Recent(ts: seq<nat>, now: nat): (r: seq<nat>)
    ensures |r| <= |ts|
    ensures forall t :: t in r <==> t in ts && now - t < LockoutMs
  {
    if ts == [] then []
    else if now - ts[0] < LockoutMs then [ts[0]] + Recent(ts[1..], now)
    else Recent(ts[1..], now)
  }

  datatype Check = Allowed | Blocked(remainingTime: int)

  /** `checkLoginAttempts`: blocked exactly when five or more recorded
      attempts lie in the trailing window; the wait it reports is always a
      positive number of seconds. */
  function CheckAttempts(m: Attempts, key: Value, now: nat): (c: Check)
    ensures c.Blocked? <==> |Recent(Stored(m, key), now)| >= MaxAttempts
    ensures c.Blocked? ==> c.remainingTime >= 1
  {
    var recent := Recent(Stored(m, key), now);
    if |recent| >= MaxAttempts then
      assert recent[0] in recent;
      Blocked(CeilDiv(recent[0] + LockoutMs - now, 1000))
    else Allowed
  }

  /** `recordLoginAttempt`: one timestamp appended under `key`, every other
      key untouched. Under an array or object key the entry is set under an
      identity no later lookup presents, so the reachable map is unchanged. */
  function RecordAttempt(m: Attempts, key: Value, now: nat): (r: Attempts)
    ensures Primitive(key) ==> key in r && r[key] == Stored(m, key) + [now]
    ensures !Primitive(key) ==> r == m
    ensures forall k :: k != key ==> (k in r <==> k in m)
    ensures forall k :: k != key && k in m ==> r[k] == m[k]
  {
    if Primitive(key) then m[key := Stored(m, key) + [now]] else m
  }

  /** `clearLoginAttempts`: `key` forgotten, every other key untouched
      (deleting an array or object key deletes nothing). */
  function ClearAttempts(m: Attempts, key: Value): (r: Attempts)
    ensures Primitive(key) ==> key !in r
    ensures !Primitive(key) ==> r == m
    ensures forall k :: k != key ==> (k in r <==> k in m)
    ensures forall k :: k != key && k in m ==> r[k] == m[k]
  {
    if Primitive(key) then m - {key} else m
  }

  predicate Sorted(ts: seq<nat>) {
    forall i, j :: 0 <= i < j < |ts| ==> ts[i] <= ts[j]
  }

  lemma {:induction false} RecentOfSorted(ts: seq<nat>, now: nat)
    requires Sorted(ts)
    ensures Sorted(Recent(ts, now))
  {
    if ts != [] {
      var tail := ts[1..];
      assert Sorted(tail) by {
        forall i, j | 0 <= i < j < |tail| ensures tail[i] <= tail[j] {
          assert tail[i] == ts[i + 1] && tail[j] == ts[j + 1];
        }
      }
      RecentOfSorted(tail, now);
      var rest := Recent(tail, now);
      if now - ts[0] < LockoutMs {
        var r := [ts[0]] + rest;
        forall i, j | 0 <= i < j < |r| ensures r[i] <= r[j] {
          assert r[j] == rest[j - 1];
          if i > 0 {
            assert r[i] == rest[i - 1];
          } else {
            assert rest[j - 1] in rest;
            assert rest[j - 1] in tail;
            var k :| 0 <= k < |tail| && tail[k] == rest[j - 1];
            assert ts[k + 1] == tail[k];
          }
        }
      }
    }
  }

  /** With timestamps appended in clock order, the reported wait is the time
      until the oldest attempt in the window leaves it, rounded up to whole
      seconds, and never more than the five-minute window. */
  lemma WaitIsOldestExpiry(m: Attempts, key: Value, now: nat)
    requires Sorted(Stored(m, key))
    requires forall t :: t in Stored(m, key) ==> t <= now
    ensures CheckAttempts(m, key, now).Blocked? ==>
              var w := CheckAttempts(m, key, now).remainingTime;
              && w <= LockoutMs / 1000
              && exists o :: o in Recent(Stored(m, key), now)
                   && (forall t :: t in Recent(Stored(m, key), now) ==> o <= t)
                   && (w - 1) * 1000 < o + LockoutMs - now <= w * 1000
  {
    var recent := Recent(Stored(m, key), now);
    if |recent| >= MaxAttempts {
      RecentOfSorted(Stored(m, key), now);
      var o := recent[0];
      assert o in recent;
      assert forall t :: t in recent ==> o <= t by {
        forall t | t in recent ensures o <= t {
          var j :| 0 <= j < |recent| && recent[j] == t;
        }
      }
    }
  }

  /** A row of the students table. */
  datatype Student = Student(
    id: nat, studentId: string, firstName: string, lastName: string,
    email: string, course: string, batch: string,
    passwordHash: string, isActive: bool)

  /** The profile the endpoint returns: the row without its password. */
  datatype Profile = Profile(
    id: nat, studentId: string, firstName: string, lastName: string,
    email: string, course: string, batch: string)

  function ProfileOf(s: Student): Profile {
    Profile(s.id, s.studentId, s.firstName, s.lastName, s.email, s.course, s.batch)
  }

  /** The claims the signed token carries; signing itself is not modelled. */
  datatype Token = Token(id: nat, studentId: string, lifetimeSeconds: nat)

  datatype Reply =
    | TooManyAttempts(remainingTime: int)
    | InvalidInput(error: InputError)
    | InvalidCredentials
    | LoggedIn(token: Token, expiresIn: nat, student: Profile)
    | InternalError

  function Status(r: Reply): nat {
    match r
    case TooManyAttempts(_) => 429
    case InvalidInput(_) => 400
    case InvalidCredentials => 401
    case LoggedIn(_, _, _) => 200
    case InternalError => 500
  }

  /** What the handler consults besides the attempt map: the table, bcrypt's
      comparison, validator's `escape`, and whether `JWT_SECRET` is set. */
  datatype Env = Env(
    students: seq<Student>,
    passwordMatches: (string, string) -> bool,
    escape: string -> string,
    jwtSecretSet: bool)

  /** `Student.findOne({ where: { studentId, isActive: true } })`: the first
      matching row. */
  function FindActive(rows: seq<Student>, studentId: string): (r: Option<Student>)
    ensures r.Some? ==> r.value in rows && r.value.studentId == studentId && r.value.isActive
    ensures r.None? ==> forall s :: s in rows ==> !(s.studentId == studentId && s.isActive)
  {
    if rows == [] then None
    else if rows[0].studentId == studentId && rows[0].isActive then Some(rows[0])
    else FindActive(rows[1..], studentId)
  }

  /** What a request does to the attempt map. */
  datatype Effect = Untouched | Record(key: Value) | Clear(key: Value)

  /** The outcome of the four input checks: a 400 with its message and the
      key the source records the failure under, or the trimmed fields. */
  datatype Parsed = Rejected(error: InputError, key: Value) | Accepted(id: string, pw: string)

  /** Why the input checks refused a request. */
  datatype InputError = MissingFields | NotStrings | IdLength | PasswordLength

  /** The `message` of the 400 reply. */
  function Message(e: InputError): string {
    match e
    case MissingFields => "Student ID and password are required"
    case NotStrings => "Invalid input type"
    case IdLength => "Student ID must be 3-20 characters"
    case PasswordLength => "Password must be 4-64 characters"
  }

  /** The handler's input checks, in order: both fields truthy, both
      strings, then the trimmed id 3-20 and the trimmed password 4-64
      characters long as `isLength` counts them. The first two failures
      are recorded under the raw value, the length failures under the
      trimmed id. */
  function ValidateInput(studentId: Value, password: Value): (p: Parsed)
    ensures p.Accepted? <==>
              && studentId.Str? && password.Str? && studentId.s != "" && password.s != ""
              && 3 <= Text.IsLengthCount(Text.Trim(studentId.s)) <= 20
              && 4 <= Text.IsLengthCount(Text.Trim(password.s)) <= 64
    ensures p.Accepted? ==> p.id == Text.Trim(studentId.s) && p.pw == Text.Trim(password.s)
    ensures p.Rejected? ==> p.key == studentId || (studentId.Str? && p.key == Str(Text.Trim(studentId.s)))
    ensures p.Rejected? && studentId.Str? && password.Str? && studentId.s != "" && password.s != "" ==>
              p.key == Str(Text.Trim(studentId.s))
  {
    if !Truthy(studentId) || !Truthy(password) then
      Rejected(MissingFields, studentId)
    else if !studentId.Str? || !password.Str? then
      Rejected(NotStrings, studentId)
    else
      var id := Text.Trim(studentId.s);
      var pw := Text.Trim(password.s);
      if !(3 <= Text.IsLengthCount(id) <= 20) then Rejected(IdLength, Str(id))
      else if !(4 <= Text.IsLengthCount(pw) <= 64) then Rejected(PasswordLength, Str(id))
      else Accepted(id, pw)
  }

  /** The credential check on validated fields: the escaped id is looked up
      among active students and the password compared with bcrypt. Both
      failures are the same 401, recorded under the escaped id; success
      clears that key before the token secret is consulted. */
  function Authenticate(id: string, pw: string, env: Env): (r: (Reply, Effect))
    ensures r.0.InvalidCredentials? ==> r.1 == Record(Str(env.escape(id)))
    ensures r.0.LoggedIn? || r.0.InternalError? ==> r.1 == Clear(Str(env.escape(id)))
    ensures r.0.InvalidCredentials? || r.0.LoggedIn? || r.0.InternalError?
    ensures r.0.InternalError? ==> !env.jwtSecretSet
    ensures r.0.LoggedIn? ==>
              && r.0.expiresIn == TokenLifetime && r.0.token.lifetimeSeconds == TokenLifetime
              && exists st :: st in env.students && st.isActive && st.studentId == env.escape(id)
                   && env.passwordMatches(pw, st.passwordHash)
                   && r.0.student == ProfileOf(st) && r.0.token.studentId == st.studentId
    ensures (FindActive(env.students, env.escape(id)).Some? &&
             env.passwordMatches(pw, FindActive(env.students, env.escape(id)).value.passwordHash))
            <==> !r.0.InvalidCredentials?
  {
    var key := env.escape(id);
    match FindActive(env.students, key)
    case None => (InvalidCredentials, Record(Str(key)))
    case Some(st) =>
      if !env.passwordMatches(pw, st.passwordHash) then (InvalidCredentials, Record(Str(key)))
      else if !env.jwtSecretSet then (InternalError, Clear(Str(key)))
      else (LoggedIn(Token(st.id, st.studentId, TokenLifetime), TokenLifetime, ProfileOf(st)), Clear(Str(key)))
  }

  /** The handler's ordered checks once the guard has answered `check`. */
  function Decide(check: Check, studentId: Value, password: Value, env: Env): (r: (Reply, Effect))
    ensures r.0.TooManyAttempts? <==> check.Blocked?
    ensures check.Blocked? ==> r == (TooManyAttempts(check.remainingTime), Untouched)
    ensures r.0.InvalidInput? ==>
              ValidateInput(studentId, password).Rejected? && r.1 == Record(ValidateInput(studentId, password).key)
    ensures r.0.InvalidCredentials? ==>
              studentId.Str? && r.1 == Record(Str(env.escape(Text.Trim(studentId.s))))
    ensures r.0.LoggedIn? || r.0.InternalError? ==>
              studentId.Str? && r.1 == Clear(Str(env.escape(Text.Trim(studentId.s))))
    ensures !check.Blocked? && ValidateInput(studentId, password).Rejected? ==>
              var p := ValidateInput(studentId, password);
              r == (InvalidInput(p.error), Record(p.key))
    ensures !check.Blocked? && ValidateInput(studentId, password).Accepted? ==>
              var p := ValidateInput(studentId, password);
              r == Authenticate(p.id, p.pw, env)
  {
    if check.Blocked? then (TooManyAttempts(check.remainingTime), Untouched)
    else match ValidateInput(studentId, password)
      case Rejected(msg, key) => (InvalidInput(msg), Record(key))
      case Accepted(id, pw) => Authenticate(id, pw, env)
  }

  datatype Outcome = Outcome(reply: Reply, attempts: Attempts)

  /** `loginStudent` at time `now`. */
  function Login(m: Attempts, now: nat, studentId: Value, password: Value, env: Env): (o: Outcome)
    ensures o.reply.TooManyAttempts? <==> CheckAttempts(m, studentId, now).Blocked?
    ensures o.reply.TooManyAttempts? ==>
              o.attempts == m && o.reply.remainingTime == CheckAttempts(m, studentId, now).remainingTime
    ensures !CheckAttempts(m, studentId, now).Blocked? && ValidateInput(studentId, password).Rejected? ==>
              var p := ValidateInput(studentId, password);
              o == Outcome(InvalidInput(p.error), RecordAttempt(m, p.key, now))
    ensures !CheckAttempts(m, studentId, now).Blocked? && ValidateInput(studentId, password).Accepted? ==>
              var p := ValidateInput(studentId, password);
              o.reply == Authenticate(p.id, p.pw, env).0
  {
    var d := Decide(CheckAttempts(m, studentId, now), studentId, password, env);
    match d.1
    case Untouched => Outcome(d.0, m)
    case Record(k) => Outcome(d.0, RecordAttempt(m, k, now))
    case Clear(k) => Outcome(d.0, ClearAttempts(m, k))
  }

  /** A login succeeds exactly when the id is not blocked, the input
      passes its checks, an active student has the escaped, trimmed id,
      bcrypt accepts the trimmed password and the token secret is set;
      the success then forgets that id's failures. */
  lemma LoginSucceedsIff(m: Attempts, now: nat, studentId: Value, password: Value, env: Env)
    ensures var o := Login(m, now, studentId, password, env);
            var p := ValidateInput(studentId, password);
            o.reply.LoggedIn? <==>
              && !CheckAttempts(m, studentId, now).Blocked?
              && p.Accepted?
              && var st := FindActive(env.students, env.escape(p.id));
                 && st.Some? && env.passwordMatches(p.pw, st.value.passwordHash)
                 && env.jwtSecretSet
    ensures var o := Login(m, now, studentId, password, env);
            var p := ValidateInput(studentId, password);
            o.reply.LoggedIn? ==>
              && p.Accepted?
              && o.reply.student == ProfileOf(FindActive(env.students, env.escape(p.id)).value)
              && o.attempts == ClearAttempts(m, Str(env.escape(p.id)))
  {
    var p := ValidateInput(studentId, password);
    if !CheckAttempts(m, studentId, now).Blocked? && p.Accepted? {
      var d := Decide(CheckAttempts(m, studentId, now), studentId, password, env);
      assert d == Authenticate(p.id, p.pw, env);
    }
  }

  /** A refused request is recorded: an input failure under the key its
      check chose, a credential failure under the trimmed and escaped id. */
  lemma LoginRecords(m: Attempts, now: nat, studentId: Value, password: Value, env: Env)
    ensures var o := Login(m, now, studentId, password, env);
            o.reply.InvalidInput? ==>
              ValidateInput(studentId, password).Rejected?
              && o.attempts == RecordAttempt(m, ValidateInput(studentId, password).key, now)
    ensures var o := Login(m, now, studentId, password, env);
            o.reply.InvalidCredentials? ==>
              studentId.Str? && o.attempts == RecordAttempt(m, Str(env.escape(Text.Trim(studentId.s))), now)
  {
    LoginRecordsInput(m, now, studentId, password, env);
    LoginRecordsCredentials(m, now, studentId, password, env);
  }

  lemma LoginRecordsInput(m: Attempts, now: nat, studentId: Value, password: Value, env: Env)
    ensures var o := Login(m, now, studentId, password, env);
            o.reply.InvalidInput? ==>
              ValidateInput(studentId, password).Rejected?
              && o.attempts == RecordAttempt(m, ValidateInput(studentId, password).key, now)
  {
    var d := Decide(CheckAttempts(m, studentId, now), studentId, password, env);
    var o := Login(m, now, studentId, password, env);
    assert o.reply == d.0;
    if d.0.InvalidInput? {
      var k := ValidateInput(studentId, password).key;
      assert d.1 == Record(k);
      assert o.attempts == RecordAttempt(m, k, now);
    }
  }

  lemma LoginRecordsCredentials(m: Attempts, now: nat, studentId: Value, password: Value, env: Env)
    ensures var o := Login(m, now, studentId, password, env);
            o.reply.InvalidCredentials? ==>
              studentId.Str? && o.attempts == RecordAttempt(m, Str(env.escape(Text.Trim(studentId.s))), now)
  {
    var d := Decide(CheckAttempts(m, studentId, now), studentId, password, env);
    var o := Login(m, now, studentId, password, env);
    assert o.reply == d.0;
    if d.0.InvalidCredentials? {
      var k := Str(env.escape(Text.Trim(studentId.s)));
      assert d.1 == Record(k);
      assert o.attempts == RecordAttempt(m, k, now);
    }
  }

  /** A request that gets past the password check forgets the attempts
      under the trimmed and escaped id, even when signing then fails. */
  lemma LoginClears(m: Attempts, now: nat, studentId: Value, password: Value, env: Env)
    ensures var o := Login(m, now, studentId, password, env);
            o.reply.LoggedIn? || o.reply.InternalError? ==>
              studentId.Str? && o.attempts == ClearAttempts(m, Str(env.escape(Text.Trim(studentId.s))))
  {
    var d := Decide(CheckAttempts(m, studentId, now), studentId, password, env);
    var o := Login(m, now, studentId, password, env);
    assert o.reply == d.0;
    if d.0.LoggedIn? || d.0.InternalError? {
      var k := Str(env.escape(Text.Trim(studentId.s)));
      assert d.1 == Clear(k);
      assert o.attempts == ClearAttempts(m, k);
    }
  }

  /** A blocked key is answered without consulting the table, bcrypt or the
      token secret: any two environments give the same outcome. */
  lemma BlockedSkipsCredentials(m: Attempts, now: nat, studentId: Value, password: Value, env1: Env, env2: Env)
    requires CheckAttempts(m, studentId, now).Blocked?
    ensures Login(m, now, studentId, password, env1) == Login(m, now, studentId, password, env2)
  {
  }

  /** An unknown id and a wrong password are indistinguishable: same status,
      same body, same attempt recorded. */
  lemma UnknownAndWrongPasswordAlike(m: Attempts, now: nat, studentId: string, password: string,
                                     unknown: Env, wrong: Env)
    requires unknown.escape(Text.Trim(studentId)) == wrong.escape(Text.Trim(studentId))
    requires 3 <= Text.IsLengthCount(Text.Trim(studentId)) <= 20 && 4 <= Text.IsLengthCount(Text.Trim(password)) <= 64
    requires FindActive(unknown.students, unknown.escape(Text.Trim(studentId))).None?
    requires var s := FindActive(wrong.students, wrong.escape(Text.Trim(studentId)));
             s.Some? && !wrong.passwordMatches(Text.Trim(password), s.value.passwordHash)
    ensures Login(m, now, Str(studentId), Str(password), unknown)
         == Login(m, now, Str(studentId), Str(password), wrong)
    ensures Status(Login(m, now, Str(studentId), Str(password), unknown).reply) == 401
            || CheckAttempts(m, Str(studentId), now).Blocked?
  {
    var id := Text.Trim(studentId);
    var pw := Text.Trim(password);
    assert ValidateInput(Str(studentId), Str(password)) == Accepted(id, pw);
    var key := Str(unknown.escape(id));
    assert Authenticate(id, pw, unknown) == (InvalidCredentials, Record(key));
    assert Authenticate(id, pw, wrong) == (InvalidCredentials, Record(key));
  }

  /** `logoutStudent`: the attempts recorded under the logged-in student's
      id (taken from the token) are forgotten; the reply is always 200. */
  function Logout(m: Attempts, tokenStudentId: Option<string>): (r: (nat, Attempts))
    ensures r.0 == 200
    ensures tokenStudentId.Some? && tokenStudentId.value != "" ==> r.1 == ClearAttempts(m, Str(tokenStudentId.value))
    ensures tokenStudentId.Some? && tokenStudentId.value != "" ==>
              && Str(tokenStudentId.value) !in r.1
              && forall k :: k != Str(tokenStudentId.value) ==> Stored(r.1, k) == Stored(m, k)
    ensures tokenStudentId.None? || tokenStudentId.value == "" ==> r.1 == m
  {
    match tokenStudentId
    case Some(s) => if s != "" then (200, ClearAttempts(m, Str(s))) else (200, m)
    case None => (200, m)
  }

  /** After logout the student's id is not blocked, and every other key
      reads as before. */
  lemma LogoutUnblocks(m: Attempts, id: string, now: nat)
    requires id != ""
    ensures var r := Logout(m, Some(id)).1;
            && CheckAttempts(r, Str(id), now).Allowed?
            && forall k :: k != Str(id) ==> Stored(r, k) == Stored(m, k)
  {
  }

  /** The id a successful login puts in the token is the key its credential
      failures are recorded under and cleared from, so a logout with that
      token forgets them. */
  lemma LogoutClearsLoginKey(m: Attempts, now: nat, studentId: Value, password: Value, env: Env)
    ensures var o := Login(m, now, studentId, password, env);
            o.reply.LoggedIn? ==>
              studentId.Str? && o.reply.token.studentId == env.escape(Text.Trim(studentId.s))
  {
    var d := Decide(CheckAttempts(m, studentId, now), studentId, password, env);
    if d.0.LoggedIn? {
      var id := Text.Trim(studentId.s);
      assert ValidateInput(studentId, password) == Accepted(id, Text.Trim(password.s));
      assert FindActive(env.students, env.escape(id)).Some?;
    }
  }

  /** An id sent as an array or an object is refused as input, and nothing
      is recorded where a later request can find it: however often it is
      sent, it is never answered with 429. */
  lemma ObjectIdNeverBlocked(m: Attempts, now: nat, studentId: Value, password: Value, env: Env)
    requires !Primitive(studentId)
    ensures var o := Login(m, now, studentId, password, env);
            o.reply.InvalidInput? && o.attempts == m
  {
  }

  // ---------------------------------------------------------------------
  // How many attempts can sit in the window

  /** Every stored timestamp lies at or before `now`, and no key holds more
      than five attempts inside the window ending at `now`. */
  ghost predicate Within(m: Attempts, now: nat) {
    forall k :: k in m ==>
      (forall t :: t in m[k] ==> t <= now) && |Recent(m[k], now)| <= MaxAttempts
  }

  /** As time passes, attempts only leave the window. */
  lemma {:induction false} RecentShrinks(ts: seq<nat>, before: nat, now: nat)
    requires before <= now
    requires forall t :: t in ts ==> t <= before
    ensures |Recent(ts, now)| <= |Recent(ts, before)|
  {
    if ts != [] {
      assert forall t :: t in ts[1..] ==> t in ts;
      RecentShrinks(ts[1..], before, now);
    }
  }

  lemma {:induction false} RecentAppendNow(ts: seq<nat>, now: nat)
    ensures Recent(ts + [now], now) == Recent(ts, now) + [now]
  {
    if ts != [] {
      assert (ts + [now])[1..] == ts[1..] + [now];
      RecentAppendNow(ts[1..], now);
    }
  }

  lemma WithinLater(m: Attempts, before: nat, now: nat)
    requires before <= now && Within(m, before)
    ensures Within(m, now)
  {
    forall k | k in m ensures |Recent(m[k], now)| <= MaxAttempts {
      RecentShrinks(m[k], before, now);
    }
  }

  /** Recording under a key the guard has just let through keeps the bound. */
  lemma RecordAllowedKeepsWithin(m: Attempts, key: Value, now: nat)
    requires Within(m, now) && CheckAttempts(m, key, now).Allowed?
    ensures Within(RecordAttempt(m, key, now), now)
  {
    RecentAppendNow(Stored(m, key), now);
  }

  /** A request keys everything on one value when its id is not a string or
      is already trimmed and unchanged by escaping. */
  predicate Canonical(studentId: Value, env: Env) {
    studentId.Str? ==> Text.Trim(studentId.s) == studentId.s && env.escape(studentId.s) == studentId.s
  }

  /** Under sequential requests with canonical ids the window never holds
      more than five attempts for any key: recording only follows a check
      that let the same key through. */
  lemma CanonicalKeepsWithin(m: Attempts, before: nat, now: nat, studentId: Value, password: Value, env: Env)
    requires before <= now && Within(m, before) && Canonical(studentId, env)
    ensures Within(Login(m, now, studentId, password, env).attempts, now)
  {
    WithinLater(m, before, now);
    var o := Login(m, now, studentId, password, env);
    LoginRecords(m, now, studentId, password, env);
    LoginClears(m, now, studentId, password, env);
    if o.reply.InvalidInput? || o.reply.InvalidCredentials? {
      assert o.attempts == RecordAttempt(m, studentId, now);
      RecordAllowedKeepsWithin(m, studentId, now);
    }
  }

  /** A request whose id carries surrounding whitespace is checked under the
      raw id but recorded under the trimmed one, so the raw key never fills
      and the guard never answers 429 for it. */
  lemma PaddedIdNeverBlocked(m: Attempts, now: nat, raw: string, password: string, env: Env)
    requires Str(raw) !in m && password != ""
    requires Text.Trim(raw) != raw && env.escape(Text.Trim(raw)) != raw
    ensures !Login(m, now, Str(raw), Str(password), env).reply.TooManyAttempts?
    ensures Str(raw) !in Login(m, now, Str(raw), Str(password), env).attempts
  {
  }

  /** Replays requests for one id and password at the given times. */
  function Replay(m: Attempts, times: seq<nat>, studentId: Value, password: Value, env: Env): (Attempts, seq<Reply>)
    decreases |times|
  {
    if times == [] then (m, [])
    else
      var o := Login(m, times[0], studentId, password, env);
      var rest := Replay(o.attempts, times[1..], studentId, password, env);
      (rest.0, [o.reply] + rest.1)
  }

  /** Any number of guesses with a padded id get through the guard. */
  lemma {:induction false} PaddedIdUnlimitedGuesses(m: Attempts, times: seq<nat>, raw: string, password: string, env: Env)
    requires Str(raw) !in m && password != ""
    requires Text.Trim(raw) != raw && env.escape(Text.Trim(raw)) != raw
    ensures |Replay(m, times, Str(raw), Str(password), env).1| == |times|
    ensures forall i :: 0 <= i < |times| ==> !Replay(m, times, Str(raw), Str(password), env).1[i].TooManyAttempts?
    decreases |times|
  {
    if times != [] {
      PaddedIdNeverBlocked(m, times[0], raw, password, env);
      var o := Login(m, times[0], Str(raw), Str(password), env);
      PaddedIdUnlimitedGuesses(o.attempts, times[1..], raw, password, env);
      var rest := Replay(o.attempts, times[1..], Str(raw), Str(password), env);
      var all := Replay(m, times, Str(raw), Str(password), env);
      assert all.1 == [o.reply] + rest.1;
      forall i | 0 <= i < |times| ensures !all.1[i].TooManyAttempts? {
        if i > 0 {
          assert all.1[i] == rest.1[i - 1];
        }
      }
    }
  }

  /** `n` requests one second apart, starting at time 0. */
  function OneSecondApart(n: nat): (times: seq<nat>)
    ensures |times| == n && forall i :: 0 <= i < n ==> times[i] == i * 1000
  {
    seq(n, i requires 0 <= i < n => i * 1000)
  }

  /** The id of the concrete case trims to the id on record. */
  lemma PaddedSample()
    ensures Text.Trim(" NEET2024001") == "NEET2024001"
  {
    var id := "NEET2024001";
    Text.TrimOfTrimmed(id);
    Text.TrimLeadingSpace(' ', id);
    assert " NEET2024001" == [' '] + id;
  }

  /** The concrete case: " NEET2024001" may be guessed once a second for
      as long as one likes, and not one request is refused with 429. */
  lemma PaddedIdExample(n: nat, password: string, env: Env)
    requires password != "" && env.escape("NEET2024001") == "NEET2024001"
    ensures |Replay(map[], OneSecondApart(n), Str(" NEET2024001"), Str(password), env).1| == n
    ensures forall i :: 0 <= i < n ==>
              !Replay(map[], OneSecondApart(n), Str(" NEET2024001"), Str(password), env).1[i].TooManyAttempts?
  {
    PaddedSample();
    PaddedIdUnlimitedGuesses(map[], OneSecondApart(n), " NEET2024001", password, env);
  }

  // ---------------------------------------------------------------------
  // The guard keyed on one normalised id

  /** The one key the corrected handler uses at every call site: the
      trimmed and escaped id when it is a string, the raw value otherwise. */
  function AttemptKey(studentId: Value, env: Env): Value {
    if studentId.Str? then Str(env.escape(Text.Trim(studentId.s))) else studentId
  }

  /** The handler with the check, every record and the clear on `AttemptKey`. */
  function LoginKeyed(m: Attempts, now: nat, studentId: Value, password: Value, env: Env): (o: Outcome)
    ensures o.reply.TooManyAttempts? <==> CheckAttempts(m, AttemptKey(studentId, env), now).Blocked?
    ensures o.attempts == m || o.attempts == RecordAttempt(m, AttemptKey(studentId, env), now)
            || o.attempts == ClearAttempts(m, AttemptKey(studentId, env))
  {
    var key := AttemptKey(studentId, env);
    var d := Decide(CheckAttempts(m, key, now), studentId, password, env);
    match d.1
    case Untouched => Outcome(d.0, m)
    case Record(_) => Outcome(d.0, RecordAttempt(m, key, now))
    case Clear(_) => Outcome(d.0, ClearAttempts(m, key))
  }

  /** With one key per request the bound holds for every request, padded or
      not. */
  lemma KeyedKeepsWithin(m: Attempts, before: nat, now: nat, studentId: Value, password: Value, env: Env)
    requires before <= now && Within(m, before)
    ensures Within(LoginKeyed(m, now, studentId, password, env).attempts, now)
  {
    WithinLater(m, before, now);
    var key := AttemptKey(studentId, env);
    var c := CheckAttempts(m, key, now);
    if c.Allowed? {
      RecordAllowedKeepsWithin(m, key, now);
    }
  }

  /** The corrected handler agrees with the original on canonical ids. */
  lemma KeyedAgreesOnCanonical(m: Attempts, now: nat, studentId: Value, password: Value, env: Env)
    requires Canonical(studentId, env)
    ensures LoginKeyed(m, now, studentId, password, env) == Login(m, now, studentId, password, env)
  {
  }
}
