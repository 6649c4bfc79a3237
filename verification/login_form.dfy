/** The student login page: the password-strength meter, the client-side
    input checks, and the form's attempt counter with its five-minute
    lockout, which survives a reload through `localStorage`. */
module LoginForm {

  import opened Js
  import Text
  import opened Browser

  // ---------------------------------------------------------------------
  // Password strength

  predicate HasUpper(p: string) { exists i :: 0 <= i < |p| && Text.IsUpper(p[i]) }
  predicate HasDigit(p: string) { exists i :: 0 <= i < |p| && Text.IsDigit(p[i]) }

  /** One of `!@#$%^&*`. */
  predicate IsSymbol(c: char) {
    c == '!' || c == '@' || c == '#' || c == '$' || c == '%' || c == '^' || c == '&' || c == '*'
  }
  predicate HasSymbol(p: string) { exists i :: 0 <= i < |p| && IsSymbol(p[i]) }

  function Count(b: bool): nat { if b then 1 else 0 }

  /** How many of the five criteria the password meets; its length is
      `password.length`, in UTF-16 code units. */
  function Score(p: string): (s: nat)
    ensures s <= 5
    ensures s == 5 <==> Text.Utf16Length(p) >= 10 && HasUpper(p) && HasDigit(p) && HasSymbol(p)
    ensures s == 0 <==> Text.Utf16Length(p) < 6 && !HasUpper(p) && !HasDigit(p) && !HasSymbol(p)
  {
    var n := Text.Utf16Length(p);
    Count(n >= 6) + Count(n >= 10) + Count(HasUpper(p)) + Count(HasDigit(p)) + Count(HasSymbol(p))
  }

  datatype Strength = Strength(level: nat, text: string)

  const Levels: seq<string> := ["Weak", "Fair", "Good", "Strong", "Very Strong", "Excellent"]

  /** `getStrength`: nothing for an empty password, otherwise the level
      named by the score. */
  function GetStrength(p: string): (r: Strength)
    ensures p == "" <==> r.text == ""
    ensures r.level <= 5 && (p != "" ==> r.level == Score(p) && r.text == Levels[r.level])
  {
    if p == "" then Strength(0, "") else Strength(Score(p), Levels[Score(p)])
  }

  /** Typing more characters never weakens the password. */
  lemma StrengthMonotone(p: string, q: string)
    requires p != ""
    ensures GetStrength(p + q).level >= GetStrength(p).level
  {
    Text.Utf16LengthAppend(p, q);
    if HasUpper(p) {
      var i :| 0 <= i < |p| && Text.IsUpper(p[i]);
      assert (p + q)[i] == p[i];
    }
    if HasDigit(p) {
      var i :| 0 <= i < |p| && Text.IsDigit(p[i]);
      assert (p + q)[i] == p[i];
    }
    if HasSymbol(p) {
      var i :| 0 <= i < |p| && IsSymbol(p[i]);
      assert (p + q)[i] == p[i];
    }
  }

  /** The meter on short passwords; "abc123" scores 2, which is Good. */
  lemma StrengthExamples()
    ensures GetStrength("a").text == "Weak"
    ensures GetStrength("abc123").text == "Good"
  {
    assert !HasUpper("a") && !HasDigit("a") && !HasSymbol("a");
    LowerDigits();
  }

  /** The meter on passwords with a capital, a digit and then symbols. */
  lemma StrongerExamples()
    ensures GetStrength("Abc123").text == "Strong"
    ensures GetStrength("Abc123!@").text == "Very Strong"
  {
    CapitalDigits();
    Symbols("Abc123!@");
  }

  /** Ten characters with a capital, a digit and a symbol meet all five
      criteria. */
  lemma ExcellentExample()
    ensures GetStrength("Abc123!@#X").text == "Excellent"
  {
    Symbols("Abc123!@#X");
  }

  lemma LowerDigits()
    ensures GetStrength("abc123").level == 2
  {
    var w := "abc123";
    Plain(w);
    assert Text.IsDigit(w[3]) && !HasUpper(w) && !HasSymbol(w);
  }

  lemma CapitalDigits()
    ensures GetStrength("Abc123").level == 3
  {
    var s := "Abc123";
    Plain(s);
    assert Text.IsUpper(s[0]) && Text.IsDigit(s[3]) && !HasSymbol(s);
  }

  /** The meter on a password with a capital, a digit and a symbol at the
      front: three points, plus one per length step. */
  lemma Symbols(p: string)
    requires |p| >= 7 && p[..7] == "Abc123!"
    requires forall i :: 0 <= i < |p| ==> p[i] as int < 128
    ensures GetStrength(p).level == 3 + (if |p| >= 6 then 1 else 0) + (if |p| >= 10 then 1 else 0)
  {
    Plain(p);
    assert p[0] == 'A' && p[3] == '1' && p[6] == '!';
    assert Text.IsUpper(p[0]) && Text.IsDigit(p[3]) && IsSymbol(p[6]);
  }

  /** A password of ASCII characters is as long as it has characters. */
  lemma Plain(p: string)
    requires forall i :: 0 <= i < |p| ==> p[i] as int < 128
    ensures Text.Utf16Length(p) == |p|
  {
    Text.Utf16LengthOfBmp(p);
  }

  /** The meter counts UTF-16 code units: three emoji are six units long,
      which is Fair. */
  lemma EmojiStrength()
    ensures GetStrength("\U{1F600}\U{1F600}\U{1F600}").text == "Fair"
  {
    var f := "\U{1F600}\U{1F600}\U{1F600}";
    Text.LengthsDiffer();
    assert !HasUpper(f) && !HasDigit(f) && !HasSymbol(f);
  }

  // ---------------------------------------------------------------------
  // Input checks

  datatype Verdict = Valid | Invalid(message: string)

  /** `validateInput`: the id must not be blank, the password not empty,
      the id (untrimmed) at least 3 and the password at least 4 UTF-16
      code units long; the first failing check names the message. */
  function Validate(studentId: string, password: string): (v: Verdict)
    ensures v.Valid? <==> Text.Trim(studentId) != "" && password != "" && Text.Utf16Length(studentId) >= 3 && Text.Utf16Length(password) >= 4
    ensures v == Invalid("Student ID is required") <==> Text.Trim(studentId) == ""
    ensures v == Invalid("Password is required") <==> Text.Trim(studentId) != "" && password == ""
    ensures v == Invalid("Student ID must be at least 3 characters") <==>
              Text.Trim(studentId) != "" && password != "" && Text.Utf16Length(studentId) < 3
    ensures v == Invalid("Password must be at least 4 characters") <==>
              Text.Trim(studentId) != "" && password != "" && Text.Utf16Length(studentId) >= 3 && Text.Utf16Length(password) < 4
  {
    if Text.Trim(studentId) == "" then Invalid("Student ID is required")
    else if password == "" then Invalid("Password is required")
    else if Text.Utf16Length(studentId) < 3 then Invalid("Student ID must be at least 3 characters")
    else if Text.Utf16Length(password) < 4 then Invalid("Password must be at least 4 characters")
    else Valid
  }

  // ---------------------------------------------------------------------
  // The form and its lockout

  const MaxAttempts: nat := 5
  const LockoutMs: nat := 300000
  const LockoutSeconds: int := 300

  datatype Form = Form(
    studentId: string, password: string, rememberMe: bool,
    attempts: nat, locked: bool, lockoutTime: int, storage: Storage)

  /** The lockout expiry read back from storage, when it parses. */
  function StoredExpiry(st: Storage): Option<int> {
    if Present(st, LockoutExpiryKey) then ParseNumber(st[LockoutExpiryKey]) else None
  }

  /** The remembered document, if the stored text parses and can be
      destructured: `const { studentId } = null` throws. */
  function Remembered(st: Storage): Option<Value> {
    if !Present(st, SavedCredentialsKey) then None
    else match ParseJson(st[SavedCredentialsKey])
      case None => None
      case Some(v) => if v.Null? then None else Some(v)
  }

  /** The mount effect: restores a remembered id and a lockout still in
      force. The attempt counter always starts at zero; the stored one is
      never read back. */
  function Mount(st: Storage, now: nat): (f: Form)
    ensures f.attempts == 0 && f.password == "" && f.storage == st
    ensures f.locked <==> StoredExpiry(st).Some? && now < StoredExpiry(st).value
    ensures f.locked ==> 1 <= f.lockoutTime && (f.lockoutTime - 1) * 1000 < StoredExpiry(st).value - now <= f.lockoutTime * 1000
    ensures f.rememberMe <==>
              Present(st, SavedCredentialsKey) && ParseJson(st[SavedCredentialsKey]).Some?
              && !ParseJson(st[SavedCredentialsKey]).value.Null?
    ensures Present(st, SavedCredentialsKey) && st[SavedCredentialsKey].Credentials? ==>
              f.rememberMe && f.studentId == st[SavedCredentialsKey].studentId
    ensures f.rememberMe ==>
              var id := Prop(ParseJson(st[SavedCredentialsKey]).value, "studentId").value;
              f.studentId == if id.Str? then id.s else ""
    ensures !f.rememberMe ==> f.studentId == ""
  {
    var saved := Remembered(st);
    var id := if saved.Some? then Prop(saved.value, "studentId").value else Undefined;
    var expiry := StoredExpiry(st);
    var locked := expiry.Some? && now < expiry.value;
    Form(if id.Str? then id.s else "", "", saved.Some?, 0,
         locked, if locked then CeilDiv(expiry.value - now, 1000) else 0, st)
  }

  /** One tick of the one-second lockout interval, which runs only while
      the form is locked. */
  function Tick(f: Form): (g: Form)
    ensures !f.locked ==> g == f
    ensures f.locked && f.lockoutTime > 1 ==> g == f.(lockoutTime := f.lockoutTime - 1)
    ensures f.locked && f.lockoutTime <= 1 ==>
              && !g.locked && g.attempts == 0 && g.lockoutTime == 0
              && LockoutExpiryKey !in g.storage && AttemptsKey !in g.storage
              && forall k :: k in f.storage && k != LockoutExpiryKey && k != AttemptsKey ==>
                   k in g.storage && g.storage[k] == f.storage[k]
  {
    if !f.locked then f
    else if f.lockoutTime <= 1 then
      f.(locked := false, attempts := 0, lockoutTime := 0,
         storage := f.storage - {LockoutExpiryKey, AttemptsKey})
    else f.(lockoutTime := f.lockoutTime - 1)
  }

  function Ticks(f: Form, k: nat): Form
    decreases k
  {
    if k == 0 then f else Ticks(Tick(f), k - 1)
  }

  /** Locked with `T` seconds shown, the form stays locked through the
      first `T - 1` ticks and unlocks, with a zero counter, on tick `T`. */
  lemma {:induction false} UnlocksOnLastTick(f: Form, k: nat)
    requires f.locked && 1 <= k <= f.lockoutTime
    ensures k < f.lockoutTime ==> Ticks(f, k) == f.(lockoutTime := f.lockoutTime - k)
    ensures k == f.lockoutTime ==> !Ticks(f, k).locked && Ticks(f, k).attempts == 0
    decreases k
  {
    if k > 1 {
      UnlocksOnLastTick(Tick(f), k - 1);
    }
  }

  /** The request the form sends: the trimmed id and the password as typed. */
  datatype Request = Request(studentId: string, password: string)

  /** What the server answered, when asked. */
  datatype Answer = Accepted(token: string, student: Value) | Refused

  datatype Notice =
    | StillLocked(seconds: int)
    | InputError(message: string)
    | Welcome
    | AttemptsRemaining(n: int)
    | LockedFor5Minutes

  datatype Submitted = Submitted(form: Form, sent: Option<Request>, notice: Notice)

  /** The success branch: counter and lockout reset, token, profile and
      login time stored, and the remembered id written or removed. */
  function AfterSuccess(f: Form, now: nat, token: string, student: Value): (g: Form)
    ensures g.attempts == 0 && g.locked == f.locked
    ensures AttemptsKey !in g.storage && LockoutExpiryKey !in g.storage
    ensures TokenKey in g.storage && g.storage[TokenKey] == Text(token)
    ensures InfoKey in g.storage && g.storage[InfoKey] == Record(student)
    ensures LoginTimestampKey in g.storage && g.storage[LoginTimestampKey] == Number(now)
    ensures f.rememberMe ==> SavedCredentialsKey in g.storage && g.storage[SavedCredentialsKey] == Credentials(Text.Trim(f.studentId))
    ensures !f.rememberMe ==> SavedCredentialsKey !in g.storage
  {
    KeysDistinct();
    var st := (f.storage - {AttemptsKey, LockoutExpiryKey})[TokenKey := Text(token)][InfoKey := Record(student)];
    var st' := if f.rememberMe then st[SavedCredentialsKey := Credentials(Text.Trim(f.studentId))]
               else st - {SavedCredentialsKey};
    f.(attempts := 0, storage := st'[LoginTimestampKey := Number(now)])
  }

  /** The failure branch: one more counted failure, stored; the fifth locks
      the form for 300 seconds and stores the expiry, earlier ones report
      how many attempts remain. */
  function AfterFailure(f: Form, now: nat): (r: (Form, Notice))
    ensures r.0.attempts == f.attempts + 1
    ensures AttemptsKey in r.0.storage && r.0.storage[AttemptsKey] == Number(f.attempts + 1)
    ensures r.0.attempts >= MaxAttempts ==>
              && r.0.locked && r.0.lockoutTime == LockoutSeconds
              && LockoutExpiryKey in r.0.storage && r.0.storage[LockoutExpiryKey] == Number(now + LockoutMs)
              && r.1 == LockedFor5Minutes
    ensures r.0.attempts < MaxAttempts ==>
              r.0.locked == f.locked && r.1 == AttemptsRemaining(MaxAttempts - r.0.attempts)
  {
    KeysDistinct();
    var n := f.attempts + 1;
    var st := f.storage[AttemptsKey := Number(n)];
    if n >= MaxAttempts then
      (f.(attempts := n, locked := true, lockoutTime := LockoutSeconds,
          storage := st[LockoutExpiryKey := Number(now + LockoutMs)]), LockedFor5Minutes)
    else (f.(attempts := n, storage := st), AttemptsRemaining(MaxAttempts - n))
  }

  /** `handleSubmit` at time `now`; `answer` is used only when a request
      goes out. */
  function Submit(f: Form, now: nat, answer: Answer): (r: Submitted)
    ensures f.locked ==> r.sent.None? && r.form == f && r.notice == StillLocked(f.lockoutTime)
    ensures r.sent.Some? <==> !f.locked && Validate(f.studentId, f.password).Valid?
    ensures r.sent.Some? ==> r.sent.value == Request(Text.Trim(f.studentId), f.password)
    ensures r.sent.None? ==> r.form == f
    ensures r.sent.Some? && answer.Refused? ==> r.form == AfterFailure(f, now).0
    ensures r.sent.Some? && answer.Accepted? ==> r.form == AfterSuccess(f, now, answer.token, answer.student)
  {
    if f.locked then Submitted(f, None, StillLocked(f.lockoutTime))
    else match Validate(f.studentId, f.password)
      case Invalid(msg) => Submitted(f, None, InputError(msg))
      case Valid =>
        var request := Request(Text.Trim(f.studentId), f.password);
        match answer
        case Accepted(token, student) => Submitted(AfterSuccess(f, now, token, student), Some(request), Welcome)
        case Refused =>
          var after := AfterFailure(f, now);
          Submitted(after.0, Some(request), after.1)
  }

  /** An unlocked form has fewer than five counted failures. */
  predicate Consistent(f: Form) {
    !f.locked ==> f.attempts < MaxAttempts
  }

  /** Every step keeps the counter below five while unlocked, so at most
      five requests fail in a row before the form locks. */
  lemma StepsKeepConsistent(f: Form, now: nat, answer: Answer, st: Storage)
    requires Consistent(f)
    ensures Consistent(Submit(f, now, answer).form)
    ensures Consistent(Tick(f))
    ensures Consistent(Mount(st, now))
  {
  }

  /** A lockout set by the fifth failure is in force after a reload at any
      time within the five minutes, with at most 300 seconds shown. */
  lemma LockoutSurvivesReload(f: Form, now: nat, later: nat)
    requires !f.locked && f.attempts == MaxAttempts - 1 && Validate(f.studentId, f.password).Valid?
    requires now <= later < now + LockoutMs
    ensures var g := Mount(Submit(f, now, Refused).form.storage, later);
            g.locked && 1 <= g.lockoutTime <= LockoutSeconds
  {
  }

  /** After a successful remembered login, the next visit pre-fills the
      trimmed id and ticks the box; without remember-me it pre-fills
      nothing. */
  lemma RememberedIdRoundTrip(f: Form, now: nat, later: nat, token: string, student: Value)
    requires !f.locked && Validate(f.studentId, f.password).Valid?
    ensures var g := Mount(Submit(f, now, Accepted(token, student)).form.storage, later);
            && g.rememberMe == f.rememberMe && !g.locked
            && g.studentId == (if f.rememberMe then Text.Trim(f.studentId) else "")
  {
  }

  /** Any stored JSON document other than `null` ticks the box, even one
      without a `studentId`; text that does not parse, and `null`, do not. */
  lemma AnyDocumentRemembered(st: Storage, now: nat, fields: map<string, Value>)
    requires SavedCredentialsKey in st
    ensures st[SavedCredentialsKey] == Record(Obj(fields)) ==>
              && Mount(st, now).rememberMe
              && Mount(st, now).studentId == (if "studentId" in fields && fields["studentId"].Str?
                                               then fields["studentId"].s else "")
    ensures st[SavedCredentialsKey] == Record(Num(5)) ==> Mount(st, now).rememberMe && Mount(st, now).studentId == ""
    ensures st[SavedCredentialsKey] == Record(Null) ==> !Mount(st, now).rememberMe
    ensures st[SavedCredentialsKey].Text? ==> !Mount(st, now).rememberMe
  {
  }
}
