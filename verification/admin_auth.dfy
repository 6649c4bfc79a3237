/** The admin authentication routes: `/login` and the one-time
    `/create-admin` bootstrap.

    Both handlers normalise the email (trimmed, lower-cased) and the
    password (trimmed) before use. `validator.trim` throws on a value that
    is not a string, which the handlers' `catch` turns into a 500. */
module AdminAuth {

  import opened Js
  import Text

  /** `expiresIn: "8h"`, in seconds. */
  const TokenLifetime: nat := 28800
  const MinNewPassword: nat := 8

  datatype Admin = Admin(
    id: nat,
    email: string,
    passwordHash: string,
    name: string,
    role: string,
    lastActivity: nat,
    isActive: bool)

  /** What a login response carries about an admin: never the password
      hash. */
  datatype PublicAdmin = PublicAdmin(id: nat, email: string, name: string, role: string)

  /** What the bootstrap response carries about the new admin: no role
      either. */
  datatype NewAdminReply = NewAdminReply(id: nat, email: string, name: string)

  datatype Token = Token(id: nat, email: string, role: string, lifetimeSeconds: nat)

  /** Why a request failed; `Message` gives the `error` text sent. */
  datatype Reason =
    | MissingFields | LoginFailed | InvalidEmail | PasswordRequired | InvalidCredentials
    | ShortPassword | BadName | CreateFailed | AdminExists

  function Message(r: Reason): string {
    match r
    case MissingFields => "Email and password are required"
    case LoginFailed => "Login failed"
    case InvalidEmail => "Invalid email format"
    case PasswordRequired => "Password is required"
    case InvalidCredentials => "Invalid credentials"
    case ShortPassword => "Password must be at least 8 characters"
    case BadName => "Name can only contain letters and spaces"
    case CreateFailed => "Failed to create admin"
    case AdminExists => "Admin already exists"
  }

  datatype Response =
    | Failure(status: nat, error: Reason)
    | LoggedIn(token: Token, admin: PublicAdmin)
    | Created(created: NewAdminReply)

  /** The foreign pieces: validator's `isEmail`, bcrypt's compare and hash,
      and whether `JWT_SECRET` is set. */
  datatype Env = Env(
    isEmail: string -> bool,
    passwordMatches: (string, string) -> bool,
    hash: string -> string,
    jwtSecretSet: bool)

  function Public(a: Admin): PublicAdmin {
    PublicAdmin(a.id, a.email, a.name, a.role)
  }

  function NormalEmail(s: string): string {
    Text.Lower(Text.Trim(s))
  }

  /** `Admin.findOne({ where: { email, isActive: true } })`: the first
      active row with that email. */
  function FindActive(rows: seq<Admin>, email: string): (r: Option<nat>)
    ensures r.Some? ==> r.value < |rows| && rows[r.value].email == email && rows[r.value].isActive
    ensures r.Some? ==> forall i :: 0 <= i < r.value ==> !(rows[i].email == email && rows[i].isActive)
    ensures r.None? <==> forall i :: 0 <= i < |rows| ==> !(rows[i].email == email && rows[i].isActive)
  {
    if rows == [] then None
    else if rows[0].email == email && rows[0].isActive then Some(0)
    else match FindActive(rows[1..], email)
      case None => None
      case Some(i) => Some(i + 1)
  }

  /** The field checks of `/login`, in order, before any lookup. */
  function LoginFields(email: Value, password: Value, env: Env): (r: Option<Response>)
    ensures r == Some(Failure(400, MissingFields)) <==> !Truthy(email) || !Truthy(password)
    ensures r.None? ==> email.Str? && password.Str?
    ensures r.Some? ==> r.value.Failure? && r.value.status in {400, 500}
  {
    if !Truthy(email) || !Truthy(password) then Some(Failure(400, MissingFields))
    else if !email.Str? || !password.Str? then Some(Failure(500, LoginFailed))
    else if !env.isEmail(NormalEmail(email.s)) then Some(Failure(400, InvalidEmail))
    else if Text.Utf16Length(Text.Trim(password.s)) < 1 then Some(Failure(400, PasswordRequired))
    else None
  }

  /** The fields pass exactly when both are non-empty strings, the
      normalised email is well formed and the password is not blank. */
  lemma LoginFieldsPass(email: Value, password: Value, env: Env)
    ensures LoginFields(email, password, env).None? <==>
              && email.Str? && password.Str? && email.s != "" && password.s != ""
              && env.isEmail(NormalEmail(email.s)) && Text.Trim(password.s) != ""
  {
    if email.Str? && password.Str? && email.s != "" && password.s != "" {
      assert Truthy(email) && Truthy(password);
    }
  }

  /** `/login` at time `now`: the response and the admin table afterwards
      (a successful password check stamps `lastActivity`, even when the
      missing token secret then turns the reply into a 500). */
  function Login(admins: seq<Admin>, now: nat, email: Value, password: Value, env: Env): (r: (Response, seq<Admin>))
    ensures LoginFields(email, password, env).Some? ==> r == (LoginFields(email, password, env).value, admins)
    ensures |r.1| == |admins|
    ensures r.0.LoggedIn? ==>
              && email.Str? && password.Str?
              && exists i :: 0 <= i < |admins|
                   && admins[i].isActive && admins[i].email == NormalEmail(email.s)
                   && env.passwordMatches(Text.Trim(password.s), admins[i].passwordHash)
                   && r.0.admin == Public(admins[i])
                   && r.0.token == Token(admins[i].id, admins[i].email, admins[i].role, TokenLifetime)
                   && r.1 == admins[i := admins[i].(lastActivity := now)]
    ensures LoginFields(email, password, env).None? ==>
              (r.0 == Failure(401, InvalidCredentials) <==>
                 var f := FindActive(admins, NormalEmail(email.s));
                 f.None? || !env.passwordMatches(Text.Trim(password.s), admins[f.value].passwordHash))
    ensures LoginFields(email, password, env).None? ==>
              var f := FindActive(admins, NormalEmail(email.s));
              f.Some? && env.passwordMatches(Text.Trim(password.s), admins[f.value].passwordHash) ==>
                var a := admins[f.value];
                && r.1 == admins[f.value := a.(lastActivity := now)]
                && (env.jwtSecretSet ==> r.0 == LoggedIn(Token(a.id, a.email, a.role, TokenLifetime), Public(a)))
                && (!env.jwtSecretSet ==> r.0 == Failure(500, LoginFailed))
    ensures r.0.Failure? && r.0.status == 401 ==> r.1 == admins
    ensures !r.0.Created?
  {
    match LoginFields(email, password, env)
    case Some(fail) => (fail, admins)
    case None =>
      var e := NormalEmail(email.s);
      var pw := Text.Trim(password.s);
      match FindActive(admins, e)
      case None => (Failure(401, InvalidCredentials), admins)
      case Some(i) =>
        var a := admins[i];
        if !env.passwordMatches(pw, a.passwordHash) then (Failure(401, InvalidCredentials), admins)
        else
          var stamped := admins[i := a.(lastActivity := now)];
          if !env.jwtSecretSet then (Failure(500, LoginFailed), stamped)
          else (LoggedIn(Token(a.id, a.email, a.role, TokenLifetime), Public(a)), stamped)
  }

  /** A login succeeds exactly when the fields pass, an active admin has
      the email, the password matches and the token secret is set; the
      admin logged in is the one the lookup finds. */
  lemma LoginSucceedsIff(admins: seq<Admin>, now: nat, email: Value, password: Value, env: Env)
    ensures Login(admins, now, email, password, env).0.LoggedIn? <==>
              && LoginFields(email, password, env).None? && email.Str? && password.Str?
              && var f := FindActive(admins, NormalEmail(email.s));
                 && f.Some? && env.passwordMatches(Text.Trim(password.s), admins[f.value].passwordHash)
                 && env.jwtSecretSet
    ensures var r := Login(admins, now, email, password, env);
            r.0.LoggedIn? ==>
              && email.Str? && FindActive(admins, NormalEmail(email.s)).Some?
              && r.0.admin == Public(admins[FindActive(admins, NormalEmail(email.s)).value])
  {
  }

  /** Missing fields are answered before the table is consulted. */
  lemma MissingFieldsSkipLookup(a1: seq<Admin>, a2: seq<Admin>, now: nat, email: Value, password: Value, env: Env)
    requires !Truthy(email) || !Truthy(password)
    ensures Login(a1, now, email, password, env).0 == Login(a2, now, email, password, env).0
    ensures Login(a1, now, email, password, env).0 == Failure(400, MissingFields)
  {
  }

  /** A password of whitespace alone is refused with 400, whatever the
      table holds. */
  lemma BlankPasswordRefused(admins: seq<Admin>, now: nat, email: string, password: string, env: Env)
    requires email != "" && env.isEmail(NormalEmail(email))
    requires password != "" && Text.AllSpace(password)
    ensures Login(admins, now, Str(email), Str(password), env) == (Failure(400, PasswordRequired), admins)
  {
    Text.TrimEmptyIffAllSpace(password);
  }

  /** An email with surrounding blanks or capitals logs in exactly as its
      normal form does. */
  lemma EmailNormalised(admins: seq<Admin>, now: nat, email: string, password: Value, env: Env)
    requires Text.Trim(email) != ""
    ensures Login(admins, now, Str(email), password, env) == Login(admins, now, Str(NormalEmail(email)), password, env)
  {
    NormalEmailIdempotent(email);
  }

  lemma NormalEmailIdempotent(s: string)
    ensures NormalEmail(NormalEmail(s)) == NormalEmail(s)
    ensures |NormalEmail(s)| == |Text.Trim(s)|
  {
    var t := Text.Trim(s);
    var n := Text.Lower(t);
    if n != [] {
      assert !Text.IsSpace(n[0]) && !Text.IsSpace(n[|n| - 1]) by {
        assert n[0] == Text.LowerChar(t[0]) && n[|n| - 1] == Text.LowerChar(t[|t| - 1]);
      }
    }
    Text.TrimOfTrimmed(n);
    Text.LowerIdempotent(t);
  }

  /** An unknown email and a wrong password give the same reply and leave
      the table as it was. */
  lemma UnknownAndWrongPasswordAlike(admins: seq<Admin>, now: nat, email: string, password: string,
                                     unknown: Env, wrong: Env)
    requires unknown.isEmail == wrong.isEmail && unknown.jwtSecretSet == wrong.jwtSecretSet
    requires email != "" && password != "" && unknown.isEmail(NormalEmail(email)) && Text.Trim(password) != ""
    requires FindActive(admins, NormalEmail(email)).Some?
    requires !wrong.passwordMatches(Text.Trim(password), admins[FindActive(admins, NormalEmail(email)).value].passwordHash)
    ensures Login([], now, Str(email), Str(password), unknown).0
         == Login(admins, now, Str(email), Str(password), wrong).0
         == Failure(401, InvalidCredentials)
  {
  }

  /** The field checks of `/create-admin`, in order; the accepted fields
      come back normalised, the name defaulting to "Admin". */
  datatype Fields = Refused(response: Response) | NewAdmin(email: string, password: string, name: string)

  /** `name ? validator.trim(name) : "Admin"` for a name that does not
      make `trim` throw. */
  function GivenName(name: Value): string
    requires !Truthy(name) || name.Str?
  {
    if Truthy(name) then Text.Trim(name.s) else DefaultName
  }

  const DefaultName: string := "Admin"

  /** The format checks on fields that are strings, in order; the
      password's length is `password.length`, in UTF-16 code units. */
  function CheckNew(email: string, password: string, name: string, env: Env): (r: Fields)
    ensures r.NewAdmin? <==>
              env.isEmail(NormalEmail(email)) && Text.Utf16Length(Text.Trim(password)) >= MinNewPassword
              && Text.LettersAndSpaces(name)
    ensures r.NewAdmin? ==> r == NewAdmin(NormalEmail(email), Text.Trim(password), name)
    ensures r.Refused? ==> r.response.Failure? && r.response.status == 400
  {
    if !env.isEmail(NormalEmail(email)) then Refused(Failure(400, InvalidEmail))
    else if Text.Utf16Length(Text.Trim(password)) < MinNewPassword then Refused(Failure(400, ShortPassword))
    else if !Text.LettersAndSpaces(name) then Refused(Failure(400, BadName))
    else NewAdmin(NormalEmail(email), Text.Trim(password), name)
  }

  function CreateFields(email: Value, password: Value, name: Value, env: Env): (r: Fields)
    ensures r.NewAdmin? <==>
              && email.Str? && password.Str? && email.s != "" && password.s != ""
              && (!Truthy(name) || name.Str?)
              && env.isEmail(NormalEmail(email.s))
              && Text.Utf16Length(Text.Trim(password.s)) >= MinNewPassword
              && Text.LettersAndSpaces(GivenName(name))
    ensures r.NewAdmin? ==>
              && r.email == NormalEmail(email.s) && r.password == Text.Trim(password.s)
              && r.name == GivenName(name)
    ensures r.Refused? ==> r.response.Failure? && (r.response.status == 400 || r.response.status == 500)
  {
    if !Truthy(email) || !Truthy(password) then Refused(Failure(400, MissingFields))
    else if !email.Str? || !password.Str? || (Truthy(name) && !name.Str?) then
      Refused(Failure(500, CreateFailed))
    else
      assert email.s != "" && password.s != "";
      CheckNew(email.s, password.s, GivenName(name), env)
  }

  /** `/create-admin` at time `now`, the next auto-increment id being
      `nextId`: an admin is added only when the fields pass and the table is
      empty (an inactive admin counts as existing). */
  function CreateAdmin(admins: seq<Admin>, nextId: nat, now: nat, email: Value, password: Value, name: Value, env: Env)
    : (r: (Response, seq<Admin>))
    ensures r.0.Created? <==> CreateFields(email, password, name, env).NewAdmin? && admins == []
    ensures CreateFields(email, password, name, env).NewAdmin? && admins != [] ==>
              r.0 == Failure(403, AdminExists)
    ensures !r.0.Created? ==> r.1 == admins
    ensures r.0.Created? ==>
              var f := CreateFields(email, password, name, env);
              && r.1 == [Admin(nextId, f.email, env.hash(f.password), f.name, "admin", now, true)]
              && r.0.created == NewAdminReply(nextId, f.email, f.name)
    ensures !r.0.LoggedIn?
  {
    match CreateFields(email, password, name, env)
    case Refused(resp) => (resp, admins)
    case NewAdmin(e, pw, nm) =>
      if admins != [] then (Failure(403, AdminExists), admins)
      else
        var a := Admin(nextId, e, env.hash(pw), nm, "admin", now, true);
        (Created(NewAdminReply(a.id, a.email, a.name)), [a])
  }

  /** A run of `/create-admin` requests, each with its own fields. */
  datatype CreateRequest = CreateRequest(email: Value, password: Value, name: Value)

  function CreateAll(admins: seq<Admin>, nextId: nat, now: nat, reqs: seq<CreateRequest>, env: Env): (r: seq<Admin>)
    ensures admins <= r
    decreases |reqs|
  {
    if reqs == [] then admins
    else
      var r := CreateAdmin(admins, nextId, now, reqs[0].email, reqs[0].password, reqs[0].name, env);
      CreateAll(r.1, if r.0.Created? then nextId + 1 else nextId, now, reqs[1..], env)
  }

  /** However many bootstrap requests arrive, the route creates at most one
      admin, and never touches a non-empty table. */
  lemma {:induction false} AtMostOneAdmin(admins: seq<Admin>, nextId: nat, now: nat, reqs: seq<CreateRequest>, env: Env)
    requires |admins| <= 1
    ensures |CreateAll(admins, nextId, now, reqs, env)| <= 1
    ensures admins != [] ==> CreateAll(admins, nextId, now, reqs, env) == admins
    decreases |reqs|
  {
    if reqs != [] {
      var r := CreateAdmin(admins, nextId, now, reqs[0].email, reqs[0].password, reqs[0].name, env);
      AtMostOneAdmin(r.1, if r.0.Created? then nextId + 1 else nextId, now, reqs[1..], env);
    }
  }
}
