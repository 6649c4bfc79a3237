/** The admin's student management: account creation with its ordered
    field checks, profile update, attendance upsert, test-result grading,
    and the delete that is meant to cascade to a student's attendance and
    results.

    The tables are sequences of rows in insertion order. A route parameter
    `id` reaches the handlers as a string; `findByPk` matches the row whose
    numeric primary key prints as that string. */
module AdminStudents {

  import opened Js
  import Text

  datatype Student = Student(
    pk: nat,
    studentId: string,
    firstName: string,
    lastName: string,
    email: string,
    passwordHash: Value,
    phone: string,
    course: string,
    batch: string,
    isActive: bool)

  /** The fields responses carry: never the password hash. */
  datatype PublicStudent = PublicStudent(
    pk: nat, studentId: string, firstName: string, lastName: string,
    email: string, course: string, batch: string)

  function Public(s: Student): PublicStudent {
    PublicStudent(s.pk, s.studentId, s.firstName, s.lastName, s.email, s.course, s.batch)
  }

  /** Every column but the password, as `findByPk` with the password
      excluded returns a row. */
  datatype Profile = Profile(
    pk: nat, studentId: string, firstName: string, lastName: string, email: string,
    phone: string, course: string, batch: string, isActive: bool)

  function WithoutPassword(s: Student): Profile {
    Profile(s.pk, s.studentId, s.firstName, s.lastName, s.email, s.phone, s.course, s.batch, s.isActive)
  }

  /** validator's `isEmail` and bcrypt's hash are foreign; so is the
      default the table gives `isActive` when a row is created without it. */
  datatype Env = Env(isEmail: string -> bool, hash: string -> string, activeByDefault: bool)

  datatype Reply<T> = Failure(status: nat, error: string) | Success(status: nat, body: T)

  // ---------------------------------------------------------------------
  // createStudent

  /** The request body of `createStudent`. */
  datatype Body = Body(
    studentId: Value, firstName: Value, lastName: Value, email: Value,
    password: Value, phone: Value, course: Value, batch: Value)

  /** `x ? validator.trim(x) : ''`; `None` when `trim` throws. */
  function Optional(v: Value): (r: Option<string>)
    ensures r.Some? <==> !Truthy(v) || v.Str?
    ensures v.Str? ==> r == Some(Text.Trim(v.s))
  {
    if !Truthy(v) then Some("") else if v.Str? then Some(Text.Trim(v.s)) else None
  }

  /** `v.length`, or `None` for `undefined` (which compares false with any
      number). A string's length counts UTF-16 code units. */
  function JsLength(v: Value): (r: Option<int>)
    ensures v.Str? ==> r == Some(Text.Utf16Length(v.s))
    ensures v.Arr? ==> r == Some(|v.items|)
    ensures v.Undefined? || v.Null? || v.Bool? || v.Num? ==> r.None?
  {
    match v
    case Str(s) => Some(Text.Utf16Length(s))
    case Arr(items) => Some(|items|)
    case Obj(fields) => if "length" in fields && fields["length"].Num? then Some(fields["length"].n) else None
    case _ => None
  }

  /** validator's `isLength(s, { min: lo, max: hi })`, which counts code
      points other than the variation selectors U+FE0E and U+FE0F. */
  predicate LengthBetween(s: string, lo: nat, hi: nat) { lo <= Text.IsLengthCount(s) <= hi }

  /** The fields after trimming (the email also lower-cased; the password
      as sent). */
  datatype Clean = Clean(
    studentId: string, firstName: string, lastName: string, email: string,
    password: Value, phone: string, course: string, batch: string)

  /** The required fields and the trimming: `None` is a 400 for a missing
      field, `Some(None)` the 500 of a `trim` on a value that is not a
      string. */
  function Sanitize(b: Body): (r: Option<Option<Clean>>)
    ensures r.None? <==>
              !Truthy(b.studentId) || !Truthy(b.firstName) || !Truthy(b.lastName) || !Truthy(b.email) || !Truthy(b.password)
    ensures r.Some? && r.value.Some? ==>
              && b.studentId.Str? && b.firstName.Str? && b.lastName.Str? && b.email.Str?
              && Optional(b.phone).Some? && Optional(b.course).Some? && Optional(b.batch).Some?
              && r.value.value == Clean(Text.Trim(b.studentId.s), Text.Trim(b.firstName.s), Text.Trim(b.lastName.s),
                                        Text.Lower(Text.Trim(b.email.s)), b.password,
                                        Optional(b.phone).value, Optional(b.course).value, Optional(b.batch).value)
  {
    if !Truthy(b.studentId) || !Truthy(b.firstName) || !Truthy(b.lastName) || !Truthy(b.email) || !Truthy(b.password) then
      None
    else if !b.studentId.Str? || !b.firstName.Str? || !b.lastName.Str? || !b.email.Str?
         || Optional(b.phone).None? || Optional(b.course).None? || Optional(b.batch).None? then
      Some(None)
    else
      Some(Some(Clean(Text.Trim(b.studentId.s), Text.Trim(b.firstName.s), Text.Trim(b.lastName.s),
                      Text.Lower(Text.Trim(b.email.s)), b.password,
                      Optional(b.phone).value, Optional(b.course).value, Optional(b.batch).value)))
  }

  /** The format checks, in order; `None` when all pass. */
  function CheckFormat(c: Clean, env: Env): (r: Option<string>)
    ensures r.None? <==>
              && env.isEmail(c.email)
              && !(JsLength(c.password).Some? && JsLength(c.password).value < 6)
              && LengthBetween(c.firstName, 2, 50) && LengthBetween(c.lastName, 2, 50)
              && LengthBetween(c.studentId, 3, 20)
              && (c.phone == "" || Text.Utf16Length(c.phone) >= 10)
    ensures !env.isEmail(c.email) ==> r == Some("Invalid email address")
    ensures env.isEmail(c.email) && JsLength(c.password).Some? && JsLength(c.password).value < 6 ==>
              r == Some("Password must be at least 6 characters")
    ensures env.isEmail(c.email) && !(JsLength(c.password).Some? && JsLength(c.password).value < 6)
            && !(LengthBetween(c.firstName, 2, 50) && LengthBetween(c.lastName, 2, 50)) ==>
              r == Some("Names must be 2-50 characters long")
    ensures env.isEmail(c.email) && !(JsLength(c.password).Some? && JsLength(c.password).value < 6)
            && LengthBetween(c.firstName, 2, 50) && LengthBetween(c.lastName, 2, 50)
            && !LengthBetween(c.studentId, 3, 20) ==>
              r == Some("Student ID must be 3-20 characters long")
    ensures env.isEmail(c.email) && !(JsLength(c.password).Some? && JsLength(c.password).value < 6)
            && LengthBetween(c.firstName, 2, 50) && LengthBetween(c.lastName, 2, 50)
            && LengthBetween(c.studentId, 3, 20) && c.phone != "" && Text.Utf16Length(c.phone) < 10 ==>
              r == Some("Phone number must be at least 10 digits")
  {
    if !env.isEmail(c.email) then Some("Invalid email address")
    else if JsLength(c.password).Some? && JsLength(c.password).value < 6 then Some("Password must be at least 6 characters")
    else if !LengthBetween(c.firstName, 2, 50) || !LengthBetween(c.lastName, 2, 50) then Some("Names must be 2-50 characters long")
    else if !LengthBetween(c.studentId, 3, 20) then Some("Student ID must be 3-20 characters long")
    else if c.phone != "" && Text.Utf16Length(c.phone) < 10 then Some("Phone number must be at least 10 digits")
    else None
  }

  predicate HasStudentId(rows: seq<Student>, id: string) {
    exists i :: 0 <= i < |rows| && rows[i].studentId == id
  }

  predicate HasEmail(rows: seq<Student>, email: string) {
    exists i :: 0 <= i < |rows| && rows[i].email == email
  }

  /** The two lookups, the hash (which throws on a password that is not a
      string) and the insert. */
  function Insert(rows: seq<Student>, nextPk: nat, c: Clean, env: Env): (r: (Reply<PublicStudent>, seq<Student>))
    ensures HasStudentId(rows, c.studentId) ==> r == (Failure(400, "Student ID already exists"), rows)
    ensures !HasStudentId(rows, c.studentId) && HasEmail(rows, c.email) ==> r == (Failure(400, "Email already exists"), rows)
    ensures r.0.Success? <==> !HasStudentId(rows, c.studentId) && !HasEmail(rows, c.email) && c.password.Str?
    ensures r.0.Success? ==>
              var s := Student(nextPk, c.studentId, c.firstName, c.lastName, c.email, Str(env.hash(c.password.s)),
                               c.phone, c.course, c.batch, env.activeByDefault);
              r.1 == rows + [s] && r.0 == Success(201, Public(s))
    ensures r.0.Failure? ==> r.1 == rows
  {
    if HasStudentId(rows, c.studentId) then (Failure(400, "Student ID already exists"), rows)
    else if HasEmail(rows, c.email) then (Failure(400, "Email already exists"), rows)
    else if !c.password.Str? then (Failure(500, "Failed to create student"), rows)
    else
      var s := Student(nextPk, c.studentId, c.firstName, c.lastName, c.email, Str(env.hash(c.password.s)),
                       c.phone, c.course, c.batch, env.activeByDefault);
      (Success(201, Public(s)), rows + [s])
  }

  /** `createStudent`, the next auto-increment key being `nextPk`. */
  function CreateStudent(rows: seq<Student>, nextPk: nat, b: Body, env: Env): (r: (Reply<PublicStudent>, seq<Student>))
    ensures Sanitize(b).None? ==> r == (Failure(400, "All fields are required"), rows)
    ensures r.0.Success? <==>
              && Sanitize(b).Some? && Sanitize(b).value.Some?
              && CheckFormat(Sanitize(b).value.value, env).None?
              && Insert(rows, nextPk, Sanitize(b).value.value, env).0.Success?
    ensures r.0.Success? ==> r == Insert(rows, nextPk, Sanitize(b).value.value, env)
    ensures r.0.Failure? ==> r.1 == rows
  {
    match Sanitize(b)
    case None => (Failure(400, "All fields are required"), rows)
    case Some(None) => (Failure(500, "Failed to create student"), rows)
    case Some(Some(c)) =>
      match CheckFormat(c, env)
      case Some(msg) => (Failure(400, msg), rows)
      case None => Insert(rows, nextPk, c, env)
  }

  /** No two students share a student id, an email or a key, and every key
      is below the next one to be issued. */
  ghost predicate Unique(rows: seq<Student>, nextPk: nat) {
    && (forall i, j :: 0 <= i < j < |rows| ==>
          rows[i].studentId != rows[j].studentId && rows[i].email != rows[j].email && rows[i].pk != rows[j].pk)
    && (forall i :: 0 <= i < |rows| ==> rows[i].pk < nextPk)
  }

  /** Creation keeps ids, emails and keys unique. */
  lemma CreateKeepsUnique(rows: seq<Student>, nextPk: nat, b: Body, env: Env)
    requires Unique(rows, nextPk)
    ensures var r := CreateStudent(rows, nextPk, b, env);
            Unique(r.1, if r.0.Success? then nextPk + 1 else nextPk)
  {
    var r := CreateStudent(rows, nextPk, b, env);
    if r.0.Success? {
      var c := Sanitize(b).value.value;
      assert r == Insert(rows, nextPk, c, env);
      assert !HasStudentId(rows, c.studentId) && !HasEmail(rows, c.email);
      var s := r.1[|rows|];
      assert r.1 == rows + [s] && s.studentId == c.studentId && s.email == c.email && s.pk == nextPk;
      forall i | 0 <= i < |rows|
        ensures rows[i].studentId != s.studentId && rows[i].email != s.email && rows[i].pk != s.pk
      {
      }
    }
  }

  // ---------------------------------------------------------------------
  // updateStudent

  /** The body of `updateStudent`, as far as its keys name columns: each
      present or not. The primary key and the active flag are columns like
      any other; the password is whatever value was sent. */
  datatype Patch = Patch(
    pk: Option<nat>, studentId: Option<string>, firstName: Option<string>, lastName: Option<string>,
    email: Option<string>, password: Option<Value>, phone: Option<string>,
    course: Option<string>, batch: Option<string>, isActive: Option<bool>)

  const NoChange := Patch(None, None, None, None, None, None, None, None, None, None)

  const UpdateFailed := "Failed to update student"

  function Or<T>(o: Option<T>, d: T): T {
    if o.Some? then o.value else d
  }

  /** `bcrypt.hash` accepts what it is given: the password is absent,
      falsy (and so not hashed), or a string. */
  predicate Hashable(p: Patch) {
    p.password.None? || !Truthy(p.password.value) || p.password.value.Str?
  }

  /** One row after the update: each column named in the body takes the
      body's value, a truthy password hashed first. */
  function ApplyPatch(s: Student, p: Patch, env: Env): (r: Student)
    requires Hashable(p)
    ensures r.pk == Or(p.pk, s.pk) && r.isActive == Or(p.isActive, s.isActive)
    ensures r.studentId == Or(p.studentId, s.studentId) && r.email == Or(p.email, s.email)
    ensures r.firstName == Or(p.firstName, s.firstName) && r.lastName == Or(p.lastName, s.lastName)
    ensures r.phone == Or(p.phone, s.phone) && r.course == Or(p.course, s.course) && r.batch == Or(p.batch, s.batch)
    ensures p.password.Some? && Truthy(p.password.value) ==> r.passwordHash == Str(env.hash(p.password.value.s))
    ensures p.password.Some? && !Truthy(p.password.value) ==> r.passwordHash == p.password.value
    ensures p.password.None? ==> r.passwordHash == s.passwordHash
  {
    var pw := if p.password.Some? && Truthy(p.password.value) then Some(Str(env.hash(p.password.value.s))) else p.password;
    Student(Or(p.pk, s.pk), Or(p.studentId, s.studentId), Or(p.firstName, s.firstName), Or(p.lastName, s.lastName),
            Or(p.email, s.email), Or(pw, s.passwordHash), Or(p.phone, s.phone), Or(p.course, s.course),
            Or(p.batch, s.batch), Or(p.isActive, s.isActive))
  }

  /** An empty body changes nothing, and a body without a password does
      nothing more the second time. */
  lemma PatchIdempotent(s: Student, p: Patch, env: Env)
    requires Hashable(p)
    ensures ApplyPatch(s, NoChange, env) == s
    ensures p.password.None? || !Truthy(p.password.value) ==> ApplyPatch(ApplyPatch(s, p, env), p, env) == ApplyPatch(s, p, env)
  {
  }

  function FindByPk(rows: seq<Student>, id: string): (r: Option<nat>)
    ensures r.Some? ==> r.value < |rows| && Text.Decimal(rows[r.value].pk) == id
    ensures r.None? ==> forall i :: 0 <= i < |rows| ==> Text.Decimal(rows[i].pk) != id
  {
    if rows == [] then None
    else if Text.Decimal(rows[0].pk) == id then Some(0)
    else match FindByPk(rows[1..], id)
      case None => None
      case Some(i) => Some(i + 1)
  }

  /** The primary key constraint the database enforces on every write. */
  predicate DistinctKeys(rows: seq<Student>) {
    forall i, j :: 0 <= i < j < |rows| ==> rows[i].pk != rows[j].pk
  }

  /** With distinct keys, the lookup finds the one row whose key prints as
      `id`. */
  lemma FindByPkUnique(rows: seq<Student>, id: string, i: nat)
    requires DistinctKeys(rows) && i < |rows| && Text.Decimal(rows[i].pk) == id
    ensures FindByPk(rows, id) == Some(i)
  {
    var k := FindByPk(rows, id).value;
    Text.DecimalInjective(rows[k].pk, rows[i].pk);
  }

  /** `Student.update(body, { where: { id } })`: every row whose key prints
      as `id` is patched. */
  function Patched(rows: seq<Student>, id: string, p: Patch, env: Env): (r: seq<Student>)
    requires Hashable(p)
    ensures |r| == |rows|
    ensures forall i :: 0 <= i < |rows| ==>
              r[i] == (if Text.Decimal(rows[i].pk) == id then ApplyPatch(rows[i], p, env) else rows[i])
  {
    seq(|rows|, i requires 0 <= i < |rows| =>
          if Text.Decimal(rows[i].pk) == id then ApplyPatch(rows[i], p, env) else rows[i])
  }

  /** `updateStudent`: the hash throws (500) on a truthy password that is
      not a string, the database refuses (500) a key shared by two rows;
      otherwise 200 with the row `findByPk(id)` finds after the update,
      or `null`. */
  function UpdateStudent(rows: seq<Student>, id: string, p: Patch, env: Env): (r: (Reply<Option<Profile>>, seq<Student>))
    ensures r.0.Success? <==> Hashable(p) && DistinctKeys(Patched(rows, id, p, env))
    ensures r.0.Failure? ==> r == (Failure(500, UpdateFailed), rows)
    ensures r.0.Success? ==>
              && r.0.status == 200
              && r.1 == Patched(rows, id, p, env)
              && (r.0.body.None? <==> FindByPk(r.1, id).None?)
              && (r.0.body.Some? ==> r.0.body.value == WithoutPassword(r.1[FindByPk(r.1, id).value]))
  {
    if !Hashable(p) then (Failure(500, UpdateFailed), rows)
    else
      var updated := Patched(rows, id, p, env);
      if !DistinctKeys(updated) then (Failure(500, UpdateFailed), rows)
      else
        match FindByPk(updated, id)
        case None => (Success(200, None), updated)
        case Some(i) => (Success(200, Some(WithoutPassword(updated[i]))), updated)
  }

  /** A key no row has: 200 with `null`, and nothing changes. */
  lemma UpdateUnknownKey(rows: seq<Student>, id: string, p: Patch, env: Env)
    requires DistinctKeys(rows) && Hashable(p) && FindByPk(rows, id).None?
    ensures UpdateStudent(rows, id, p, env) == (Success(200, None), rows)
  {
    assert Patched(rows, id, p, env) == rows;
  }

  /** Updating a student's own key: the reply is that student's profile
      with every column the body names replaced, the password left out. */
  lemma UpdateShowsPatch(rows: seq<Student>, nextPk: nat, i: nat, p: Patch, env: Env)
    requires Unique(rows, nextPk) && i < |rows| && Hashable(p) && p.pk.None?
    ensures var r := UpdateStudent(rows, Text.Decimal(rows[i].pk), p, env);
            && r.0 == Success(200, Some(WithoutPassword(ApplyPatch(rows[i], p, env))))
            && r.1 == rows[i := ApplyPatch(rows[i], p, env)]
  {
    var id := Text.Decimal(rows[i].pk);
    var u := Patched(rows, id, p, env);
    forall j | 0 <= j < |rows|
      ensures u[j] == (if j == i then ApplyPatch(rows[i], p, env) else rows[j]) && u[j].pk == rows[j].pk
    {
      Text.DecimalInjective(rows[j].pk, rows[i].pk);
    }
    assert u == rows[i := ApplyPatch(rows[i], p, env)];
    FindByPkUnique(u, id, i);
  }

  /** A body that moves the row to a fresh key: 200 with `null`, since
      `findByPk` looks the old key up again. */
  lemma UpdateOfKeyRepliesNull(rows: seq<Student>, nextPk: nat, i: nat, p: Patch, env: Env)
    requires Unique(rows, nextPk) && i < |rows| && Hashable(p)
    requires p.pk.Some? && p.pk.value >= nextPk
    ensures var r := UpdateStudent(rows, Text.Decimal(rows[i].pk), p, env);
            r.0 == Success(200, None) && r.1 == rows[i := ApplyPatch(rows[i], p, env)]
  {
    var id := Text.Decimal(rows[i].pk);
    var u := Patched(rows, id, p, env);
    forall j | 0 <= j < |rows|
      ensures u[j] == (if j == i then ApplyPatch(rows[i], p, env) else rows[j])
      ensures Text.Decimal(u[j].pk) != id
    {
      Text.DecimalInjective(rows[j].pk, rows[i].pk);
      Text.DecimalInjective(u[j].pk, rows[i].pk);
    }
    assert u == rows[i := ApplyPatch(rows[i], p, env)];
  }

  /** A body that names no key, student id or email keeps ids, emails and
      keys unique, and is refused only for a password it cannot hash. */
  lemma UpdateKeepsUnique(rows: seq<Student>, nextPk: nat, id: string, p: Patch, env: Env)
    requires Unique(rows, nextPk)
    requires p.pk.None? && p.studentId.None? && p.email.None?
    ensures var r := UpdateStudent(rows, id, p, env);
            && (r.0.Success? <==> Hashable(p))
            && Unique(r.1, nextPk)
  {
    if Hashable(p) {
      var u := Patched(rows, id, p, env);
      assert forall j :: 0 <= j < |rows| ==>
               u[j].pk == rows[j].pk && u[j].studentId == rows[j].studentId && u[j].email == rows[j].email;
    }
  }

  /** Unlike creation, the update checks no uniqueness: a body giving one
      student another's student id is accepted, and two rows then share it. */
  lemma UpdateAdmitsDuplicateId(rows: seq<Student>, nextPk: nat, i: nat, j: nat, env: Env)
    requires Unique(rows, nextPk) && i < |rows| && j < |rows| && i != j
    ensures var r := UpdateStudent(rows, Text.Decimal(rows[i].pk), NoChange.(studentId := Some(rows[j].studentId)), env);
            && r.0.Success?
            && r.1[i].studentId == r.1[j].studentId
            && !Unique(r.1, nextPk)
  {
    var p := NoChange.(studentId := Some(rows[j].studentId));
    var r := UpdateStudent(rows, Text.Decimal(rows[i].pk), p, env);
    UpdateShowsPatch(rows, nextPk, i, p, env);
    assert r.1[i].studentId == r.1[j].studentId;
    if i < j { assert !Unique(r.1, nextPk); } else { assert !Unique(r.1, nextPk); }
  }

  // ---------------------------------------------------------------------
  // markAttendance

  datatype Attendance = Attendance(studentId: Value, date: Value, status: Value, reason: Value, markedBy: string)

  /** `req.admin?.username || "admin"` */
  function MarkedBy(username: Value): string {
    if username.Str? && username.s != "" then username.s else "admin"
  }

  function FindAttendance(rows: seq<Attendance>, studentId: Value, date: Value): (r: Option<nat>)
    ensures r.Some? ==> r.value < |rows| && rows[r.value].studentId == studentId && rows[r.value].date == date
    ensures r.None? <==> forall i :: 0 <= i < |rows| ==> !(rows[i].studentId == studentId && rows[i].date == date)
  {
    if rows == [] then None
    else if rows[0].studentId == studentId && rows[0].date == date then Some(0)
    else match FindAttendance(rows[1..], studentId, date)
      case None => None
      case Some(i) => Some(i + 1)
  }

  /** `markAttendance`: Sequelize refuses a `where` value of `undefined`,
      so a body without `studentId` or `date` is a 500 and nothing is
      written. Otherwise the record for (student, date) is updated in place
      with 200 if there is one, and a record is appended with 201 if not. */
  function MarkAttendance(rows: seq<Attendance>, studentId: Value, date: Value, status: Value, reason: Value,
                          username: Value): (r: (nat, seq<Attendance>))
    ensures studentId.Undefined? || date.Undefined? ==> r == (500, rows)
    ensures !studentId.Undefined? && !date.Undefined? ==>
              var rec := Attendance(studentId, date, status, reason, MarkedBy(username));
              match FindAttendance(rows, studentId, date)
              case Some(i) => r == (200, rows[i := rec])
              case None => r == (201, rows + [rec])
  {
    if studentId.Undefined? || date.Undefined? then (500, rows)
    else
      var rec := Attendance(studentId, date, status, reason, MarkedBy(username));
      match FindAttendance(rows, studentId, date)
      case Some(i) => (200, rows[i := rec])
      case None => (201, rows + [rec])
  }

  /** At most one record per student and date. */
  ghost predicate OnePerDay(rows: seq<Attendance>) {
    forall i, j :: 0 <= i < j < |rows| ==> !(rows[i].studentId == rows[j].studentId && rows[i].date == rows[j].date)
  }

  /** The upsert keeps one record per student and date, and afterwards the
      record for that pair carries the new status. */
  lemma MarkKeepsOnePerDay(rows: seq<Attendance>, studentId: Value, date: Value, status: Value, reason: Value,
                           username: Value)
    requires OnePerDay(rows)
    ensures var r := MarkAttendance(rows, studentId, date, status, reason, username).1;
            && OnePerDay(r)
            && |r| <= |rows| + 1
    ensures var r := MarkAttendance(rows, studentId, date, status, reason, username).1;
            !studentId.Undefined? && !date.Undefined? ==>
              && FindAttendance(r, studentId, date).Some?
              && r[FindAttendance(r, studentId, date).value].status == status
  {
    var rec := Attendance(studentId, date, status, reason, MarkedBy(username));
    var r := MarkAttendance(rows, studentId, date, status, reason, username).1;
    if studentId.Undefined? || date.Undefined? {
      return;
    }
    match FindAttendance(rows, studentId, date)
    case Some(i) =>
      assert r == rows[i := rec];
      FindAttendanceUnique(r, studentId, date, i);
    case None =>
      assert r == rows + [rec];
      FindAttendanceUnique(r, studentId, date, |rows|);
  }

  /** With one record per student and date, the lookup finds the record
      wherever it is. */
  lemma FindAttendanceUnique(rows: seq<Attendance>, studentId: Value, date: Value, i: nat)
    requires OnePerDay(rows) && i < |rows| && rows[i].studentId == studentId && rows[i].date == date
    ensures FindAttendance(rows, studentId, date) == Some(i)
  {
  }

  // ---------------------------------------------------------------------
  // Grading

  /** A JavaScript number as the percentage computation can produce it. */
  datatype Number = Finite(x: real) | PosInfinity | NegInfinity | NaN

  /** `(obtainedMarks / maxMarks) * 100`, with IEEE division by zero. */
  function Percentage(obtained: real, max: real): (p: Number)
    ensures max != 0.0 ==> p == Finite(obtained / max * 100.0)
    ensures max == 0.0 ==> (p.NaN? <==> obtained == 0.0)
  {
    if max != 0.0 then Finite(obtained / max * 100.0)
    else if obtained > 0.0 then PosInfinity
    else if obtained < 0.0 then NegInfinity
    else NaN
  }

  /** `percentage >= bound`: false for NaN. */
  predicate AtLeast(p: Number, bound: real) {
    match p
    case Finite(x) => x >= bound
    case PosInfinity => true
    case NegInfinity => false
    case NaN => false
  }

  /** The grade bands. */
  function Grade(p: Number): (g: string)
    ensures g == "A+" <==> AtLeast(p, 90.0)
    ensures g == "F" <==> !AtLeast(p, 40.0)
  {
    if AtLeast(p, 90.0) then "A+"
    else if AtLeast(p, 80.0) then "A"
    else if AtLeast(p, 70.0) then "B+"
    else if AtLeast(p, 60.0) then "B"
    else if AtLeast(p, 50.0) then "C"
    else if AtLeast(p, 40.0) then "D"
    else "F"
  }

  /** The position of a grade from F (0) to A+ (6). */
  function Rank(g: string): nat {
    if g == "A+" then 6 else if g == "A" then 5 else if g == "B+" then 4 else if g == "B" then 3
    else if g == "C" then 2 else if g == "D" then 1 else 0
  }

  /** The lower bound of each band: a finite percentage earns grade `g`
      exactly when it reaches the band's floor and not the next one's. */
  function Floor(rank: nat): real {
    if rank == 6 then 90.0 else if rank == 5 then 80.0 else if rank == 4 then 70.0 else if rank == 3 then 60.0
    else if rank == 2 then 50.0 else if rank == 1 then 40.0 else 0.0
  }

  lemma GradeBands(x: real)
    ensures var k := Rank(Grade(Finite(x)));
            && (k > 0 ==> x >= Floor(k))
            && (k < 6 ==> x < Floor(k + 1))
  {
  }

  /** A higher percentage never earns a lower grade. */
  lemma GradeMonotone(x: real, y: real)
    requires x <= y
    ensures Rank(Grade(Finite(x))) <= Rank(Grade(Finite(y)))
  {
    GradeBands(x);
    GradeBands(y);
  }

  datatype TestResult = TestResult(
    pk: nat, studentId: Value, testNumber: Value, subject: Value,
    maxMarks: real, obtainedMarks: real, percentage: Number, grade: string, remarks: Value, addedBy: string)

  /** `addTestResult`: the percentage and grade are derived from the marks. */
  function AddTestResult(rows: seq<TestResult>, nextPk: nat, studentId: Value, testNumber: Value, subject: Value,
                         max: real, obtained: real, remarks: Value, username: Value): (r: (TestResult, seq<TestResult>))
    ensures r.1 == rows + [r.0] && r.0.pk == nextPk
    ensures r.0.grade == Grade(Percentage(obtained, max))
    ensures max > 0.0 && obtained >= 0.9 * max ==> r.0.grade == "A+"
  {
    var p := Percentage(obtained, max);
    var t := TestResult(nextPk, studentId, testNumber, subject, max, obtained, p, Grade(p), remarks, MarkedBy(username));
    (t, rows + [t])
  }

  /** `updateTestResult`: the marks, percentage, grade and remarks of every
      row with that key are replaced; the reply carries the row or `null`. */
  function UpdateTestResult(rows: seq<TestResult>, id: string, max: real, obtained: real, remarks: Value)
    : (r: (Option<TestResult>, seq<TestResult>))
    ensures |r.1| == |rows|
    ensures forall i :: 0 <= i < |rows| ==>
              if Text.Decimal(rows[i].pk) == id then
                r.1[i] == rows[i].(maxMarks := max, obtainedMarks := obtained, percentage := Percentage(obtained, max),
                                   grade := Grade(Percentage(obtained, max)), remarks := remarks)
              else r.1[i] == rows[i]
    ensures r.0.None? <==> FindResult(rows, id).None?
    ensures r.0.None? ==> r.1 == rows
    ensures r.0.Some? ==> r.0.value == r.1[FindResult(rows, id).value]
    ensures r.0.Some? ==> r.0.value.grade == Grade(Percentage(obtained, max))
    ensures FindResult(r.1, id) == FindResult(rows, id)
  {
    var p := Percentage(obtained, max);
    var updated := seq(|rows|, i requires 0 <= i < |rows| =>
      if Text.Decimal(rows[i].pk) == id then
        rows[i].(maxMarks := max, obtainedMarks := obtained, percentage := p, grade := Grade(p), remarks := remarks)
      else rows[i]);
    FindResultSameKeys(updated, rows, id);
    var k := FindResult(updated, id);
    if k.Some? then (Some(updated[k.value]), updated)
    else
      assert updated == rows;
      (None, updated)
  }

  /** The lookup depends on the keys alone: tables whose rows carry the same
      keys in the same order find the same position. */
  lemma {:induction false} FindResultSameKeys(a: seq<TestResult>, b: seq<TestResult>, id: string)
    requires |a| == |b| && forall i :: 0 <= i < |a| ==> a[i].pk == b[i].pk
    ensures FindResult(a, id) == FindResult(b, id)
    decreases |a|
  {
    if a != [] {
      FindResultSameKeys(a[1..], b[1..], id);
    }
  }

  function FindResult(rows: seq<TestResult>, id: string): (r: Option<nat>)
    ensures r.Some? ==> r.value < |rows| && Text.Decimal(rows[r.value].pk) == id
    ensures r.None? ==> forall i :: 0 <= i < |rows| ==> Text.Decimal(rows[i].pk) != id
  {
    if rows == [] then None
    else if Text.Decimal(rows[0].pk) == id then Some(0)
    else match FindResult(rows[1..], id)
      case None => None
      case Some(i) => Some(i + 1)
  }

  /** Adding and updating grade the same marks alike. */
  lemma AddAndUpdateAgree(rows: seq<TestResult>, nextPk: nat, studentId: Value, testNumber: Value, subject: Value,
                          max: real, obtained: real, remarks: Value, username: Value, id: string)
    requires exists i :: 0 <= i < |rows| && Text.Decimal(rows[i].pk) == id
    ensures var u := UpdateTestResult(rows, id, max, obtained, remarks).0;
            u.Some? && u.value.grade
              == AddTestResult(rows, nextPk, studentId, testNumber, subject, max, obtained, remarks, username).0.grade
  {
    var updated := UpdateTestResult(rows, id, max, obtained, remarks).1;
    var i :| 0 <= i < |rows| && Text.Decimal(rows[i].pk) == id;
    FindResultFinds(updated, id, i);
  }

  lemma {:induction false} FindResultFinds(rows: seq<TestResult>, id: string, i: nat)
    requires i < |rows| && Text.Decimal(rows[i].pk) == id
    ensures FindResult(rows, id).Some?
  {
    if Text.Decimal(rows[0].pk) != id {
      FindResultFinds(rows[1..], id, i - 1);
    }
  }

  // ---------------------------------------------------------------------
  // deleteStudent

  datatype Tables = Tables(students: seq<Student>, attendance: seq<Attendance>, results: seq<TestResult>)

  function Without<T(!new)>(rows: seq<T>, drop: T -> bool): (r: seq<T>)
    ensures |r| <= |rows|
    ensures forall x :: x in r <==> x in rows && !drop(x)
  {
    if rows == [] then [] else (if drop(rows[0]) then [] else [rows[0]]) + Without(rows[1..], drop)
  }

  /** `deleteStudent` as written: the related rows are removed by comparing
      their `studentId` with the route's key `id`, not with the student's
      own `studentId`. */
  function DeleteStudent(t: Tables, id: string): (r: (nat, Tables))
    ensures FindByPk(t.students, id).None? <==> r.0 == 404
    ensures r.0 == 404 ==> r.1 == t
    ensures r.0 != 404 ==>
              && r.0 == 200
              && r.1.students == Without(t.students, (s: Student) => Text.Decimal(s.pk) == id)
              && r.1.attendance == Without(t.attendance, (a: Attendance) => a.studentId == Str(id))
              && r.1.results == Without(t.results, (x: TestResult) => x.studentId == Str(id))
  {
    if FindByPk(t.students, id).None? then (404, t)
    else
      (200, Tables(Without(t.students, (s: Student) => Text.Decimal(s.pk) == id),
                   Without(t.attendance, (a: Attendance) => a.studentId == Str(id)),
                   Without(t.results, (x: TestResult) => x.studentId == Str(id))))
  }

  /** Attendance of a student whose code differs from the printed key
      survives that student's deletion. */
  lemma DeleteLeavesOrphans(t: Tables, id: string, a: Attendance)
    requires FindByPk(t.students, id).Some?
    requires a in t.attendance && a.studentId == Str(t.students[FindByPk(t.students, id).value].studentId)
    requires t.students[FindByPk(t.students, id).value].studentId != id
    ensures a in DeleteStudent(t, id).1.attendance
  {
  }

  /** The corrected delete: the related rows go by the deleted student's
      own `studentId`. */
  function DeleteStudentFixed(t: Tables, id: string): (r: (nat, Tables))
    ensures FindByPk(t.students, id).None? <==> r.0 == 404
    ensures r.0 == 404 ==> r.1 == t
    ensures r.0 != 404 ==>
              var code := t.students[FindByPk(t.students, id).value].studentId;
              && r.0 == 200
              && (forall a :: a in r.1.attendance <==> a in t.attendance && a.studentId != Str(code))
              && (forall x :: x in r.1.results <==> x in t.results && x.studentId != Str(code))
              && (forall s :: s in r.1.students <==> s in t.students && Text.Decimal(s.pk) != id)
  {
    match FindByPk(t.students, id)
    case None => (404, t)
    case Some(i) =>
      var code := t.students[i].studentId;
      (200, Tables(Without(t.students, (s: Student) => Text.Decimal(s.pk) == id),
                   Without(t.attendance, (a: Attendance) => a.studentId == Str(code)),
                   Without(t.results, (x: TestResult) => x.studentId == Str(code))))
  }

  /** The corrected delete leaves nothing that names the deleted student,
      and keeps every row of other students. */
  lemma FixedDeleteLeavesNoOrphans(t: Tables, id: string, a: Attendance)
    requires FindByPk(t.students, id).Some?
    requires a in t.attendance
    ensures var code := t.students[FindByPk(t.students, id).value].studentId;
            a in DeleteStudentFixed(t, id).1.attendance <==> a.studentId != Str(code)
  {
  }
}
