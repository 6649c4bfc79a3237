/** The browser's `localStorage` as the student portal uses it: a map from
    key to the kind of string stored there, and the keys the portal's
    session code owns. */
module Browser {

  import opened Js

  /** The string a key holds, classified by how the portal reads it back. */
  datatype Stored =
    | Text(s: string)                 // a token, or any other text that `JSON.parse` rejects
    | Number(n: int)                  // `n.toString()`
    | Credentials(studentId: string)  // `JSON.stringify({ studentId })`
    | Record(v: Value)                // `JSON.stringify(v)` of any other value

  /** `JSON.parse` of the stored text: `None` when it throws. A value
      without JSON text (`undefined`) is stored as the text "undefined". */
  function ParseJson(x: Stored): (r: Option<Value>)
    ensures r.Some? ==> !r.value.Undefined?
    ensures x.Credentials? ==> r == Some(Obj(map["studentId" := Str(x.studentId)]))
  {
    match x
    case Text(_) => None
    case Number(n) => Some(Num(n))
    case Credentials(id) => Some(Obj(map["studentId" := Str(id)]))
    case Record(v) => if v.Undefined? then None else Some(v)
  }

  /** `parseInt` of the stored text. Of JSON text only a number's reads
      as a number; quotes, brackets, braces and literals read as NaN. */
  function ParseNumber(x: Stored): (r: Option<int>)
    ensures x.Number? ==> r == Some(x.n)
    ensures x.Text? ==> r == ParseInt(x.s)
    ensures x.Credentials? ==> r.None?
  {
    match x
    case Text(s) => ParseInt(s)
    case Number(n) => Some(n)
    case Credentials(_) => None
    case Record(v) => if v.Num? then Some(v.n) else None
  }

  type Storage = map<string, Stored>

  const TokenKey := "studentToken"
  const InfoKey := "studentInfo"
  const LoginTimestampKey := "loginTimestamp"
  const LastActivityKey := "lastActivityTime"
  const SavedCredentialsKey := "savedStudentCredentials"
  const LockoutExpiryKey := "studentLockoutExpiry"
  const AttemptsKey := "loginAttempts"

  /** The portal's keys are pairwise distinct (their lengths already
      differ). */
  lemma KeysDistinct()
    ensures |{TokenKey, InfoKey, LoginTimestampKey, LastActivityKey,
              SavedCredentialsKey, LockoutExpiryKey, AttemptsKey}| == 7
  {
    assert |TokenKey| == 12 && |InfoKey| == 11 && |LoginTimestampKey| == 14 && |LastActivityKey| == 16;
    assert |SavedCredentialsKey| == 23 && |LockoutExpiryKey| == 20 && |AttemptsKey| == 13;
  }

  /** The four keys that make up a logged-in session on the client. */
  const SessionKeys: set<string> := {TokenKey, InfoKey, LoginTimestampKey, LastActivityKey}

  /** `!!localStorage.getItem(key)`: present and not the empty string. */
  predicate Present(st: Storage, key: string) {
    key in st && st[key] != Text("")
  }

  /** `parseInt(localStorage.getItem(key) || Date.now())`: `None` stands
      for NaN. Text with a numeric start reads as that number. */
  function ReadTime(st: Storage, key: string, now: nat): (r: Option<int>)
    ensures !Present(st, key) ==> r == Some(now)
    ensures key in st && st[key].Number? ==> r == Some(st[key].n)
    ensures Present(st, key) && st[key].Text? ==> r == ParseInt(st[key].s)
    ensures Present(st, key) && (st[key].Credentials? || (st[key].Record? && !st[key].v.Num?)) ==> r.None?
  {
    if !Present(st, key) then Some(now) else ParseNumber(st[key])
  }

  /** A stored time with trailing text still reads as its leading number,
      and a token reads as NaN. */
  lemma ReadTimeOfText(st: Storage, key: string, now: nat)
    ensures key in st && st[key] == Text("12abc") ==> ReadTime(st, key, now) == Some(12)
    ensures key in st && st[key] == Text("abc") ==> ReadTime(st, key, now).None?
  {
    ParseIntExamples();
  }

  /** Removes the session keys; every other key keeps its value. */
  function ClearSession(st: Storage): (r: Storage)
    ensures forall k :: k in SessionKeys ==> k !in r
    ensures forall k :: k in st && k !in SessionKeys ==> k in r && r[k] == st[k]
    ensures r.Keys <= st.Keys
  {
    st - SessionKeys
  }
}
