/** Lead capture from the site's popup form, and the single-row switch
    that turns the popup (and the capture endpoint) on and off. */
module Leads {

  import opened Js
  import Text

  datatype Lead = Lead(id: nat, name: string, phone: string, createdAt: nat)

  /** The switch row (id 1): absent, or present with its flag. */
  type Config = Option<bool>

  datatype Reply = Failure(status: nat, error: string) | Created(lead: Lead)

  /** `/^\d{10}$/`, where `\d` is an ASCII digit; also the column's own
      validation rule. */
  predicate TenDigits(s: string) {
    |s| == 10 && Text.AllDigits(s)
  }

  /** `isLength(name, {min: 2, max: 50})` and `/^[a-zA-Z\s]+$/`. */
  predicate GoodName(s: string) {
    2 <= Text.IsLengthCount(s) <= 50 && Text.LettersAndSpaces(s)
  }

  /** The validation of the body: the trimmed name and phone, or the
      failure. */
  function CheckBody(name: Value, phone: Value): (r: Result)
    ensures r.Valid? <==>
              && name.Str? && phone.Str? && name.s != "" && phone.s != ""
              && GoodName(Text.Trim(name.s)) && TenDigits(Text.Trim(phone.s))
    ensures r.Valid? ==> r.name == Text.Trim(name.s) && r.phone == Text.Trim(phone.s)
    ensures !Truthy(name) || !Truthy(phone) ==> r == Invalid(Failure(400, "Name and phone are required."))
  {
    if !Truthy(name) || !Truthy(phone) then Invalid(Failure(400, "Name and phone are required."))
    else if !name.Str? || !phone.Str? then Invalid(Failure(500, "Server error while creating lead."))
    else
      var n := Text.Trim(name.s);
      var p := Text.Trim(phone.s);
      if !GoodName(n) then Invalid(Failure(400, "Name must be 2-50 characters with letters and spaces only."))
      else if !TenDigits(p) then Invalid(Failure(400, "Phone number must be exactly 10 digits."))
      else Valid(n, p)
  }

  datatype Result = Invalid(failure: Reply) | Valid(name: string, phone: string)

  /** `createLead` at time `now`, the next id being `nextId`. A switch set
      to off refuses before the body is looked at; a missing row counts as
      on. */
  function CreateLead(config: Config, leads: seq<Lead>, nextId: nat, now: nat, name: Value, phone: Value)
    : (r: (Reply, seq<Lead>))
    ensures config == Some(false) ==> r == (Failure(403, "Lead popup is currently disabled."), leads)
    ensures r.0.Created? <==> config != Some(false) && CheckBody(name, phone).Valid?
    ensures r.0.Created? ==>
              && r.0.lead == Lead(nextId, CheckBody(name, phone).name, CheckBody(name, phone).phone, now)
              && r.1 == leads + [r.0.lead]
    ensures !r.0.Created? ==> r.1 == leads
  {
    if config == Some(false) then (Failure(403, "Lead popup is currently disabled."), leads)
    else match CheckBody(name, phone)
      case Invalid(f) => (f, leads)
      case Valid(n, p) =>
        var lead := Lead(nextId, n, p, now);
        (Created(lead), leads + [lead])
  }

  /** Every stored lead has a valid name and a ten-digit phone. */
  ghost predicate AllValid(leads: seq<Lead>) {
    forall i :: 0 <= i < |leads| ==> GoodName(leads[i].name) && TenDigits(leads[i].phone)
  }

  /** The controller's checks are at least as strict as the column's rule,
      so the table only ever holds valid leads. */
  lemma CreateKeepsValid(config: Config, leads: seq<Lead>, nextId: nat, now: nat, name: Value, phone: Value)
    requires AllValid(leads)
    ensures AllValid(CreateLead(config, leads, nextId, now, name, phone).1)
  {
  }

  /** `getPopupConfig`: creates the row switched on when it is missing, and
      reports the flag. */
  function GetPopupConfig(config: Config): (r: (bool, Config))
    ensures r.1.Some? && r.0 == r.1.value
    ensures config.Some? ==> r.1 == config
    ensures config.None? ==> r.0
  {
    match config
    case None => (true, Some(true))
    case Some(b) => (b, config)
  }

  /** Reading twice reads the same and changes nothing more. */
  lemma GetIdempotent(config: Config)
    ensures GetPopupConfig(GetPopupConfig(config).1) == GetPopupConfig(config)
  {
  }

  /** `setPopupConfig`: anything but a boolean is refused with 400 and the
      row left alone; a boolean is stored and echoed. */
  function SetPopupConfig(config: Config, enabled: Value): (r: (Option<bool>, Config))
    ensures r.0.None? <==> !enabled.Bool?
    ensures !enabled.Bool? ==> r.1 == config
    ensures enabled.Bool? ==> r.0 == Some(enabled.b) && r.1 == Some(enabled.b)
  {
    if !enabled.Bool? then (None, config) else (Some(enabled.b), Some(enabled.b))
  }

  /** What was set is what is read back, and the capture endpoint follows
      it. */
  lemma SetThenGet(config: Config, b: bool, leads: seq<Lead>, nextId: nat, now: nat, name: Value, phone: Value)
    ensures GetPopupConfig(SetPopupConfig(config, Bool(b)).1).0 == b
    ensures !b ==> CreateLead(SetPopupConfig(config, Bool(b)).1, leads, nextId, now, name, phone).0.status == 403
    ensures b ==> (CreateLead(SetPopupConfig(config, Bool(b)).1, leads, nextId, now, name, phone).0.Created?
                   <==> CheckBody(name, phone).Valid?)
  {
  }
}
