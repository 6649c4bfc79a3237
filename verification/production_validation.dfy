/** The start-up check of the production environment: every required
    variable set, and a JWT secret long enough. A failing check ends the
    process with exit code 1. */
module ProductionValidation {

  import Text

  const RequiredVars: seq<string> := ["DB_HOST", "DB_PORT", "DB_USER", "DB_PASSWORD", "DB_NAME", "JWT_SECRET", "NODE_ENV"]

  const MinSecretLength: nat := 32

  /** The process environment: an absent name is unset. */
  type Env = map<string, string>

  /** `process.env[name]` is truthy. */
  predicate IsSet(env: Env, name: string) {
    name in env && env[name] != ""
  }

  /** `JWT_SECRET` is set and its `length` (UTF-16 code units) is at
      least 32. */
  predicate StrongSecret(env: Env) {
    IsSet(env, "JWT_SECRET") && Text.Utf16Length(env["JWT_SECRET"]) >= MinSecretLength
  }

  /** The names in `names` that are not set, in order. */
  function Missing(env: Env, names: seq<string>): (r: seq<string>)
    ensures forall v :: v in r <==> v in names && !IsSet(env, v)
    ensures |r| <= |names|
  {
    if names == [] then []
    else
      var rest := Missing(env, names[1..]);
      assert forall v :: v in names <==> v == names[0] || v in names[1..];
      if IsSet(env, names[0]) then rest else [names[0]] + rest
  }

  datatype Outcome =
    | Passed                              // returns true
    | MissingVars(names: seq<string>)     // exit(1), listing them
    | WeakSecret                          // exit(1)
    | IncompleteDatabase                  // exit(1)

  /** `validateProductionConfig` */
  function Validate(env: Env): (r: Outcome)
    ensures r.MissingVars? ==> r.names != [] && forall v :: v in r.names <==> v in RequiredVars && !IsSet(env, v)
    ensures r.MissingVars? <==> exists v :: v in RequiredVars && !IsSet(env, v)
    ensures r.WeakSecret? <==> (forall v :: v in RequiredVars ==> IsSet(env, v)) && !StrongSecret(env)
  {
    var missing := Missing(env, RequiredVars);
    assert "JWT_SECRET" in RequiredVars;
    assert |missing| > 0 ==> missing[0] in missing;
    if |missing| > 0 then MissingVars(missing)
    else if IsSet(env, "JWT_SECRET") && Text.Utf16Length(env["JWT_SECRET"]) < MinSecretLength then WeakSecret
    else if !IsSet(env, "DB_HOST") || !IsSet(env, "DB_NAME") then IncompleteDatabase
    else Passed
  }

  /** The check passes exactly when all seven variables are set and the
      secret's `length` is at least 32. */
  lemma PassesIff(env: Env)
    ensures Validate(env) == Passed <==>
              (forall v :: v in RequiredVars ==> IsSet(env, v)) && StrongSecret(env)
  {
    assert "JWT_SECRET" in RequiredVars && "DB_HOST" in RequiredVars && "DB_NAME" in RequiredVars;
    var missing := Missing(env, RequiredVars);
    if |missing| > 0 {
      assert missing[0] in missing;
    }
  }

  /** The database check comes after the check for missing variables,
      which already covers both of its names, so it never fires. */
  lemma DatabaseCheckUnreachable(env: Env)
    ensures !Validate(env).IncompleteDatabase?
  {
    assert "DB_HOST" in RequiredVars && "DB_NAME" in RequiredVars;
    var missing := Missing(env, RequiredVars);
    if !IsSet(env, "DB_HOST") { assert "DB_HOST" in missing; }
    if !IsSet(env, "DB_NAME") { assert "DB_NAME" in missing; }
  }
}
