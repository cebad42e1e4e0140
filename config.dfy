/**
 * The configuration page's rules (app/handlers/config.go): the MAX_AGE
 * setting and the validation chain of the toggle-domain endpoint, which
 * hands a valid domain to the referer store's toggle.  Reading the body
 * and decoding the JSON are inputs: their failure, or the decoded domain.
 */
module Config {
  import opened Wrappers
  import opened GoStrings
  import opened RefererTable
  import opened RefererDb

  const DefaultMaxAge: int := 86400

  /** The prefix of the reply to a toggle that the store reports as failed. */
  const ToggleFailed: string := "Failed to toggle domain status: "

  /** MAX_AGE: a non-negative integer is taken as it is; unset, non-integer or negative gives one day. */
  function MaxAge(env: string): (age: int)
    ensures age >= 0
    ensures Atoi(env).Some? && Atoi(env).value >= 0 ==> age == Atoi(env).value
    ensures Atoi(env).None? || Atoi(env).value < 0 ==> age == DefaultMaxAge
  {
    if env != "" then
      var parsed := Atoi(env);
      if parsed.None? || parsed.value < 0 then DefaultMaxAge else parsed.value
    else DefaultMaxAge
  }

  /** The reply: a plain 405, or the JSON {success, error}. */
  datatype ToggleReply =
    | MethodNotAllowed
    | Json(success: bool, error: string)

  /** Domains that stand for no site and so cannot be toggled. */
  predicate SpecialDomain(domain: string)
  {
    domain == "direct" || domain == "hidden"
  }

  /**
   * The checks ahead of the toggle, in order: POST only, a readable body,
   * valid JSON, a non-empty domain, not a special domain.  The first that
   * fails gives its reply; when all pass there is none and the domain
   * may be toggled.
   */
  function ToggleRejection(httpMethod: string, body: Option<string>, decoded: Option<string>): (r: Option<ToggleReply>)
    ensures httpMethod != "POST" ==> r == Some(MethodNotAllowed)
    ensures httpMethod == "POST" && body.None? ==> r == Some(Json(false, "Failed to read request body"))
    ensures httpMethod == "POST" && body.Some? && decoded.None? ==> r == Some(Json(false, "Invalid JSON"))
    ensures httpMethod == "POST" && body.Some? && decoded == Some("") ==> r == Some(Json(false, "Domain is required"))
    ensures httpMethod == "POST" && body.Some? && decoded.Some? && SpecialDomain(decoded.value) ==>
              r == Some(Json(false, "Cannot toggle status for special domains"))
    ensures r.None? <==> httpMethod == "POST" && body.Some? && decoded.Some? && decoded.value != "" && !SpecialDomain(decoded.value)
    ensures r.Some? && r.value.Json? ==> !r.value.success
  {
    if httpMethod != "POST" then Some(MethodNotAllowed)
    else if body.None? then Some(Json(false, "Failed to read request body"))
    else if decoded.None? then Some(Json(false, "Invalid JSON"))
    else if decoded.value == "" then Some(Json(false, "Domain is required"))
    else if SpecialDomain(decoded.value) then Some(Json(false, "Cannot toggle status for special domains"))
    else None
  }

  /**
   * ToggleDomainHandler: a rejected request leaves the table alone; an
   * accepted one toggles the domain once, and succeeds exactly when the
   * toggle reports no error.
   */
  method ToggleDomainHandler(store: Store, httpMethod: string, body: Option<string>, decoded: Option<string>,
                             outcome: Retry.AttemptOutcome)
    returns (reply: ToggleReply, ghost toggled: bool)
    requires store.Valid()
    modifies store
    ensures store.Valid()
    ensures toggled <==> ToggleRejection(httpMethod, body, decoded).None?
    ensures !toggled ==> reply == ToggleRejection(httpMethod, body, decoded).value && store.rows == old(store.rows)
    ensures toggled && outcome.Runs? ==> reply == Json(true, "") && store.rows == Toggle(old(store.rows), decoded.value)
    ensures toggled && outcome.FailsWith? ==>
              && reply == Json(false, ToggleFailed + (ToggleError + outcome.error))
              && store.rows == old(store.rows)
  {
    var rejection := ToggleRejection(httpMethod, body, decoded);
    if rejection.Some? {
      return rejection.value, false;
    }
    toggled := true;
    var err := ToggleDomainStatus(store, outcome, decoded.value);
    if err.Some? {
      reply := Json(false, ToggleFailed + err.value);
    } else {
      reply := Json(true, "");
    }
  }
}
