/** The two admin handlers as server.js:177-221 has them. Both look a code up with
    `db.prepare(...).get(code)` (server.js:185 and 211), a call of the SQL database API; the
    database here is a lowdb `LowSync` (server.js:19-25), which has no `prepare` method, so
    the call throws and Express answers 500 without any change to the database. */
module AsWritten {
  import opened JsNumbers
  import opened Auth
  import opened Registry
  import opened Backend

  /** A handler either answers as the corrected model does or throws (an HTTP 500). */
  datatype Outcome<R> = Answered(response: R) | InternalError

  /** POST /api/issue-code as written: the checks up to server.js:181 run as intended; a player
      without a code reaches the lookup at server.js:185, which throws. */
  function IssueCodeAsWritten(auth: Credentials, adminToken: string, playerId: string, rankIn: JsNumber, codes: seq<PrizeCode>)
    : (r: Outcome<IssueResult>)
    ensures r.InternalError? <==>
      AdminGuard(auth, adminToken) && playerId != [] && IsFinite(rankIn) && OwnerIndex(codes, playerId) == |codes|
    ensures r.Answered? ==> !r.response.Issued?
    ensures r == Answered(IssueResult.Unauthorized) <==> !AdminGuard(auth, adminToken)
  {
    if !AdminGuard(auth, adminToken) then Answered(IssueResult.Unauthorized)
    else if playerId == [] || !IsFinite(rankIn) then Answered(IssueResult.BadRequest)
    else if OwnerIndex(codes, playerId) < |codes| then Answered(AlreadyIssued(codes[OwnerIndex(codes, playerId)].code))
    else InternalError
  }

  /** POST /api/use-code as written: past the guard and the empty-code check, every request
      reaches the lookup at server.js:211, which throws. */
  function UseCodeAsWritten(auth: Credentials, adminToken: string, code: string): (r: Outcome<UseResult>)
    ensures r.InternalError? <==> AdminGuard(auth, adminToken) && code != []
    ensures r.Answered? ==> r.response.Unauthorized? || r.response.BadRequest?
  {
    if !AdminGuard(auth, adminToken) then Answered(UseResult.Unauthorized)
    else if code == [] then Answered(UseResult.BadRequest)
    else InternalError
  }

  /** With the default admin token and an empty registry, issuing a code for "alice" fails,
      where `Backend.Server.IssueCode` issues one. */
  lemma NewPlayerGetsNoCode()
    ensures IssueCodeAsWritten(Credentials("changeme", ""), "changeme", "alice", Int(1), []) == InternalError
  {
  }

  /** A registry holding one unused, unexpired code: verify-code calls it valid, yet use-code
      fails on it, where `Backend.Server.UseCode` redeems it. */
  lemma ValidCodeCannotBeRedeemed()
    ensures var codes := [Fresh("DRM-2345", 1, "alice", "2025-01-01T00:00:00.000Z", 0)];
      Status(codes, "DRM-2345", 0) == CodeStatus.Valid(1, "alice", Week) &&
      UseCodeAsWritten(Credentials("changeme", ""), "changeme", "DRM-2345") == InternalError
  {
    var codes := [Fresh("DRM-2345", 1, "alice", "2025-01-01T00:00:00.000Z", 0)];
    assert CodeIndex(codes, "DRM-2345") == 0;
  }
}
