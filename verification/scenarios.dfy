/** Sequences of requests against one server, and what the handlers promise across them. */
module Scenarios {
  import opened Wrappers
  import opened Seqs
  import opened Text
  import opened JsNumbers
  import opened Auth
  import opened Registry
  import opened Snapshots
  import opened Backend

  /** Finalizing the same cutoff twice: the second call names the same winners, issues no code,
      and writes no snapshot row; the snapshot is stored at most once. */
  method FinalizeTwice(s: Server, auth: Credentials, cutoff: string, topIn: Option<JsNumber>, now: int, nowIso: string)
    returns (first: FinalizeResult, second: FinalizeResult)
    requires s.Valid() && IsIso(nowIso)
    requires AdminGuard(auth, s.adminToken) && IsIso(cutoff)
    modifies s
    ensures s.Valid()
    ensures first.Finalized? && second.Finalized?
    ensures second.winners == first.winners && second.issuedCount == 0
    ensures s.snapshots == (if HasCutoff(old(s.snapshots), cutoff) then old(s.snapshots)
                            else old(s.snapshots) + SnapshotRows(|old(s.snapshots)|, cutoff, FinalRows(old(s.scores), cutoff, SliceCount(topIn))))
    ensures AwardsIssued(old(s.prizeCodes), s.prizeCodes, first.winners, now, nowIso)
  {
    first := s.Finalize(auth, cutoff, topIn, now, nowIso);
    ghost var snaps := s.snapshots;
    ghost var rows := FinalRows(s.scores, cutoff, SliceCount(topIn));
    if rows != [] {
      assert snaps[|snaps| - 1].cutoffAt == cutoff || HasCutoff(old(s.snapshots), cutoff);
    }
    second := FinalizeAgain(s, auth, cutoff, topIn, now, nowIso);
  }

  /** Finalizing a cutoff once its snapshot is stored (or has no rows) and every winner holds a
      code names the same winners and changes nothing. */
  method FinalizeAgain(s: Server, auth: Credentials, cutoff: string, topIn: Option<JsNumber>, now: int, nowIso: string)
    returns (second: FinalizeResult)
    requires s.Valid() && IsIso(nowIso)
    requires AdminGuard(auth, s.adminToken) && IsIso(cutoff)
    requires HasCutoff(s.snapshots, cutoff) || FinalRows(s.scores, cutoff, SliceCount(topIn)) == []
    requires AllHoldCodes(s.prizeCodes, Take(FinalRows(s.scores, cutoff, SliceCount(topIn)), 3))
    modifies s
    ensures s.Valid()
    ensures second.Finalized? && second.winners == Take(FinalRows(s.scores, cutoff, SliceCount(topIn)), 3)
    ensures second.issuedCount == 0
    ensures s.scores == old(s.scores) && s.prizeCodes == old(s.prizeCodes) &&
            s.snapshots == old(s.snapshots) && s.logs == old(s.logs)
  {
    ghost var codes, snaps, logs := s.prizeCodes, s.snapshots, s.logs;
    second := s.Finalize(auth, cutoff, topIn, now, nowIso);
    NothingNew(codes, s.prizeCodes, second.winners, logs, s.logs, snaps, s.snapshots, cutoff,
               FinalRows(s.scores, cutoff, SliceCount(topIn)), now, nowIso);
  }

  /** A code redeemed once cannot be redeemed again: the second attempt reports it used. */
  method SecondRedemptionFails(s: Server, auth: Credentials, code: string, usedBy: string, now: int, later: int, nowIso: string)
    returns (first: UseResult, second: UseResult)
    requires s.Valid() && IsIso(nowIso)
    modifies s
    ensures s.Valid()
    ensures first.Redeemed? ==> second.AlreadyUsed?
  {
    first := s.UseCode(auth, code, usedBy, now, nowIso);
    second := s.UseCode(auth, code, usedBy, later, nowIso);
  }

  /** A code issued by issue-code and then looked up by verify-code, when no earlier record
      holds the same code, is valid for its player and rank until it expires a week later. */
  method IssueThenVerify(s: Server, auth: Credentials, playerId: string, rank: int, now: int, t: int, nowIso: string)
    returns (issued: IssueResult, checked: Option<VerifyResult>)
    requires s.Valid() && IsIso(nowIso)
    modifies s
    ensures s.Valid()
    ensures issued.Issued? && CodeIndex(old(s.prizeCodes), issued.code) == |old(s.prizeCodes)| ==>
      checked == Some(Checked(if t <= now + Week then CodeStatus.Valid(rank, playerId, now + Week)
                         else CodeStatus.Expired(rank, playerId)))
  {
    ghost var codes := s.prizeCodes;
    ghost var draws;
    issued, draws := s.IssueCode(auth, playerId, Int(rank), now, nowIso);
    checked := None;
    if issued.Issued? {
      checked := Some(s.VerifyCode(auth, issued.code, t));
      if CodeIndex(codes, issued.code) == |codes| {
        FreshCodeLifetime(codes, issued.code, rank, playerId, nowIso, now, t);
      }
    }
  }
}
