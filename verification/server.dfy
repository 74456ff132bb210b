/** The server's state and its handlers (server.js:13-28, 54-128, 176-278): four collections held
    in memory, changed only by the handlers below, one request at a time. */
module Backend {
  import opened Wrappers
  import opened Seqs
  import opened Text
  import opened Sorting
  import opened JsNumbers
  import opened Codes
  import opened PublicCodes
  import opened Auth
  import opened Ranking
  import opened Registry
  import opened Snapshots

  /** `PUBLIC_SALT` (server.js:36): the environment's value, or the built-in default. */
  function PublicSalt(env: string): (salt: string)
    ensures salt != []
    ensures env != [] ==> salt == env
    ensures env == [] ==> salt == "pub_salt_change_me"
  {
    if env == [] then "pub_salt_change_me" else env
  }

  /** An audit record (server.js:56-64): its id, time, action and player; `detail`, `ip` and
      `ua` are not modelled. */
  datatype LogEntry = LogEntry(id: int, ts: string, action: string, playerId: string)

  /** The body of a score submission after JSON parsing: "" stands for an absent or false
      `player_id`, `ts` or user agent; `score` is `Number(body.score || 0)`. */
  datatype Submission = Submission(playerId: string, score: JsNumber, ts: string, ua: string, ip: string)

  /** The client's timestamp when it holds an ISO timestamp, else the server's clock (server.js:85-86). */
  function TimestampOf(clientTs: string, nowIso: string): (ts: string)
    ensures IsIso(clientTs) ==> ts == clientTs
    ensures !IsIso(clientTs) ==> ts == nowIso
  {
    if clientTs != [] && IsIso(clientTs) then clientTs else nowIso
  }

  datatype SubmitResult =
    | BadRequest
    | Accepted(best: bool, prizeCode: Option<string>, rank: Option<nat>, totalPlayers: nat, pubCode: string)

  datatype IssueResult =
    | Unauthorized
    | BadRequest
    | AlreadyIssued(code: string)
    | Issued(code: string, expiresAt: int)

  datatype VerifyResult =
    | Unauthorized
    | BadRequest
    | Checked(status: CodeStatus)

  datatype UseResult =
    | Unauthorized
    | BadRequest
    | NotFound
    | AlreadyUsed
    | Expired
    | Redeemed(usedAt: string)

  datatype FinalizeResult =
    | Unauthorized
    | BadCutoff
    | Finalized(cutoff: string, winners: seq<PlayerBest>, issuedCount: nat)

  datatype WinnersResult =
    | Unauthorized
    | BadCutoff
    | Listed(cutoff: string, winners: seq<SnapshotRow>)

  /** The positions among `winners` of the players that hold no code in `codes`, in order: the
      winners finalize issues codes to (server.js:254-265). */
  function Unawarded(codes: seq<PrizeCode>, winners: seq<PlayerBest>): (u: seq<nat>)
    ensures forall k :: 0 <= k < |u| ==> u[k] < |winners| && OwnerIndex(codes, winners[u[k]].playerId) == |codes|
    ensures forall i :: 0 <= i < |winners| && OwnerIndex(codes, winners[i].playerId) == |codes| ==> i in u
    ensures forall k, l :: 0 <= k < l < |u| ==> u[k] < u[l]
  {
    if winners == [] then []
    else
      var n := |winners| - 1;
      var u := Unawarded(codes, winners[..n]);
      assert forall i :: 0 <= i < n ==> winners[..n][i] == winners[i];
      u + (if OwnerIndex(codes, winners[n].playerId) == |codes| then [n] else [])
  }

  /** With the new entry in the log, its score is the player's best exactly when no entry of
      the player scores higher (server.js:99-102). */
  lemma BestIsMax(log: seq<ScoreEntry>, k: nat)
    requires k < |log| && log[k].score >= 0
    ensures PersonalBest(log, log[k].playerId) == log[k].score <==>
      forall j :: 0 <= j < |log| && log[j].playerId == log[k].playerId ==> log[j].score <= log[k].score
  {
  }

  /** The submitter always has a row in the ranking of a log holding their entry (server.js:123-124),
      and the ranking has one row per distinct player (server.js:125). */
  lemma SubmitterIsRanked(log: seq<ScoreEntry>, k: nat)
    requires k < |log|
    ensures PlayerIndex(Rank(log), log[k].playerId) < |Rank(log)|
    ensures |Rank(log)| == |PlayerSet(log)|
  {
    RankCovers(log);
    RankSize(log);
    var ps := Players(Rank(log));
    assert log[k].playerId in ps;
  }

  /** The response to an accepted submission (server.js:99-127), computed over the log that ends
      with the new entry. */
  function Standing(log: seq<ScoreEntry>, codes: seq<PrizeCode>, pubCode: string): SubmitResult
    requires |log| > 0
  {
    var playerId := log[|log| - 1].playerId;
    var ranked := Rank(log);
    var idx := PlayerIndex(ranked, playerId);
    var rank := if idx < |ranked| then Some(idx + 1) else None;
    Accepted(PersonalBest(log, playerId) == log[|log| - 1].score, CodeOrNull(LatestCode(codes, playerId)), rank, |ranked|, pubCode)
  }

  /** What the response says: `best` is true exactly when no entry of the player scores higher;
      `rank` is never null and is the player's 1-based position in the best-per-player ranking
      of the whole log; `total_players` counts the distinct players; the prize code is that of
      the player's latest record. */
  lemma StandingMeaning(log: seq<ScoreEntry>, codes: seq<PrizeCode>, pubCode: string)
    requires |log| > 0 && log[|log| - 1].score >= 0
    ensures var r, playerId, score := Standing(log, codes, pubCode), log[|log| - 1].playerId, log[|log| - 1].score;
      r.Accepted? &&
      (r.best <==> forall k :: 0 <= k < |log| && log[k].playerId == playerId ==> log[k].score <= score) &&
      r.rank.Some? && 1 <= r.rank.value <= |Rank(log)| && Rank(log)[r.rank.value - 1].playerId == playerId &&
      r.totalPlayers == |PlayerSet(log)| &&
      r.prizeCode == CodeOrNull(LatestCode(codes, playerId)) &&
      r.pubCode == pubCode
  {
    BestIsMax(log, |log| - 1);
    SubmitterIsRanked(log, |log| - 1);
  }

  /** `logs` is `logs0` followed by one "issue_code_finalize" record, with the next ids, for
      each record `codes` holds beyond `before`. */
  ghost predicate LoggedAwards(logs0: seq<LogEntry>, logs: seq<LogEntry>, before: seq<PrizeCode>, codes: seq<PrizeCode>, nowIso: string)
    requires |before| <= |codes|
  {
    |logs| == |logs0| + |codes| - |before| && logs[..|logs0|] == logs0 &&
    forall j :: |logs0| <= j < |logs| ==>
      logs[j] == LogEntry(j + 1, nowIso, "issue_code_finalize", codes[|before| + j - |logs0|].playerId)
  }

  /** One more issued record and its audit record keep the log in step with the registry. */
  lemma LoggedAwardsStep(logs0: seq<LogEntry>, logs: seq<LogEntry>, before: seq<PrizeCode>, codes: seq<PrizeCode>, c: PrizeCode, nowIso: string)
    requires |before| <= |codes| && LoggedAwards(logs0, logs, before, codes, nowIso)
    ensures LoggedAwards(logs0, logs + [LogEntry(|logs| + 1, nowIso, "issue_code_finalize", c.playerId)], before, codes + [c], nowIso)
  {
    var logs', codes' := logs + [LogEntry(|logs| + 1, nowIso, "issue_code_finalize", c.playerId)], codes + [c];
    assert logs'[..|logs0|] == logs[..|logs0|];
    forall j | |logs0| <= j < |logs'|
      ensures logs'[j] == LogEntry(j + 1, nowIso, "issue_code_finalize", codes'[|before| + j - |logs0|].playerId)
    {
      if j < |logs| {
        assert codes'[|before| + j - |logs0|] == codes[|before| + j - |logs0|];
      }
    }
  }

  /** `after` is `before` followed by one fresh record per position in `u`, in order, each for
      the winner at that position and ranked by it. */
  ghost predicate AwardedRecords(before: seq<PrizeCode>, after: seq<PrizeCode>, winners: seq<PlayerBest>, u: seq<nat>, now: int, nowIso: string)
  {
    |after| == |before| + |u| && after[..|before|] == before &&
    forall k :: 0 <= k < |u| ==>
      u[k] < |winners| && IsPrizeCode(after[|before| + k].code) &&
      after[|before| + k] == Fresh(after[|before| + k].code, u[k] + 1, winners[u[k]].playerId, nowIso, now)
  }

  /** Every winner holds a code in `codes`. */
  ghost predicate AllHoldCodes(codes: seq<PrizeCode>, winners: seq<PlayerBest>)
  {
    forall i :: 0 <= i < |winners| ==> OwnerIndex(codes, winners[i].playerId) < |codes|
  }

  /** What finalize's issuing loop leaves in `after`, starting from `before`: one fresh record
      for each winner without a code, in winner order, ranked by the winner's position; and
      every winner holding a code. */
  ghost predicate AwardsIssued(before: seq<PrizeCode>, after: seq<PrizeCode>, winners: seq<PlayerBest>, now: int, nowIso: string)
  {
    AwardedRecords(before, after, winners, Unawarded(before, winners), now, nowIso) && AllHoldCodes(after, winners)
  }

  /** A player has no record in `a + b` exactly when they have none in `a` and none in `b`. */
  lemma OwnerIndexAppend(a: seq<PrizeCode>, b: seq<PrizeCode>, p: string)
    ensures OwnerIndex(a + b, p) == |a + b| <==>
      OwnerIndex(a, p) == |a| && forall k :: 0 <= k < |b| ==> b[k].playerId != p
  {
    IndexWhereAppend(a, b, (c: PrizeCode) => c.playerId == p);
    if OwnerIndex(b, p) < |b| {
      assert b[OwnerIndex(b, p)].playerId == p;
    }
  }

  /** Looking at one more winner extends the unawarded positions by that winner's, if they hold
      no code. */
  lemma UnawardedStep(codes: seq<PrizeCode>, winners: seq<PlayerBest>, i: nat)
    requires i < |winners|
    ensures Unawarded(codes, winners[..i + 1]) ==
      Unawarded(codes, winners[..i]) + (if OwnerIndex(codes, winners[i].playerId) == |codes| then [i] else [])
  {
    assert winners[..i + 1][..i] == winners[..i];
  }

  /** Once every winner holds a code there is nobody left to award. */
  lemma NoneUnawarded(codes: seq<PrizeCode>, winners: seq<PlayerBest>)
    requires AllHoldCodes(codes, winners)
    ensures Unawarded(codes, winners) == []
  {
  }

  /** A finalize step whose winners all held codes and whose cutoff was stored (or had no rows)
      adds no record, no audit entry and no snapshot row. */
  lemma NothingNew(before: seq<PrizeCode>, after: seq<PrizeCode>, winners: seq<PlayerBest>,
                   logs0: seq<LogEntry>, logs1: seq<LogEntry>, snaps0: seq<SnapshotRow>, snaps1: seq<SnapshotRow>,
                   cutoff: string, rows: seq<PlayerBest>, now: int, nowIso: string)
    requires AllHoldCodes(before, winners) && AwardsIssued(before, after, winners, now, nowIso)
    requires |before| <= |after| && LoggedAwards(logs0, logs1, before, after, nowIso)
    requires HasCutoff(snaps0, cutoff) || rows == []
    requires snaps1 == if HasCutoff(snaps0, cutoff) then snaps0 else snaps0 + SnapshotRows(|snaps0|, cutoff, rows)
    ensures after == before && logs1 == logs0 && snaps1 == snaps0
    ensures |Unawarded(before, winners)| == 0
  {
    NoneUnawarded(before, winners);
    assert after == after[..|before|];
    assert logs1 == logs1[..|logs0|];
    assert snaps0 + [] == snaps0;
  }

  /** Codes added for earlier winners never belong to a later one, so a winner holds a code in
      the grown registry exactly when they held one before finalize started. */
  lemma AwardedBelongElsewhere(before: seq<PrizeCode>, codes: seq<PrizeCode>, winners: seq<PlayerBest>, i: nat, now: int, nowIso: string)
    requires i < |winners| && OnePerPlayer(winners)
    requires AwardsIssued(before, codes, winners[..i], now, nowIso)
    ensures OwnerIndex(codes, winners[i].playerId) == |codes| <==> OwnerIndex(before, winners[i].playerId) == |before|
  {
    var u := Unawarded(before, winners[..i]);
    var added := codes[|before|..];
    assert codes == before + added;
    forall k | 0 <= k < |added| ensures added[k].playerId != winners[i].playerId {
      assert added[k] == codes[|before| + k];
      assert winners[..i][u[k]] == winners[u[k]];
    }
    OwnerIndexAppend(before, added, winners[i].playerId);
  }

  /** Growing the registry keeps every earlier winner's code, and the next winner holds one
      once it is in the grown registry. */
  lemma HoldStep(codes: seq<PrizeCode>, after: seq<PrizeCode>, winners: seq<PlayerBest>, i: nat)
    requires i < |winners| && AllHoldCodes(codes, winners[..i])
    requires |codes| <= |after| && after[..|codes|] == codes
    requires OwnerIndex(after, winners[i].playerId) < |after|
    ensures AllHoldCodes(after, winners[..i + 1])
  {
    assert after == codes + after[|codes|..];
    forall j | 0 <= j < i + 1 ensures OwnerIndex(after, winners[j].playerId) < |after| {
      if j < i {
        assert winners[..i][j] == winners[j];
        IndexWhereAppend(codes, after[|codes|..], (c: PrizeCode) => c.playerId == winners[j].playerId);
      }
    }
  }

  /** One more record for winner `i` keeps the records in order, with `i` as the latest
      unawarded position. */
  lemma RecordsAppend(before: seq<PrizeCode>, codes: seq<PrizeCode>, winners: seq<PlayerBest>, i: nat, code: string, now: int, nowIso: string)
    requires i < |winners|
    requires AwardedRecords(before, codes, winners[..i], Unawarded(before, winners[..i]), now, nowIso)
    requires IsPrizeCode(code)
    ensures AwardedRecords(before, codes + [Fresh(code, i + 1, winners[i].playerId, nowIso, now)], winners[..i + 1],
                           Unawarded(before, winners[..i]) + [i], now, nowIso)
  {
    var u := Unawarded(before, winners[..i]);
    var after := codes + [Fresh(code, i + 1, winners[i].playerId, nowIso, now)];
    var u' := u + [i];
    assert after[..|before|] == codes[..|before|];
    forall k | 0 <= k < |u'|
      ensures u'[k] < i + 1 && IsPrizeCode(after[|before| + k].code) &&
        after[|before| + k] == Fresh(after[|before| + k].code, u'[k] + 1, winners[..i + 1][u'[k]].playerId, nowIso, now)
    {
      if k < |u| {
        assert winners[..i + 1][u[k]] == winners[..i][u[k]];
      }
    }
  }

  /** One more record for winner `i`, when they had none, keeps the records in order. */
  lemma RecordsStep(before: seq<PrizeCode>, codes: seq<PrizeCode>, winners: seq<PlayerBest>, i: nat, code: string, now: int, nowIso: string)
    requires i < |winners|
    requires AwardedRecords(before, codes, winners[..i], Unawarded(before, winners[..i]), now, nowIso)
    requires IsPrizeCode(code) && OwnerIndex(before, winners[i].playerId) == |before|
    ensures AwardedRecords(before, codes + [Fresh(code, i + 1, winners[i].playerId, nowIso, now)], winners[..i + 1],
                           Unawarded(before, winners[..i + 1]), now, nowIso)
  {
    UnawardedStep(before, winners, i);
    RecordsAppend(before, codes, winners, i, code, now, nowIso);
  }

  /** The records of the first `i` winners are the records of the first `i + 1`, when they
      name the same unawarded positions. */
  lemma RecordsKeep(before: seq<PrizeCode>, codes: seq<PrizeCode>, winners: seq<PlayerBest>, i: nat, now: int, nowIso: string)
    requires i < |winners|
    requires AwardedRecords(before, codes, winners[..i], Unawarded(before, winners[..i]), now, nowIso)
    ensures AwardedRecords(before, codes, winners[..i + 1], Unawarded(before, winners[..i]), now, nowIso)
  {
    var u := Unawarded(before, winners[..i]);
    forall k | 0 <= k < |u| ensures winners[..i + 1][u[k]] == winners[..i][u[k]] { }
  }

  /** A winner who already holds a code adds nothing. */
  lemma RecordsSkip(before: seq<PrizeCode>, codes: seq<PrizeCode>, winners: seq<PlayerBest>, i: nat, now: int, nowIso: string)
    requires i < |winners|
    requires AwardedRecords(before, codes, winners[..i], Unawarded(before, winners[..i]), now, nowIso)
    requires OwnerIndex(before, winners[i].playerId) < |before|
    ensures AwardedRecords(before, codes, winners[..i + 1], Unawarded(before, winners[..i + 1]), now, nowIso)
  {
    UnawardedStep(before, winners, i);
    var u := Unawarded(before, winners[..i]);
    assert u + [] == u;
    RecordsKeep(before, codes, winners, i, now, nowIso);
  }

  /** A turn of the award loop that issues winner `i` a code keeps the records and the audit
      trail in step with the winners seen so far. */
  lemma AwardedStep(before: seq<PrizeCode>, codes: seq<PrizeCode>, logs0: seq<LogEntry>, logs: seq<LogEntry>,
                    winners: seq<PlayerBest>, i: nat, code: string, now: int, nowIso: string)
    requires i < |winners|
    requires AwardsIssued(before, codes, winners[..i], now, nowIso)
    requires |before| <= |codes| && LoggedAwards(logs0, logs, before, codes, nowIso)
    requires IsPrizeCode(code) && OwnerIndex(before, winners[i].playerId) == |before|
    ensures var c := Fresh(code, i + 1, winners[i].playerId, nowIso, now);
      AwardsIssued(before, codes + [c], winners[..i + 1], now, nowIso) &&
      LoggedAwards(logs0, logs + [LogEntry(|logs| + 1, nowIso, "issue_code_finalize", winners[i].playerId)],
                   before, codes + [c], nowIso)
  {
    var c := Fresh(code, i + 1, winners[i].playerId, nowIso, now);
    RecordsStep(before, codes, winners, i, code, now, nowIso);
    LoggedAwardsStep(logs0, logs, before, codes, c, nowIso);
    assert (codes + [c])[|codes|] == c && (codes + [c])[..|codes|] == codes;
    HoldStep(codes, codes + [c], winners, i);
  }

  /** A turn of the award loop for a winner who held a code before finalize changes nothing
      and keeps the records in step. */
  lemma KeptStep(before: seq<PrizeCode>, codes: seq<PrizeCode>, winners: seq<PlayerBest>, i: nat, now: int, nowIso: string)
    requires i < |winners| && OnePerPlayer(winners)
    requires AwardsIssued(before, codes, winners[..i], now, nowIso)
    requires OwnerIndex(before, winners[i].playerId) < |before|
    ensures AwardsIssued(before, codes, winners[..i + 1], now, nowIso)
  {
    AwardedBelongElsewhere(before, codes, winners, i, now, nowIso);
    RecordsSkip(before, codes, winners, i, now, nowIso);
    assert codes[..|codes|] == codes;
    HoldStep(codes, codes, winners, i);
  }

  /** The ranked rows of finalize (server.js:229-241): every player's best entry at or before
      the cutoff, ranked as the leaderboard ranks them, cut to `top` rows. */
  function FinalRows(log: seq<ScoreEntry>, cutoff: string, top: nat): seq<PlayerBest>
  {
    Take(Rank(UpTo(log, Some(cutoff))), top)
  }

  /** What the finalized rows are: the top of the ranking of the entries at or before the
      cutoff, as many rows as `top` allows, one per player, holding that player's best entry
      then and their attempt count, best first and ties in first-seen order; the winners, the
      first three, are distinct players too. */
  lemma FinalRowsFacts(log: seq<ScoreEntry>, cutoff: string, top: nat)
    ensures var pool, rows := UpTo(log, Some(cutoff)), FinalRows(log, cutoff, top);
      rows == Rank(pool)[..|rows|] &&
      |rows| == (if top < |PlayerSet(pool)| then top else |PlayerSet(pool)|) &&
      OnePerPlayer(rows) && OnePerPlayer(Take(rows, 3)) &&
      AllBest(rows, pool, pool) &&
      Sorted(rows, RowLess) &&
      TiesInFirstSeenOrder(rows, pool)
  {
    var pool := UpTo(log, Some(cutoff));
    var ranked, rows := Rank(pool), FinalRows(log, cutoff, top);
    RankFacts(pool);
    assert rows == ranked[..|rows|];
    RankPrefix(pool, |rows|);
    assert Take(rows, 3) == ranked[..|Take(rows, 3)|];
    RankPrefix(pool, |Take(rows, 3)|);
  }

  class Server {
    const adminToken: string
    const publicSalt: string
    const sha256: string -> Digest
    var scores: seq<ScoreEntry>
    var prizeCodes: seq<PrizeCode>
    var snapshots: seq<SnapshotRow>
    var logs: seq<LogEntry>

    /** What every handler keeps: ids count up from 1 in each collection; every score is an
        accepted submission's; no player holds two prize codes; every code has the prize-code
        shape. */
    ghost predicate Valid()
      reads this
    {
      (forall i :: 0 <= i < |scores| ==>
         scores[i].id == i + 1 && scores[i].playerId != [] && |scores[i].playerId| <= 64 &&
         0 <= scores[i].score <= MaxScore && IsIso(scores[i].ts)) &&
      OneCodePerPlayer(prizeCodes) &&
      (forall i :: 0 <= i < |prizeCodes| ==> IsPrizeCode(prizeCodes[i].code)) &&
      (forall i :: 0 <= i < |snapshots| ==> snapshots[i].id == i + 1) &&
      (forall i :: 0 <= i < |logs| ==> logs[i].id == i + 1)
    }

    /** A server started on an empty database (server.js:14, 20-27, 36). */
    constructor(adminTokenEnv: string, publicSaltEnv: string, sha256: string -> Digest)
      ensures Valid()
      ensures adminToken == AdminToken(adminTokenEnv) && publicSalt == PublicSalt(publicSaltEnv) && this.sha256 == sha256
      ensures scores == [] && prizeCodes == [] && snapshots == [] && logs == []
    {
      adminToken := AdminToken(adminTokenEnv);
      publicSalt := PublicSalt(publicSaltEnv);
      this.sha256 := sha256;
      scores := [];
      prizeCodes := [];
      snapshots := [];
      logs := [];
    }

    /** `log` (server.js:54-67): appends one audit record with the next id. */
    method Log(action: string, playerId: string, nowIso: string)
      requires Valid()
      modifies this
      ensures Valid()
      ensures logs == old(logs) + [LogEntry(|old(logs)| + 1, nowIso, action, playerId)]
      ensures scores == old(scores) && prizeCodes == old(prizeCodes) && snapshots == old(snapshots)
    {
      logs := logs + [LogEntry(|logs| + 1, nowIso, action, playerId)];
    }

    /** The push at server.js:92: one accepted entry, with the next id, joins `scores`. */
    method AddScore(playerId: string, score: int, ts: string, ua: string, ip: string)
      requires Valid() && playerId != [] && |playerId| <= 64 && 0 <= score <= MaxScore && IsIso(ts)
      modifies this
      ensures Valid()
      ensures scores == old(scores) + [ScoreEntry(|old(scores)| + 1, playerId, score, ts, ua, ip)]
      ensures prizeCodes == old(prizeCodes) && snapshots == old(snapshots) && logs == old(logs)
    {
      scores := scores + [ScoreEntry(|scores| + 1, playerId, score, ts, ua, ip)];
    }

    /** POST /api/score (server.js:80-128). The submission is refused exactly when the player id,
        cut to 64 characters, is empty or the score, wrapped to 32 bits, lies outside
        [0, 1000000]; otherwise exactly one entry is appended, duplicates included. The
        response's `best` says that no entry of the player scores higher, `rank` is the
        player's position in the best-per-player ranking of all scores, `total_players` counts
        the distinct players, and the prize code is the player's latest. */
    method SubmitScore(sub: Submission, nowIso: string) returns (result: SubmitResult)
      requires Valid() && IsIso(nowIso)
      modifies this
      ensures Valid()
      ensures result.BadRequest? <==>
        Truncate(sub.playerId, 64) == [] || ToInt32(sub.score) < 0 || ToInt32(sub.score) > MaxScore
      ensures result.BadRequest? ==>
        scores == old(scores) &&
        logs == old(logs) + [LogEntry(|old(logs)| + 1, nowIso, "score_reject", Truncate(sub.playerId, 64))]
      ensures result.Accepted? ==>
        scores == old(scores) + [ScoreEntry(|old(scores)| + 1, Truncate(sub.playerId, 64), ToInt32(sub.score),
                                            TimestampOf(sub.ts, nowIso), sub.ua, sub.ip)] &&
        logs == old(logs) + [LogEntry(|old(logs)| + 1, nowIso, "score_submit", Truncate(sub.playerId, 64))] &&
        result == Standing(scores, prizeCodes, PublicCode(sha256(publicSalt + "|" + Truncate(sub.playerId, 64))))
      ensures prizeCodes == old(prizeCodes) && snapshots == old(snapshots)
    {
      var playerId := Truncate(sub.playerId, 64);
      var score := ToInt32(sub.score);
      var ts := TimestampOf(sub.ts, nowIso);
      if playerId == [] || score < 0 || score > MaxScore {
        Log("score_reject", playerId, nowIso);
        return SubmitResult.BadRequest;
      }
      AddScore(playerId, score, ts, sub.ua, sub.ip);
      var pubCode := PublicCodeFor(sha256, publicSalt, playerId);
      result := Standing(scores, prizeCodes, pubCode);
      Log("score_submit", playerId, nowIso);
    }

    /** The retry loop of server.js:182-187: draws up to ten codes and stops at the first one
        no record holds; only after ten collisions is a code that is already in use kept. */
    method DrawCode() returns (code: string, draws: nat)
      ensures IsPrizeCode(code)
      ensures 1 <= draws <= 10
      ensures CodeIndex(prizeCodes, code) < |prizeCodes| ==> draws == 10
    {
      code := GeneratePrizeCode();
      draws := 1;
      while draws < 10 && CodeIndex(prizeCodes, code) < |prizeCodes|
        invariant 1 <= draws <= 10
        invariant IsPrizeCode(code)
      {
        code := GeneratePrizeCode();
        draws := draws + 1;
      }
    }

    /** POST /api/issue-code (server.js:177-194), looking codes up in `prize_codes`. A player
        who holds a code gets it back and nothing changes; otherwise one unused record with a
        fresh code, the given rank and a seven-day lifetime is appended. `draws` counts the
        candidates the retry loop drew: up to ten, and a code already in the registry is kept
        only once all ten are spent. */
    method IssueCode(auth: Credentials, playerId: string, rankIn: JsNumber, now: int, nowIso: string)
      returns (result: IssueResult, ghost draws: nat)
      requires Valid() && IsIso(nowIso)
      modifies this
      ensures Valid()
      ensures result.Unauthorized? <==> !AdminGuard(auth, adminToken)
      ensures result.BadRequest? <==> AdminGuard(auth, adminToken) && (playerId == [] || !IsFinite(rankIn))
      ensures var owner := OwnerIndex(old(prizeCodes), playerId);
        (result.AlreadyIssued? <==>
           AdminGuard(auth, adminToken) && playerId != [] && IsFinite(rankIn) && owner < |old(prizeCodes)|) &&
        (result.AlreadyIssued? ==> result.code == old(prizeCodes)[owner].code)
      ensures !result.Issued? ==> prizeCodes == old(prizeCodes) && logs == old(logs)
      ensures result.Issued? ==>
        IsPrizeCode(result.code) && result.expiresAt == now + Week &&
        prizeCodes == old(prizeCodes) + [Fresh(result.code, rankIn.n, playerId, nowIso, now)] &&
        logs == old(logs) + [LogEntry(|old(logs)| + 1, nowIso, "issue_code", playerId)]
      ensures result.Issued? <==> 1 <= draws <= 10
      ensures result.Issued? && CodeIndex(old(prizeCodes), result.code) < |old(prizeCodes)| ==> draws == 10
      ensures scores == old(scores) && snapshots == old(snapshots)
    {
      if !AdminGuard(auth, adminToken) {
        return IssueResult.Unauthorized, 0;
      }
      if playerId == [] || !IsFinite(rankIn) {
        return IssueResult.BadRequest, 0;
      }
      var owner := OwnerIndex(prizeCodes, playerId);
      if owner < |prizeCodes| {
        return AlreadyIssued(prizeCodes[owner].code), 0;
      }
      var code, n := DrawCode();
      draws := n;
      var record := Fresh(code, rankIn.n, playerId, nowIso, now);
      prizeCodes := prizeCodes + [record];
      Log("issue_code", playerId, nowIso);
      result := Issued(code, record.expiresAt);
    }

    /** POST /api/verify-code (server.js:196-206): a read-only lookup of the code's status. */
    function VerifyCode(auth: Credentials, code: string, now: int): (result: VerifyResult)
      reads this
      ensures result.Unauthorized? <==> !AdminGuard(auth, adminToken)
      ensures result.BadRequest? <==> AdminGuard(auth, adminToken) && code == []
      ensures result.Checked? ==> result.status == Status(prizeCodes, code, now)
    {
      if !AdminGuard(auth, adminToken) then VerifyResult.Unauthorized
      else if code == [] then VerifyResult.BadRequest
      else Checked(Status(prizeCodes, code, now))
    }

    /** POST /api/use-code (server.js:208-221), looking the code up in `prize_codes`. It fails
        as verify-code would report: not found, already used, expired; a valid code is redeemed,
        which changes that one record only, and the code reports "used" from then on. */
    method UseCode(auth: Credentials, code: string, usedBy: string, now: int, nowIso: string) returns (result: UseResult)
      requires Valid() && IsIso(nowIso)
      modifies this
      ensures Valid()
      ensures result.Unauthorized? <==> !AdminGuard(auth, adminToken)
      ensures result.BadRequest? <==> AdminGuard(auth, adminToken) && code == []
      ensures AdminGuard(auth, adminToken) && code != [] ==>
        var st := Status(old(prizeCodes), code, now);
        (result.NotFound? <==> st.NotFound?) && (result.AlreadyUsed? <==> st.Used?) &&
        (result.Expired? <==> st.Expired?) && (result.Redeemed? <==> st.Valid?)
      ensures !result.Redeemed? ==> prizeCodes == old(prizeCodes) && logs == old(logs)
      ensures result.Redeemed? ==>
        var i := CodeIndex(old(prizeCodes), code);
        i < |old(prizeCodes)| && result.usedAt == nowIso &&
        prizeCodes == Redeem(old(prizeCodes), i, nowIso, UsedByValue(usedBy)) &&
        logs == old(logs) + [LogEntry(|old(logs)| + 1, nowIso, "use_code", old(prizeCodes)[i].playerId)] &&
        forall t :: Status(prizeCodes, code, t).Used?
      ensures scores == old(scores) && snapshots == old(snapshots)
    {
      if !AdminGuard(auth, adminToken) {
        return UseResult.Unauthorized;
      }
      if code == [] {
        return UseResult.BadRequest;
      }
      var i := CodeIndex(prizeCodes, code);
      if i == |prizeCodes| {
        return UseResult.NotFound;
      }
      var pc := prizeCodes[i];
      if IsUsed(pc) {
        return UseResult.AlreadyUsed;
      }
      if now > pc.expiresAt {
        return UseResult.Expired;
      }
      var usedAt := nowIso;
      prizeCodes := prizeCodes[i := pc.(usedAt := Some(usedAt), usedBy := UsedByValue(usedBy))];
      forall t ensures Status(prizeCodes, code, t).Used? {
        RedeemedStaysUsed(old(prizeCodes), code, usedAt, UsedByValue(usedBy), t);
      }
      Log("use_code", pc.playerId, nowIso);
      result := Redeemed(usedAt);
    }

    /** The snapshot write of server.js:244-250: the ranked rows are stored under the cutoff,
        positions becoming ranks, only when no row for that exact cutoff exists yet. */
    method SaveSnapshot(cutoff: string, rows: seq<PlayerBest>)
      requires Valid()
      modifies this
      ensures Valid()
      ensures snapshots == if HasCutoff(old(snapshots), cutoff) then old(snapshots)
                           else old(snapshots) + SnapshotRows(|old(snapshots)|, cutoff, rows)
      ensures scores == old(scores) && prizeCodes == old(prizeCodes) && logs == old(logs)
    {
      if !HasCutoff(snapshots, cutoff) {
        var start := |snapshots|;
        var idx := 0;
        while idx < |rows|
          invariant 0 <= idx <= |rows|
          invariant Valid()
          invariant snapshots == old(snapshots) + SnapshotRows(start, cutoff, rows[..idx])
          invariant scores == old(scores) && prizeCodes == old(prizeCodes) && logs == old(logs)
        {
          assert SnapshotRows(start, cutoff, rows[..idx + 1]) ==
            SnapshotRows(start, cutoff, rows[..idx]) + [SnapshotRow(start + idx + 1, cutoff, idx + 1, rows[idx].playerId, rows[idx].score, None)];
          snapshots := snapshots + [SnapshotRow(|snapshots| + 1, cutoff, idx + 1, rows[idx].playerId, rows[idx].score, None)];
          idx := idx + 1;
        }
        assert rows[..idx] == rows;
      }
    }

    /** The issuing loop of server.js:252-265: each winner without a code, in order, gets a fresh
        one ranked by their position, and one audit record. */
    method AwardWinners(winners: seq<PlayerBest>, now: int, nowIso: string) returns (issued: nat)
      requires Valid()
      requires OnePerPlayer(winners)
      modifies this
      ensures Valid()
      ensures AwardsIssued(old(prizeCodes), prizeCodes, winners, now, nowIso)
      ensures issued == |Unawarded(old(prizeCodes), winners)|
      ensures |old(prizeCodes)| <= |prizeCodes| && LoggedAwards(old(logs), logs, old(prizeCodes), prizeCodes, nowIso)
      ensures scores == old(scores) && snapshots == old(snapshots)
    {
      ghost var before, logs0 := prizeCodes, logs;
      issued := 0;
      var i := 0;
      while i < |winners|
        invariant 0 <= i <= |winners|
        invariant Valid()
        invariant AwardsIssued(before, prizeCodes, winners[..i], now, nowIso)
        invariant issued == |Unawarded(before, winners[..i])|
        invariant |before| <= |prizeCodes| && LoggedAwards(logs0, logs, before, prizeCodes, nowIso)
        invariant scores == old(scores) && snapshots == old(snapshots)
      {
        var awarded := AwardOne(winners, i, now, nowIso, before, logs0);
        UnawardedStep(before, winners, i);
        if awarded {
          issued := issued + 1;
        }
        i := i + 1;
      }
      assert winners[..i] == winners;
    }

    /** A player who holds no code gets a fresh one of the given rank, and an audit record
        (server.js:255-263). */
    method IssueTo(playerId: string, rank: int, now: int, nowIso: string) returns (code: string)
      requires Valid()
      requires OwnerIndex(prizeCodes, playerId) == |prizeCodes|
      modifies this
      ensures Valid()
      ensures IsPrizeCode(code)
      ensures prizeCodes == old(prizeCodes) + [Fresh(code, rank, playerId, nowIso, now)]
      ensures logs == old(logs) + [LogEntry(|old(logs)| + 1, nowIso, "issue_code_finalize", playerId)]
      ensures scores == old(scores) && snapshots == old(snapshots)
    {
      code := GeneratePrizeCode();
      prizeCodes := prizeCodes + [Fresh(code, rank, playerId, nowIso, now)];
      Log("issue_code_finalize", playerId, nowIso);
    }

    /** One turn of the issuing loop: winner `i` gets a fresh code, ranked `i + 1`, and an audit
        record when they hold no code yet. */
    method AwardOne(winners: seq<PlayerBest>, i: nat, now: int, nowIso: string, ghost before: seq<PrizeCode>, ghost logs0: seq<LogEntry>)
      returns (awarded: bool)
      requires Valid()
      requires i < |winners| && OnePerPlayer(winners)
      requires AwardsIssued(before, prizeCodes, winners[..i], now, nowIso)
      requires |before| <= |prizeCodes| && LoggedAwards(logs0, logs, before, prizeCodes, nowIso)
      modifies this
      ensures Valid()
      ensures awarded <==> OwnerIndex(before, winners[i].playerId) == |before|
      ensures AwardsIssued(before, prizeCodes, winners[..i + 1], now, nowIso)
      ensures |before| <= |prizeCodes| && LoggedAwards(logs0, logs, before, prizeCodes, nowIso)
      ensures scores == old(scores) && snapshots == old(snapshots)
    {
      var w := winners[i];
      ghost var codes, logs1 := prizeCodes, logs;
      AwardedBelongElsewhere(before, codes, winners, i, now, nowIso);
      awarded := OwnerIndex(prizeCodes, w.playerId) == |prizeCodes|;
      if awarded {
        var code := IssueTo(w.playerId, i + 1, now, nowIso);
        AwardedStep(before, codes, logs0, logs1, winners, i, code, now, nowIso);
      } else {
        KeptStep(before, codes, winners, i, now, nowIso);
      }
    }

    /** POST /api/finalize (server.js:223-268). Past the admin guard and the cutoff check, the
        best-per-player ranking of the scores up to the cutoff, cut to `top` rows, is stored as
        the cutoff's snapshot unless one exists; each of the first three rows' players that
        holds no code gets one, ranked by position; the response lists those three rows and
        counts the codes issued. */
    method Finalize(auth: Credentials, cutoffIn: string, topIn: Option<JsNumber>, now: int, nowIso: string)
      returns (result: FinalizeResult)
      requires Valid() && IsIso(nowIso)
      modifies this
      ensures Valid()
      ensures result.Unauthorized? <==> !AdminGuard(auth, adminToken)
      ensures result.BadCutoff? <==> AdminGuard(auth, adminToken) && !IsIso(cutoffIn)
      ensures !result.Finalized? ==>
        prizeCodes == old(prizeCodes) && snapshots == old(snapshots) && logs == old(logs)
      ensures result.Finalized? ==>
        var rows := FinalRows(scores, cutoffIn, SliceCount(topIn));
        result.cutoff == cutoffIn && result.winners == Take(rows, 3) &&
        snapshots == (if HasCutoff(old(snapshots), cutoffIn) then old(snapshots)
                      else old(snapshots) + SnapshotRows(|old(snapshots)|, cutoffIn, rows)) &&
        AwardsIssued(old(prizeCodes), prizeCodes, result.winners, now, nowIso) &&
        result.issuedCount == |Unawarded(old(prizeCodes), result.winners)| &&
        |old(prizeCodes)| <= |prizeCodes| && LoggedAwards(old(logs), logs, old(prizeCodes), prizeCodes, nowIso)
      ensures scores == old(scores)
    {
      if !AdminGuard(auth, adminToken) {
        return FinalizeResult.Unauthorized;
      }
      var top := SliceCount(topIn);
      if cutoffIn == [] || !IsIso(cutoffIn) {
        return FinalizeResult.BadCutoff;
      }
      var rows := FinalRows(scores, cutoffIn, top);
      FinalRowsFacts(scores, cutoffIn, top);
      SaveSnapshot(cutoffIn, rows);
      var winners := Take(rows, 3);
      var issued := AwardWinners(winners, now, nowIso);
      result := Finalized(cutoffIn, winners, issued);
    }

    /** GET /api/winners (server.js:270-278): a read-only look at the first three rows stored
        for the cutoff, in rank order. */
    function WinnersOf(auth: Credentials, cutoffIn: string): (result: WinnersResult)
      reads this
      ensures result.Unauthorized? <==> !AdminGuard(auth, adminToken)
      ensures result.BadCutoff? <==> AdminGuard(auth, adminToken) && !IsIso(cutoffIn)
      ensures result.Listed? ==> result.cutoff == cutoffIn && result.winners == Winners(snapshots, cutoffIn)
    {
      if !AdminGuard(auth, adminToken) then WinnersResult.Unauthorized
      else if cutoffIn == [] || !IsIso(cutoffIn) then WinnersResult.BadCutoff
      else Listed(cutoffIn, Winners(snapshots, cutoffIn))
    }
  }
}
