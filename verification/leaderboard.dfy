/** The public leaderboard (server.js:130-174): the best-per-player ranking or the raw-entry
    ranking of the scores at or before an optional cutoff, cut to a limit, with each player's
    prize code and public code. */
module Leaderboard {
  import opened Wrappers
  import opened Seqs
  import opened Text
  import opened Sorting
  import opened JsNumbers
  import opened Ranking
  import opened Registry
  import opened PublicCodes

  /** One row of the response (server.js:141-148, 164-171). */
  datatype BoardRow = BoardRow(rank: nat, playerId: string, score: int, ts: string, code: Option<string>, pubCode: string)

  /** The `cutoff` query parameter counts only when it holds an ISO timestamp (server.js:132);
      "" stands for an absent parameter. */
  function CutoffOf(cutoffIn: string): (cutoff: Option<string>)
    ensures cutoff.Some? <==> IsIso(cutoffIn)
    ensures cutoff.Some? ==> cutoff.value == cutoffIn
  {
    if cutoffIn != [] && IsIso(cutoffIn) then Some(cutoffIn) else None
  }

  /** The row shown at position `i` for a player's score and timestamp. */
  function RowAt(i: nat, playerId: string, score: int, ts: string, codes: seq<PrizeCode>, salt: string, sha256: string -> Digest): (row: BoardRow)
    ensures row.rank == i + 1 && row.playerId == playerId && row.score == score && row.ts == ts
    ensures row.code == FirstCodeOf(codes, playerId)
    ensures row.pubCode == PublicCode(sha256(salt + "|" + playerId))
  {
    BoardRow(i + 1, playerId, score, ts, FirstCodeOf(codes, playerId), PublicCode(sha256(salt + "|" + playerId)))
  }

  /** The rows shown for ranked best-per-player rows, in their order. */
  function BestRows(top: seq<PlayerBest>, codes: seq<PrizeCode>, salt: string, sha256: string -> Digest): (rows: seq<BoardRow>)
    ensures |rows| == |top|
    ensures forall i :: 0 <= i < |top| ==> rows[i] == RowAt(i, top[i].playerId, top[i].score, top[i].ts, codes, salt, sha256)
  {
    seq(|top|, i requires 0 <= i < |top| => RowAt(i, top[i].playerId, top[i].score, top[i].ts, codes, salt, sha256))
  }

  /** The rows shown for ranked raw entries, in their order. */
  function EntryRows(top: seq<ScoreEntry>, codes: seq<PrizeCode>, salt: string, sha256: string -> Digest): (rows: seq<BoardRow>)
    ensures |rows| == |top|
    ensures forall i :: 0 <= i < |top| ==> rows[i] == RowAt(i, top[i].playerId, top[i].score, top[i].ts, codes, salt, sha256)
  {
    seq(|top|, i requires 0 <= i < |top| => RowAt(i, top[i].playerId, top[i].score, top[i].ts, codes, salt, sha256))
  }

  /** The response rows for a limit (already turned into a number), a cutoff text and a mode;
      any mode other than "attempts" is the best-per-player mode. */
  function Board(scores: seq<ScoreEntry>, codes: seq<PrizeCode>, salt: string, sha256: string -> Digest,
                 limitIn: Option<JsNumber>, cutoffIn: string, mode: string): (rows: seq<BoardRow>)
    ensures |rows| <= 100
    ensures forall i :: 0 <= i < |rows| ==>
      rows[i].rank == i + 1 &&
      rows[i].code == FirstCodeOf(codes, rows[i].playerId) &&
      rows[i].pubCode == PublicCode(sha256(salt + "|" + rows[i].playerId))
  {
    var limit := SliceCount(limitIn);
    var pool := UpTo(scores, CutoffOf(cutoffIn));
    if mode == "attempts" then EntryRows(Take(RankEntries(pool), limit), codes, salt, sha256)
    else BestRows(Take(Rank(pool), limit), codes, salt, sha256)
  }

  /** Row `i` shows the player, score and timestamp of ranked row `i`. */
  ghost predicate ShowsTopOf(rows: seq<BoardRow>, ranked: seq<PlayerBest>)
  {
    |rows| <= |ranked| &&
    forall i :: 0 <= i < |rows| ==>
      rows[i].playerId == ranked[i].playerId && rows[i].score == ranked[i].score && rows[i].ts == ranked[i].ts
  }

  /** Row `i` shows the player, score and timestamp of ranked entry `i`. */
  ghost predicate ShowsTopEntriesOf(rows: seq<BoardRow>, ranked: seq<ScoreEntry>)
  {
    |rows| <= |ranked| &&
    forall i :: 0 <= i < |rows| ==>
      rows[i].playerId == ranked[i].playerId && rows[i].score == ranked[i].score && rows[i].ts == ranked[i].ts
  }

  /** No player is shown twice. */
  ghost predicate DistinctPlayers(rows: seq<BoardRow>)
  {
    forall i, j :: 0 <= i < j < |rows| ==> rows[i].playerId != rows[j].playerId
  }

  /** Every row shows its player's best entry in `pool`. */
  ghost predicate ShowsBest(rows: seq<BoardRow>, pool: seq<ScoreEntry>)
  {
    forall i :: 0 <= i < |rows| ==>
      IsBestOf(PlayerBest(rows[i].playerId, rows[i].score, rows[i].ts, Count(pool, rows[i].playerId)), pool)
  }

  /** Rows go by score descending, then timestamp ascending. */
  ghost predicate ByScoreThenTime(rows: seq<BoardRow>)
  {
    forall i, j :: 0 <= i < j < |rows| ==>
      rows[i].score >= rows[j].score && (rows[i].score == rows[j].score ==> AtMost(rows[i].ts, rows[j].ts))
  }

  /** Best mode shows the first `limit` rows of the ranking of the entries at or before the
      cutoff: each player at most once, with their highest score and the earliest timestamp at
      that score, by score descending and then timestamp ascending; fewer rows than the limit
      only when every player is shown. Row `i` is row `i` of that ranking. */
  lemma BestBoard(scores: seq<ScoreEntry>, codes: seq<PrizeCode>, salt: string, sha256: string -> Digest,
                  limitIn: Option<JsNumber>, cutoffIn: string, mode: string)
    requires mode != "attempts"
    ensures var rows := Board(scores, codes, salt, sha256, limitIn, cutoffIn, mode);
      var pool := UpTo(scores, CutoffOf(cutoffIn));
      var limit := SliceCount(limitIn);
      |rows| == (if limit < |PlayerSet(pool)| then limit else |PlayerSet(pool)|) &&
      ShowsTopOf(rows, Rank(pool)) && DistinctPlayers(rows) && ShowsBest(rows, pool) && ByScoreThenTime(rows)
  {
    var pool := UpTo(scores, CutoffOf(cutoffIn));
    var ranked := Rank(pool);
    var top := Take(ranked, SliceCount(limitIn));
    RankSize(pool);
    assert top == ranked[..|top|];
    RankPrefix(pool, |top|);
    BestRowsFacts(top, pool, codes, salt, sha256);
  }

  /** The rows shown for distinct players' best entries, sorted by the comparator, show each
      player once, with that best entry, by score descending and then timestamp ascending. */
  lemma BestRowsFacts(top: seq<PlayerBest>, pool: seq<ScoreEntry>, codes: seq<PrizeCode>, salt: string, sha256: string -> Digest)
    requires OnePerPlayer(top) && AllBest(top, pool, pool) && Sorted(top, RowLess)
    ensures var rows := BestRows(top, codes, salt, sha256);
      DistinctPlayers(rows) && ShowsBest(rows, pool) && ByScoreThenTime(rows)
  {
    var rows := BestRows(top, codes, salt, sha256);
    forall i | 0 <= i < |rows|
      ensures IsBestOf(PlayerBest(rows[i].playerId, rows[i].score, rows[i].ts, Count(pool, rows[i].playerId)), pool)
    {
      assert IsBestOf(top[i], pool);
    }
    forall i, j | 0 <= i < j < |rows|
      ensures rows[i].score >= rows[j].score && (rows[i].score == rows[j].score ==> AtMost(rows[i].ts, rows[j].ts))
    {
      assert !RowLess(top[j], top[i]);
      LessTrichotomy(top[i].ts, top[j].ts);
    }
  }

  /** Every row of best mode is an entry at or before the cutoff. */
  lemma BestBoardRespectsCutoff(scores: seq<ScoreEntry>, codes: seq<PrizeCode>, salt: string, sha256: string -> Digest,
                                limitIn: Option<JsNumber>, cutoffIn: string, mode: string)
    requires mode != "attempts" && IsIso(cutoffIn)
    ensures var rows := Board(scores, codes, salt, sha256, limitIn, cutoffIn, mode);
      forall i :: 0 <= i < |rows| ==> AtMost(rows[i].ts, cutoffIn)
  {
    var pool := UpTo(scores, CutoffOf(cutoffIn));
    var ranked := Rank(pool);
    RankFacts(pool);
    forall i | 0 <= i < |ranked| ensures AtMost(ranked[i].ts, cutoffIn) {
      assert IsBestOf(ranked[i], pool);
      var k :| 0 <= k < |pool| && pool[k].playerId == ranked[i].playerId && pool[k].score == ranked[i].score && pool[k].ts == ranked[i].ts;
      assert pool[k] in pool;
    }
  }

  /** Attempts mode shows the first `limit` entries at or before the cutoff, every entry a row
      of its own, by score descending and then timestamp ascending, entries equal on both in
      submission order. */
  lemma AttemptsBoard(scores: seq<ScoreEntry>, codes: seq<PrizeCode>, salt: string, sha256: string -> Digest,
                      limitIn: Option<JsNumber>, cutoffIn: string)
    requires Increasing(scores, EntryId)
    ensures var rows := Board(scores, codes, salt, sha256, limitIn, cutoffIn, "attempts");
      var pool := UpTo(scores, CutoffOf(cutoffIn));
      var ranked := RankEntries(pool);
      var limit := SliceCount(limitIn);
      multiset(ranked) == multiset(pool) &&
      |rows| == (if limit < |pool| then limit else |pool|) &&
      ShowsTopEntriesOf(rows, ranked) &&
      (forall i, j :: 0 <= i < j < |ranked| ==> !EntryLess(ranked[j], ranked[i])) &&
      (forall i, j :: 0 <= i < j < |ranked| && !EntryLess(ranked[i], ranked[j]) && !EntryLess(ranked[j], ranked[i]) ==>
         ranked[i].id < ranked[j].id)
  {
    var pool := UpTo(scores, CutoffOf(cutoffIn));
    UpToKeepsOrder(scores, CutoffOf(cutoffIn));
    RankEntriesFacts(pool);
  }
}
