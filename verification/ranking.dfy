/** The ranking engine, written three times in the source (server.js:112-122, 151-163, 229-241)
    and once here: each player's best entry, their attempt count, and the order
    (score descending, then timestamp ascending, then attempts ascending). */
module Ranking {
  import opened Wrappers
  import opened Seqs
  import opened Text
  import opened Sorting

  /** The highest score a submission may carry (server.js:87). */
  const MaxScore: int := 1000000

  /** One accepted submission (server.js:92); `id` is its 1-based place in the log. */
  datatype ScoreEntry = ScoreEntry(id: int, playerId: string, score: int, ts: string, ua: string, ip: string)

  /** A player's row in the "best" ranking (server.js:119). */
  datatype PlayerBest = PlayerBest(playerId: string, score: int, ts: string, attempts: nat)

  function PlayerOf(r: PlayerBest): string { r.playerId }

  function EntryId(e: ScoreEntry): int { e.id }

  /** The player ids of `rows`, in order. */
  function Players(rows: seq<PlayerBest>): (ps: seq<string>)
    ensures |ps| == |rows| && forall i :: 0 <= i < |rows| ==> ps[i] == rows[i].playerId
  {
    seq(|rows|, i requires 0 <= i < |rows| => rows[i].playerId)
  }

  /** The distinct players of a log. */
  ghost function PlayerSet(log: seq<ScoreEntry>): set<string>
  {
    set k | 0 <= k < |log| :: log[k].playerId
  }

  /** An entry takes part when there is no cutoff or its timestamp is at most the cutoff
      (`s.ts <= cutoff`, plain string order). */
  predicate Qualifies(e: ScoreEntry, cutoff: Option<string>)
  {
    cutoff.None? || AtMost(e.ts, cutoff.value)
  }

  /** The entries at or before the cutoff (server.js:135, 229), in log order. */
  function UpTo(log: seq<ScoreEntry>, cutoff: Option<string>): (pool: seq<ScoreEntry>)
    ensures forall e :: e in pool <==> e in log && Qualifies(e, cutoff)
    ensures cutoff.None? ==> pool == log
  {
    FilterAllQualify(log, cutoff);
    Filter(log, e => Qualifies(e, cutoff))
  }

  lemma FilterAllQualify(log: seq<ScoreEntry>, cutoff: Option<string>)
    ensures cutoff.None? ==> Filter(log, e => Qualifies(e, cutoff)) == log
  {
    if cutoff.None? {
      FilterAll(log, e => Qualifies(e, cutoff));
    }
  }

  /** Filtering by cutoff keeps log order, so ids that grow along the log still grow. */
  lemma UpToKeepsOrder(log: seq<ScoreEntry>, cutoff: Option<string>)
    requires Increasing(log, EntryId)
    ensures Increasing(UpTo(log, cutoff), EntryId)
  {
    FilterIncreasing(log, e => Qualifies(e, cutoff), EntryId);
  }

  /** Whether an entry is `pid`'s. */
  function EntryOf(pid: string): ScoreEntry -> bool
  {
    (e: ScoreEntry) => e.playerId == pid
  }

  /** The `attemptsByPlayer` tally (server.js:114): how many entries `pid` has in `log`. */
  function Count(log: seq<ScoreEntry>, pid: string): (n: nat)
    ensures n <= |log|
    ensures n == 0 <==> forall k :: 0 <= k < |log| ==> log[k].playerId != pid
  {
    if log == [] then 0
    else
      var n := |log| - 1;
      assert forall k :: 0 <= k < n ==> log[..n][k] == log[k];
      Count(log[..n], pid) + (if log[n].playerId == pid then 1 else 0)
  }

  /** The tally is the number of `pid`'s entries: the length of `log` filtered to them. */
  lemma {:induction false} CountIsFilter(log: seq<ScoreEntry>, pid: string)
    ensures Count(log, pid) == |Filter(log, EntryOf(pid))|
  {
    if log != [] {
      var n := |log| - 1;
      CountIsFilter(log[..n], pid);
      assert log == log[..n] + [log[n]];
      FilterAppend(log[..n], [log[n]], EntryOf(pid));
    }
  }

  /** Where `pid` has its row in `rows` (`bestMap.get`), or `|rows|` when it has none. */
  function PlayerIndex(rows: seq<PlayerBest>, pid: string): (i: nat)
    ensures i <= |rows|
    ensures i < |rows| ==> rows[i].playerId == pid
    ensures forall j :: 0 <= j < i ==> rows[j].playerId != pid
  {
    IndexWhere(rows, (r: PlayerBest) => r.playerId == pid)
  }

  /** The position of `pid`'s first entry in `log`, or `|log|` when it has none. */
  function FirstIndex(log: seq<ScoreEntry>, pid: string): (k: nat)
    ensures k <= |log|
    ensures k < |log| ==> log[k].playerId == pid
    ensures forall j :: 0 <= j < k ==> log[j].playerId != pid
  {
    IndexWhere(log, (e: ScoreEntry) => e.playerId == pid)
  }

  /** The row an entry writes into the map (server.js:119). */
  function RowFor(s: ScoreEntry, attempts: nat): PlayerBest
  {
    PlayerBest(s.playerId, s.score, s.ts, attempts)
  }

  /** One step of the `bestMap` fold (server.js:116-121): a new player is added at the end of
      the map; a known player's row is replaced when the entry has a higher score, or the same
      score and an earlier timestamp. */
  function Absorb(rows: seq<PlayerBest>, s: ScoreEntry, attempts: nat): seq<PlayerBest>
  {
    var i := PlayerIndex(rows, s.playerId);
    if i == |rows| then rows + [RowFor(s, attempts)]
    else if s.score > rows[i].score || (s.score == rows[i].score && Less(s.ts, rows[i].ts))
    then rows[i := RowFor(s, attempts)]
    else rows
  }

  /** `bestMap` after the `forEach` over `log`, in the map's insertion order; attempt counts are
      taken from `all`, the collection the tally ran over. */
  function Tally(log: seq<ScoreEntry>, all: seq<ScoreEntry>): seq<PlayerBest>
  {
    if log == [] then []
    else
      var n := |log| - 1;
      Absorb(Tally(log[..n], all), log[n], Count(all, log[n].playerId))
  }

  /** `r` holds its player's highest score in `log` and the earliest timestamp among that
      player's entries with that score. */
  ghost predicate IsBestOf(r: PlayerBest, log: seq<ScoreEntry>)
  {
    (exists k :: 0 <= k < |log| && log[k].playerId == r.playerId && log[k].score == r.score && log[k].ts == r.ts) &&
    (forall k :: 0 <= k < |log| && log[k].playerId == r.playerId ==>
       log[k].score <= r.score && (log[k].score == r.score ==> AtMost(r.ts, log[k].ts)))
  }

  /** No player has two rows. */
  ghost predicate OnePerPlayer(rows: seq<PlayerBest>)
  {
    forall i, j :: 0 <= i < j < |rows| ==> rows[i].playerId != rows[j].playerId
  }

  /** Every player of `log` has a row. */
  ghost predicate Covers(rows: seq<PlayerBest>, log: seq<ScoreEntry>)
  {
    forall k :: 0 <= k < |log| ==> log[k].playerId in Players(rows)
  }

  /** Each row is its player's best in `log`, with the player's attempt count in `all`. */
  ghost predicate AllBest(rows: seq<PlayerBest>, log: seq<ScoreEntry>, all: seq<ScoreEntry>)
  {
    forall i :: 0 <= i < |rows| ==> IsBestOf(rows[i], log) && rows[i].attempts == Count(all, rows[i].playerId)
  }

  /** The rows are in order of each player's first entry in `log`. */
  ghost predicate FirstSeenOrder(rows: seq<PlayerBest>, log: seq<ScoreEntry>)
  {
    forall i, j :: 0 <= i < j < |rows| ==> FirstIndex(log, rows[i].playerId) < FirstIndex(log, rows[j].playerId)
  }

  /** What the fold's result says about `log`: one row per player, every player of the log has
      a row, each row is that player's best with the player's attempt count in `all`, and the
      rows are in order of each player's first entry. */
  ghost predicate Summarizes(rows: seq<PlayerBest>, log: seq<ScoreEntry>, all: seq<ScoreEntry>)
  {
    OnePerPlayer(rows) && Covers(rows, log) && AllBest(rows, log, all) && FirstSeenOrder(rows, log)
  }

  lemma FirstIndexAppend(log: seq<ScoreEntry>, s: ScoreEntry, p: string)
    ensures FirstIndex(log + [s], p) ==
      if FirstIndex(log, p) < |log| then FirstIndex(log, p)
      else if s.playerId == p then |log| else |log| + 1
  {
    var k := FirstIndex(log, p);
    if k < |log| {
      assert (log + [s])[k] == log[k];
    } else {
      assert (log + [s])[|log|] == s;
    }
  }

  /** A player without a row has no entry in the log. */
  lemma AbsentPlayer(rows: seq<PlayerBest>, log: seq<ScoreEntry>, p: string)
    requires Covers(rows, log)
    requires PlayerIndex(rows, p) == |rows|
    ensures forall k :: 0 <= k < |log| ==> log[k].playerId != p
    ensures FirstIndex(log, p) == |log|
  {
  }

  /** Every row's player has an entry in the log. */
  lemma PresentPlayer(r: PlayerBest, log: seq<ScoreEntry>)
    requires IsBestOf(r, log)
    ensures FirstIndex(log, r.playerId) < |log|
  {
    var k :| 0 <= k < |log| && log[k].playerId == r.playerId && log[k].score == r.score && log[k].ts == r.ts;
  }

  /** An entry of another player leaves a row's standing as it was. */
  lemma BestOfOtherEntry(r: PlayerBest, log: seq<ScoreEntry>, s: ScoreEntry)
    requires IsBestOf(r, log) && s.playerId != r.playerId
    ensures IsBestOf(r, log + [s])
  {
    var log' := log + [s];
    var k :| 0 <= k < |log| && log[k].playerId == r.playerId && log[k].score == r.score && log[k].ts == r.ts;
    assert log'[k] == log[k];
    forall k' | 0 <= k' < |log'| && log'[k'].playerId == r.playerId
      ensures log'[k'].score <= r.score && (log'[k'].score == r.score ==> AtMost(r.ts, log'[k'].ts))
    {
      assert log'[k'] == log[k'];
    }
  }

  /** A player's first entry is their best. */
  lemma BestOfFirstEntry(log: seq<ScoreEntry>, s: ScoreEntry, attempts: nat)
    requires forall k :: 0 <= k < |log| ==> log[k].playerId != s.playerId
    ensures IsBestOf(RowFor(s, attempts), log + [s])
  {
    LessIrreflexive(s.ts);
    assert (log + [s])[|log|] == s;
  }

  /** An entry that does not beat the row keeps it. */
  lemma BestOfWeakerEntry(r: PlayerBest, log: seq<ScoreEntry>, s: ScoreEntry)
    requires IsBestOf(r, log) && s.playerId == r.playerId
    requires !(s.score > r.score || (s.score == r.score && Less(s.ts, r.ts)))
    ensures IsBestOf(r, log + [s])
  {
    var log' := log + [s];
    var k :| 0 <= k < |log| && log[k].playerId == r.playerId && log[k].score == r.score && log[k].ts == r.ts;
    assert log'[k] == log[k];
    forall k' | 0 <= k' < |log'| && log'[k'].playerId == r.playerId
      ensures log'[k'].score <= r.score && (log'[k'].score == r.score ==> AtMost(r.ts, log'[k'].ts))
    {
      if k' < |log| { assert log'[k'] == log[k']; }
    }
  }

  /** An entry with a higher score, or the same score at an earlier timestamp, replaces the row. */
  lemma BestOfBetterEntry(r: PlayerBest, log: seq<ScoreEntry>, s: ScoreEntry, attempts: nat)
    requires IsBestOf(r, log) && s.playerId == r.playerId
    requires s.score > r.score || (s.score == r.score && Less(s.ts, r.ts))
    ensures IsBestOf(RowFor(s, attempts), log + [s])
  {
    var log' := log + [s];
    assert log'[|log|] == s;
    LessIrreflexive(s.ts);
    forall k' | 0 <= k' < |log'| && log'[k'].playerId == s.playerId
      ensures log'[k'].score <= s.score && (log'[k'].score == s.score ==> AtMost(s.ts, log'[k'].ts))
    {
      if k' < |log| {
        assert log'[k'] == log[k'];
        if log[k'].score == s.score && Less(log[k'].ts, s.ts) {
          LessTransitive(log[k'].ts, s.ts, r.ts);
        }
      }
    }
  }

  /** The fold step for an entry whose player has no row yet. */
  lemma {:induction false} AbsorbNew(rows: seq<PlayerBest>, log: seq<ScoreEntry>, all: seq<ScoreEntry>, s: ScoreEntry)
    requires Summarizes(rows, log, all)
    requires PlayerIndex(rows, s.playerId) == |rows|
    ensures Summarizes(rows + [RowFor(s, Count(all, s.playerId))], log + [s], all)
  {
    var r := RowFor(s, Count(all, s.playerId));
    var rows', log' := rows + [r], log + [s];
    AbsentPlayer(rows, log, s.playerId);
    assert Players(rows') == Players(rows) + [s.playerId];
    assert Covers(rows', log') by {
      forall k | 0 <= k < |log'| ensures log'[k].playerId in Players(rows') {
        if k < |log| { assert log'[k] == log[k]; }
      }
    }
    assert AllBest(rows', log', all) by {
      forall i | 0 <= i < |rows'| ensures IsBestOf(rows'[i], log') {
        if i < |rows| {
          BestOfOtherEntry(rows[i], log, s);
        } else {
          BestOfFirstEntry(log, s, Count(all, s.playerId));
        }
      }
    }
    FirstSeenNew(rows, log, all, s, r);
  }

  /** A new player's row, put last, keeps the rows in first-seen order. */
  lemma FirstSeenNew(rows: seq<PlayerBest>, log: seq<ScoreEntry>, all: seq<ScoreEntry>, s: ScoreEntry, r: PlayerBest)
    requires Summarizes(rows, log, all)
    requires FirstIndex(log, s.playerId) == |log| && r.playerId == s.playerId
    ensures FirstSeenOrder(rows + [r], log + [s])
  {
    var rows', log' := rows + [r], log + [s];
    forall i, j | 0 <= i < j < |rows'| ensures FirstIndex(log', rows'[i].playerId) < FirstIndex(log', rows'[j].playerId) {
      PresentPlayer(rows[i], log);
      FirstIndexAppend(log, s, rows[i].playerId);
      if j < |rows| {
        PresentPlayer(rows[j], log);
        FirstIndexAppend(log, s, rows[j].playerId);
      } else {
        FirstIndexAppend(log, s, s.playerId);
      }
    }
  }

  /** The fold step for an entry whose player already has a row. */
  lemma {:induction false} AbsorbKnown(rows: seq<PlayerBest>, log: seq<ScoreEntry>, all: seq<ScoreEntry>, s: ScoreEntry)
    requires Summarizes(rows, log, all)
    requires PlayerIndex(rows, s.playerId) < |rows|
    ensures Summarizes(Absorb(rows, s, Count(all, s.playerId)), log + [s], all)
  {
    var i0 := PlayerIndex(rows, s.playerId);
    var cur := rows[i0];
    var rows' := Absorb(rows, s, Count(all, s.playerId));
    var log' := log + [s];
    assert |rows'| == |rows| && forall i :: 0 <= i < |rows| ==> rows'[i].playerId == rows[i].playerId;
    assert Players(rows') == Players(rows);
    assert Covers(rows', log') by {
      forall k | 0 <= k < |log'| ensures log'[k].playerId in Players(rows') {
        if k < |log| { assert log'[k] == log[k]; }
      }
    }
    AllBestKnown(rows, log, all, s);
    FirstSeenKnown(rows, rows', log, all, s);
  }

  /** Absorbing an entry of a known player keeps every row its player's best. */
  lemma AllBestKnown(rows: seq<PlayerBest>, log: seq<ScoreEntry>, all: seq<ScoreEntry>, s: ScoreEntry)
    requires Summarizes(rows, log, all)
    requires PlayerIndex(rows, s.playerId) < |rows|
    ensures AllBest(Absorb(rows, s, Count(all, s.playerId)), log + [s], all)
  {
    var i0 := PlayerIndex(rows, s.playerId);
    var cur := rows[i0];
    var rows' := Absorb(rows, s, Count(all, s.playerId));
    forall i | 0 <= i < |rows'| ensures IsBestOf(rows'[i], log + [s]) {
      if i != i0 {
        BestOfOtherEntry(rows[i], log, s);
      } else if s.score > cur.score || (s.score == cur.score && Less(s.ts, cur.ts)) {
        BestOfBetterEntry(cur, log, s, Count(all, s.playerId));
      } else {
        BestOfWeakerEntry(cur, log, s);
      }
    }
  }

  /** Rows with the same players as before stay in first-seen order once an entry of a known
      player joins the log. */
  lemma FirstSeenKnown(rows: seq<PlayerBest>, rows': seq<PlayerBest>, log: seq<ScoreEntry>, all: seq<ScoreEntry>, s: ScoreEntry)
    requires Summarizes(rows, log, all)
    requires |rows'| == |rows| && forall i :: 0 <= i < |rows| ==> rows'[i].playerId == rows[i].playerId
    ensures FirstSeenOrder(rows', log + [s])
  {
    var log' := log + [s];
    forall i, j | 0 <= i < j < |rows'| ensures FirstIndex(log', rows'[i].playerId) < FirstIndex(log', rows'[j].playerId) {
      PresentPlayer(rows[i], log);
      PresentPlayer(rows[j], log);
      FirstIndexAppend(log, s, rows[i].playerId);
      FirstIndexAppend(log, s, rows[j].playerId);
    }
  }

  /** The fold over any log summarizes it. */
  lemma {:induction false} TallySummarizes(log: seq<ScoreEntry>, all: seq<ScoreEntry>)
    ensures Summarizes(Tally(log, all), log, all)
  {
    if log != [] {
      var n := |log| - 1;
      TallySummarizes(log[..n], all);
      assert log == log[..n] + [log[n]];
      if PlayerIndex(Tally(log[..n], all), log[n].playerId) == |Tally(log[..n], all)| {
        AbsorbNew(Tally(log[..n], all), log[..n], all, log[n]);
      } else {
        AbsorbKnown(Tally(log[..n], all), log[..n], all, log[n]);
      }
    }
  }

  /** The comparator at server.js:122: `b.score - a.score || a.ts.localeCompare(b.ts) || a.attempts - b.attempts`
      is negative, so `a` goes first. */
  predicate RowLess(a: PlayerBest, b: PlayerBest)
  {
    a.score > b.score ||
    (a.score == b.score && (Less(a.ts, b.ts) || (a.ts == b.ts && a.attempts < b.attempts)))
  }

  /** The comparator is consistent, as `Array.prototype.sort` needs. */
  lemma RowLessIsStrictWeakOrder()
    ensures StrictWeakOrder(RowLess)
  {
    forall a, b | RowLess(a, b) ensures !RowLess(b, a) {
      if a.score == b.score && Less(a.ts, b.ts) { LessAsymmetric(a.ts, b.ts); }
      if a.ts == b.ts { LessIrreflexive(a.ts); }
    }
    forall a, b, c | !RowLess(a, b) && !RowLess(b, c) ensures !RowLess(a, c) {
      LessTrichotomy(a.ts, b.ts);
      LessTrichotomy(b.ts, c.ts);
      LessTrichotomy(a.ts, c.ts);
      if Less(c.ts, b.ts) && Less(b.ts, a.ts) { LessTransitive(c.ts, b.ts, a.ts); }
      if Less(a.ts, c.ts) && Less(c.ts, b.ts) { LessTransitive(a.ts, c.ts, b.ts); }
      if Less(b.ts, a.ts) && Less(a.ts, c.ts) { LessTransitive(b.ts, a.ts, c.ts); }
      LessIrreflexive(a.ts);
      LessIrreflexive(b.ts);
    }
  }

  /** The "best" ranking of a pool of entries: the fold's rows, sorted. */
  function Rank(pool: seq<ScoreEntry>): (ranked: seq<PlayerBest>)
  {
    SortBy(Tally(pool, pool), RowLess)
  }

  /** Rows the comparator cannot separate appear in order of their players' first entries. */
  ghost predicate TiesInFirstSeenOrder(ranked: seq<PlayerBest>, pool: seq<ScoreEntry>)
  {
    forall i, j :: 0 <= i < j < |ranked| && !RowLess(ranked[i], ranked[j]) && !RowLess(ranked[j], ranked[i]) ==>
      FirstIndex(pool, ranked[i].playerId) < FirstIndex(pool, ranked[j].playerId)
  }

  lemma RankMembers(pool: seq<ScoreEntry>)
    ensures forall r :: r in Rank(pool) <==> r in Tally(pool, pool)
  {
    var rows, ranked := Tally(pool, pool), Rank(pool);
    forall r ensures r in ranked <==> r in rows {
      assert r in ranked <==> r in multiset(ranked);
      assert r in rows <==> r in multiset(rows);
    }
  }

  lemma RankOnePerPlayer(pool: seq<ScoreEntry>)
    ensures OnePerPlayer(Rank(pool))
  {
    var rows := Tally(pool, pool);
    TallySummarizes(pool, pool);
    assert DistinctBy(rows, PlayerOf);
    SortByDistinct(rows, RowLess, PlayerOf);
  }

  lemma RankAllBest(pool: seq<ScoreEntry>)
    ensures AllBest(Rank(pool), pool, pool)
  {
    var rows, ranked := Tally(pool, pool), Rank(pool);
    TallySummarizes(pool, pool);
    RankMembers(pool);
    forall i | 0 <= i < |ranked| ensures IsBestOf(ranked[i], pool) && ranked[i].attempts == Count(pool, ranked[i].playerId) {
      assert ranked[i] in rows;
    }
  }

  lemma RankCovers(pool: seq<ScoreEntry>)
    ensures Covers(Rank(pool), pool)
  {
    var rows, ranked := Tally(pool, pool), Rank(pool);
    TallySummarizes(pool, pool);
    RankMembers(pool);
    forall k | 0 <= k < |pool| ensures pool[k].playerId in Players(ranked) {
      var ps := Players(rows);
      var i :| 0 <= i < |ps| && ps[i] == pool[k].playerId;
      assert rows[i] in ranked;
      var j :| 0 <= j < |ranked| && ranked[j] == rows[i];
      assert Players(ranked)[j] == pool[k].playerId;
    }
  }

  lemma RankSortedAndStable(pool: seq<ScoreEntry>)
    ensures Sorted(Rank(pool), RowLess)
    ensures TiesInFirstSeenOrder(Rank(pool), pool)
  {
    var rows := Tally(pool, pool);
    TallySummarizes(pool, pool);
    RowLessIsStrictWeakOrder();
    SortBySorted(rows, RowLess);
    var pos := (r: PlayerBest) => FirstIndex(pool, r.playerId);
    assert Increasing(rows, pos);
    SortByStable(rows, RowLess, pos);
  }

  lemma RankSize(pool: seq<ScoreEntry>)
    ensures |Rank(pool)| == |PlayerSet(pool)|
  {
    var ranked := Rank(pool);
    RankOnePerPlayer(pool);
    assert DistinctBy(ranked, PlayerOf);
    DistinctKeyCount(ranked, PlayerOf);
    RankPlayers(pool);
  }

  /** The ranking's players are exactly the pool's. */
  lemma RankPlayers(pool: seq<ScoreEntry>)
    ensures KeySet(Rank(pool), PlayerOf) == PlayerSet(pool)
  {
    var ranked := Rank(pool);
    var keys := KeySet(ranked, PlayerOf);
    forall p | p in keys ensures p in PlayerSet(pool) {
      RankAllBest(pool);
      var i :| 0 <= i < |ranked| && PlayerOf(ranked[i]) == p;
      assert IsBestOf(ranked[i], pool);
      var k :| 0 <= k < |pool| && pool[k].playerId == ranked[i].playerId && pool[k].score == ranked[i].score && pool[k].ts == ranked[i].ts;
    }
    forall p | p in PlayerSet(pool) ensures p in keys {
      RankCovers(pool);
      var k :| 0 <= k < |pool| && pool[k].playerId == p;
      var ps := Players(ranked);
      assert p in ps;
      var i :| 0 <= i < |ps| && ps[i] == p;
      assert PlayerOf(ranked[i]) == p;
    }
  }

  /** What the ranking is: each player of the pool exactly once, with their highest score, the
      earliest timestamp at that score and their number of entries; sorted by the comparator;
      rows the comparator cannot separate in order of the players' first entries; and as many
      rows as the pool has distinct players. */
  lemma RankFacts(pool: seq<ScoreEntry>)
    ensures OnePerPlayer(Rank(pool))
    ensures Covers(Rank(pool), pool)
    ensures AllBest(Rank(pool), pool, pool)
    ensures Sorted(Rank(pool), RowLess)
    ensures TiesInFirstSeenOrder(Rank(pool), pool)
    ensures |Rank(pool)| == |PlayerSet(pool)|
  {
    RankOnePerPlayer(pool);
    RankCovers(pool);
    RankAllBest(pool);
    RankSortedAndStable(pool);
    RankSize(pool);
  }

  /** The first `n` rows of the ranking keep its facts: one row per player, each the player's
      best with their attempt count, sorted, full ties in first-seen order. */
  lemma RankPrefix(pool: seq<ScoreEntry>, n: nat)
    requires n <= |Rank(pool)|
    ensures var top := Rank(pool)[..n];
      OnePerPlayer(top) && AllBest(top, pool, pool) && Sorted(top, RowLess) && TiesInFirstSeenOrder(top, pool)
  {
    var ranked := Rank(pool);
    RankFacts(pool);
    assert forall i :: 0 <= i < n ==> ranked[..n][i] == ranked[i];
  }

  /** The tie-break order decides ranks: a higher score, or an equal score reached earlier, or an
      equal score and timestamp with fewer attempts, ranks strictly higher. */
  lemma RankRespectsOrder(pool: seq<ScoreEntry>, i: nat, j: nat)
    requires i < |Rank(pool)| && j < |Rank(pool)|
    requires RowLess(Rank(pool)[i], Rank(pool)[j])
    ensures i < j
  {
    RankFacts(pool);
    RowLessIsStrictWeakOrder();
  }

  /** The comparator of the "attempts" mode (server.js:139):
      `b.score - a.score || a.ts.localeCompare(b.ts)` is negative. */
  predicate EntryLess(a: ScoreEntry, b: ScoreEntry)
  {
    a.score > b.score || (a.score == b.score && Less(a.ts, b.ts))
  }

  lemma EntryLessIsStrictWeakOrder()
    ensures StrictWeakOrder(EntryLess)
  {
    forall a, b | EntryLess(a, b) ensures !EntryLess(b, a) {
      if a.score == b.score { LessAsymmetric(a.ts, b.ts); }
    }
    forall a, b, c | !EntryLess(a, b) && !EntryLess(b, c) ensures !EntryLess(a, c) {
      LessTrichotomy(a.ts, b.ts);
      LessTrichotomy(b.ts, c.ts);
      if Less(a.ts, c.ts) && Less(c.ts, b.ts) { LessTransitive(a.ts, c.ts, b.ts); }
      if Less(b.ts, a.ts) && Less(a.ts, c.ts) { LessTransitive(b.ts, a.ts, c.ts); }
      LessIrreflexive(a.ts);
    }
  }

  /** The "attempts" ranking: every entry of the pool is a row of its own. */
  function RankEntries(pool: seq<ScoreEntry>): seq<ScoreEntry>
  {
    SortBy(pool, EntryLess)
  }

  /** The "attempts" ranking holds exactly the pool's entries, sorted by score descending and then
      timestamp ascending; entries equal on both keep submission order. */
  lemma RankEntriesFacts(pool: seq<ScoreEntry>)
    requires Increasing(pool, EntryId)
    ensures var ranked := RankEntries(pool);
      multiset(ranked) == multiset(pool) &&
      (forall i, j :: 0 <= i < j < |ranked| ==> !EntryLess(ranked[j], ranked[i])) &&
      (forall i, j :: 0 <= i < j < |ranked| && !EntryLess(ranked[i], ranked[j]) && !EntryLess(ranked[j], ranked[i]) ==>
         ranked[i].id < ranked[j].id)
  {
    EntryLessIsStrictWeakOrder();
    SortBySorted(pool, EntryLess);
    SortByStable(pool, EntryLess, EntryId);
  }

  /** `best` at server.js:99-101: the largest score among `pid`'s entries, starting from 0. */
  function PersonalBest(log: seq<ScoreEntry>, pid: string): (m: int)
    ensures m >= 0
    ensures forall k :: 0 <= k < |log| && log[k].playerId == pid ==> log[k].score <= m
    ensures m == 0 || exists k :: 0 <= k < |log| && log[k].playerId == pid && log[k].score == m
  {
    if log == [] then 0
    else
      var n := |log| - 1;
      var m := PersonalBest(log[..n], pid);
      assert forall k :: 0 <= k < n ==> log[..n][k] == log[k];
      if log[n].playerId == pid && log[n].score > m then log[n].score else m
  }
}
