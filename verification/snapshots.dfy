/** The `leaderboard_snapshots` collection (server.js:243-250, 270-277): rows frozen by
    finalize for one cutoff, and the winners read back from them. */
module Snapshots {
  import opened Wrappers
  import opened Seqs
  import opened Sorting
  import opened Ranking

  /** One stored snapshot row (server.js:247); `code` is always written as null. */
  datatype SnapshotRow = SnapshotRow(id: int, cutoffAt: string, rank: int, playerId: string, score: int, code: Option<string>)

  function AtCutoff(cutoff: string): SnapshotRow -> bool
  {
    (s: SnapshotRow) => s.cutoffAt == cutoff
  }

  /** `leaderboard_snapshots.find(s => s.cutoff_at === cutoff)` finds a row. */
  function HasCutoff(snaps: seq<SnapshotRow>, cutoff: string): (b: bool)
    ensures b <==> exists k :: 0 <= k < |snaps| && snaps[k].cutoffAt == cutoff
  {
    IndexWhere(snaps, AtCutoff(cutoff)) < |snaps|
  }

  /** The rows the `forEach` at server.js:246-248 pushes after `start` existing rows: the i-th
      ranked row becomes id `start + i + 1` with rank `i + 1`. */
  function SnapshotRows(start: nat, cutoff: string, rows: seq<PlayerBest>): (snap: seq<SnapshotRow>)
    ensures |snap| == |rows|
    ensures forall i :: 0 <= i < |rows| ==>
      snap[i] == SnapshotRow(start + i + 1, cutoff, i + 1, rows[i].playerId, rows[i].score, None)
  {
    seq(|rows|, i requires 0 <= i < |rows| => SnapshotRow(start + i + 1, cutoff, i + 1, rows[i].playerId, rows[i].score, None))
  }

  /** The comparator at server.js:275: `a.rank - b.rank` is negative. */
  predicate RankBefore(a: SnapshotRow, b: SnapshotRow)
  {
    a.rank < b.rank
  }

  lemma RankBeforeIsStrictWeakOrder()
    ensures StrictWeakOrder(RankBefore)
  {
  }

  /** The winners endpoint's rows (server.js:273-276): the rows stored for the cutoff, by rank,
      at most three. */
  function Winners(snaps: seq<SnapshotRow>, cutoff: string): seq<SnapshotRow>
  {
    Take(SortBy(Filter(snaps, AtCutoff(cutoff)), RankBefore), 3)
  }

  /** At most three rows, all stored for the cutoff, in ascending rank. */
  lemma WinnersAreStoredInRankOrder(snaps: seq<SnapshotRow>, cutoff: string)
    ensures var w := Winners(snaps, cutoff);
      |w| <= 3 &&
      (forall r :: r in w ==> r in snaps && r.cutoffAt == cutoff) &&
      (forall i, j :: 0 <= i < j < |w| ==> w[i].rank <= w[j].rank)
  {
    var mine := Filter(snaps, AtCutoff(cutoff));
    var sorted := SortBy(mine, RankBefore);
    var w := Winners(snaps, cutoff);
    RankBeforeIsStrictWeakOrder();
    SortBySorted(mine, RankBefore);
    SortByMembers(mine, RankBefore);
    forall r | r in w ensures r in snaps && r.cutoffAt == cutoff {
      var i :| 0 <= i < |w| && w[i] == r;
      assert r in sorted;
    }
    forall i, j | 0 <= i < j < |w| ensures w[i].rank <= w[j].rank {
      assert !RankBefore(sorted[j], sorted[i]);
    }
  }

  /** Every row stored for the cutoff is among the winners, or the winners are three rows that
      rank no worse than it. */
  lemma WinnersAreTopThree(snaps: seq<SnapshotRow>, cutoff: string, r: SnapshotRow)
    requires r in snaps && r.cutoffAt == cutoff
    ensures var w := Winners(snaps, cutoff);
      r in w || (|w| == 3 && forall x :: x in w ==> x.rank <= r.rank)
  {
    var mine := Filter(snaps, AtCutoff(cutoff));
    var sorted := SortBy(mine, RankBefore);
    var w := Winners(snaps, cutoff);
    RankBeforeIsStrictWeakOrder();
    SortBySorted(mine, RankBefore);
    SortByMembers(mine, RankBefore);
    assert r in sorted;
    var k :| 0 <= k < |sorted| && sorted[k] == r;
    if k < 3 {
      assert w[k] == r;
    } else {
      forall x | x in w ensures x.rank <= r.rank {
        var i :| 0 <= i < |w| && w[i] == x;
        assert !RankBefore(sorted[k], sorted[i]);
      }
    }
  }

  /** Right after finalize writes the rows for a new cutoff, the winners endpoint returns the
      first three of them, in the order they were written. */
  lemma WinnersOfFreshSnapshot(snaps: seq<SnapshotRow>, cutoff: string, rows: seq<PlayerBest>)
    requires !HasCutoff(snaps, cutoff)
    ensures Winners(snaps + SnapshotRows(|snaps|, cutoff, rows), cutoff) == Take(SnapshotRows(|snaps|, cutoff, rows), 3)
  {
    var added := SnapshotRows(|snaps|, cutoff, rows);
    FilterAppend(snaps, added, AtCutoff(cutoff));
    FilterNone(snaps, AtCutoff(cutoff));
    FilterAll(added, AtCutoff(cutoff));
    assert Filter(snaps + added, AtCutoff(cutoff)) == added;
    SortBySortedInput(added, RankBefore);
  }
}
