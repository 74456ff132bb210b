/** The prize-code registry (server.js:177-221, 255-262): the `prize_codes` collection, its
    lookups, and the status a code has at a given instant. */
module Registry {
  import opened Wrappers
  import opened Seqs
  import opened Text
  import opened Sorting

  /** Seven days in milliseconds: a code expires this long after it is issued (server.js:189, 259). */
  const Week: int := 7 * 24 * 3600 * 1000

  /** One record of `prize_codes` (server.js:190, 260). `expiresAt` is the expiry instant in
      milliseconds, which `Date.parse(expires_at)` recovers; `notes` is always null and is left out. */
  datatype PrizeCode = PrizeCode(
    code: string, rank: int, playerId: string, issuedAt: string, expiresAt: int,
    usedAt: Option<string>, usedBy: Option<string>)

  /** A fresh, unused record issued at `now` (milliseconds) and `issuedAt` (the same instant as text). */
  function Fresh(code: string, rank: int, playerId: string, issuedAt: string, now: int): (c: PrizeCode)
    ensures c.expiresAt - now == Week && c.usedAt.None? && c.usedBy.None?
  {
    PrizeCode(code, rank, playerId, issuedAt, now + Week, None, None)
  }

  /** `if (pc.used_at)`: the field is set and not the empty string. */
  predicate IsUsed(c: PrizeCode)
  {
    c.usedAt.Some? && c.usedAt.value != []
  }

  /** The record a code finds (`prize_codes.find(p => p.code === code)`), or `|codes|` for none. */
  function CodeIndex(codes: seq<PrizeCode>, code: string): (i: nat)
    ensures i <= |codes|
    ensures i < |codes| ==> codes[i].code == code
    ensures forall j :: 0 <= j < i ==> codes[j].code != code
  {
    IndexWhere(codes, (c: PrizeCode) => c.code == code)
  }

  /** The record of a player (`prize_codes.find(p => p.player_id === player_id)`), or `|codes|` for none. */
  function OwnerIndex(codes: seq<PrizeCode>, playerId: string): (i: nat)
    ensures i <= |codes|
    ensures i < |codes| ==> codes[i].playerId == playerId
    ensures forall j :: 0 <= j < i ==> codes[j].playerId != playerId
  {
    IndexWhere(codes, (c: PrizeCode) => c.playerId == playerId)
  }

  /** The invariant both issuing paths keep: no player holds two codes. */
  ghost predicate OneCodePerPlayer(codes: seq<PrizeCode>)
  {
    forall i, j :: 0 <= i < j < |codes| ==> codes[i].playerId != codes[j].playerId
  }

  /** `pc?.code || null`: a found record's code, unless it is empty. */
  function CodeOrNull(c: Option<PrizeCode>): (r: Option<string>)
    ensures r.Some? <==> c.Some? && c.value.code != []
    ensures r.Some? ==> r.value == c.value.code
  {
    if c.Some? && c.value.code != [] then Some(c.value.code) else None
  }

  /** The code the leaderboard shows for a player (server.js:146, 169): their first record's. */
  function FirstCodeOf(codes: seq<PrizeCode>, playerId: string): (r: Option<string>)
    ensures r.Some? ==> exists k :: 0 <= k < |codes| && codes[k].playerId == playerId && codes[k].code == r.value
    ensures r.None? ==> forall k :: 0 <= k < |codes| && codes[k].playerId == playerId ==> k > OwnerIndex(codes, playerId) || codes[k].code == []
    ensures r.Some? <==> OwnerIndex(codes, playerId) < |codes| && codes[OwnerIndex(codes, playerId)].code != []
    ensures r.Some? ==> r.value == codes[OwnerIndex(codes, playerId)].code
  {
    var i := OwnerIndex(codes, playerId);
    CodeOrNull(if i < |codes| then Some(codes[i]) else None)
  }

  /** The comparator at server.js:106: `a.issued_at.localeCompare(b.issued_at)` is negative. */
  predicate IssuedBefore(a: PrizeCode, b: PrizeCode)
  {
    Less(a.issuedAt, b.issuedAt)
  }

  lemma IssuedBeforeIsStrictWeakOrder()
    ensures StrictWeakOrder(IssuedBefore)
  {
    forall a, b | IssuedBefore(a, b) ensures !IssuedBefore(b, a) {
      LessAsymmetric(a.issuedAt, b.issuedAt);
    }
    forall a, b, c | !IssuedBefore(a, b) && !IssuedBefore(b, c) ensures !IssuedBefore(a, c) {
      LessTrichotomy(a.issuedAt, b.issuedAt);
      LessTrichotomy(b.issuedAt, c.issuedAt);
      if Less(a.issuedAt, c.issuedAt) && Less(c.issuedAt, b.issuedAt) { LessTransitive(a.issuedAt, c.issuedAt, b.issuedAt); }
      if Less(b.issuedAt, a.issuedAt) && Less(a.issuedAt, c.issuedAt) { LessTransitive(b.issuedAt, a.issuedAt, c.issuedAt); }
      LessIrreflexive(a.issuedAt);
    }
  }

  function OwnedBy(playerId: string): PrizeCode -> bool
  {
    (c: PrizeCode) => c.playerId == playerId
  }

  /** The record the score response reports (server.js:104-107): the player's records sorted by
      `issued_at`, and the last of them. */
  function LatestCode(codes: seq<PrizeCode>, playerId: string): Option<PrizeCode>
  {
    var mine := SortBy(Filter(codes, OwnedBy(playerId)), IssuedBefore);
    if mine == [] then None else Some(mine[|mine| - 1])
  }

  /** The latest record exists exactly when the player has one, belongs to the player, and no
      record of theirs was issued later. */
  lemma LatestCodeIsLatest(codes: seq<PrizeCode>, playerId: string)
    ensures LatestCode(codes, playerId).None? <==> OwnerIndex(codes, playerId) == |codes|
    ensures LatestCode(codes, playerId).Some? ==>
      var c := LatestCode(codes, playerId).value;
      c in codes && c.playerId == playerId &&
      forall d :: d in codes && d.playerId == playerId ==> AtMost(d.issuedAt, c.issuedAt)
  {
    var mine := Filter(codes, OwnedBy(playerId));
    SortByMembers(mine, IssuedBefore);
    var i := OwnerIndex(codes, playerId);
    if i < |codes| {
      assert codes[i] in mine;
    }
    if LatestCode(codes, playerId).Some? {
      LatestOfSome(codes, playerId);
    }
  }

  /** When the player has a latest record, it is one of theirs and no record of theirs was
      issued later. */
  lemma LatestOfSome(codes: seq<PrizeCode>, playerId: string)
    requires LatestCode(codes, playerId).Some?
    ensures var c := LatestCode(codes, playerId).value;
      c in codes && c.playerId == playerId &&
      forall d :: d in codes && d.playerId == playerId ==> AtMost(d.issuedAt, c.issuedAt)
  {
    var mine := Filter(codes, OwnedBy(playerId));
    var sorted := SortBy(mine, IssuedBefore);
    SortByMembers(mine, IssuedBefore);
    IssuedBeforeIsStrictWeakOrder();
    SortBySorted(mine, IssuedBefore);
    LastIsLatest(sorted);
    var c := sorted[|sorted| - 1];
    assert c in mine;
    forall d | d in codes && d.playerId == playerId ensures AtMost(d.issuedAt, c.issuedAt) {
      assert OwnedBy(playerId)(d);
      assert d in sorted;
    }
  }

  /** The last of records sorted by `issued_at` was issued no earlier than any of them. */
  lemma LastIsLatest(sorted: seq<PrizeCode>)
    requires sorted != [] && Sorted(sorted, IssuedBefore)
    ensures forall d :: d in sorted ==> AtMost(d.issuedAt, sorted[|sorted| - 1].issuedAt)
  {
    var c := sorted[|sorted| - 1];
    forall d | d in sorted ensures AtMost(d.issuedAt, c.issuedAt) {
      var k :| 0 <= k < |sorted| && sorted[k] == d;
      if k < |sorted| - 1 {
        assert !IssuedBefore(c, sorted[k]);
      } else {
        LessIrreflexive(c.issuedAt);
      }
    }
  }

  /** Under the one-code-per-player invariant the latest record is simply the player's record. */
  lemma LatestCodeIsOnlyCode(codes: seq<PrizeCode>, playerId: string)
    requires OneCodePerPlayer(codes)
    ensures LatestCode(codes, playerId) ==
      if OwnerIndex(codes, playerId) < |codes| then Some(codes[OwnerIndex(codes, playerId)]) else None
  {
    LatestCodeIsLatest(codes, playerId);
    var i := OwnerIndex(codes, playerId);
    if i < |codes| {
      var c := LatestCode(codes, playerId).value;
      var k :| 0 <= k < |codes| && codes[k] == c;
      assert k == i;
    }
  }

  /** What verify-code reports for a code (server.js:199-205). */
  datatype CodeStatus =
    | NotFound
    | Used(usedAt: Option<string>, usedBy: Option<string>, rank: int, playerId: string)
    | Expired(rank: int, playerId: string)
    | Valid(rank: int, playerId: string, expiresAt: int)

  /** The status of the first record with this code at `now`: not found, else used once
      `used_at` is set, else expired strictly after `expires_at`, else valid. */
  function Status(codes: seq<PrizeCode>, code: string, now: int): (st: CodeStatus)
    ensures st.NotFound? <==> forall k :: 0 <= k < |codes| ==> codes[k].code != code
    ensures !st.NotFound? ==>
      var c := codes[CodeIndex(codes, code)];
      st.rank == c.rank && st.playerId == c.playerId &&
      (st.Used? <==> IsUsed(c)) &&
      (st.Expired? <==> !IsUsed(c) && now > c.expiresAt) &&
      (st.Valid? ==> st.expiresAt == c.expiresAt) &&
      (st.Used? ==> st.usedAt == c.usedAt && st.usedBy == c.usedBy)
  {
    var i := CodeIndex(codes, code);
    if i == |codes| then NotFound
    else
      var c := codes[i];
      if IsUsed(c) then Used(c.usedAt, c.usedBy, c.rank, c.playerId)
      else if now > c.expiresAt then Expired(c.rank, c.playerId)
      else Valid(c.rank, c.playerId, c.expiresAt)
  }

  /** Expiry is strict: an unused code is still valid at its expiry instant and expired one
      millisecond later. */
  lemma ExpiryBoundary(codes: seq<PrizeCode>, code: string)
    requires CodeIndex(codes, code) < |codes| && !IsUsed(codes[CodeIndex(codes, code)])
    ensures var exp := codes[CodeIndex(codes, code)].expiresAt;
      Status(codes, code, exp).Valid? && Status(codes, code, exp + 1).Expired?
  {
  }

  /** A code issued at `now` is valid for exactly the next seven days. */
  lemma FreshCodeLifetime(codes: seq<PrizeCode>, code: string, rank: int, playerId: string, issuedAt: string, now: int, t: int)
    requires CodeIndex(codes, code) == |codes|
    ensures var st := Status(codes + [Fresh(code, rank, playerId, issuedAt, now)], code, t);
      (st.Valid? <==> t <= now + Week) && (st.Expired? <==> t > now + Week)
  {
    var codes' := codes + [Fresh(code, rank, playerId, issuedAt, now)];
    IndexWhereAppend(codes, [Fresh(code, rank, playerId, issuedAt, now)], (c: PrizeCode) => c.code == code);
    assert CodeIndex(codes', code) == |codes|;
  }

  /** `pc.used_by = String(used_by || '').slice(0, 64) || null`. */
  function UsedByValue(usedBy: string): (r: Option<string>)
    ensures r.None? <==> usedBy == []
    ensures r.Some? ==> |r.value| == (if |usedBy| < 64 then |usedBy| else 64) && r.value == usedBy[..|r.value|]
  {
    var t := Truncate(usedBy, 64);
    if t == [] then None else Some(t)
  }

  /** The in-place update of a redemption (server.js:218): record `i` gets `used_at` and `used_by`. */
  function Redeem(codes: seq<PrizeCode>, i: nat, usedAt: string, usedBy: Option<string>): (codes': seq<PrizeCode>)
    requires i < |codes|
    ensures |codes'| == |codes|
    ensures forall k :: 0 <= k < |codes| && k != i ==> codes'[k] == codes[k]
    ensures codes'[i].code == codes[i].code && codes'[i].playerId == codes[i].playerId && codes'[i].rank == codes[i].rank
    ensures codes'[i].expiresAt == codes[i].expiresAt && codes'[i].issuedAt == codes[i].issuedAt
    ensures codes'[i].usedAt == Some(usedAt) && codes'[i].usedBy == usedBy
  {
    codes[i := codes[i].(usedAt := Some(usedAt), usedBy := usedBy)]
  }

  /** Redemption is terminal: once the record a code finds is redeemed, the code reports "used"
      at every later instant. */
  lemma RedeemedStaysUsed(codes: seq<PrizeCode>, code: string, usedAt: string, usedBy: Option<string>, t: int)
    requires CodeIndex(codes, code) < |codes| && usedAt != []
    ensures Status(Redeem(codes, CodeIndex(codes, code), usedAt, usedBy), code, t).Used?
  {
    var i := CodeIndex(codes, code);
    var codes' := Redeem(codes, i, usedAt, usedBy);
    assert CodeIndex(codes', code) == i by {
      assert forall j :: 0 <= j < i ==> codes'[j] == codes[j];
    }
  }

  /** Records appended later never change what an existing code reports: the lookup returns the
      first record with the code, even when a colliding code is issued afterwards. */
  lemma StatusUnchangedByAppend(codes: seq<PrizeCode>, more: seq<PrizeCode>, code: string, t: int)
    requires CodeIndex(codes, code) < |codes|
    ensures Status(codes + more, code, t) == Status(codes, code, t)
  {
    IndexWhereAppend(codes, more, (c: PrizeCode) => c.code == code);
    assert (codes + more)[CodeIndex(codes, code)] == codes[CodeIndex(codes, code)];
  }
}
