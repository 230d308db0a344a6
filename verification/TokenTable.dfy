/**
 Refresh-token rows (models/refresh_token.py, repositories/token_repository.py).

 The table is kept in insertion order; an UPDATE rewrites rows in place and an INSERT
 appends.  A column that the model does not change keeps its row's value.
 */
module TokenTable {
  import opened Common

  datatype Reason = Rotated | Logout | LogoutAll | ReuseDetected | InactiveAccount | SessionLimit | ExpiredCleanup

  datatype Token = Token(
    id: int, user: int, hash: int, family: int, csrf: int, createdAt: int, expiresAt: int, familyExpiresAt: int,
    revokedAt: Option<int>, reason: Option<Reason>, replacedBy: Option<int>, lastUsedAt: Option<int>)
  {
    predicate Unrevoked() {
      revokedAt.None?
    }

    predicate Live(now: int) {
      Unrevoked() && expiresAt > now && familyExpiresAt > now
    }

    function Revoke(why: Reason, now: int): Token {
      this.(revokedAt := Some(now), reason := Some(why), lastUsedAt := Some(now))
    }

    // The columns no revocation touches.
    function Identity(): Token {
      this.(revokedAt := None, reason := None, lastUsedAt := None)
    }
  }

  // ORDER BY created_at, id
  predicate Before(a: Token, b: Token) {
    a.createdAt < b.createdAt || (a.createdAt == b.createdAt && a.id < b.id)
  }

  /******* Queries *******/

  function FindByHash(ts: seq<Token>, hash: int): (r: Option<nat>)
    ensures r.Some? ==> r.value < |ts| && ts[r.value].hash == hash
    ensures r.None? ==> forall t <- ts :: t.hash != hash
  {
    if ts == [] then None
    else if ts[|ts| - 1].hash == hash then Some(|ts| - 1)
    else FindByHash(ts[..|ts| - 1], hash)
  }

  function ActiveFamilies(ts: seq<Token>, user: int, now: int): set<int> {
    set t <- ts | t.user == user && t.Live(now) :: t.family
  }

  function OldestActive(ts: seq<Token>, user: int, now: int): (r: Option<Token>)
    ensures r.None? ==> forall t <- ts :: !(t.user == user && t.Live(now))
    ensures r.Some? ==> r.value in ts && r.value.user == user && r.value.Live(now)
    ensures r.Some? ==> forall t <- ts :: t.user == user && t.Live(now) ==> !Before(t, r.value)
  {
    if ts == [] then None
    else
      var best, t := OldestActive(ts[..|ts| - 1], user, now), ts[|ts| - 1];
      assert ts == ts[..|ts| - 1] + [t];
      if t.user == user && t.Live(now) && (best.None? || Before(t, best.value)) then Some(t) else best
  }

  /******* Updates *******/

  function RevokeFamily(ts: seq<Token>, family: int, why: Reason, now: int, includeRevoked: bool): (r: seq<Token>)
    ensures OnlyRevokes(ts, r)
    ensures forall i :: 0 <= i < |ts| ==>
      r[i] == if ts[i].family == family && (includeRevoked || ts[i].Unrevoked()) then ts[i].Revoke(why, now) else ts[i]
  {
    seq(|ts|, i requires 0 <= i < |ts| =>
      if ts[i].family == family && (includeRevoked || ts[i].Unrevoked()) then ts[i].Revoke(why, now) else ts[i])
  }

  function RevokeUser(ts: seq<Token>, user: int, why: Reason, now: int): (r: seq<Token>)
    ensures OnlyRevokes(ts, r)
    ensures forall i :: 0 <= i < |ts| ==>
      r[i] == if ts[i].user == user && ts[i].Unrevoked() then ts[i].Revoke(why, now) else ts[i]
  {
    seq(|ts|, i requires 0 <= i < |ts| =>
      if ts[i].user == user && ts[i].Unrevoked() then ts[i].Revoke(why, now) else ts[i])
  }

  // INSERT of the replacement, then `mark_token_rotated` on the row at `i`.
  function Rotate(ts: seq<Token>, i: nat, replacement: Token, now: int): seq<Token>
    requires i < |ts|
  {
    ts[i := ts[i].Revoke(Rotated, now).(replacedBy := Some(replacement.id))] + [replacement]
  }

  // Rows keep their identity, and a row that changes ends up revoked.
  ghost predicate OnlyRevokes(before: seq<Token>, after: seq<Token>) {
    && |after| == |before|
    && forall i :: 0 <= i < |before| ==>
        after[i] == before[i] || (!after[i].Unrevoked() && after[i].Identity() == before[i].Identity())
  }

  /******* Family chains *******/

  ghost predicate Unique(ts: seq<Token>) {
    forall i, j :: 0 <= i < j < |ts| ==> ts[i].id != ts[j].id && ts[i].hash != ts[j].hash
  }

  // `j` is the next row of i's family.
  ghost predicate Linked(ts: seq<Token>, i: int, j: int) {
    && 0 <= i < j < |ts| && ts[i].family == ts[j].family
    && forall k :: i < k < j ==> ts[k].family != ts[i].family
  }

  ghost predicate LastOfFamily(ts: seq<Token>, i: int) {
    0 <= i < |ts| && forall j :: i < j < |ts| ==> ts[j].family != ts[i].family
  }

  // Every family is one `replaced_by` chain in insertion order, sharing its user and its
  // absolute expiry, and only the end of the chain can be unrevoked.
  ghost predicate Chains(ts: seq<Token>) {
    && Unique(ts)
    && (forall i, j :: 0 <= i < j < |ts| && ts[i].family == ts[j].family ==>
          ts[i].user == ts[j].user && ts[i].familyExpiresAt == ts[j].familyExpiresAt && !ts[i].Unrevoked())
    && (forall i, j :: Linked(ts, i, j) ==> ts[i].replacedBy == Some(ts[j].id))
    && (forall i :: LastOfFamily(ts, i) ==> ts[i].replacedBy == None)
  }

  lemma RevokingKeepsChains(before: seq<Token>, after: seq<Token>)
    requires Chains(before) && OnlyRevokes(before, after)
    ensures Chains(after)
  {
    assert forall i :: 0 <= i < |before| ==> after[i].Identity() == before[i].Identity();
    forall i, j | 0 <= i < j < |after| && after[i].family == after[j].family
      ensures after[i].user == after[j].user && after[i].familyExpiresAt == after[j].familyExpiresAt
          && !after[i].Unrevoked()
    {
      assert before[i].family == before[j].family;
    }
    forall i, j | Linked(after, i, j)
      ensures after[i].replacedBy == Some(after[j].id)
    {
      assert forall k :: i < k < j ==> after[k].family == before[k].family;
      assert Linked(before, i, j);
    }
    forall i | LastOfFamily(after, i)
      ensures after[i].replacedBy == None
    {
      assert forall k :: i < k < |after| ==> after[k].family == before[k].family;
      assert LastOfFamily(before, i);
    }
  }

  predicate FreshKeys(ts: seq<Token>, t: Token) {
    forall r <- ts :: r.id != t.id && r.hash != t.hash
  }

  lemma LoginKeepsChains(ts: seq<Token>, t: Token)
    requires Chains(ts) && FreshKeys(ts, t) && t.replacedBy == None
    requires forall r <- ts :: r.family != t.family
    ensures Chains(ts + [t])
  {
    var after := ts + [t];
    forall i, j | Linked(after, i, j)
      ensures after[i].replacedBy == Some(after[j].id)
    {
      assert forall k :: i < k < j ==> k < |ts| ==> after[k] == ts[k];
      if j < |ts| { assert Linked(ts, i, j); }
    }
    forall i | LastOfFamily(after, i)
      ensures after[i].replacedBy == None
    {
      if i < |ts| {
        assert forall k :: i < k < |ts| ==> ts[k] == after[k];
        assert LastOfFamily(ts, i);
      }
    }
  }

  lemma UnrevokedIsLast(ts: seq<Token>, i: nat)
    requires Chains(ts) && i < |ts| && ts[i].Unrevoked()
    ensures LastOfFamily(ts, i)
  {
  }

  // The row that rotation continues, and the rows it leaves alone.
  lemma RotatedRows(ts: seq<Token>, i: nat, t: Token, now: int)
    requires i < |ts| && t.family == ts[i].family
    ensures var after := Rotate(ts, i, t, now);
      && |after| == |ts| + 1 && after[|ts|] == t
      && (forall k :: 0 <= k < |ts| && k != i ==> after[k] == ts[k])
      && (forall k :: 0 <= k < |ts| ==> after[k].family == ts[k].family && after[k].id == ts[k].id)
      && after[i] == ts[i].Revoke(Rotated, now).(replacedBy := Some(t.id))
  {
  }

  lemma RotationLinks(ts: seq<Token>, i: nat, t: Token, now: int)
    requires Chains(ts) && i < |ts| && LastOfFamily(ts, i) && t.family == ts[i].family
    ensures var after := Rotate(ts, i, t, now);
      forall a, b :: Linked(after, a, b) ==> after[a].replacedBy == Some(after[b].id)
  {
    RotatedRows(ts, i, t, now);
    var after, n := Rotate(ts, i, t, now), |ts|;
    hide Rotate;
    forall a, b | Linked(after, a, b)
      ensures after[a].replacedBy == Some(after[b].id)
    {
      assert b == n ==> after[i].family == after[a].family;
      assert b < n ==> Linked(ts, a, b);
    }
  }

  lemma RotationEnds(ts: seq<Token>, i: nat, t: Token, now: int)
    requires Chains(ts) && i < |ts| && t.family == ts[i].family && t.replacedBy == None
    ensures var after := Rotate(ts, i, t, now);
      forall a :: LastOfFamily(after, a) ==> after[a].replacedBy == None
  {
    RotatedRows(ts, i, t, now);
    var after, n := Rotate(ts, i, t, now), |ts|;
    hide Rotate;
    forall a | LastOfFamily(after, a)
      ensures after[a].replacedBy == None
    {
      if a < n {
        assert after[n].family != after[a].family;
        assert LastOfFamily(ts, a);
      }
    }
  }

  lemma RotationShares(ts: seq<Token>, i: nat, t: Token, now: int)
    requires Chains(ts) && FreshKeys(ts, t) && i < |ts| && LastOfFamily(ts, i)
    requires t.family == ts[i].family && t.user == ts[i].user && t.familyExpiresAt == ts[i].familyExpiresAt
    ensures var after := Rotate(ts, i, t, now);
      && Unique(after)
      && forall a, b :: 0 <= a < b < |after| && after[a].family == after[b].family ==>
          after[a].user == after[b].user && after[a].familyExpiresAt == after[b].familyExpiresAt
              && !after[a].Unrevoked()
  {
    RotatedRows(ts, i, t, now);
    var after, n := Rotate(ts, i, t, now), |ts|;
    forall a, b | 0 <= a < b < n + 1 && after[a].family == after[b].family
      ensures after[a].user == after[b].user && after[a].familyExpiresAt == after[b].familyExpiresAt
          && !after[a].Unrevoked()
    {
      assert b == n ==> ts[a].family == ts[i].family && a <= i;
    }
  }

  lemma RotationKeepsChains(ts: seq<Token>, i: nat, t: Token, now: int)
    requires Chains(ts) && FreshKeys(ts, t) && t.replacedBy == None
    requires i < |ts| && ts[i].Unrevoked()
    requires t.family == ts[i].family && t.user == ts[i].user && t.familyExpiresAt == ts[i].familyExpiresAt
    ensures Chains(Rotate(ts, i, t, now))
  {
    hide Linked, LastOfFamily, Rotate, Unique;
    UnrevokedIsLast(ts, i);
    RotationLinks(ts, i, t, now);
    RotationEnds(ts, i, t, now);
    RotationShares(ts, i, t, now);
  }

  /** Reading a chain: each link points to a later row of the same family, so it has no cycle. */
  lemma LinkPointsForward(ts: seq<Token>, i: nat) returns (j: nat)
    requires Chains(ts) && i < |ts| && ts[i].replacedBy.Some?
    ensures i < j < |ts| && ts[j].family == ts[i].family && ts[i].replacedBy == Some(ts[j].id)
    ensures Linked(ts, i, j)
  {
    hide Chains, Linked;
    ChainEnds(ts, i);
    var k :| i < k < |ts| && ts[k].family == ts[i].family;
    j := NextInFamily(ts, i, k);
    ChainLinks(ts, i, j);
  }

  lemma ChainEnds(ts: seq<Token>, i: nat)
    requires Chains(ts) && i < |ts| && ts[i].replacedBy.Some?
    ensures exists k :: i < k < |ts| && ts[k].family == ts[i].family
  {
    assert !LastOfFamily(ts, i);
  }

  lemma ChainLinks(ts: seq<Token>, i: nat, j: nat)
    requires Chains(ts) && Linked(ts, i, j)
    ensures i < j < |ts| && ts[j].family == ts[i].family && ts[i].replacedBy == Some(ts[j].id)
  {
  }

  lemma {:induction false} NextInFamily(ts: seq<Token>, i: nat, k: nat) returns (j: nat)
    requires i < k < |ts| && ts[k].family == ts[i].family
    ensures Linked(ts, i, j)
    decreases k
  {
    if Linked(ts, i, k) {
      j := k;
    } else {
      var m :| i < m < k && ts[m].family == ts[i].family;
      j := NextInFamily(ts, i, m);
    }
  }

  /******* Eviction *******/

  // The login loop: revoke the family of the oldest active token, `count` times.
  function Evict(ts: seq<Token>, user: int, now: int, count: nat): (r: seq<Token>)
    ensures OnlyRevokes(ts, r)
    decreases count
  {
    if count == 0 then ts
    else
      match OldestActive(ts, user, now)
      case None => ts
      case Some(t) => Evict(RevokeFamily(ts, t.family, SessionLimit, now, false), user, now, count - 1)
  }

  // Two live rows of one family are the same row.
  lemma OneLivePerFamily(ts: seq<Token>, a: Token, b: Token, now: int)
    requires Chains(ts) && a in ts && b in ts && a.Live(now) && b.Live(now) && a.family == b.family
    ensures a == b
  {
    var i :| 0 <= i < |ts| && ts[i] == a;
    var j :| 0 <= j < |ts| && ts[j] == b;
  }

  // After revoking a family its live rows are gone and every other live row is untouched.
  lemma LiveAfterRevoke(ts: seq<Token>, family: int, why: Reason, now: int, t: Token)
    ensures var r := RevokeFamily(ts, family, why, now, false);
            (t in r && t.Live(now)) <==> (t in ts && t.Live(now) && t.family != family)
  {
    var r := RevokeFamily(ts, family, why, now, false);
    if t in ts && t.family != family {
      var i :| 0 <= i < |ts| && ts[i] == t;
      assert r[i] == t;
    }
  }

  lemma EvictOne(ts: seq<Token>, user: int, now: int, oldest: Token)
    requires Chains(ts) && OldestActive(ts, user, now) == Some(oldest)
    ensures var r := RevokeFamily(ts, oldest.family, SessionLimit, now, false);
            Chains(r) && ActiveFamilies(r, user, now) == ActiveFamilies(ts, user, now) - {oldest.family}
    ensures oldest.family in ActiveFamilies(ts, user, now)
  {
    var r := RevokeFamily(ts, oldest.family, SessionLimit, now, false);
    RevokingKeepsChains(ts, r);
    var a, b := ActiveFamilies(ts, user, now), ActiveFamilies(r, user, now);
    forall f
      ensures f in b <==> f in a && f != oldest.family
    {
      if f in b {
        var t :| t in r && t.user == user && t.Live(now) && t.family == f;
        LiveAfterRevoke(ts, oldest.family, SessionLimit, now, t);
      }
      if f in a && f != oldest.family {
        var t :| t in ts && t.user == user && t.Live(now) && t.family == f;
        LiveAfterRevoke(ts, oldest.family, SessionLimit, now, t);
      }
    }
  }

  // Every evicted live row is older than every live row kept.
  ghost predicate OldestGone(ts: seq<Token>, user: int, now: int, kept: set<int>) {
    forall x, y | x in ts && y in ts && x.user == user && y.user == user && x.Live(now) && y.Live(now) ::
      x.family !in kept && y.family in kept ==> Before(x, y)
  }

  /** The loop evicts exactly the asked number of families, or all there are: those whose active
      token is oldest. */
  lemma {:induction false} EvictMeaning(ts: seq<Token>, user: int, now: int, count: nat)
    requires Chains(ts)
    ensures var kept := ActiveFamilies(Evict(ts, user, now, count), user, now);
      && Chains(Evict(ts, user, now, count))
      && kept <= ActiveFamilies(ts, user, now)
      && |kept| == (if count < |ActiveFamilies(ts, user, now)| then |ActiveFamilies(ts, user, now)| - count else 0)
      && OldestGone(ts, user, now, kept)
    decreases count
  {
    hide Chains, OldestGone, ActiveFamilies, OldestActive, OnlyRevokes;
    if count == 0 {
      NoneGone(ts, user, now);
    } else {
      var o := OldestActive(ts, user, now);
      if o.None? {
        NoneActive(ts, user, now);
        NoneGone(ts, user, now);
      } else {
        EvictOne(ts, user, now, o.value);
        var r := RevokeFamily(ts, o.value.family, SessionLimit, now, false);
        EvictMeaning(r, user, now, count - 1);
        OldestGoneStep(ts, user, now, o.value, ActiveFamilies(Evict(r, user, now, count - 1), user, now));
      }
    }
  }

  /** Eviction leaves every live row alone but those of the families it ends. */
  lemma {:induction false} EvictSpares(ts: seq<Token>, user: int, now: int, count: nat, i: nat)
    requires Chains(ts) && i < |ts| && ts[i].Live(now)
    requires ts[i].user == user ==> ts[i].family in ActiveFamilies(Evict(ts, user, now, count), user, now)
    ensures i < |Evict(ts, user, now, count)| && Evict(ts, user, now, count)[i] == ts[i]
    decreases count
  {
    hide Chains, ActiveFamilies, OldestActive, OnlyRevokes, RevokeFamily;
    var o := OldestActive(ts, user, now);
    if count > 0 && o.Some? {
      EvictOne(ts, user, now, o.value);
      var r := RevokeFamily(ts, o.value.family, SessionLimit, now, false);
      EvictMeaning(r, user, now, count - 1);
      OtherRowStays(ts, user, now, o.value, i);
      EvictSpares(r, user, now, count - 1, i);
    }
  }

  lemma OtherRowStays(ts: seq<Token>, user: int, now: int, oldest: Token, i: nat)
    requires Chains(ts) && OldestActive(ts, user, now) == Some(oldest) && i < |ts|
    requires ts[i].user == user ==> ts[i].family != oldest.family
    ensures var r := RevokeFamily(ts, oldest.family, SessionLimit, now, false); |r| == |ts| && r[i] == ts[i]
  {
    hide Chains, OldestActive;
    var k :| 0 <= k < |ts| && ts[k] == oldest;
    if ts[i].family == oldest.family { SameFamilySameUser(ts, i, k); }
  }

  lemma SameFamilySameUser(ts: seq<Token>, i: nat, k: nat)
    requires Chains(ts) && i < |ts| && k < |ts| && ts[i].family == ts[k].family
    ensures ts[i].user == ts[k].user
  {
    assert i < k || k < i || i == k;
  }

  lemma NoneActive(ts: seq<Token>, user: int, now: int)
    requires OldestActive(ts, user, now).None?
    ensures ActiveFamilies(ts, user, now) == {}
  {
  }

  lemma NoneGone(ts: seq<Token>, user: int, now: int)
    ensures OldestGone(ts, user, now, ActiveFamilies(ts, user, now))
  {
  }

  lemma OldestGoneStep(ts: seq<Token>, user: int, now: int, oldest: Token, kept: set<int>)
    requires Chains(ts) && OldestActive(ts, user, now) == Some(oldest) && oldest.family !in kept
    requires OldestGone(RevokeFamily(ts, oldest.family, SessionLimit, now, false), user, now, kept)
    ensures OldestGone(ts, user, now, kept)
  {
    hide Chains, OldestActive;
    assert Unique(ts) by { UniqueOf(ts); }
    forall x, y | x in ts && y in ts && x.user == user && y.user == user && x.Live(now) && y.Live(now)
                  && x.family !in kept && y.family in kept
      ensures Before(x, y)
    {
      LiveAfterRevoke(ts, oldest.family, SessionLimit, now, x);
      LiveAfterRevoke(ts, oldest.family, SessionLimit, now, y);
      if x.family == oldest.family {
        OneLivePerFamily(ts, x, oldest, now);
        DistinctAreOrdered(ts, x, y);
      }
    }
  }

  lemma UniqueOf(ts: seq<Token>)
    requires Chains(ts)
    ensures Unique(ts)
  {
  }

  lemma DistinctAreOrdered(ts: seq<Token>, x: Token, y: Token)
    requires Unique(ts) && x in ts && y in ts && x != y
    ensures Before(x, y) || Before(y, x)
  {
    var i :| 0 <= i < |ts| && ts[i] == x;
    var j :| 0 <= j < |ts| && ts[j] == y;
    assert i < j || j < i;
  }
}
