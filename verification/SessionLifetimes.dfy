/**
 When sessions open, how long their tokens live, and what ends them: exact conditions in the
 columns of the rows, over one transaction and over whole runs.
 */
module SessionLifetimes {
  import opened Common
  import opened TokenTable
  import opened ResetCodes
  import opened Credentials
  import opened CredentialTheorems
  import opened CredentialGuarantees

  /******* Opening a session *******/

  // Some generated token collides with no row.
  predicate Free(ts: seq<Token>, candidates: seq<Candidate>) {
    exists c <- candidates :: CollidesWithNone(ts, c)
  }

  predicate CollidesWithNone(ts: seq<Token>, c: Candidate) {
    forall t <- ts :: t.id != c.id && t.hash != c.hash
  }

  lemma {:induction false} FirstUsableExists(ts: seq<Token>, candidates: seq<Candidate>)
    ensures FirstUsable(ts, candidates).Some? <==> Free(ts, candidates)
  {
    if candidates != [] {
      var head, tail := candidates[0], candidates[1..];
      assert candidates == [head] + tail;
      FirstUsableExists(ts, tail);
      assert FirstUsable(ts, candidates).Some? <==> CollidesWithNone(ts, head) || FirstUsable(ts, tail).Some?;
    }
  }

  lemma RevokingKeepsFree(before: seq<Token>, after: seq<Token>, candidates: seq<Candidate>)
    requires OnlyRevokes(before, after)
    ensures Free(before, candidates) <==> Free(after, candidates)
  {
    forall c
      ensures CollidesWithNone(before, c) <==> CollidesWithNone(after, c)
    {
      SameCollisions(before, after, c);
    }
  }

  lemma SameCollisions(before: seq<Token>, after: seq<Token>, c: Candidate)
    requires OnlyRevokes(before, after)
    ensures CollidesWithNone(before, c) <==> CollidesWithNone(after, c)
  {
    forall i | 0 <= i < |before|
      ensures before[i].id == after[i].id && before[i].hash == after[i].hash && before[i] in before && after[i] in after
    {
      assert after[i].Identity() == before[i].Identity();
      assert after[i].Identity().id == after[i].id && after[i].Identity().hash == after[i].hash;
    }
  }

  /** A login opens a session exactly for an active account with the right password, if one of the
      generated tokens is free. */
  lemma LoginOpensExactly(cfg: Config, db: Db, r: Request)
    requires r.LoginRequest?
    ensures Handle(cfg, db, r).reply.SessionOpened? <==>
      && r.who.Some? && r.who.value in db.users && db.users[r.who.value].active
      && r.password == db.users[r.who.value].hash.password
      && Free(db.tokens, r.candidates)
  {
    hide Evict, FirstUsable, Free, OnlyRevokes, ActiveFamilies;
    if r.who.Some? {
      var kept := Evict(db.tokens, r.who.value, r.now, Overflow(cfg, db, r.who.value, r.now));
      RevokingKeepsFree(db.tokens, kept, r.candidates);
      FirstUsableExists(kept, r.candidates);
    }
  }

  // The row at `i` is presented with its own CSRF token, in cookie and header, and is usable.
  predicate Renews(db: Db, r: Request, i: nat)
    requires r.RefreshRequest? && i < |db.tokens|
  {
    var t := db.tokens[i];
    && r.token == Some(t.hash) && r.csrf.cookie == Some(t.csrf) && r.csrf.header == Some(t.csrf)
    && t.revokedAt.None? && r.now < t.expiresAt && r.now < t.familyExpiresAt
    && t.user in db.users && db.users[t.user].active
  }

  /** A refresh opens a session exactly for the unrevoked, unexpired token of an active account
      presented with its CSRF token, if one of the generated tokens is free. */
  lemma RefreshOpensExactly(cfg: Config, db: Db, r: Request)
    requires Sound(cfg, db) && r.RefreshRequest?
    ensures Handle(cfg, db, r).reply.SessionOpened? <==>
      Free(db.tokens, r.candidates) && exists i: nat :: i < |db.tokens| && Renews(db, r, i)
  {
    hide Sound, FirstUsable, Free, FindByHash, RevokeFamily, Rotate;
    FirstUsableExists(db.tokens, r.candidates);
    if i: nat :| i < |db.tokens| && Renews(db, r, i) {
      PresentedIsFound(cfg, db, r.token, r.csrf, i);
    }
    if r.token.Some? && Handle(cfg, db, r).reply.SessionOpened? {
      assert Renews(db, r, FindByHash(db.tokens, r.token.value).value);
    }
  }

  /** A refresh that presents a token opens a session, or leaves its family dead, unless every
      generated token collides. */
  lemma RefreshOpensOrEnds(cfg: Config, db: Db, r: Request, i: nat)
    requires Sound(cfg, db) && r.RefreshRequest? && Presents(db, r.token, r.csrf, i)
    requires Free(db.tokens, r.candidates)
    ensures Handle(cfg, db, r).reply.SessionOpened? || Dead(Step(cfg, db, r), db.tokens[i].family)
  {
    hide Sound, FirstUsable, Free, FindByHash;
    FirstUsableExists(db.tokens, r.candidates);
    PresentedIsFound(cfg, db, r.token, r.csrf, i);
    FamilyWasOpened(cfg, db, i);
  }

  lemma FamilyWasOpened(cfg: Config, db: Db, i: nat)
    requires Sound(cfg, db) && i < |db.tokens|
    ensures var t := db.tokens[i];
      && t.family in db.logins && db.logins[t.family].user == t.user
      && t.familyExpiresAt == Stored(db.logins[t.family].at + cfg.absoluteLifetime)
  {
    hide Chains, Limited, Accounted;
    assert OwnedRow(cfg, db.tokens[i], db.logins);
  }

  /******* Lifetimes *******/

  function Earlier(a: int, b: int): int {
    if a < b then a else b
  }

  /** A token expires a refresh lifetime after it is opened, or with its family if that is sooner;
      a family ends an absolute lifetime after its login. */
  lemma OpenedTokenExpires(cfg: Config, db: Db, r: Request)
    requires cfg.Valid() && Sound(cfg, db) && Handle(cfg, db, r).reply.SessionOpened?
    ensures r.LoginRequest? || r.RefreshRequest?
    ensures var t := Handle(cfg, db, r).reply.token;
      && t.expiresAt == Earlier(Stored(r.now + cfg.refreshLifetime), t.familyExpiresAt)
      && (r.LoginRequest? ==> t.familyExpiresAt == Stored(r.now + cfg.absoluteLifetime))
  {
    hide Sound, FirstUsable, Evict, FindByHash, RevokeFamily, Rotate, ActiveFamilies;
    var limit := r.now + cfg.refreshLifetime;
    if r.LoginRequest? {
      StoredOrder(limit, r.now + cfg.absoluteLifetime);
    } else {
      var i := FindByHash(db.tokens, r.token.value).value;
      var end := db.tokens[i].familyExpiresAt;
      FamilyEndIsStored(cfg, db, i);
      if limit < end { StoredOrder(limit, end); } else { StoredOrder(end, limit); }
    }
  }

  // The columns that no transaction changes once the row is inserted.
  function Fixed(t: Token): Token {
    t.(revokedAt := None, reason := None, replacedBy := None, lastUsedAt := None)
  }

  lemma RevokingKeepsFixed(before: seq<Token>, after: seq<Token>, i: nat)
    requires OnlyRevokes(before, after) && i < |before|
    ensures i < |after| && Fixed(after[i]) == Fixed(before[i])
  {
    assert Fixed(after[i].Identity()) == Fixed(before[i].Identity());
  }

  lemma StepKeepsFixed(cfg: Config, db: Db, r: Request, i: nat)
    requires i < |db.tokens|
    ensures var after := Step(cfg, db, r).tokens; i < |after| && Fixed(after[i]) == Fixed(db.tokens[i])
  {
    hide OnlyRevokes, FirstUsable, ActiveFamilies, Evict, RevokeFamily, RevokeUser, Latest, MayIssue,
      FindByHash, InvalidateOthers, InvalidateActive, NewToken;
    var o := Handle(cfg, db, r);
    if r.LoginRequest? && o.reply.SessionOpened? {
      var kept := Evict(db.tokens, r.who.value, r.now, Overflow(cfg, db, r.who.value, r.now));
      RevokingKeepsFixed(db.tokens, kept, i);
    } else if r.RefreshRequest? && o.reply.SessionOpened? {
    } else if o.db.tokens != db.tokens {
      RevokingKeepsFixed(db.tokens, o.db.tokens, i);
    }
  }

  lemma {:induction false} RunKeepsFixed(cfg: Config, db: Db, rs: seq<Request>, i: nat)
    requires i < |db.tokens|
    ensures var after := Run(cfg, db, rs).tokens; i < |after| && Fixed(after[i]) == Fixed(db.tokens[i])
    decreases |rs|
  {
    if rs != [] {
      hide Step, Fixed;
      StepKeepsFixed(cfg, db, rs[0], i);
      RunKeepsFixed(cfg, Step(cfg, db, rs[0]), rs[1..], i);
    }
  }

  lemma OpenedIsLast(cfg: Config, db: Db, r: Request)
    requires Handle(cfg, db, r).reply.SessionOpened?
    ensures var after := Step(cfg, db, r).tokens;
      |after| == |db.tokens| + 1 && after[|db.tokens|] == Handle(cfg, db, r).reply.token
  {
    hide FirstUsable, ActiveFamilies, FindByHash, RevokeFamily, RevokeUser, NewToken;
    if r.LoginRequest? {
      SameLength(db.tokens, Evict(db.tokens, r.who.value, r.now, Overflow(cfg, db, r.who.value, r.now)));
    }
  }

  /**
   From the moment a token is opened, after any further run: presenting it opens a session exactly
   while its refresh lifetime and the absolute lifetime of its login last, with its CSRF token,
   unrevoked, for an active account, with a free generated token.
   */
  lemma TokenLifetime(cfg: Config, db: Db, open: Request, rs: seq<Request>, r: Request)
    requires cfg.Valid() && Sound(cfg, db) && Fresh(db, open) && Handle(cfg, db, open).reply.SessionOpened?
    requires FreshRun(cfg, Step(cfg, db, open), rs)
    requires r.RefreshRequest? && r.token == Some(Handle(cfg, db, open).reply.token.hash)
    ensures var later, i := Run(cfg, Step(cfg, db, open), rs), |db.tokens|;
      && i < |later.tokens|
      && var t := later.tokens[i];
      && t.family in later.logins
      && (Handle(cfg, later, r).reply.SessionOpened? <==>
          && r.now < Stored(open.now + cfg.refreshLifetime)
          && r.now < Stored(later.logins[t.family].at + cfg.absoluteLifetime)
          && r.csrf == Csrf(Some(t.csrf), Some(t.csrf)) && t.revokedAt.None?
          && t.user in later.users && later.users[t.user].active && Free(later.tokens, r.candidates))
  {
    hide Step, Handle, Sound, Fresh, FreshRun, Run, Free;
    var next, i := Step(cfg, db, open), |db.tokens|;
    var later := Run(cfg, next, rs);
    OpenedIsLast(cfg, db, open);
    OpenedTokenExpires(cfg, db, open);
    StepKeeps(cfg, db, open);
    RunKeepsFixed(cfg, next, rs, i);
    RunKeeps(cfg, next, rs);
    var t, first := later.tokens[i], next.tokens[i];
    assert Fixed(t).hash == Fixed(first).hash && Fixed(t).expiresAt == Fixed(first).expiresAt
        && Fixed(t).familyExpiresAt == Fixed(first).familyExpiresAt;
    FamilyWasOpened(cfg, later, i);
    RefreshOpensExactly(cfg, later, r);
    OnlyRowRenews(cfg, later, r, i);
    assert (exists k: nat :: k < |later.tokens| && Renews(later, r, k)) <==> Renews(later, r, i);
    assert Earlier(Stored(open.now + cfg.refreshLifetime), t.familyExpiresAt) == t.expiresAt;
  }

  lemma OnlyRowRenews(cfg: Config, db: Db, r: Request, i: nat)
    requires Sound(cfg, db) && r.RefreshRequest? && i < |db.tokens| && r.token == Some(db.tokens[i].hash)
    ensures forall k: nat :: k < |db.tokens| && Renews(db, r, k) ==> k == i
  {
    hide Chains, Limited, Accounted;
    UniqueOf(db.tokens);
  }

  /******* What ends a session *******/

  // The request presents a token of this family with its CSRF token.
  ghost predicate PresentsFamily(db: Db, token: Option<int>, csrf: Csrf, family: int) {
    exists i: nat :: Presents(db, token, csrf, i) && db.tokens[i].family == family
  }

  lemma {:induction false} EvictTouchesUser(ts: seq<Token>, user: int, now: int, count: nat, i: nat)
    requires Chains(ts) && i < |ts| && ts[i].user != user
    ensures i < |Evict(ts, user, now, count)| && Evict(ts, user, now, count)[i] == ts[i]
    decreases count
  {
    hide Chains, ActiveFamilies, OldestActive, OnlyRevokes, RevokeFamily;
    var o := OldestActive(ts, user, now);
    if count > 0 && o.Some? {
      EvictOne(ts, user, now, o.value);
      OtherRowStays(ts, user, now, o.value, i);
      EvictTouchesUser(RevokeFamily(ts, o.value.family, SessionLimit, now, false), user, now, count - 1, i);
    }
  }

  /** A row changes only by a login of its user, a refresh or logout that presents its family, a
      logout everywhere or a replaced password of its user; every other row is left alone. */
  lemma RowsChangeOnlyBy(cfg: Config, db: Db, r: Request, j: nat)
    requires Sound(cfg, db) && j < |db.tokens|
    requires j < |Step(cfg, db, r).tokens| ==> Step(cfg, db, r).tokens[j] != db.tokens[j]
    ensures var t := db.tokens[j];
      || (r.LoginRequest? && r.who == Some(t.user) && Handle(cfg, db, r).reply.SessionOpened?)
      || ((r.RefreshRequest? || r.LogoutRequest?) && PresentsFamily(db, r.token, r.csrf, t.family))
      || (r.LogoutAllRequest? && r.user == t.user)
      || Replaces(cfg, db, r, t.user)
  {
    hide Sound, OnlyRevokes, FirstUsable, ActiveFamilies, Evict, Latest, MayIssue, FindByHash, InvalidateOthers,
      InvalidateActive, NewToken, OldestActive;
    var t := db.tokens[j];
    if r.LoginRequest? && r.who.Some? && r.who.value != t.user {
      SessionsChain(cfg, db);
      EvictTouchesUser(db.tokens, r.who.value, r.now, Overflow(cfg, db, r.who.value, r.now), j);
    }
    if (r.RefreshRequest? || r.LogoutRequest?) && r.token.Some? {
      var found := FindByHash(db.tokens, r.token.value);
      if found.Some? && r.csrf.MatchesStored(db.tokens[found.value].csrf) {
        assert Presents(db, r.token, r.csrf, found.value);
      }
    }
  }

  /** A login ends the sessions of its user that were opened first, by creation time and id. */
  lemma LoginEndsFirst(cfg: Config, db: Db, r: Request, gone: Token, kept: Token)
    requires cfg.Valid() && Sound(cfg, db) && r.LoginRequest? && Fresh(db, r) && Handle(cfg, db, r).reply.SessionOpened?
    requires gone in db.tokens && gone.user == r.who.value && gone.Live(r.now)
    requires kept in db.tokens && kept.user == r.who.value && kept.Live(r.now)
    requires gone.family !in ActiveFamilies(Step(cfg, db, r).tokens, r.who.value, r.now)
    requires kept.family in ActiveFamilies(Step(cfg, db, r).tokens, r.who.value, r.now)
    ensures gone.createdAt < kept.createdAt || (gone.createdAt == kept.createdAt && gone.id < kept.id)
  {
    hide Step, Handle, Sound, ActiveFamilies, Fresh;
    LoginLeaves(cfg, db, r);
    LoginOpens(cfg, db, r);
    NewFamilyIsNew(cfg, db, r.family) by { assert r.family !in db.logins by { FreshFamily(db, r); } }
    var active := ActiveFamilies(Step(cfg, db, r).tokens, r.who.value, r.now);
    assert gone.family !in active - {r.family} && kept.family in active - {r.family};
  }

  lemma FreshFamily(db: Db, r: Request)
    requires r.LoginRequest? && Fresh(db, r)
    ensures r.family !in db.logins
  {
  }
}
