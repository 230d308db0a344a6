/**
 What every interleaving of login, rotation, logout, password change and password reset keeps.
 */
module CredentialTheorems {
  import opened Common
  import opened IssueLimits
  import opened TokenTable
  import opened ResetCodes
  import opened Credentials

  /******* Sessions *******/

  // A row belongs to the login that opened its family and dies with it.
  ghost predicate OwnedRow(cfg: Config, t: Token, logins: map<int, Login>) {
    && t.family in logins && logins[t.family].user == t.user
    && t.familyExpiresAt == Stored(logins[t.family].at + cfg.absoluteLifetime)
    && t.expiresAt <= t.familyExpiresAt
  }

  // A usable row belongs to a login that verified the password its user has now.
  ghost predicate AuthenticRow(t: Token, users: map<int, User>, logins: map<int, Login>) {
    t.Unrevoked() ==> t.family in logins && t.user in users && users[t.user].hash == logins[t.family].hash
  }

  ghost predicate Sessions(cfg: Config, users: map<int, User>, tokens: seq<Token>, logins: map<int, Login>) {
    && Chains(tokens)
    && forall i :: 0 <= i < |tokens| ==> OwnedRow(cfg, tokens[i], logins) && AuthenticRow(tokens[i], users, logins)
  }

  lemma RevokingKeepsSessions(cfg: Config, users: map<int, User>, before: seq<Token>, after: seq<Token>,
                              logins: map<int, Login>)
    requires Sessions(cfg, users, before, logins) && OnlyRevokes(before, after)
    ensures Sessions(cfg, users, after, logins)
  {
    hide Chains;
    RevokingKeepsChains(before, after);
    forall i | 0 <= i < |after|
      ensures OwnedRow(cfg, after[i], logins) && AuthenticRow(after[i], users, logins)
    {
      assert OwnedRow(cfg, before[i], logins) && AuthenticRow(before[i], users, logins);
      assert after[i].Identity() == before[i].Identity();
    }
  }

  lemma LoginKeepsSessions(cfg: Config, users: map<int, User>, tokens: seq<Token>, t: Token, logins: map<int, Login>,
                           at: int)
    requires Sessions(cfg, users, tokens, logins) && FreshKeys(tokens, t) && t.replacedBy == None
    requires t.family !in logins && t.user in users
    requires t.familyExpiresAt == Stored(at + cfg.absoluteLifetime) && t.expiresAt <= t.familyExpiresAt
    ensures Sessions(cfg, users, tokens + [t], logins[t.family := Login(t.user, users[t.user].hash, at)])
  {
    hide Chains;
    var logins' := logins[t.family := Login(t.user, users[t.user].hash, at)];
    forall r | r in tokens
      ensures r.family != t.family
    {
      var i :| 0 <= i < |tokens| && tokens[i] == r;
      assert OwnedRow(cfg, tokens[i], logins);
    }
    LoginKeepsChains(tokens, t);
    forall i | 0 <= i < |tokens| + 1
      ensures OwnedRow(cfg, (tokens + [t])[i], logins') && AuthenticRow((tokens + [t])[i], users, logins')
    {
      if i < |tokens| {
        assert OwnedRow(cfg, tokens[i], logins) && AuthenticRow(tokens[i], users, logins);
      }
    }
  }

  lemma RotationKeepsSessions(cfg: Config, users: map<int, User>, tokens: seq<Token>, i: nat, t: Token,
                              logins: map<int, Login>, now: int)
    requires Sessions(cfg, users, tokens, logins) && FreshKeys(tokens, t) && t.replacedBy == None
    requires i < |tokens| && tokens[i].Unrevoked()
    requires t.family == tokens[i].family && t.user == tokens[i].user && t.familyExpiresAt == tokens[i].familyExpiresAt
    requires t.expiresAt <= t.familyExpiresAt
    ensures Sessions(cfg, users, Rotate(tokens, i, t, now), logins)
  {
    hide Chains;
    RotationKeepsChains(tokens, i, t, now);
    var after := Rotate(tokens, i, t, now);
    forall k | 0 <= k < |after|
      ensures OwnedRow(cfg, after[k], logins) && AuthenticRow(after[k], users, logins)
    {
      var source := if k < |tokens| then k else i;
      assert OwnedRow(cfg, tokens[source], logins) && AuthenticRow(tokens[source], users, logins);
    }
  }

  /** Replacing a password with every session of the user revoked. */
  lemma ReplacingKeepsSessions(cfg: Config, users: map<int, User>, tokens: seq<Token>, logins: map<int, Login>,
                               user: int, account: User, now: int)
    requires Sessions(cfg, users, tokens, logins) && user in users
    ensures Sessions(cfg, users[user := account], RevokeUser(tokens, user, LogoutAll, now), logins)
  {
    hide Chains;
    var after := RevokeUser(tokens, user, LogoutAll, now);
    RevokingKeepsSessions(cfg, users, tokens, after, logins);
    forall i | 0 <= i < |after|
      ensures AuthenticRow(after[i], users[user := account], logins)
    {
      assert AuthenticRow(after[i], users, logins);
    }
  }

  /******* The session cap *******/

  ghost predicate Capped(cfg: Config, tokens: seq<Token>, now: int) {
    forall u: int :: |ActiveFamilies(tokens, u, now)| <= cfg.maxFamilies
  }

  // Revoking, and the passing of time, only remove active families.
  lemma RevokingKeepsCap(cfg: Config, before: seq<Token>, after: seq<Token>, clock: int, now: int)
    requires Capped(cfg, before, clock) && OnlyRevokes(before, after) && clock <= now
    ensures Capped(cfg, after, now)
  {
    forall u: int
      ensures |ActiveFamilies(after, u, now)| <= cfg.maxFamilies
    {
      forall f | f in ActiveFamilies(after, u, now)
        ensures f in ActiveFamilies(before, u, clock)
      {
        var t :| t in after && t.user == u && t.Live(now) && t.family == f;
        var i :| 0 <= i < |after| && after[i] == t;
        assert before[i] == t;
      }
      SubsetSize(ActiveFamilies(after, u, now), ActiveFamilies(before, u, clock));
    }
  }

  lemma LoginKeepsCap(cfg: Config, tokens: seq<Token>, t: Token, now: int)
    requires Capped(cfg, tokens, now) && |ActiveFamilies(tokens, t.user, now)| < cfg.maxFamilies
    ensures Capped(cfg, tokens + [t], now)
  {
    forall u: int
      ensures |ActiveFamilies(tokens + [t], u, now)| <= cfg.maxFamilies
    {
      var a, b := ActiveFamilies(tokens, u, now), ActiveFamilies(tokens + [t], u, now);
      assert b <= a + if u == t.user then {t.family} else {};
      SubsetSize(b, a + if u == t.user then {t.family} else {});
    }
  }

  lemma RotationKeepsCap(cfg: Config, tokens: seq<Token>, i: nat, t: Token, now: int)
    requires Capped(cfg, tokens, now) && i < |tokens| && tokens[i].Live(now)
    requires t.family == tokens[i].family && t.user == tokens[i].user
    ensures Capped(cfg, Rotate(tokens, i, t, now), now)
  {
    var after := Rotate(tokens, i, t, now);
    forall u: int
      ensures |ActiveFamilies(after, u, now)| <= cfg.maxFamilies
    {
      forall f | f in ActiveFamilies(after, u, now)
        ensures f in ActiveFamilies(tokens, u, now)
      {
        var r :| r in after && r.user == u && r.Live(now) && r.family == f;
        var k :| 0 <= k < |after| && after[k] == r;
        assert k != i;
        assert k < |tokens| ==> tokens[k] == r;
      }
      SubsetSize(ActiveFamilies(after, u, now), ActiveFamilies(tokens, u, now));
    }
  }

  /******* One step *******/

  // Holds whatever the clocks of the requests do.
  ghost predicate Sound(cfg: Config, db: Db) {
    && Sessions(cfg, db.users, db.tokens, db.logins)
    && Limited(db.codes, cfg.cooldown, cfg.hourlyLimit, cfg.maxAttempts)
    && Accounted(db.codes, db.flows, db.users, db.seen)
  }

  // Holds when time does not run backwards from one transaction to the next.
  ghost predicate Current(cfg: Config, db: Db) {
    Capped(cfg, db.tokens, db.clock) && Bound(db.codes, db.flows, db.users, db.clock)
  }

  lemma LoginStep(cfg: Config, db: Db, r: Request)
    requires cfg.Valid() && r.LoginRequest? && Sound(cfg, db) && Fresh(db, r)
    ensures Sound(cfg, Step(cfg, db, r))
    ensures Current(cfg, db) && Timely(db, r) ==> Current(cfg, Step(cfg, db, r))
  {
    hide Sessions, Limited, Accounted, Bound, Capped, Evict, FirstUsable, OnlyRevokes;
    var o := LogIn(cfg, db, r.who, r.password, r.now, r.createdAt, r.family, r.candidates);
    if o.reply.SessionOpened? {
      var u := r.who.value;
      var kept := Evict(db.tokens, u, r.now, Overflow(cfg, db, u, r.now));
      var t := o.reply.token;
      RevokingKeepsSessions(cfg, db.users, db.tokens, kept, db.logins);
      LoginKeepsSessions(cfg, db.users, kept, t, db.logins, r.now);
      if Current(cfg, db) && Timely(db, r) {
        SpendNothing(db.codes);
        SpendingKeepsBinding(db.codes, db.codes, db.flows, db.users, db.clock, r.now);
        RevokingKeepsCap(cfg, db.tokens, kept, db.clock, r.now);
        SessionsChain(cfg, db);
        EvictionMakesRoom(cfg, db, u, r.now);
        LoginKeepsCap(cfg, kept, t, r.now);
      }
    } else {
      Waiting(cfg, db, r.now);
    }
  }

  lemma SpendNothing(codes: seq<Code>)
    ensures OnlySpends(codes, codes)
  {
  }

  // A step that only lets time pass.
  lemma Waiting(cfg: Config, db: Db, now: int)
    ensures Current(cfg, db) && db.clock <= now ==> Current(cfg, db.(clock := now))
  {
    hide Capped, Bound;
    if Current(cfg, db) && db.clock <= now {
      RevokingKeepsCap(cfg, db.tokens, db.tokens, db.clock, now);
      SpendNothing(db.codes);
      SpendingKeepsBinding(db.codes, db.codes, db.flows, db.users, db.clock, now);
    }
  }

  // The login loop leaves room for one more family.
  lemma EvictionMakesRoom(cfg: Config, db: Db, u: int, now: int)
    requires cfg.Valid() && Chains(db.tokens)
    ensures |ActiveFamilies(Evict(db.tokens, u, now, Overflow(cfg, db, u, now)), u, now)| < cfg.maxFamilies
  {
    hide Chains, Evict;
    EvictMeaning(db.tokens, u, now, Overflow(cfg, db, u, now));
  }

  lemma SessionsChain(cfg: Config, db: Db)
    requires Sound(cfg, db)
    ensures Chains(db.tokens)
  {
  }

  // A step that only revokes sessions.
  lemma RevokingStep(cfg: Config, db: Db, tokens: seq<Token>, now: int)
    requires Sound(cfg, db) && OnlyRevokes(db.tokens, tokens)
    ensures Sound(cfg, db.(tokens := tokens, clock := now))
    ensures Current(cfg, db) && db.clock <= now ==> Current(cfg, db.(tokens := tokens, clock := now))
  {
    hide Sessions, Limited, Accounted, Bound, Capped, OnlyRevokes;
    RevokingKeepsSessions(cfg, db.users, db.tokens, tokens, db.logins);
    if Current(cfg, db) && db.clock <= now {
      RevokingKeepsCap(cfg, db.tokens, tokens, db.clock, now);
      SpendNothing(db.codes);
      SpendingKeepsBinding(db.codes, db.codes, db.flows, db.users, db.clock, now);
    }
  }

  // Storing the end of a family again does not move it.
  lemma FamilyEndIsStored(cfg: Config, db: Db, i: nat)
    requires Sound(cfg, db) && i < |db.tokens|
    ensures Stored(db.tokens[i].familyExpiresAt) == db.tokens[i].familyExpiresAt
  {
    var end := db.tokens[i].familyExpiresAt;
    assert OwnedRow(cfg, db.tokens[i], db.logins);
    StoredOrder(end, end);
  }

  lemma RefreshStep(cfg: Config, db: Db, r: Request)
    requires cfg.Valid() && r.RefreshRequest? && Sound(cfg, db)
    ensures Sound(cfg, Step(cfg, db, r))
    ensures Current(cfg, db) && Timely(db, r) ==> Current(cfg, Step(cfg, db, r))
  {
    hide Sessions, Limited, Accounted, Bound, Capped, FirstUsable, OnlyRevokes, FindByHash, RevokeFamily, Rotate;
    var o := Refresh(cfg, db, r.token, r.csrf, r.now, r.createdAt, r.candidates);
    if o.reply.SessionOpened? {
      FamilyEndIsStored(cfg, db, FindByHash(db.tokens, r.token.value).value);
      RotationStep(cfg, db, FindByHash(db.tokens, r.token.value).value, o.reply.token, r.now);
    } else if o.db == db {
      Waiting(cfg, db, r.now);
    } else {
      RevokingStep(cfg, db, o.db.tokens, r.now);
    }
  }

  lemma RotationStep(cfg: Config, db: Db, i: nat, t: Token, now: int)
    requires Sound(cfg, db) && i < |db.tokens| && db.tokens[i].Live(now) && FreshKeys(db.tokens, t)
        && t.replacedBy == None
    requires t.family == db.tokens[i].family && t.user == db.tokens[i].user
        && t.familyExpiresAt == db.tokens[i].familyExpiresAt
    requires t.expiresAt <= t.familyExpiresAt
    ensures Sound(cfg, db.(tokens := Rotate(db.tokens, i, t, now), clock := now))
    ensures Current(cfg, db) && db.clock <= now ==>
        Current(cfg, db.(tokens := Rotate(db.tokens, i, t, now), clock := now))
  {
    hide Sessions, Limited, Accounted, Bound, Capped, Rotate;
    RotationKeepsSessions(cfg, db.users, db.tokens, i, t, db.logins, now);
    if Current(cfg, db) && db.clock <= now {
      RevokingKeepsCap(cfg, db.tokens, db.tokens, db.clock, now);
      RotationKeepsCap(cfg, db.tokens, i, t, now);
      SpendNothing(db.codes);
      SpendingKeepsBinding(db.codes, db.codes, db.flows, db.users, db.clock, now);
    }
  }

  lemma LogoutStep(cfg: Config, db: Db, r: Request)
    requires (r.LogoutRequest? || r.LogoutAllRequest?) && Sound(cfg, db)
    ensures Sound(cfg, Step(cfg, db, r))
    ensures Current(cfg, db) && Timely(db, r) ==> Current(cfg, Step(cfg, db, r))
  {
    hide Sessions, Limited, Accounted, Bound, Capped, OnlyRevokes, FindByHash, RevokeFamily, RevokeUser;
    var o := Handle(cfg, db, r);
    if o.db == db {
      Waiting(cfg, db, r.now);
    } else {
      RevokingStep(cfg, db, o.db.tokens, r.now);
    }
  }

  lemma IssueStep(cfg: Config, db: Db, r: Request)
    requires cfg.Valid() && r.IssueRequest? && Sound(cfg, db) && Fresh(db, r)
    ensures Sound(cfg, Step(cfg, db, r))
    ensures Current(cfg, db) && Timely(db, r) ==> Current(cfg, Step(cfg, db, r))
  {
    hide Sessions, Limited, Accounted, Bound, Capped, OnlySpends, MayIssue;
    var o := IssueReset(cfg, db, r.who, r.provider, r.now, r.id, r.code);
    if o.db == db {
      Waiting(cfg, db, r.now);
    } else {
      var u, spent := r.who.value, InvalidateActive(db.codes, r.who.value, r.now);
      var c := NewCode(cfg, r.id, u, r.code, r.now);
      InvalidatingSpends(db.codes, u, r.now);
      SameAttempts(cfg, db.codes, spent);
      MayIssueSame(db.codes, spent, u, r.now, cfg.cooldown, cfg.hourlyLimit);
      IssueKeepsLimits(spent, c, cfg.cooldown, cfg.hourlyLimit, cfg.maxAttempts);
      SpendingKeepsAccounts(db.codes, spent, db.flows, db.users, db.seen);
      IssueKeepsAccounts(spent, c, db.flows, db.users, db.seen);
      if Current(cfg, db) && Timely(db, r) {
        RevokingKeepsCap(cfg, db.tokens, db.tokens, db.clock, r.now);
        SpendingKeepsBinding(db.codes, spent, db.flows, db.users, db.clock, r.now);
        IssueKeepsBinding(spent, c, Flow(u, db.users[u].hash, Issued), db.flows, db.users, r.now);
      }
    }
  }

  lemma InvalidatingSpends(codes: seq<Code>, user: int, now: int)
    ensures var after := InvalidateActive(codes, user, now);
      && |after| == |codes| && OnlySpends(codes, after)
          && (forall i :: 0 <= i < |codes| ==> after[i].attempts == codes[i].attempts)
      && (forall i :: 0 <= i < |after| && after[i].user == user && after[i].usedAt.None? ==> after[i].expiresAt <= now)
  {
  }

  lemma SameAttempts(cfg: Config, before: seq<Code>, after: seq<Code>)
    requires Limited(before, cfg.cooldown, cfg.hourlyLimit, cfg.maxAttempts) && OnlySpends(before, after)
    requires forall i :: 0 <= i < |before| ==> after[i].attempts == before[i].attempts
    ensures Limited(after, cfg.cooldown, cfg.hourlyLimit, cfg.maxAttempts)
  {
    SpendingKeepsLimits(before, after, cfg.cooldown, cfg.hourlyLimit, cfg.maxAttempts);
  }

  // Invalidation does not move the issue limits: they read no column it changes.
  lemma MayIssueSame(before: seq<Code>, after: seq<Code>, user: int, now: int, cooldown: int, limit: int)
    requires OnlySpends(before, after) && MayIssue(before, user, now, cooldown, limit)
    ensures MayIssue(after, user, now, cooldown, limit)
  {
    SameLog(before, after);
    var a, b := Latest(before, user), Latest(after, user);
    if b.Some? {
      assert before[b.value] in before && after[b.value].createdAt == before[b.value].createdAt;
      assert !Later(before[b.value], before[a.value]);
    }
  }

  lemma DeliverStep(cfg: Config, db: Db, r: Request)
    requires r.DeliverRequest? && Sound(cfg, db)
    ensures Sound(cfg, Step(cfg, db, r))
    ensures Current(cfg, db) ==> Current(cfg, Step(cfg, db, r))
  {
    hide Sessions, Limited, Bound, Capped;
    var o := DeliverReset(db, r.id, r.delivered);
    if o.db != db {
      EndOrMove(cfg, db, r.id, if r.delivered then Delivered else Done);
    }
  }

  // A request moves to another stage without touching its code.
  lemma EndOrMove(cfg: Config, db: Db, id: int, stage: Stage)
    requires Sound(cfg, db) && id in db.flows && !db.flows[id].stage.Done?
    ensures var after := db.(flows := db.flows[id := db.flows[id].(stage := stage)]);
            Sound(cfg, after) && (Current(cfg, db) ==> Current(cfg, after))
  {
    hide Sessions, Limited, Bound, Capped;
    if db.codes != [] {
      StageKeepsAccounts(db.codes, 0, db.codes[0], stage, id, db.flows, db.users, db.seen);
      assert db.codes[0 := db.codes[0]] == db.codes;
    }
    if Current(cfg, db) {
      StageKeepsBinding(db.codes, id, stage, db.flows, db.users, db.clock);
    }
  }

  lemma ActivateStep(cfg: Config, db: Db, r: Request)
    requires r.ActivateRequest? && cfg.Valid() && Sound(cfg, db)
    ensures Sound(cfg, Step(cfg, db, r))
    ensures Current(cfg, db) ==> Current(cfg, Step(cfg, db, r))
  {
    hide Sessions, Bound, Capped, Accounted, Latest, Paced;
    var o := ActivateReset(db, r.id, r.commits);
    if o.db.codes == db.codes {
      if o.db != db {
        EndOrMove(cfg, db, r.id, Done);
      }
    } else {
      var i := Latest(db.codes, db.flows[r.id].user).value;
      var c := db.codes[i].(usedAt := None);
      LatestIsLast(db.codes, db.flows[r.id].user, cfg.cooldown, cfg.hourlyLimit);
      StageKeepsAccounts(db.codes, i, c, Done, r.id, db.flows, db.users, db.seen);
      SameLog(db.codes, o.db.codes);
      if Current(cfg, db) {
        ActivationKeepsBinding(db.codes, i, db.flows, db.users, db.clock);
        StageKeepsBinding(o.db.codes, r.id, Done, db.flows, db.users, db.clock);
      }
    }
  }

  // A password is replaced: its sessions end and its open codes are spent.
  lemma ReplaceStep(cfg: Config, db: Db, user: int, hash: PasswordHash, codes: seq<Code>, now: int)
    requires Sound(cfg, db) && user in db.users && OnlySpends(db.codes, codes) && |codes| == |db.codes|
    requires forall i :: 0 <= i < |codes| ==> codes[i].attempts == db.codes[i].attempts
    requires forall i :: 0 <= i < |codes| && codes[i].user == user && codes[i].usedAt.None? ==>
        codes[i].expiresAt <= now
    ensures var after := ReplacePassword(db, user, hash, codes, now).(clock := now);
            Sound(cfg, after) && (Current(cfg, db) && db.clock <= now ==> Current(cfg, after))
  {
    hide Sessions, Limited, Accounted, Bound, Capped, OnlySpends, RevokeUser;
    var account := db.users[user].(hash := hash);
    ReplacingKeepsSessions(cfg, db.users, db.tokens, db.logins, user, account, now);
    SameAttempts(cfg, db.codes, codes);
    SpendingKeepsAccounts(db.codes, codes, db.flows, db.users, db.seen);
    AccountKeepsAccounts(codes, db.flows, db.users, db.seen, user, account);
    if Current(cfg, db) && db.clock <= now {
      RevokingKeepsCap(cfg, db.tokens, RevokeUser(db.tokens, user, LogoutAll, now), db.clock, now);
      SpendingKeepsBinding(db.codes, codes, db.flows, db.users, db.clock, now);
      ReplacingKeepsBinding(codes, db.flows, db.users, now, user, account);
    }
  }

  lemma ChangeStep(cfg: Config, db: Db, r: Request)
    requires r.ChangeRequest? && Sound(cfg, db)
    ensures Sound(cfg, Step(cfg, db, r))
    ensures Current(cfg, db) && Timely(db, r) ==> Current(cfg, Step(cfg, db, r))
  {
    hide Sessions, Limited, Accounted, Bound, Capped, OnlySpends, ReplacePassword;
    if ChangePassword(db, r.user, r.current, r.hash, r.now).reply.Completed? {
      InvalidatingSpends(db.codes, r.user, r.now);
      ReplaceStep(cfg, db, r.user, r.hash, InvalidateActive(db.codes, r.user, r.now), r.now);
    } else {
      Waiting(cfg, db, r.now);
    }
  }

  lemma CompleteStep(cfg: Config, db: Db, r: Request)
    requires r.CompleteRequest? && Sound(cfg, db)
    ensures Sound(cfg, Step(cfg, db, r))
    ensures Current(cfg, db) && Timely(db, r) ==> Current(cfg, Step(cfg, db, r))
  {
    hide Sound, Current, ReplacePassword, Latest, InvalidateOthers;
    var o := CompleteReset(cfg, db, r.who, r.code, r.hash, r.now);
    var latest := Challenge(db, r.who);
    if latest.None? || !db.codes[latest.value].Available(r.now, cfg.maxAttempts) {
      Waiting(cfg, db, r.now);
      Unchanged(cfg, db, r.now);
    } else if o.reply.Completed? {
      ConsumeStep(cfg, db, latest.value, r.hash, r.now);
    } else {
      WrongCode(cfg, db, latest.value, r.now);
    }
  }

  lemma Unchanged(cfg: Config, db: Db, now: int)
    requires Sound(cfg, db)
    ensures Sound(cfg, db.(clock := now))
  {
  }

  lemma ConsumeStep(cfg: Config, db: Db, i: nat, hash: PasswordHash, now: int)
    requires Sound(cfg, db) && i < |db.codes| && db.codes[i].user in db.users
    ensures var c := db.codes[i];
      var codes := InvalidateOthers(db.codes[i := c.(usedAt := Some(now))], c.user, c.id, now);
      var after := ReplacePassword(db, c.user, hash, codes, now).(clock := now);
      Sound(cfg, after) && (Current(cfg, db) && db.clock <= now ==> Current(cfg, after))
  {
    hide Sessions, Limited, Bound, Capped, Current, OnlySpends, ReplacePassword;
    var c := db.codes[i];
    ConsumingSpends(db.codes, i, now);
    var codes := InvalidateOthers(db.codes[i := c.(usedAt := Some(now))], c.user, c.id, now);
    ReplaceStep(cfg, db, c.user, hash, codes, now);
  }

  // Consuming one code and invalidating the others leaves its user no unused code.
  lemma ConsumingSpends(codes: seq<Code>, i: nat, now: int)
    requires i < |codes| && forall a, b :: 0 <= a < b < |codes| ==> codes[a].id != codes[b].id
    ensures var c := codes[i];
      var after := InvalidateOthers(codes[i := c.(usedAt := Some(now))], c.user, c.id, now);
      && |after| == |codes| && OnlySpends(codes, after)
      && (forall k :: 0 <= k < |codes| ==> after[k].attempts == codes[k].attempts)
      && (forall k :: 0 <= k < |after| && after[k].user == c.user ==> after[k].usedAt.Some?)
  {
  }

  lemma WrongCode(cfg: Config, db: Db, i: nat, now: int)
    requires Sound(cfg, db) && i < |db.codes| && db.codes[i].attempts < cfg.maxAttempts
    ensures var after := db.(codes := db.codes[i := db.codes[i].(attempts := db.codes[i].attempts + 1)], clock := now);
            Sound(cfg, after) && (Current(cfg, db) && db.clock <= now ==> Current(cfg, after))
  {
    hide Sessions, Accounted, Bound, Capped, Paced;
    var codes := db.codes[i := db.codes[i].(attempts := db.codes[i].attempts + 1)];
    assert OnlySpends(db.codes, codes);
    SpendingKeepsLimits(db.codes, codes, cfg.cooldown, cfg.hourlyLimit, cfg.maxAttempts);
    SpendingKeepsAccounts(db.codes, codes, db.flows, db.users, db.seen);
    if Current(cfg, db) && db.clock <= now {
      SpendingKeepsBinding(db.codes, codes, db.flows, db.users, db.clock, now);
      RevokingKeepsCap(cfg, db.tokens, db.tokens, db.clock, now);
    }
  }

  lemma AccountStep(cfg: Config, db: Db, r: Request)
    requires (r.Register? || r.SetActive?) && Sound(cfg, db)
    ensures Sound(cfg, Step(cfg, db, r))
    ensures Current(cfg, db) ==> Current(cfg, Step(cfg, db, r))
  {
    hide Limited, Bound, Capped, Chains;
    var o := Handle(cfg, db, r);
    if o.db.users != db.users {
      var account := o.db.users[r.user];
      AccountKeepsAccounts(db.codes, db.flows, db.users, db.seen, r.user, account);
      assert db.seen + {account.hash} == o.db.seen;
      forall i | 0 <= i < |db.tokens|
        ensures AuthenticRow(db.tokens[i], o.db.users, db.logins)
      {
        assert AuthenticRow(db.tokens[i], db.users, db.logins);
      }
      if Current(cfg, db) {
        SamePasswordsKeepBinding(db.codes, db.flows, db.users, db.clock, r.user, account);
      }
    }
  }

  lemma StepKeeps(cfg: Config, db: Db, r: Request)
    requires cfg.Valid() && Sound(cfg, db) && Fresh(db, r)
    ensures Sound(cfg, Step(cfg, db, r))
    ensures Current(cfg, db) && Timely(db, r) ==> Current(cfg, Step(cfg, db, r))
  {
    hide Sound, Current, Step;
    match r
    case Register(_, _) => AccountStep(cfg, db, r);
    case SetActive(_, _) => AccountStep(cfg, db, r);
    case LoginRequest(_, _, _, _, _, _) => LoginStep(cfg, db, r);
    case RefreshRequest(_, _, _, _, _) => RefreshStep(cfg, db, r);
    case LogoutRequest(_, _, _) => LogoutStep(cfg, db, r);
    case LogoutAllRequest(_, _) => LogoutStep(cfg, db, r);
    case IssueRequest(_, _, _, _, _) => IssueStep(cfg, db, r);
    case DeliverRequest(_, _) => DeliverStep(cfg, db, r);
    case ActivateRequest(_, _) => ActivateStep(cfg, db, r);
    case CompleteRequest(_, _, _, _) => CompleteStep(cfg, db, r);
    case ChangeRequest(_, _, _, _) => ChangeStep(cfg, db, r);
  }

  /******* Runs *******/

  /** Every reachable state is sound, and current when time did not run backwards. */
  lemma {:induction false} RunKeeps(cfg: Config, db: Db, rs: seq<Request>)
    requires cfg.Valid() && Sound(cfg, db) && FreshRun(cfg, db, rs)
    ensures Sound(cfg, Run(cfg, db, rs))
    ensures Current(cfg, db) && TimelyRun(cfg, db, rs) ==> Current(cfg, Run(cfg, db, rs))
    decreases |rs|
  {
    hide Sound, Current, Step, Fresh, Timely;
    if rs != [] {
      StepKeeps(cfg, db, rs[0]);
      RunKeeps(cfg, Step(cfg, db, rs[0]), rs[1..]);
    }
  }

  lemma EmptyIsSound(cfg: Config)
    requires cfg.Valid()
    ensures Sound(cfg, EMPTY) && Current(cfg, EMPTY)
  {
    assert forall u: int :: ActiveFamilies([], u, 0) == {};
  }
}
