/**
 The promises of the credential protocol, read off the reachable states.
 */
module CredentialGuarantees {
  import opened Common
  import opened IssueLimits
  import opened TokenTable
  import opened ResetCodes
  import opened Credentials
  import opened CredentialTheorems

  // Some interleaving of requests leads from the empty database to `db`; `timely` asks
  // that transactions read a clock that does not run backwards.
  ghost predicate Reachable(cfg: Config, db: Db, timely: bool) {
    && cfg.Valid()
    && exists rs: seq<Request> :: FreshRun(cfg, EMPTY, rs) && (timely ==> TimelyRun(cfg, EMPTY, rs))
        && Run(cfg, EMPTY, rs) == db
  }

  lemma ReachableIsSound(cfg: Config, db: Db, timely: bool)
    requires Reachable(cfg, db, timely)
    ensures Sound(cfg, db) && (timely ==> Current(cfg, db))
  {
    hide Sound, Current, Run, FreshRun, TimelyRun;
    EmptyIsSound(cfg);
    var rs :| FreshRun(cfg, EMPTY, rs) && (timely ==> TimelyRun(cfg, EMPTY, rs)) && Run(cfg, EMPTY, rs) == db;
    RunKeeps(cfg, EMPTY, rs);
  }

  /******* Sessions *******/

  /** Each family is one chain, dies with its login, and is usable only under its login's password. */
  lemma SessionsFollowPassword(cfg: Config, db: Db, t: Token)
    requires Reachable(cfg, db, false) && t in db.tokens
    ensures Chains(db.tokens)
    ensures t.family in db.logins && db.logins[t.family].user == t.user
    ensures t.expiresAt <= Stored(db.logins[t.family].at + cfg.absoluteLifetime)
    ensures t.Unrevoked() ==> t.user in db.users && db.users[t.user].hash == db.logins[t.family].hash
  {
    hide Chains;
    ReachableIsSound(cfg, db, false);
    var i :| 0 <= i < |db.tokens| && db.tokens[i] == t;
    assert OwnedRow(cfg, db.tokens[i], db.logins) && AuthenticRow(db.tokens[i], db.users, db.logins);
  }

  /** From the last step on, no user has more active families than the maximum. */
  lemma SessionCap(cfg: Config, db: Db, user: int, now: int)
    requires Reachable(cfg, db, true) && db.clock <= now
    ensures |ActiveFamilies(db.tokens, user, now)| <= cfg.maxFamilies
  {
    hide Sound, Bound;
    ReachableIsSound(cfg, db, true);
    RevokingKeepsCap(cfg, db.tokens, db.tokens, db.clock, now);
  }

  /** A login ends exactly the families above the maximum, the oldest ones, and opens one. */
  lemma LoginEvictsOldest(cfg: Config, db: Db, r: Request, kept: set<int>)
    requires cfg.Valid() && Sound(cfg, db) && r.LoginRequest? && Fresh(db, r) && Handle(cfg, db, r).reply.SessionOpened?
    requires kept == ActiveFamilies(Step(cfg, db, r).tokens, r.who.value, r.now) - {r.family}
    ensures var before := ActiveFamilies(db.tokens, r.who.value, r.now);
      && kept <= before
      && |kept| == (if |before| < cfg.maxFamilies then |before| else cfg.maxFamilies - 1)
      && OldestGone(db.tokens, r.who.value, r.now, kept)
  {
    hide Sessions, Evict, FirstUsable, OldestGone, Chains, OnlyRevokes;
    SessionsChain(cfg, db);
    var u := r.who.value;
    var evicted := Evict(db.tokens, u, r.now, Overflow(cfg, db, u, r.now));
    EvictMeaning(db.tokens, u, r.now, Overflow(cfg, db, u, r.now));
    NewFamilyIsNew(cfg, db, r.family);
    var t := Handle(cfg, db, r).reply.token;
    var a := ActiveFamilies(evicted, u, r.now);
    assert r.family !in ActiveFamilies(db.tokens, u, r.now);
    assert ActiveFamilies(evicted + [t], u, r.now) - {r.family} == a;
  }

  lemma NewFamilyIsNew(cfg: Config, db: Db, family: int)
    requires Sound(cfg, db) && family !in db.logins
    ensures forall t <- db.tokens :: t.family != family
  {
    hide Chains;
    forall t | t in db.tokens
      ensures t.family != family
    {
      var i :| 0 <= i < |db.tokens| && db.tokens[i] == t;
      assert OwnedRow(cfg, db.tokens[i], db.logins);
    }
  }

  // A family that was opened and has no usable token.
  ghost predicate Dead(db: Db, family: int) {
    family in db.logins && forall i :: 0 <= i < |db.tokens| && db.tokens[i].family == family ==>
        !db.tokens[i].Unrevoked()
  }

  lemma DeadStep(cfg: Config, db: Db, r: Request, family: int)
    requires Dead(db, family) && Fresh(db, r)
    ensures Dead(Step(cfg, db, r), family)
  {
    hide Evict, FirstUsable, FindByHash, Latest, MayIssue, ActiveFamilies;
    var after := Step(cfg, db, r);
    if r.LoginRequest? && Handle(cfg, db, r).reply.SessionOpened? {
      var kept := Evict(db.tokens, r.who.value, r.now, Overflow(cfg, db, r.who.value, r.now));
      assert forall i :: 0 <= i < |db.tokens| ==> kept[i].Identity().family == db.tokens[i].Identity().family;
    }
  }

  /** Once no token of a family is usable, none ever is again. */
  lemma {:induction false} DeadStaysDead(cfg: Config, db: Db, rs: seq<Request>, family: int)
    requires Dead(db, family) && FreshRun(cfg, db, rs)
    ensures Dead(Run(cfg, db, rs), family)
    decreases |rs|
  {
    hide Dead, Step, Fresh;
    if rs != [] {
      DeadStep(cfg, db, rs[0], family);
      DeadStaysDead(cfg, Step(cfg, db, rs[0]), rs[1..], family);
    }
  }

  // The request presents a token of the table together with its CSRF token.
  predicate Presents(db: Db, token: Option<int>, csrf: Csrf, i: nat) {
    && i < |db.tokens| && token == Some(db.tokens[i].hash) && csrf.MatchesStored(db.tokens[i].csrf)
  }

  // The request presents a token whose family it must end.
  predicate Condemns(db: Db, r: Request, i: nat) {
    || (r.RefreshRequest? && Presents(db, r.token, r.csrf, i) && !db.tokens[i].Unrevoked())
    || (r.LogoutRequest? && Presents(db, r.token, r.csrf, i))
  }

  lemma PresentedIsFound(cfg: Config, db: Db, token: Option<int>, csrf: Csrf, i: nat)
    requires Sound(cfg, db) && Presents(db, token, csrf, i)
    ensures FindByHash(db.tokens, token.value) == Some(i)
  {
    hide Chains, Limited, Accounted, FindByHash;
    var found := FindByHash(db.tokens, token.value);
    assert db.tokens[i] in db.tokens;
    UniqueOf(db.tokens);
    assert found.Some?;
  }

  /** Replaying a revoked token, or logging out with any token, ends its family for good. */
  lemma ReplayOrLogoutEndsFamily(cfg: Config, db: Db, r: Request, i: nat, rs: seq<Request>)
    requires Reachable(cfg, db, false)
    requires Condemns(db, r, i)
    requires FreshRun(cfg, Step(cfg, db, r), rs)
    ensures Dead(Run(cfg, Step(cfg, db, r), rs), db.tokens[i].family)
  {
    ReachableIsSound(cfg, db, false);
    EndsFamily(cfg, db, r, i);
    DeadStaysDead(cfg, Step(cfg, db, r), rs, db.tokens[i].family);
  }

  lemma EndsFamily(cfg: Config, db: Db, r: Request, i: nat)
    requires Sound(cfg, db)
    requires Condemns(db, r, i)
    ensures Dead(Step(cfg, db, r), db.tokens[i].family)
  {
    hide Chains, FindByHash, Limited, Accounted;
    PresentedIsFound(cfg, db, r.token, r.csrf, i);
    assert OwnedRow(cfg, db.tokens[i], db.logins);
  }

  // A request that replaces the password of `user`.
  predicate Replaces(cfg: Config, db: Db, r: Request, user: int) {
    || (r.ChangeRequest? && r.user == user && Handle(cfg, db, r).reply.Completed?)
    || (r.CompleteRequest? && r.who == Some(user) && Handle(cfg, db, r).reply.Completed?)
  }

  /** No session survives a password change or reset, not even through later rotations. */
  lemma ReplacementEndsSessions(cfg: Config, db: Db, r: Request, user: int, t: Token, rs: seq<Request>)
    requires Reachable(cfg, db, false) && Replaces(cfg, db, r, user) && t in db.tokens && t.user == user
    requires FreshRun(cfg, Step(cfg, db, r), rs)
    ensures Dead(Run(cfg, Step(cfg, db, r), rs), t.family)
  {
    ReachableIsSound(cfg, db, false);
    ReplacementRevokes(cfg, db, r, user, t);
    DeadStaysDead(cfg, Step(cfg, db, r), rs, t.family);
  }

  lemma ReplacementRevokes(cfg: Config, db: Db, r: Request, user: int, t: Token)
    requires Sound(cfg, db) && Replaces(cfg, db, r, user) && t in db.tokens && t.user == user
    ensures Dead(Step(cfg, db, r), t.family)
  {
    hide Chains, Latest, Limited, Accounted, InvalidateOthers, InvalidateActive;
    var k :| 0 <= k < |db.tokens| && db.tokens[k] == t;
    assert OwnedRow(cfg, db.tokens[k], db.logins);
    forall i | 0 <= i < |db.tokens| && db.tokens[i].family == t.family
      ensures db.tokens[i].user == user
    {
      assert OwnedRow(cfg, db.tokens[i], db.logins);
    }
  }

  // The presented token is live and of the family and user of `t`.
  predicate Continues(db: Db, token: Option<int>, csrf: Csrf, now: int, i: nat, t: Token) {
    Presents(db, token, csrf, i) && db.tokens[i].Live(now) && db.tokens[i].family == t.family
        && db.tokens[i].user == t.user
  }

  // Old rows keep their ids, and none becomes usable again.
  ghost predicate Extends(before: seq<Token>, after: seq<Token>) {
    && |before| <= |after|
    && forall i :: 0 <= i < |before| ==>
        after[i].id == before[i].id && (after[i].Unrevoked() ==> before[i].Unrevoked())
  }

  lemma RevokingExtends(before: seq<Token>, after: seq<Token>)
    requires OnlyRevokes(before, after)
    ensures Extends(before, after)
  {
    forall i | 0 <= i < |before|
      ensures after[i].id == before[i].id
    {
      assert after[i].Identity().id == before[i].Identity().id;
    }
  }

  lemma RotatingExtends(ts: seq<Token>, i: nat, t: Token, now: int)
    requires i < |ts|
    ensures Extends(ts, Rotate(ts, i, t, now)) && Rotate(ts, i, t, now)[|ts|] == t
    ensures |Rotate(ts, i, t, now)| == |ts| + 1
  {
  }

  // A login or a refresh that succeeds adds its token as the last row; nothing else adds one.
  lemma RowsExtend(cfg: Config, db: Db, r: Request)
    ensures var o, after := Handle(cfg, db, r), Step(cfg, db, r).tokens;
      && Extends(db.tokens, after)
      && (|after| > |db.tokens| ==>
          && (r.LoginRequest? || r.RefreshRequest?) && o.reply.SessionOpened?
          && |after| == |db.tokens| + 1 && after[|db.tokens|] == o.reply.token)
  {
    hide Extends, OnlyRevokes, FirstUsable, ActiveFamilies, Evict, RevokeFamily, RevokeUser, Rotate, Latest, MayIssue,
      FindByHash, InvalidateOthers, InvalidateActive, NewToken;
    var o := Handle(cfg, db, r);
    RevokingExtends(db.tokens, db.tokens) by { NothingRevoked(db.tokens); }
    if r.LoginRequest? && o.reply.SessionOpened? {
      var kept := Evict(db.tokens, r.who.value, r.now, Overflow(cfg, db, r.who.value, r.now));
      RevokingExtends(db.tokens, kept);
      AppendingExtends(db.tokens, kept, o.reply.token);
    } else if r.RefreshRequest? && o.reply.SessionOpened? {
      RotatingExtends(db.tokens, FindByHash(db.tokens, r.token.value).value, o.reply.token, r.now);
    } else if o.db.tokens != db.tokens {
      RevokingExtends(db.tokens, o.db.tokens);
      SameLength(db.tokens, o.db.tokens);
    }
  }

  lemma NothingRevoked(ts: seq<Token>)
    ensures OnlyRevokes(ts, ts)
  {
  }

  lemma AppendingExtends(before: seq<Token>, kept: seq<Token>, t: Token)
    requires Extends(before, kept) && OnlyRevokes(before, kept)
    ensures Extends(before, kept + [t]) && |kept + [t]| == |before| + 1 && (kept + [t])[|before|] == t
  {
  }

  lemma SameLength(before: seq<Token>, after: seq<Token>)
    requires OnlyRevokes(before, after)
    ensures |after| == |before|
  {
  }

  /** A usable token comes from nowhere but a login with the right password, or a refresh that
      presents the live token of the same family with its CSRF token. It is a new row then: no
      revoked row is revived. */
  lemma SessionsOpenOnlyBy(cfg: Config, db: Db, r: Request, t: Token)
    requires t in Step(cfg, db, r).tokens && t.Unrevoked()
    requires forall s <- db.tokens :: s.id == t.id ==> !s.Unrevoked()
    ensures t.user in db.users && db.users[t.user].active && forall s <- db.tokens :: s.id != t.id
    ensures (r.LoginRequest? && r.who == Some(t.user) && Verify(r.password, db.users[t.user].hash)
        && t.family == r.family)
         || (r.RefreshRequest? && exists i: nat :: Continues(db, r.token, r.csrf, r.now, i, t))
  {
    hide Step, Handle;
    var after := Step(cfg, db, r).tokens;
    var k :| 0 <= k < |after| && after[k] == t;
    RowsExtend(cfg, db, r);
    OldRowIsRevoked(db.tokens, after, k);
    if r.LoginRequest? { LoginOpens(cfg, db, r); } else { RefreshOpens(cfg, db, r); }
  }

  lemma OldRowIsRevoked(before: seq<Token>, after: seq<Token>, k: nat)
    requires Extends(before, after) && k < |after| && after[k].Unrevoked()
    requires forall s <- before :: s.id == after[k].id ==> !s.Unrevoked()
    ensures |before| <= k
  {
  }

  lemma LoginOpens(cfg: Config, db: Db, r: Request)
    requires r.LoginRequest? && Handle(cfg, db, r).reply.SessionOpened?
    ensures var t := Handle(cfg, db, r).reply.token;
      && t.user in db.users && db.users[t.user].active && r.who == Some(t.user)
      && Verify(r.password, db.users[t.user].hash) && t.family == r.family
      && forall s <- db.tokens :: s.id != t.id
  {
    hide FirstUsable, ActiveFamilies, Evict;
    var t := Handle(cfg, db, r).reply.token;
    var kept := Evict(db.tokens, r.who.value, r.now, Overflow(cfg, db, r.who.value, r.now));
    assert FirstUsable(kept, r.candidates).value.id == t.id;
    forall k | 0 <= k < |db.tokens|
      ensures db.tokens[k].id != t.id
    {
      var row := kept[k];
      assert row in kept && row.Identity().id == db.tokens[k].Identity().id;
    }
  }

  lemma RefreshOpens(cfg: Config, db: Db, r: Request)
    requires r.RefreshRequest? && Handle(cfg, db, r).reply.SessionOpened?
    ensures var t := Handle(cfg, db, r).reply.token;
      && t.user in db.users && db.users[t.user].active
      && (forall s <- db.tokens :: s.id != t.id)
      && exists i: nat :: Continues(db, r.token, r.csrf, r.now, i, t)
  {
    hide FirstUsable, RevokeFamily, Rotate;
    var i := FindByHash(db.tokens, r.token.value).value;
    assert Continues(db, r.token, r.csrf, r.now, i, Handle(cfg, db, r).reply.token);
  }

  /** A password changes only by its replacement: with the current password, or through a reset. */
  lemma PasswordChangesOnlyBy(cfg: Config, db: Db, r: Request, user: int)
    requires user in db.users
    requires user in Step(cfg, db, r).users ==> Step(cfg, db, r).users[user].hash != db.users[user].hash
    ensures Replaces(cfg, db, r, user) && db.users[user].active
    ensures r.ChangeRequest? ==> Verify(r.current, db.users[user].hash) && !Verify(r.hash.password, db.users[user].hash)
  {
    hide Evict, FirstUsable, FindByHash, Latest, MayIssue, ActiveFamilies, InvalidateOthers, InvalidateActive,
      RevokeUser;
  }

  /******* Reset codes *******/

  /** A code resets a password only while the password it was issued under is in place. */
  lemma ResetNeedsIssuedPassword(cfg: Config, db: Db, r: Request)
    requires Reachable(cfg, db, true) && r.CompleteRequest? && Timely(db, r) && Handle(cfg, db, r).reply.Completed?
    ensures var c := db.codes[Challenge(db, r.who).value];
      && c.code == r.code && c.Available(r.now, cfg.maxAttempts) && db.users[c.user].active
      && c.id in db.flows && db.users[c.user].hash == db.flows[c.id].credential
  {
    hide Sessions, Capped, Accounted, Limited, Latest;
    ReachableIsSound(cfg, db, true);
    var i := Challenge(db, r.who).value;
    assert IssuedUnder(db.codes[i], db.flows, db.users);
  }

  // The user's password is no longer the one the code was issued under.
  ghost predicate Superseded(db: Db, id: int) {
    id in db.flows && db.flows[id].user in db.users && db.users[db.flows[id].user].hash != db.flows[id].credential
    && db.flows[id].credential in db.seen
  }

  lemma SupersededStep(cfg: Config, db: Db, r: Request, id: int)
    requires Superseded(db, id) && Fresh(db, r)
    ensures Superseded(Step(cfg, db, r), id)
  {
    hide Evict, FirstUsable, FindByHash, Latest, MayIssue, ActiveFamilies, InvalidateOthers, InvalidateActive,
      RevokeUser;
  }

  lemma {:induction false} SupersededForGood(cfg: Config, db: Db, rs: seq<Request>, id: int)
    requires Superseded(db, id) && FreshRun(cfg, db, rs)
    ensures Superseded(Run(cfg, db, rs), id)
    decreases |rs|
  {
    hide Superseded, Step, Fresh;
    if rs != [] {
      SupersededStep(cfg, db, rs[0], id);
      SupersededForGood(cfg, Step(cfg, db, rs[0]), rs[1..], id);
    }
  }

  lemma JudgedCodeExists(cfg: Config, db: Db, r: Request)
    requires r.CompleteRequest? && Handle(cfg, db, r).reply.Completed?
    ensures Challenge(db, r.who).Some?
  {
  }

  lemma FlowOfCode(cfg: Config, db: Db, i: nat)
    requires Sound(cfg, db) && i < |db.codes|
    ensures db.codes[i].id in db.flows && db.flows[db.codes[i].id].user == db.codes[i].user
    ensures db.codes[i].user in db.users && db.flows[db.codes[i].id].credential in db.seen
    ensures db.codes[i].usedAt.None? ==> db.flows[db.codes[i].id].stage.Done?
  {
    hide Sessions, Limited;
    assert AccountedRow(db.codes[i], db.flows, db.users, db.seen);
  }

  /** Replacing a password supersedes every code the user was ever issued before. */
  lemma ReplacementSupersedes(cfg: Config, db: Db, r: Request, user: int, i: nat)
    requires Sound(cfg, db) && Replaces(cfg, db, r, user) && Fresh(db, r)
    requires i < |db.codes| && db.codes[i].user == user
    ensures Superseded(Step(cfg, db, r), db.codes[i].id)
  {
    hide Sound, Latest, RevokeUser, InvalidateOthers, InvalidateActive;
    FlowOfCode(cfg, db, i);
  }

  /******* Replaced passwords and old codes *******/

  // Codes are only ever added, by requests with new ids, and keep what was written at insertion.
  ghost predicate KeepsRows(before: Db, after: Db) {
    && before.flows.Keys <= after.flows.Keys
    && forall j :: 0 <= j < |after.codes| && after.codes[j].id in before.flows ==>
        && j < |before.codes| && after.codes[j].id == before.codes[j].id
        && after.codes[j].user == before.codes[j].user && after.codes[j].expiresAt == before.codes[j].expiresAt
  }

  lemma StepKeepsRows(cfg: Config, db: Db, r: Request)
    requires Fresh(db, r)
    ensures KeepsRows(db, Step(cfg, db, r))
  {
    hide Evict, FirstUsable, FindByHash, Latest, MayIssue, ActiveFamilies, RevokeUser, Rotate, RevokeFamily;
  }

  lemma {:induction false} RunKeepsRows(cfg: Config, db: Db, rs: seq<Request>)
    requires FreshRun(cfg, db, rs)
    ensures KeepsRows(db, Run(cfg, db, rs))
    decreases |rs|
  {
    if rs != [] {
      hide Step, Fresh;
      StepKeepsRows(cfg, db, rs[0]);
      RunKeepsRows(cfg, Step(cfg, db, rs[0]), rs[1..]);
    }
  }

  // A closed code, pending or spent, issued under a password that was replaced.
  ghost predicate Unusable(db: Db, i: nat, id: int) {
    i < |db.codes| && db.codes[i].id == id && db.codes[i].usedAt.Some? && Superseded(db, id)
  }

  lemma UnusableStep(cfg: Config, db: Db, r: Request, i: nat, id: int)
    requires Unusable(db, i, id) && Fresh(db, r)
    ensures Unusable(Step(cfg, db, r), i, id)
  {
    hide Evict, FirstUsable, FindByHash, MayIssue, ActiveFamilies, RevokeUser, Superseded, Rotate, RevokeFamily;
    SupersededStep(cfg, db, r, id);
    if r.ActivateRequest? && r.id == id {
      assert db.users[db.flows[id].user].hash != db.flows[id].credential by { RecallSuperseded(db, id); }
    }
  }

  lemma RecallSuperseded(db: Db, id: int)
    requires Superseded(db, id)
    ensures id in db.flows && db.flows[id].user in db.users
        && db.users[db.flows[id].user].hash != db.flows[id].credential
  {
  }

  /** Once its password is replaced, a closed code is never opened again, whatever the clocks read. */
  lemma {:induction false} UnusableForGood(cfg: Config, db: Db, rs: seq<Request>, i: nat, id: int)
    requires Unusable(db, i, id) && FreshRun(cfg, db, rs)
    ensures Unusable(Run(cfg, db, rs), i, id)
    decreases |rs|
  {
    hide Unusable, Step, Fresh;
    if rs != [] {
      UnusableStep(cfg, db, rs[0], i, id);
      UnusableForGood(cfg, Step(cfg, db, rs[0]), rs[1..], i, id);
    }
  }

  // The code that a completing reset used, looked up in an earlier state that knew its request.
  lemma UsedCodeWasThere(cfg: Config, db: Db, rs: seq<Request>, reset: Request, id: int)
    returns (j: nat)
    requires FreshRun(cfg, db, rs) && id in db.flows
    requires CompletesWith(cfg, Run(cfg, db, rs), reset, id)
    ensures j < |db.codes| && db.codes[j].id == id && reset.now < db.codes[j].expiresAt
    ensures !Unusable(db, j, id)
  {
    hide Run, FreshRun, Unusable, Latest, InvalidateOthers, ReplacePassword;
    var later := Run(cfg, db, rs);
    j := Challenge(later, reset.who).value;
    RunKeepsRows(cfg, db, rs);
    if Unusable(db, j, id) {
      UnusableForGood(cfg, db, rs, j, id);
      ClosedCodeFails(cfg, later, reset, j, id);
    }
  }

  // The reset completes, with the code of that id.
  ghost predicate CompletesWith(cfg: Config, db: Db, reset: Request, id: int) {
    && reset.CompleteRequest? && Handle(cfg, db, reset).reply.Completed?
    && db.codes[Challenge(db, reset.who).value].id == id
  }

  lemma ClosedCodeFails(cfg: Config, db: Db, reset: Request, j: nat, id: int)
    requires Unusable(db, j, id) && CompletesWith(cfg, db, reset, id)
    ensures Challenge(db, reset.who) != Some(j)
  {
    hide Latest, InvalidateOthers, ReplacePassword, Superseded;
  }

  /** After any replacement of a password and any further run, whatever any clock reads: an old
      code can complete a reset only where a password change read a time at or after the expiry
      of the code, and the reset a time before it. */
  lemma ReplacedCodeOnlyByStaleClock(cfg: Config, db: Db, r: Request, user: int, i: nat, rs: seq<Request>,
                                     reset: Request)
    requires cfg.Valid() && Sound(cfg, db) && Replaces(cfg, db, r, user) && Fresh(db, r)
    requires i < |db.codes| && db.codes[i].user == user && FreshRun(cfg, Step(cfg, db, r), rs)
    requires CompletesWith(cfg, Run(cfg, Step(cfg, db, r), rs), reset, db.codes[i].id)
    ensures r.ChangeRequest? && reset.now < db.codes[i].expiresAt <= r.now
  {
    hide Step, Run, FreshRun, CompletesWith, Sound, Fresh, Unusable, Superseded, Replaces;
    var next, id := Step(cfg, db, r), db.codes[i].id;
    ReplacementSupersedes(cfg, db, r, user, i);
    RecallSuperseded(next, id);
    var j := UsedCodeWasThere(cfg, next, rs, reset, id);
    ReplacementCloses(cfg, db, r, user, i);
    SameRow(cfg, db, r, i, j);
  }

  // What a replacement leaves of an earlier code of the user.
  lemma ReplacementCloses(cfg: Config, db: Db, r: Request, user: int, i: nat)
    requires Sound(cfg, db) && Replaces(cfg, db, r, user) && Fresh(db, r)
    requires i < |db.codes| && db.codes[i].user == user
    ensures var next := Step(cfg, db, r);
      && i < |next.codes| && next.codes[i].id == db.codes[i].id && next.codes[i].expiresAt == db.codes[i].expiresAt
      && (Unusable(next, i, db.codes[i].id) || (r.ChangeRequest? && db.codes[i].expiresAt <= r.now))
  {
    hide Sound, Superseded, RevokeUser, Latest;
    ReplacementSupersedes(cfg, db, r, user, i);
    if r.ChangeRequest? {
      InvalidatingSpends(db.codes, user, r.now);
    } else {
      DistinctCodes(cfg, db);
      ConsumingSpends(db.codes, Challenge(db, r.who).value, r.now);
    }
  }

  lemma DistinctCodes(cfg: Config, db: Db)
    requires Sound(cfg, db)
    ensures forall a, b :: 0 <= a < b < |db.codes| ==> db.codes[a].id != db.codes[b].id
  {
  }

  lemma SameRow(cfg: Config, db: Db, r: Request, i: nat, j: nat)
    requires cfg.Valid() && Sound(cfg, db) && Fresh(db, r)
    requires var next := Step(cfg, db, r); i < |next.codes| && j < |next.codes| && next.codes[i].id == next.codes[j].id
    ensures i == j
  {
    hide Step, Sound, Fresh;
    StepKeeps(cfg, db, r);
    DistinctCodes(cfg, Step(cfg, db, r));
  }

  /** So no old code survives a replacement for a reset that read no earlier time than it did. */
  lemma ReplacedCodeNeverWorks(cfg: Config, db: Db, r: Request, user: int, i: nat, rs: seq<Request>, reset: Request)
    requires cfg.Valid() && Sound(cfg, db) && Replaces(cfg, db, r, user) && Fresh(db, r)
    requires i < |db.codes| && db.codes[i].user == user && FreshRun(cfg, Step(cfg, db, r), rs)
    requires reset.CompleteRequest? && (r.ChangeRequest? ==> r.now <= reset.now)
    ensures !CompletesWith(cfg, Run(cfg, Step(cfg, db, r), rs), reset, db.codes[i].id)
  {
    hide CompletesWith, Run, Step, FreshRun, Sound, Replaces, Fresh;
    if CompletesWith(cfg, Run(cfg, Step(cfg, db, r), rs), reset, db.codes[i].id) {
      ReplacedCodeOnlyByStaleClock(cfg, db, r, user, i, rs, reset);
    }
  }

  /** A superseded code, pending, active or spent, never completes a reset that reads no earlier
      time than the clock at which it was seen superseded; later requests may read any time. */
  lemma SupersededCodeNeverWorks(cfg: Config, db: Db, id: int, rs: seq<Request>, reset: Request)
    requires Reachable(cfg, db, true) && Superseded(db, id) && FreshRun(cfg, db, rs)
    requires reset.CompleteRequest? && db.clock <= reset.now
    ensures !CompletesWith(cfg, Run(cfg, db, rs), reset, id)
  {
    hide CompletesWith, Run, FreshRun, Reachable;
    ReachableIsSound(cfg, db, true);
    RecallSuperseded(db, id);
    if CompletesWith(cfg, Run(cfg, db, rs), reset, id) {
      var j := UsedCodeWasThere(cfg, db, rs, reset, id);
      FlowOfCode(cfg, db, j);
      assert IssuedUnder(db.codes[j], db.flows, db.users) by { OpenIsBound(cfg, db, j); }
    }
  }

  lemma OpenIsBound(cfg: Config, db: Db, j: nat)
    requires Current(cfg, db) && j < |db.codes| && db.codes[j].usedAt.None? && db.codes[j].expiresAt > db.clock
    ensures IssuedUnder(db.codes[j], db.flows, db.users)
  {
    hide Capped;
  }

  /** At most one unused, unexpired code per user, and it is the newest. */
  lemma OneOpenCode(cfg: Config, db: Db, i: nat, j: nat)
    requires Reachable(cfg, db, true) && i < |db.codes| && j < |db.codes| && db.codes[i].user == db.codes[j].user
    requires db.codes[i].usedAt.None? && db.codes[i].expiresAt > db.clock
    requires db.codes[j].usedAt.None? && db.codes[j].expiresAt > db.clock
    ensures i == j
  {
    hide Sound, Capped;
    ReachableIsSound(cfg, db, true);
    assert LastOfUser(db.codes, i) && LastOfUser(db.codes, j);
  }

  // The code at row `i` is used and its request is over.
  ghost predicate Spent(db: Db, i: nat, id: int) {
    && i < |db.codes| && db.codes[i].id == id && db.codes[i].usedAt.Some?
    && id in db.flows && db.flows[id].stage.Done?
  }

  lemma SpentStep(cfg: Config, db: Db, r: Request, i: nat, id: int)
    requires Spent(db, i, id) && Fresh(db, r)
    ensures Spent(Step(cfg, db, r), i, id)
  {
    hide Evict, FirstUsable, FindByHash, MayIssue, ActiveFamilies, RevokeUser;
  }

  /** A code that was used after having been open, or whose request ended, is never open again. */
  lemma {:induction false} SpentForGood(cfg: Config, db: Db, rs: seq<Request>, i: nat, id: int)
    requires Spent(db, i, id) && FreshRun(cfg, db, rs)
    ensures Spent(Run(cfg, db, rs), i, id)
    decreases |rs|
  {
    hide Spent, Step, Fresh;
    if rs != [] {
      SpentStep(cfg, db, rs[0], i, id);
      SpentForGood(cfg, Step(cfg, db, rs[0]), rs[1..], i, id);
    }
  }

  // The code at row `i` keeps its identity, and an ended request stays ended.
  lemma SettledStep(cfg: Config, db: Db, r: Request, i: nat, id: int)
    requires i < |db.codes| && db.codes[i].id == id && id in db.flows && db.flows[id].stage.Done? && Fresh(db, r)
    ensures var after := Step(cfg, db, r);
      i < |after.codes| && after.codes[i].id == id && id in after.flows && after.flows[id].stage.Done?
  {
    hide Evict, FirstUsable, FindByHash, MayIssue, ActiveFamilies, RevokeUser;
  }

  lemma {:induction false} OpenedThenUsedIsSpent(cfg: Config, db: Db, rs: seq<Request>, i: nat)
    requires i < |db.codes| && db.codes[i].id in db.flows && db.flows[db.codes[i].id].stage.Done?
        && FreshRun(cfg, db, rs)
    ensures var after := Run(cfg, db, rs);
      i < |after.codes| && after.codes[i].id == db.codes[i].id
      && (after.codes[i].usedAt.Some? ==> Spent(after, i, db.codes[i].id))
    decreases |rs|
  {
    hide Step, Fresh;
    if rs != [] {
      SettledStep(cfg, db, rs[0], i, db.codes[i].id);
      OpenedThenUsedIsSpent(cfg, Step(cfg, db, rs[0]), rs[1..], i);
    }
  }

  /** The issue limits hold whatever the clock does. */
  lemma IssueLimitsHold(cfg: Config, db: Db, user: int, from: int)
    requires Reachable(cfg, db, false)
    ensures forall i, j :: 0 <= i < j < |db.codes| && db.codes[i].user == db.codes[j].user ==>
              db.codes[j].createdAt - db.codes[i].createdAt >= cfg.cooldown
    ensures InHour(IssueLog(db.codes), user, from) <= cfg.hourlyLimit
    ensures InClosedHour(IssueLog(db.codes), user, from) <= cfg.hourlyLimit + 1
    ensures ClosedHoursHold(IssueLog(db.codes), user, cfg.hourlyLimit)
       <==> NeverOnTheHour(IssueLog(db.codes), user, cfg.hourlyLimit)
    ensures forall i :: 0 <= i < |db.codes| ==> db.codes[i].attempts <= cfg.maxAttempts
  {
    hide Sessions, Accounted, InHour, InClosedHour, NeverOnTheHour;
    ReachableIsSound(cfg, db, false);
    HourlyWindow(IssueLog(db.codes), user, from, cfg.cooldown, cfg.hourlyLimit);
    ClosedHourIsExact(IssueLog(db.codes), user, cfg.cooldown, cfg.hourlyLimit);
    forall i, j | 0 <= i < j < |db.codes| && db.codes[i].user == db.codes[j].user
      ensures db.codes[j].createdAt - db.codes[i].createdAt >= cfg.cooldown
    {
      Gap(IssueLog(db.codes), i, j, cfg.cooldown, cfg.hourlyLimit);
    }
  }

  /** Why the clock matters: `now` is read before the row lock, so a reset may carry an older
      time than the password change that ran before it.  The code still works exactly when it
      had expired for the change but not for the reset. */
  lemma StaleClockWindow(cfg: Config, db: Db, change: Request, reset: Request, i: nat)
    requires Sound(cfg, db) && change.ChangeRequest? && Handle(cfg, db, change).reply.Completed?
    requires reset.CompleteRequest? && reset.who == Some(change.user)
    requires Challenge(db, reset.who) == Some(i) && db.codes[i].usedAt.None?
    requires db.codes[i].attempts < cfg.maxAttempts && db.codes[i].code == reset.code
    ensures Handle(cfg, Step(cfg, db, change), reset).reply.Completed?
       <==> reset.now < db.codes[i].expiresAt <= change.now
  {
    hide Sound, RevokeUser, InvalidateOthers;
    var after := Step(cfg, db, change);
    SameLatest(db.codes, after.codes, change.user);
  }

  lemma SameLatest(before: seq<Code>, after: seq<Code>, user: int)
    requires OnlySpends(before, after)
    ensures Latest(after, user) == Latest(before, user)
  {
    SpendingKeepsKeys(before, after);
    SameLatestByKeys(before, after, user);
  }

  // The columns that Latest reads.
  ghost predicate SameKeys(before: seq<Code>, after: seq<Code>) {
    && |before| == |after|
    && forall i :: 0 <= i < |before| ==>
        after[i].id == before[i].id && after[i].user == before[i].user && after[i].createdAt == before[i].createdAt
  }

  lemma SpendingKeepsKeys(before: seq<Code>, after: seq<Code>)
    requires OnlySpends(before, after)
    ensures SameKeys(before, after)
  {
  }

  lemma SamePrefixKeys(before: seq<Code>, after: seq<Code>, n: nat)
    requires SameKeys(before, after) && n <= |before|
    ensures SameKeys(before[..n], after[..n])
  {
  }

  lemma {:induction false} SameLatestByKeys(before: seq<Code>, after: seq<Code>, user: int)
    requires SameKeys(before, after)
    ensures Latest(after, user) == Latest(before, user)
  {
    if before != [] {
      hide Latest, SameKeys;
      var n := |before| - 1;
      assert |after| == |before| by { SameKeysAt(before, after, n); }
      SamePrefixKeys(before, after, n);
      SameLatestByKeys(before[..n], after[..n], user);
      LatestNext(before, user);
      LatestNext(after, user);
      SameKeysAt(before, after, n);
      var best := Latest(before[..n], user);
      if best.Some? { SameKeysAt(before, after, best.value); }
    } else {
      assert after == [];
    }
  }

  lemma SameKeysAt(before: seq<Code>, after: seq<Code>, i: nat)
    requires SameKeys(before, after) && i < |before|
    ensures |before| == |after|
    ensures after[i].id == before[i].id && after[i].user == before[i].user && after[i].createdAt == before[i].createdAt
  {
  }

  lemma LatestNext(codes: seq<Code>, user: int)
    requires codes != []
    ensures var n := |codes| - 1;
      var best := Latest(codes[..n], user);
      Latest(codes, user) == if codes[n].user == user
          && (best.None? || Later(codes[n], codes[best.value])) then Some(n) else best
  {
  }

  /******* What one transaction leaves *******/

  /** After a login the user is within the cap, and only the oldest families had to go. */
  lemma LoginLeaves(cfg: Config, db: Db, r: Request)
    requires cfg.Valid() && Sound(cfg, db) && r.LoginRequest? && Fresh(db, r) && Handle(cfg, db, r).reply.SessionOpened?
    ensures var active := ActiveFamilies(Step(cfg, db, r).tokens, r.who.value, r.now);
      |active| <= cfg.maxFamilies && OldestGone(db.tokens, r.who.value, r.now, active - {r.family})
  {
    hide Step, Handle, Sound, Fresh, OldestGone, ActiveFamilies;
    LoginOpens(cfg, db, r);
    var active := ActiveFamilies(Step(cfg, db, r).tokens, r.who.value, r.now);
    LoginEvictsOldest(cfg, db, r, active - {r.family});
    SubsetSize(active, (active - {r.family}) + {r.family});
  }

  lemma PresentingEnds(cfg: Config, db: Db, r: Request)
    requires Sound(cfg, db)
    ensures forall i: nat :: Condemns(db, r, i) ==> Dead(Step(cfg, db, r), db.tokens[i].family)
  {
    hide Step, Sound, Dead;
    forall i: nat | Condemns(db, r, i)
      ensures Dead(Step(cfg, db, r), db.tokens[i].family)
    {
      EndsFamily(cfg, db, r, i);
    }
  }

  /** A refresh that succeeds leaves its new token the only usable one of the family. */
  lemma RefreshLeaves(cfg: Config, db: Db, r: Request)
    requires cfg.Valid() && Sound(cfg, db) && r.RefreshRequest? && Handle(cfg, db, r).reply.SessionOpened?
    ensures var t, after := Handle(cfg, db, r).reply.token, Step(cfg, db, r).tokens;
      t in after && t.Unrevoked() && forall s <- after :: s.family == t.family && s.Unrevoked() ==> s == t
  {
    hide Sessions, Limited, Accounted, FirstUsable, FindByHash, RevokeFamily;
    RefreshStep(cfg, db, r);
    var i, t := FindByHash(db.tokens, r.token.value).value, Handle(cfg, db, r).reply.token;
    var after := Rotate(db.tokens, i, t, r.now);
    assert after == Step(cfg, db, r).tokens && after[|db.tokens|] == t;
    SessionsChain(cfg, Step(cfg, db, r));
    OnlyLastIsUsable(after, |db.tokens|);
  }

  lemma OnlyLastIsUsable(ts: seq<Token>, last: nat)
    requires Chains(ts) && |ts| == last + 1
    ensures ts[last] in ts
    ensures forall s <- ts :: s.family == ts[last].family && s.Unrevoked() ==> s == ts[last]
  {
    hide Chains;
    forall s | s in ts && s.family == ts[last].family && s.Unrevoked()
      ensures s == ts[last]
    {
      var k :| 0 <= k < |ts| && ts[k] == s;
      EarlierIsRevoked(ts, k, last);
    }
  }

  lemma EarlierIsRevoked(ts: seq<Token>, k: nat, last: nat)
    requires Chains(ts) && k < |ts| && last < |ts|
    ensures k < last && ts[k].family == ts[last].family ==> !ts[k].Unrevoked()
  {
  }

  // No usable token of the user, and no code that could still be used at `now`.
  ghost predicate ShutOut(db: Db, user: int, now: int) {
    && (forall t <- db.tokens :: t.user == user ==> !t.Unrevoked())
    && (forall c <- db.codes :: c.user == user && c.usedAt.None? ==> c.expiresAt <= now)
  }

  /** A replaced password leaves neither a session nor a live reset code of the user. */
  lemma ReplacementLeaves(cfg: Config, db: Db, r: Request, user: int)
    requires Sound(cfg, db) && Replaces(cfg, db, r, user)
    ensures var after := Step(cfg, db, r);
      user in after.users && after.users[user].hash == r.hash && ShutOut(after, user, r.now)
    ensures r.CompleteRequest? ==> forall c <- Step(cfg, db, r).codes :: c.user == user ==> c.usedAt.Some?
  {
    hide Sound, Latest, InvalidateOthers, InvalidateActive;
    if r.ChangeRequest? {
      InvalidatingSpends(db.codes, user, r.now);
    } else {
      DistinctCodes(cfg, db);
      ConsumingSpends(db.codes, Challenge(db, r.who).value, r.now);
    }
  }

  /** When a code is issued, no older code of the user can be used any more. */
  lemma IssueLeaves(cfg: Config, db: Db, r: Request)
    requires r.IssueRequest? && |Step(cfg, db, r).codes| > |db.codes|
    ensures r.who.Some? && forall c <- Step(cfg, db, r).codes :: c.user == r.who.value && c.usedAt.None? ==>
        c.expiresAt <= r.now
  {
    hide MayIssue, InvalidateActive;
    InvalidatingSpends(db.codes, r.who.value, r.now);
  }

  /** A code opens only as its user's newest, in its own request, under the password it was issued under. */
  lemma ActivationOpens(cfg: Config, db: Db, r: Request, i: nat)
    requires cfg.Valid() && Sound(cfg, db) && i < |Step(cfg, db, r).codes| && Step(cfg, db, r).codes[i].usedAt.None?
    requires i < |db.codes| ==> db.codes[i].usedAt.Some?
    ensures r.ActivateRequest? && r.id in db.flows && db.flows[r.id].stage.Delivered?
    ensures i < |db.codes| && db.codes[i].id == r.id && LastOfUser(db.codes, i)
        && IssuedUnder(db.codes[i], db.flows, db.users)
  {
    hide Sound, Latest, Evict, FirstUsable, FindByHash, MayIssue, ActiveFamilies, RevokeUser, RevokeFamily, Rotate;
    if r.ActivateRequest? && r.id in db.flows {
      NewestIsLast(cfg, db, db.flows[r.id].user);
    }
  }

  lemma ActivationOpensOnly(cfg: Config, db: Db, r: Request)
    requires cfg.Valid() && Sound(cfg, db) && r.ActivateRequest?
    ensures var after := Step(cfg, db, r);
      && |after.codes| == |db.codes|
      && forall i :: 0 <= i < |db.codes| && after.codes[i].usedAt.None? && db.codes[i].usedAt.Some? ==>
          && r.id in db.flows && db.flows[r.id].stage.Delivered? && db.codes[i].id == r.id == after.codes[i].id
          && LastOfUser(db.codes, i) && IssuedUnder(db.codes[i], db.flows, db.users)
  {
    hide Sound, Latest, LastOfUser, IssuedUnder;
    var after := Step(cfg, db, r);
    forall i | 0 <= i < |db.codes| && after.codes[i].usedAt.None? && db.codes[i].usedAt.Some?
      ensures r.id in db.flows && db.flows[r.id].stage.Delivered? && db.codes[i].id == r.id == after.codes[i].id
      ensures LastOfUser(db.codes, i) && IssuedUnder(db.codes[i], db.flows, db.users)
    {
      ActivationOpens(cfg, db, r, i);
    }
  }

  lemma NewestIsLast(cfg: Config, db: Db, user: int)
    requires cfg.Valid() && Sound(cfg, db)
    ensures Latest(db.codes, user).Some? ==> LastOfUser(db.codes, Latest(db.codes, user).value)
    ensures Latest(db.codes, user).Some? ==> db.codes[Latest(db.codes, user).value].user == user
  {
    LatestIsLast(db.codes, user, cfg.cooldown, cfg.hourlyLimit);
  }

  // A run of that kind: a code expiring at 600 s survives a change that read 600 s, and then
  // completes a reset whose clock read 599 s.
  const OLD: PasswordHash := Salted("old", 1)
  const NEW: PasswordHash := Salted("new", 2)
  const CONFIG: Config := Config(1, 1, 1, 600 * SECOND, 60 * SECOND, 5, 5)
  const CODE: Code := Code(7, 1, "123456", 600 * SECOND, Some(0), 0, 0, 0)
  const REGISTERED: Db := Db(map[1 := User(true, OLD)], [], [], map[], map[], {OLD}, 0)
  const PENDING: Db := REGISTERED.(codes := [CODE], flows := map[7 := Flow(1, OLD, Issued)])
  const SENT: Db := PENDING.(flows := map[7 := Flow(1, OLD, Delivered)])
  const OPENED: Db := SENT.(codes := [CODE.(usedAt := None)], flows := map[7 := Flow(1, OLD, Done)])
  const CHANGED: Db := OPENED.(users := map[1 := User(true, NEW)], seen := {OLD, NEW}, clock := 600 * SECOND)
  const ISSUE: Request := IssueRequest(Some(1), true, 0, 7, "123456")
  const RESET: Request := CompleteRequest(Some(1), "123456", Salted("other", 3), 599 * SECOND)
  const CHANGE: Request := ChangeRequest(1, "old", NEW, 600 * SECOND)

  lemma ExampleIssue()
    ensures Fresh(REGISTERED, ISSUE) && Step(CONFIG, REGISTERED, ISSUE) == PENDING
  {
    assert InvalidateActive([], 1, 0) == [] && IssueLog([]) == [];
  }

  lemma ExampleDelivery()
    ensures Fresh(PENDING, DeliverRequest(7, true)) && Step(CONFIG, PENDING, DeliverRequest(7, true)) == SENT
    ensures Fresh(SENT, ActivateRequest(7, true)) && Step(CONFIG, SENT, ActivateRequest(7, true)) == OPENED
  {
    assert Latest([CODE], 1) == Some(0);
  }

  lemma ExampleChange()
    ensures Fresh(OPENED, CHANGE) && Step(CONFIG, OPENED, CHANGE) == CHANGED
  {
    assert InvalidateActive(OPENED.codes, 1, 600 * SECOND) == OPENED.codes;
    assert RevokeUser([], 1, LogoutAll, 600 * SECOND) == [];
  }

  lemma RunCons(cfg: Config, db: Db, r: Request, rs: seq<Request>)
    ensures Run(cfg, db, [r] + rs) == Run(cfg, Step(cfg, db, r), rs)
    ensures FreshRun(cfg, db, [r] + rs) <==> Fresh(db, r) && FreshRun(cfg, Step(cfg, db, r), rs)
  {
    hide Step, Fresh;
    assert ([r] + rs)[1..] == rs;
  }

  lemma ExampleReset()
    ensures Superseded(CHANGED, 7)
    ensures Handle(CONFIG, CHANGED, RESET).reply.Completed?
  {
    assert Latest(CHANGED.codes, 1) == Some(0);
  }

  lemma ExampleRegister()
    ensures Fresh(EMPTY, Register(1, OLD)) && Step(CONFIG, EMPTY, Register(1, OLD)) == REGISTERED
  {
  }

  lemma StaleClockExample()
    ensures CONFIG.Valid()
    ensures exists rs: seq<Request> :: FreshRun(CONFIG, EMPTY, rs) && Run(CONFIG, EMPTY, rs) == CHANGED
    ensures Superseded(CHANGED, 7)
    ensures Handle(CONFIG, CHANGED, RESET).reply.Completed?
  {
    hide Step, Fresh, Handle, Superseded;
    ExampleRegister();
    ExampleReset();
    ExampleIssue();
    ExampleDelivery();
    ExampleChange();
    var tail := [CHANGE] + [];
    var fromSent := [ActivateRequest(7, true)] + tail;
    var fromPending := [DeliverRequest(7, true)] + fromSent;
    var fromRegistered := [ISSUE] + fromPending;
    RunCons(CONFIG, OPENED, CHANGE, []);
    RunCons(CONFIG, SENT, ActivateRequest(7, true), tail);
    RunCons(CONFIG, PENDING, DeliverRequest(7, true), fromSent);
    RunCons(CONFIG, REGISTERED, ISSUE, fromPending);
    RunCons(CONFIG, EMPTY, Register(1, OLD), fromRegistered);
    var rs := [Register(1, OLD)] + fromRegistered;
    assert FreshRun(CONFIG, EMPTY, rs) && Run(CONFIG, EMPTY, rs) == CHANGED;
  }
}
