/**
 The services as they run: one object holding the tables, one method per transaction.

 A transaction that raises leaves the tables as they were; `reply` says what was raised.
 Every method is proved to do exactly what the protocol step of the same name says, to keep
 the protocol's invariant, and to leave what its caller relies on.
 */
module CredentialStore {
  import opened Common
  import opened TokenTable
  import opened ResetCodes
  import opened Credentials
  import opened CredentialTheorems
  import opened CredentialGuarantees
  import opened SessionLifetimes
  import opened ResetProgress

  // The row is usable, and no other row of its family is.
  ghost predicate OnlyUsable(ts: seq<Token>, t: Token) {
    t in ts && t.Unrevoked() && forall s <- ts :: s.family == t.family && s.Unrevoked() ==> s == t
  }

  // Some token is renewed by the request, and some generated token is free.
  ghost predicate MayRenew(db: Db, r: Request)
    requires r.RefreshRequest?
  {
    Free(db.tokens, r.candidates) && exists i: nat :: i < |db.tokens| && Renews(db, r, i)
  }

  // The rows that are not as they were belong to a family that the token and its CSRF token present.
  ghost predicate OnlyPresented(before: Db, tokens: seq<Token>, hash: Option<int>, csrf: Csrf) {
    && |tokens| >= |before.tokens|
    && forall j :: 0 <= j < |before.tokens| && tokens[j] != before.tokens[j] ==>
        PresentsFamily(before, hash, csrf, before.tokens[j].family)
  }

  lemma OthersUntouched(cfg: Config, db: Db, r: Request)
    requires Sound(cfg, db) && (r.RefreshRequest? || r.LogoutRequest?)
    ensures OnlyPresented(db, Step(cfg, db, r).tokens, r.token, r.csrf)
  {
    hide Sound, Step, PresentsFamily, Handle;
    var after := Step(cfg, db, r).tokens;
    RowsExtend(cfg, db, r);
    forall j | 0 <= j < |db.tokens| && after[j] != db.tokens[j]
      ensures PresentsFamily(db, r.token, r.csrf, db.tokens[j].family)
    {
      RowsChangeOnlyBy(cfg, db, r, j);
    }
  }

  // What the steps keep and leave, in the terms of the methods below.
  lemma LogInKeeps(cfg: Config, db: Db, who: Option<int>, password: string, now: int, createdAt: int, family: int,
                   candidates: seq<Candidate>)
    requires cfg.Valid() && Sound(cfg, db) && family !in db.logins
    ensures var o := LogIn(cfg, db, who, password, now, createdAt, family, candidates);
      var active := ActiveFamilies(o.db.tokens, if who.Some? then who.value else 0, now);
      && Sound(cfg, o.db.(clock := now))
      && (o.reply.SessionOpened? ==>
          && who.Some? && o.reply.token in o.db.tokens && o.reply.token.family == family
          && |active| <= cfg.maxFamilies && OldestGone(db.tokens, who.value, now, active - {family})
          && o.reply.token.expiresAt == Stored(now + cfg.refreshLifetime))
      && (o.reply.SessionOpened? <==>
          && who.Some? && who.value in db.users && db.users[who.value].active
          && password == db.users[who.value].hash.password && Free(db.tokens, candidates))
  {
    hide Sound, OldestGone, ActiveFamilies, Evict, FirstUsable, Free, LogIn;
    var r := LoginRequest(who, password, now, createdAt, family, candidates);
    StepKeeps(cfg, db, r);
    LoginOpensExactly(cfg, db, r);
    if Handle(cfg, db, r).reply.SessionOpened? {
      OpenedIsLast(cfg, db, r);
      LoginOpens(cfg, db, r);
      OpenedTokenExpires(cfg, db, r);
      StoredOrder(now + cfg.refreshLifetime, now + cfg.absoluteLifetime);
    }
    if Handle(cfg, db, r).reply.SessionOpened? { LoginLeaves(cfg, db, r); }
  }

  lemma RefreshKeeps(cfg: Config, db: Db, hash: Option<int>, csrf: Csrf, now: int, createdAt: int,
                     candidates: seq<Candidate>)
    requires cfg.Valid() && Sound(cfg, db)
    ensures var o := Refresh(cfg, db, hash, csrf, now, createdAt, candidates);
      && Sound(cfg, o.db.(clock := now))
      && (o.reply.SessionOpened? ==>
          && OnlyUsable(o.db.tokens, o.reply.token)
          && o.reply.token.expiresAt == Earlier(Stored(now + cfg.refreshLifetime), o.reply.token.familyExpiresAt))
      && (o.reply.SessionOpened? <==> MayRenew(db, RefreshRequest(hash, csrf, now, createdAt, candidates)))
      && forall i: nat :: Presents(db, hash, csrf, i) && !db.tokens[i].Unrevoked() ==>
          Dead(o.db.(clock := now), db.tokens[i].family)
  {
    hide Sound, Dead, Refresh, Free;
    var r := RefreshRequest(hash, csrf, now, createdAt, candidates);
    StepKeeps(cfg, db, r);
    RefreshOpensExactly(cfg, db, r);
    if Handle(cfg, db, r).reply.SessionOpened? { OpenedTokenExpires(cfg, db, r); }
    PresentingEnds(cfg, db, r);
    assert forall i: nat :: Presents(db, hash, csrf, i) && !db.tokens[i].Unrevoked() ==> Condemns(db, r, i);
    if Handle(cfg, db, r).reply.SessionOpened? { RefreshLeaves(cfg, db, r); }
  }

  lemma CompleteKeeps(cfg: Config, db: Db, who: Option<int>, code: string, hash: PasswordHash, now: int)
    requires cfg.Valid() && Sound(cfg, db) && hash !in db.seen
    ensures var o := CompleteReset(cfg, db, who, code, hash, now);
      && Sound(cfg, o.db.(clock := now))
      && (o.reply.Completed? ==>
          && who.Some? && who.value in o.db.users && o.db.users[who.value].hash == hash
          && ShutOut(o.db.(clock := now), who.value, now) && AllUsed(o.db.codes, who.value))
      && (o.reply.Completed? <==> exists i: nat :: Hits(cfg, db, CompleteRequest(who, code, hash, now), i))
      && forall i: nat :: Misses(cfg, db, CompleteRequest(who, code, hash, now), i) ==>
          o.db == db.(codes := db.codes[i := db.codes[i].(attempts := db.codes[i].attempts + 1)])
  {
    hide Sound, ShutOut, Latest, InvalidateOthers, CompleteReset, Newest;
    var r := CompleteRequest(who, code, hash, now);
    StepKeeps(cfg, db, r);
    ResetExactly(cfg, db, r);
    forall i: nat | Misses(cfg, db, r, i)
      ensures Handle(cfg, db, r).db == db.(codes := db.codes[i := db.codes[i].(attempts := db.codes[i].attempts + 1)])
    {
      WrongCodeCounts(cfg, db, r, i);
      assert Step(cfg, db, r).(clock := db.clock) == Handle(cfg, db, r).db by { ResetKeepsClock(cfg, db, r); }
    }
    if Handle(cfg, db, r).reply.Completed? { ReplacementLeaves(cfg, db, r, who.value); }
  }

  lemma ResetKeepsClock(cfg: Config, db: Db, r: Request)
    requires r.CompleteRequest?
    ensures Handle(cfg, db, r).db.clock == db.clock
  {
    hide Latest, InvalidateOthers;
  }

  ghost predicate AllUsed(codes: seq<Code>, user: int) {
    forall c <- codes :: c.user == user ==> c.usedAt.Some?
  }

  class Store {
    const cfg: Config
    var users: map<int, User>
    var tokens: seq<Token>
    var codes: seq<Code>
    // What each open reset request still holds in memory, by the id of its code.
    var flows: map<int, Flow>
    ghost var logins: map<int, Login>
    ghost var seen: set<PasswordHash>
    ghost var clock: int

    ghost function State(): Db
      reads this
    {
      Db(users, tokens, codes, flows, logins, seen, clock)
    }

    ghost predicate Valid()
      reads this
    {
      cfg.Valid() && Sound(cfg, State())
    }

    constructor (cfg: Config)
      requires cfg.Valid()
      ensures this.cfg == cfg && State() == EMPTY && Valid()
    {
      this.cfg := cfg;
      users, tokens, codes, flows := map[], [], [], map[];
      logins, seen, clock := map[], {}, 0;
      EmptyIsSound(cfg);
    }

    // `_create_token_record`: try the generated tokens in turn until one collides with no row.
    method CreateTokenRecord(candidates: seq<Candidate>, user: int, family: int, familyExpiresAt: int, now: int,
                             createdAt: int)
      returns (row: Option<Token>)
      modifies this`tokens
      ensures FirstUsable(old(tokens), candidates).None? ==> row.None? && tokens == old(tokens)
      ensures FirstUsable(old(tokens), candidates).Some? ==>
        && row == Some(NewToken(cfg, FirstUsable(old(tokens), candidates).value, user, family, familyExpiresAt, now,
            createdAt))
        && tokens == old(tokens) + [row.value]
    {
      var attempt := 0;
      while attempt < |candidates|
        invariant 0 <= attempt <= |candidates| && tokens == old(tokens)
        invariant FirstUsable(tokens, candidates) == FirstUsable(tokens, candidates[attempt..])
      {
        var c := candidates[attempt];
        if forall t <- tokens :: t.id != c.id && t.hash != c.hash {
          row := Some(NewToken(cfg, c, user, family, familyExpiresAt, now, createdAt));
          tokens := tokens + [row.value];
          return;
        }
        assert candidates[attempt..][1..] == candidates[attempt + 1..];
        attempt := attempt + 1;
      }
      return None;
    }

    // The eviction loop of `create_login_session`.
    method RevokeOldestFamilies(user: int, now: int, count: nat)
      modifies this`tokens
      ensures tokens == Evict(old(tokens), user, now, count)
    {
      hide OldestActive, OnlyRevokes, ActiveFamilies;
      var left := count;
      while left > 0
        invariant Evict(old(tokens), user, now, count) == Evict(tokens, user, now, left)
      {
        var oldest := OldestActive(tokens, user, now);
        if oldest.None? {
          break;
        }
        tokens := RevokeFamily(tokens, oldest.value.family, SessionLimit, now, false);
        left := left - 1;
      }
    }

    method LogIn(who: Option<int>, password: string, now: int, createdAt: int, family: int, candidates: seq<Candidate>)
      returns (reply: Reply)
      requires Valid() && family !in logins
      modifies this
      ensures Valid()
      ensures var o := Credentials.LogIn(cfg, old(State()), who, password, now, createdAt, family, candidates);
              State() == o.db.(clock := now) && reply == o.reply
      ensures reply.SessionOpened? ==> who.Some? && reply.token in tokens && reply.token.family == family
      ensures reply.SessionOpened? ==>
        var active := ActiveFamilies(tokens, who.value, now);
        |active| <= cfg.maxFamilies && OldestGone(old(tokens), who.value, now, active - {family})
      ensures reply.SessionOpened? ==> reply.token.expiresAt == Stored(now + cfg.refreshLifetime)
      ensures reply.SessionOpened? <==>
        && who.Some? && who.value in old(users) && old(users)[who.value].active
        && password == old(users)[who.value].hash.password && Free(old(tokens), candidates)
    {
      hide Sound, OldestGone, Evict, FirstUsable, ActiveFamilies, NewToken, OnlyRevokes;
      LogInKeeps(cfg, State(), who, password, now, createdAt, family, candidates);
      clock := now;
      if who.None? || who.value !in users || !Verify(password, users[who.value].hash) || !users[who.value].active {
        return InvalidCredentials;
      }
      var user, saved := who.value, tokens;
      var active := |ActiveFamilies(tokens, user, now)|;
      RevokeOldestFamilies(user, now, if active < cfg.maxFamilies then 0 else active - cfg.maxFamilies + 1);
      var row := CreateTokenRecord(candidates, user, family, now + cfg.absoluteLifetime, now, createdAt);
      if row.None? {
        tokens := saved;
        return TokenCollision;
      }
      logins := logins[family := Login(user, users[user].hash, now)];
      return SessionOpened(row.value);
    }

    method RotateSession(hash: Option<int>, csrf: Csrf, now: int, createdAt: int, candidates: seq<Candidate>)
      returns (reply: Reply)
      requires Valid()
      modifies this
      ensures Valid()
      ensures var o := Refresh(cfg, old(State()), hash, csrf, now, createdAt, candidates);
              State() == o.db.(clock := now) && reply == o.reply
      ensures reply.SessionOpened? ==>
        && OnlyUsable(tokens, reply.token)
        && reply.token.expiresAt == Earlier(Stored(now + cfg.refreshLifetime), reply.token.familyExpiresAt)
      ensures reply.SessionOpened? <==>
        MayRenew(old(State()), RefreshRequest(hash, csrf, now, createdAt, candidates))
      ensures OnlyPresented(old(State()), tokens, hash, csrf)
      ensures forall i: nat :: Presents(old(State()), hash, csrf, i) && !old(tokens)[i].Unrevoked() ==>
          Dead(State(), old(tokens)[i].family)
    {
      hide Sound, Dead, OnlyUsable, NewToken, MayRenew, OnlyPresented;
      OthersUntouched(cfg, State(), RefreshRequest(hash, csrf, now, createdAt, candidates));
      RefreshKeeps(cfg, State(), hash, csrf, now, createdAt, candidates);
      clock := now;
      if hash.None? {
        return SessionRefreshError;
      }
      if !csrf.Matches() {
        return RequestVerificationError;
      }
      var found := FindByHash(tokens, hash.value);
      if found.None? {
        return SessionRefreshError;
      }
      var current := tokens[found.value];
      if !csrf.MatchesStored(current.csrf) {
        return RequestVerificationError;
      }
      if current.revokedAt.Some? {
        tokens := RevokeFamily(tokens, current.family, ReuseDetected, now, true);
        return SessionRefreshError;
      }
      if current.expiresAt <= now || current.familyExpiresAt <= now {
        tokens := RevokeFamily(tokens, current.family, ExpiredCleanup, now, false);
        return SessionRefreshError;
      }
      if current.user !in users || !users[current.user].active {
        tokens := RevokeFamily(tokens, current.family, InactiveAccount, now, false);
        return SessionRefreshError;
      }
      var row := CreateTokenRecord(candidates, current.user, current.family, current.familyExpiresAt, now, createdAt);
      if row.None? {
        return TokenCollision;
      }
      tokens := tokens[found.value := current.Revoke(Rotated, now).(replacedBy := Some(row.value.id))];
      assert tokens == Rotate(old(tokens), found.value, row.value, now);
      return SessionOpened(row.value);
    }

    method LogoutCurrent(hash: Option<int>, csrf: Csrf, now: int) returns (reply: Reply)
      requires Valid()
      modifies this
      ensures Valid()
      ensures var o := LogOut(old(State()), hash, csrf, now); State() == o.db.(clock := now) && reply == o.reply
      ensures forall i: nat :: Presents(old(State()), hash, csrf, i) ==> Dead(State(), old(tokens)[i].family)
      ensures OnlyPresented(old(State()), tokens, hash, csrf)
    {
      hide Sound, Dead, OnlyPresented;
      ghost var r := LogoutRequest(hash, csrf, now);
      OthersUntouched(cfg, State(), r);
      StepKeeps(cfg, State(), r);
      PresentingEnds(cfg, State(), r);
      clock := now;
      if hash.None? {
        return Completed;
      }
      if !csrf.Matches() {
        return RequestVerificationError;
      }
      var found := FindByHash(tokens, hash.value);
      if found.None? {
        return Completed;
      }
      if !csrf.MatchesStored(tokens[found.value].csrf) {
        return RequestVerificationError;
      }
      tokens := RevokeFamily(tokens, tokens[found.value].family, Logout, now, false);
      return Completed;
    }

    method LogoutEverywhere(user: int, now: int)
      requires Valid()
      modifies this
      ensures Valid()
      ensures State() == LogOutAll(old(State()), user, now).db.(clock := now)
      ensures forall t <- tokens :: t.user == user ==> !t.Unrevoked()
    {
      hide Sound;
      StepKeeps(cfg, State(), LogoutAllRequest(user, now));
      clock := now;
      tokens := RevokeUser(tokens, user, LogoutAll, now);
    }

    // `request_reset`: the transaction before delivery.
    method RequestReset(who: Option<int>, provider: bool, now: int, id: int, code: string)
      requires Valid() && id !in flows
      modifies this
      ensures Valid()
      ensures State() == IssueReset(cfg, old(State()), who, provider, now, id, code).db.(clock := now)
      ensures |codes| > |old(codes)| ==> who.Some? && forall c <- codes :: c.user == who.value && c.usedAt.None? ==>
          c.expiresAt <= now
      ensures |codes| > |old(codes)| <==>
        MayBeIssued(cfg, old(State()), IssueRequest(who, provider, now, id, code))
    {
      hide Sound, MayIssue, MayBeIssued;
      ghost var r := IssueRequest(who, provider, now, id, code);
      IssueExactly(cfg, State(), r);
      StepKeeps(cfg, State(), r);
      if |Step(cfg, State(), r).codes| > |codes| { IssueLeaves(cfg, State(), r); }
      clock := now;
      if who.None? || who.value !in users || !users[who.value].active || !provider {
        return;
      }
      var user := who.value;
      if !MayIssue(codes, user, now, cfg.cooldown, cfg.hourlyLimit) {
        return;
      }
      codes := InvalidateActive(codes, user, now);
      codes := codes + [NewCode(cfg, id, user, code, now)];
      flows := flows[id := Flow(user, users[user].hash, Issued)];
    }

    // `request_reset`: delivery and the transaction after it.
    method FinishDelivery(id: int, delivered: bool)
      requires Valid()
      modifies this
      ensures Valid()
      ensures State() == DeliverReset(old(State()), id, delivered).db
      ensures codes == old(codes) && users == old(users) && tokens == old(tokens)
    {
      hide Sound;
      StepKeeps(cfg, State(), DeliverRequest(id, delivered));
      if id in flows && flows[id].stage.Issued? {
        flows := flows[id := flows[id].(stage := if delivered then Delivered else Done)];
      }
    }

    method Activate(id: int, commits: bool)
      requires Valid()
      modifies this
      ensures Valid()
      ensures State() == ActivateReset(old(State()), id, commits).db
      ensures |codes| == |old(codes)| && users == old(users) && tokens == old(tokens)
      ensures forall i :: 0 <= i < |codes| && codes[i].usedAt.None? && old(codes)[i].usedAt.Some? ==>
        && old(flows)[id].stage.Delivered? && codes[i].id == id
        && LastOfUser(old(codes), i) && IssuedUnder(old(codes)[i], old(flows), users)
      ensures forall i: nat :: i < |codes| && MayOpen(old(State()), ActivateRequest(id, commits), i) ==>
        codes[i] == old(codes)[i].(usedAt := None)
      ensures forall i: nat :: i < |codes| && !MayOpen(old(State()), ActivateRequest(id, commits), i) ==>
        codes[i] == old(codes)[i]
    {
      hide Sound, LastOfUser, IssuedUnder, MayOpen;
      forall i: nat | i < |codes|
        ensures ActivateReset(State(), id, commits).db.codes[i] ==
          if MayOpen(State(), ActivateRequest(id, commits), i) then codes[i].(usedAt := None) else codes[i]
      {
        OpensExactly(cfg, State(), ActivateRequest(id, commits), i);
      }
      StepKeeps(cfg, State(), ActivateRequest(id, commits));
      ActivationOpensOnly(cfg, State(), ActivateRequest(id, commits));
      if id !in flows || !flows[id].stage.Delivered? {
        return;
      }
      var flow := flows[id];
      flows := flows[id := flow.(stage := Done)];
      var latest := Latest(codes, flow.user);
      if commits && flow.user in users && users[flow.user].active && users[flow.user].hash == flow.credential
         && latest.Some? && codes[latest.value].id == id {
        codes := codes[latest.value := codes[latest.value].(usedAt := None)];
      }
    }

    method ResetPassword(who: Option<int>, code: string, hash: PasswordHash, now: int) returns (reply: Reply)
      requires Valid() && hash !in seen
      modifies this
      ensures Valid()
      ensures var o := CompleteReset(cfg, old(State()), who, code, hash, now);
              State() == o.db.(clock := now) && reply == o.reply
      ensures reply.Completed? ==>
        && who.Some? && who.value in users && users[who.value].hash == hash
        && ShutOut(State(), who.value, now) && AllUsed(codes, who.value)
      ensures reply.Completed? <==>
        exists i: nat :: Hits(cfg, old(State()), CompleteRequest(who, code, hash, now), i)
      ensures forall i: nat :: Misses(cfg, old(State()), CompleteRequest(who, code, hash, now), i) ==>
        State() == old(State()).(
          codes := old(codes)[i := old(codes)[i].(attempts := old(codes)[i].attempts + 1)], clock := now)
    {
      hide Sound, ShutOut, AllUsed, Latest, InvalidateOthers, Newest;
      CompleteKeeps(cfg, State(), who, code, hash, now);
      clock := now;
      var eligible := who.Some? && who.value in users && users[who.value].active;
      if !eligible {
        return InvalidPasswordReset;
      }
      var latest := Latest(codes, who.value);
      if latest.None? || !codes[latest.value].Available(now, cfg.maxAttempts) {
        return InvalidPasswordReset;
      }
      var i, challenge, user := latest.value, codes[latest.value], who.value;
      if challenge.code != code {
        codes := codes[i := challenge.(attempts := challenge.attempts + 1)];
        return InvalidPasswordReset;
      }
      users := users[user := users[user].(hash := hash)];
      codes := codes[i := challenge.(usedAt := Some(now))];
      codes := InvalidateOthers(codes, user, challenge.id, now);
      tokens := RevokeUser(tokens, user, LogoutAll, now);
      seen := seen + {hash};
      return Completed;
    }

    method ChangePassword(user: int, current: string, hash: PasswordHash, now: int) returns (reply: Reply)
      requires Valid() && hash !in seen
      modifies this
      ensures Valid()
      ensures var o := Credentials.ChangePassword(old(State()), user, current, hash, now);
              State() == o.db.(clock := now) && reply == o.reply
      ensures reply.Completed? ==> user in users && users[user].hash == hash && ShutOut(State(), user, now)
      ensures reply.Completed? <==>
        && user in old(users) && old(users)[user].active
        && current == old(users)[user].hash.password && hash.password != old(users)[user].hash.password
    {
      hide Sound, ShutOut;
      ghost var r := ChangeRequest(user, current, hash, now);
      ChangeExactly(cfg, State(), r);
      StepKeeps(cfg, State(), r);
      if Handle(cfg, State(), r).reply.Completed? { ReplacementLeaves(cfg, State(), r, user); }
      clock := now;
      if user !in users || !users[user].active {
        return InvalidPasswordChange;
      }
      var currentHash := users[user].hash;
      if !Verify(current, currentHash) || Verify(hash.password, currentHash) {
        return InvalidPasswordChange;
      }
      users := users[user := users[user].(hash := hash)];
      codes := InvalidateActive(codes, user, now);
      tokens := RevokeUser(tokens, user, LogoutAll, now);
      seen := seen + {hash};
      return Completed;
    }
  }
}
