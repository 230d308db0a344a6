/**
 What a password reset achieves: when a code is issued, when it opens, that the mailed code
 resets the password, and that wrong codes are counted until the code is closed.
 */
module ResetProgress {
  import opened Common
  import opened IssueLimits
  import opened TokenTable
  import opened ResetCodes
  import opened Credentials
  import opened CredentialTheorems
  import opened CredentialGuarantees

  /******* The newest code *******/

  // The user's code that no other code of the user is newer than.
  ghost predicate Newest(codes: seq<Code>, user: int, i: nat) {
    i < |codes| && codes[i].user == user && forall c <- codes :: c.user == user ==> c.createdAt <= codes[i].createdAt
  }

  lemma NewestIsLatest(cfg: Config, db: Db, user: int)
    requires cfg.Valid() && Sound(cfg, db)
    ensures Latest(db.codes, user).Some? ==> Newest(db.codes, user, Latest(db.codes, user).value)
    ensures forall i: nat :: Newest(db.codes, user, i) ==> Latest(db.codes, user) == Some(i)
  {
    hide Sessions, Accounted, Latest;
    var latest := Latest(db.codes, user);
    forall i: nat | Newest(db.codes, user, i)
      ensures latest == Some(i)
    {
      var c := db.codes[i];
      assert c in db.codes && db.codes[latest.value] in db.codes;
      LatestIsLast(db.codes, user, cfg.cooldown, cfg.hourlyLimit);
      if i < latest.value { Gap(IssueLog(db.codes), i, latest.value, cfg.cooldown, cfg.hourlyLimit); }
    }
  }

  /******* Issuing *******/

  // The codes of the user created at or after a time.
  function CreatedSince(codes: seq<Code>, user: int, since: int): set<int> {
    set i | 0 <= i < |codes| && codes[i].user == user && codes[i].createdAt >= since
  }

  ghost predicate MayBeIssued(cfg: Config, db: Db, r: Request)
    requires r.IssueRequest?
  {
    && r.provider && r.who.Some? && r.who.value in db.users && db.users[r.who.value].active
    && |CreatedSince(db.codes, r.who.value, r.now - 3_600_000_000)| < cfg.hourlyLimit
    && forall c <- db.codes :: c.user == r.who.value ==> r.now - c.createdAt >= cfg.cooldown
  }

  lemma MayIssueMeans(codes: seq<Code>, user: int, now: int, cooldown: int, limit: int)
    ensures MayIssue(codes, user, now, cooldown, limit) <==>
      && |CreatedSince(codes, user, now - 3_600_000_000)| < limit
      && forall c <- codes :: c.user == user ==> now - c.createdAt >= cooldown
  {
    hide Latest, CountSince;
    CountIsSize(IssueLog(codes), user, now - HOUR);
    assert CreatedSince(codes, user, now - HOUR) == RecentEntries(IssueLog(codes), user, now - HOUR);
    var latest := Latest(codes, user);
    if latest.Some? { assert codes[latest.value] in codes; }
  }

  /** A code is issued exactly for an active account, with a provider, fewer codes in the last hour
      than the limit, and none younger than the cooldown. */
  lemma IssueExactly(cfg: Config, db: Db, r: Request)
    requires r.IssueRequest?
    ensures |Step(cfg, db, r).codes| > |db.codes| <==> MayBeIssued(cfg, db, r)
  {
    hide MayIssue, InvalidateActive;
    if r.who.Some? { MayIssueMeans(db.codes, r.who.value, r.now, cfg.cooldown, cfg.hourlyLimit); }
  }

  /******* Opening *******/

  // The activation of `r` opens the code at row `i`.
  ghost predicate MayOpen(db: Db, r: Request, i: nat)
    requires r.ActivateRequest? && i < |db.codes|
  {
    var c := db.codes[i];
    && r.commits && c.id == r.id && r.id in db.flows && db.flows[r.id].stage == Delivered
    && c.user in db.users && db.users[c.user].active && db.users[c.user].hash == db.flows[r.id].credential
    && Newest(db.codes, c.user, i)
  }

  /** An activation opens the delivered code of an active account, if it is the newest of its user
      and the password is the one it was issued under; it changes no other code. */
  lemma OpensExactly(cfg: Config, db: Db, r: Request, i: nat)
    requires cfg.Valid() && Sound(cfg, db) && r.ActivateRequest? && i < |db.codes|
    ensures var after := Step(cfg, db, r).codes;
      && |after| == |db.codes|
      && after[i] == if MayOpen(db, r, i) then db.codes[i].(usedAt := None) else db.codes[i]
  {
    hide Sound, Latest;
    var c := db.codes[i];
    FlowOfCode(cfg, db, i);
    DistinctCodes(cfg, db);
    if r.id in db.flows {
      var user := db.flows[r.id].user;
      NewestIsLatest(cfg, db, user);
      var latest := Latest(db.codes, user);
      if latest.Some? { FlowOfCode(cfg, db, latest.value); }
    }
  }

  /******* Judging a code *******/

  // The request is judged against the code at row `i`: its user's newest, open, live and not worn out.
  ghost predicate Judges(cfg: Config, db: Db, r: Request, i: nat) {
    && r.CompleteRequest? && i < |db.codes|
    && var c := db.codes[i];
    && r.who == Some(c.user) && c.user in db.users && db.users[c.user].active
    && Newest(db.codes, c.user, i)
    && c.usedAt.None? && r.now < c.expiresAt && c.attempts < cfg.maxAttempts
  }

  ghost predicate Misses(cfg: Config, db: Db, r: Request, i: nat) {
    Judges(cfg, db, r, i) && r.code != db.codes[i].code
  }

  ghost predicate Hits(cfg: Config, db: Db, r: Request, i: nat) {
    Judges(cfg, db, r, i) && r.code == db.codes[i].code
  }

  lemma JudgedIsLatest(cfg: Config, db: Db, r: Request, i: nat)
    requires cfg.Valid() && Sound(cfg, db)
    ensures Judges(cfg, db, r, i) <==>
      r.CompleteRequest? && Challenge(db, r.who) == Some(i) && db.codes[i].Available(r.now, cfg.maxAttempts)
  {
    hide Sound, Latest;
    if r.CompleteRequest? && r.who.Some? { NewestIsLatest(cfg, db, r.who.value); }
  }

  /** A wrong code against an available one adds one attempt to its row and changes nothing else. */
  lemma WrongCodeCounts(cfg: Config, db: Db, r: Request, i: nat)
    requires cfg.Valid() && Sound(cfg, db) && Misses(cfg, db, r, i)
    ensures var c := db.codes[i];
      Step(cfg, db, r) == db.(codes := db.codes[i := c.(attempts := c.attempts + 1)], clock := r.now)
    ensures Handle(cfg, db, r).reply == InvalidPasswordReset
  {
    hide Sound, Latest, Judges;
    JudgedIsLatest(cfg, db, r, i);
  }

  /** A reset completes exactly with the code of the user's newest row, open, in time and not worn out. */
  lemma ResetExactly(cfg: Config, db: Db, r: Request)
    requires cfg.Valid() && Sound(cfg, db) && r.CompleteRequest?
    ensures Handle(cfg, db, r).reply.Completed? <==> exists i: nat :: Hits(cfg, db, r, i)
    ensures forall i: nat :: Hits(cfg, db, r, i) ==> CompletesWith(cfg, db, r, db.codes[i].id)
  {
    hide Sound, Latest, Judges, InvalidateOthers, ReplacePassword;
    forall i: nat
      ensures Judges(cfg, db, r, i) <==>
        Challenge(db, r.who) == Some(i) && db.codes[i].Available(r.now, cfg.maxAttempts)
    {
      JudgedIsLatest(cfg, db, r, i);
    }
    var latest := Challenge(db, r.who);
    if latest.Some? && Handle(cfg, db, r).reply.Completed? { assert Hits(cfg, db, r, latest.value); }
  }

  /******* Attempts over runs *******/

  /** A row's attempts go up by one with each wrong code judged against it, and by nothing else. */
  lemma AttemptsStep(cfg: Config, db: Db, r: Request, i: nat)
    requires cfg.Valid() && Sound(cfg, db) && i < |db.codes|
    ensures var after := Step(cfg, db, r).codes;
      && i < |after| && after[i].id == db.codes[i].id
      && after[i].attempts == db.codes[i].attempts + if Misses(cfg, db, r, i) then 1 else 0
  {
    hide Sound, Evict, FirstUsable, FindByHash, Latest, MayIssue, ActiveFamilies, RevokeUser, Judges, Rotate,
      RevokeFamily;
    JudgedIsLatest(cfg, db, r, i);
  }

  // How many wrong codes a run judges against the row `i`.
  ghost function WrongCodes(cfg: Config, db: Db, rs: seq<Request>, i: nat): nat
    decreases |rs|
  {
    if rs == [] then 0
    else (if Misses(cfg, db, rs[0], i) then 1 else 0) + WrongCodes(cfg, Step(cfg, db, rs[0]), rs[1..], i)
  }

  lemma {:induction false} AttemptsAreWrongCodes(cfg: Config, db: Db, rs: seq<Request>, i: nat)
    requires cfg.Valid() && Sound(cfg, db) && FreshRun(cfg, db, rs) && i < |db.codes|
    ensures var after := Run(cfg, db, rs).codes;
      && i < |after| && after[i].id == db.codes[i].id
      && after[i].attempts == db.codes[i].attempts + WrongCodes(cfg, db, rs, i)
    decreases |rs|
  {
    if rs != [] {
      hide Sound, Step, Misses, Fresh;
      AttemptsStep(cfg, db, rs[0], i);
      StepKeeps(cfg, db, rs[0]);
      AttemptsAreWrongCodes(cfg, Step(cfg, db, rs[0]), rs[1..], i);
    }
  }

  /** Over any run at most as many wrong codes are judged against a row as are left to it, and once
      so many were, no reset completes with that code. */
  lemma GuessesAreLimited(cfg: Config, db: Db, rs: seq<Request>, i: nat, reset: Request)
    requires cfg.Valid() && Sound(cfg, db) && FreshRun(cfg, db, rs) && i < |db.codes|
    ensures WrongCodes(cfg, db, rs, i) <= cfg.maxAttempts - db.codes[i].attempts
    ensures WrongCodes(cfg, db, rs, i) == cfg.maxAttempts - db.codes[i].attempts
        ==> !CompletesWith(cfg, Run(cfg, db, rs), reset, db.codes[i].id)
  {
    hide Sound, Run, FreshRun, WrongCodes, CompletesWith;
    var later := Run(cfg, db, rs);
    AttemptsAreWrongCodes(cfg, db, rs, i);
    RunKeeps(cfg, db, rs);
    AttemptsInRange(cfg, later, i);
    if CompletesWith(cfg, later, reset, db.codes[i].id) {
      CompletedHadAttempts(cfg, later, reset, i);
    }
  }

  lemma AttemptsInRange(cfg: Config, db: Db, i: nat)
    requires Sound(cfg, db) && i < |db.codes|
    ensures db.codes[i].attempts <= cfg.maxAttempts
  {
    hide Sessions, Accounted, Paced;
  }

  lemma CompletedHadAttempts(cfg: Config, db: Db, reset: Request, i: nat)
    requires Sound(cfg, db) && i < |db.codes| && CompletesWith(cfg, db, reset, db.codes[i].id)
    ensures db.codes[i].attempts < cfg.maxAttempts
  {
    hide Sound, Latest, InvalidateOthers, ReplacePassword;
    DistinctCodes(cfg, db);
  }

  /******* The mailed code works *******/

  // The request is about no reset of this user but, at most, other codes of theirs.
  predicate Elsewhere(r: Request, user: int, id: int) {
    match r
    case SetActive(u, _) => u != user
    case IssueRequest(who, _, _, _, _) => who != Some(user)
    case DeliverRequest(other, _) => other != id
    case ActivateRequest(other, _) => other != id
    case CompleteRequest(who, _, _, _) => who != Some(user)
    case ChangeRequest(u, _, _, _) => u != user
    case _ => true
  }

  // The code of the request is the user's newest, at row `i`; the account is active and keeps
  // the password it was issued under.
  ghost predicate Underway(db: Db, user: int, id: int, i: nat, c: Code, flow: Flow) {
    && user in db.users && db.users[user].active && db.users[user].hash == flow.credential
    && id in db.flows && db.flows[id] == flow && flow.user == user
    && Newest(db.codes, user, i) && db.codes[i] == c && c.id == id
  }

  predicate IsSessionRequest(r: Request) {
    r.LoginRequest? || r.RefreshRequest? || r.LogoutRequest? || r.LogoutAllRequest?
  }

  lemma SessionsKeepResets(cfg: Config, db: Db, r: Request)
    requires IsSessionRequest(r)
    ensures var after := Step(cfg, db, r);
      after.users == db.users && after.codes == db.codes && after.flows == db.flows
  {
    hide Evict, FirstUsable, FindByHash, ActiveFamilies, RevokeUser, Rotate, RevokeFamily, NewToken;
  }

  lemma UnderwayStep(cfg: Config, db: Db, r: Request, user: int, i: nat, c: Code, flow: Flow)
    requires cfg.Valid() && Sound(cfg, db) && Fresh(db, r)
    requires Elsewhere(r, user, c.id) && Underway(db, user, c.id, i, c, flow)
    ensures Underway(Step(cfg, db, r), user, c.id, i, c, flow)
  {
    hide Sound, Latest, MayIssue, RevokeUser, Newest, LogIn, Refresh, LogOut, LogOutAll, InvalidateOthers,
      InvalidateActive;
    if IsSessionRequest(r) {
      SessionsKeepResets(cfg, db, r);
    } else {
      OthersRowsStay(cfg, db, r, user, i, c);
    }
  }

  // What another request does to the codes: it may add some of other users, and close or open
  // some, but leaves the row `i` and the creation times alone.
  lemma OthersRowsStay(cfg: Config, db: Db, r: Request, user: int, i: nat, c: Code)
    requires Elsewhere(r, user, c.id) && !IsSessionRequest(r)
    requires Newest(db.codes, user, i) && db.codes[i] == c
    ensures var after := Step(cfg, db, r).codes; Newest(after, user, i) && after[i] == c
  {
    hide Latest, MayIssue, RevokeUser, Newest;
    var after := Step(cfg, db, r).codes;
    NewestRow(db.codes, user, i);
    assert |db.codes| <= |after| && after[i] == c;
    assert forall k :: 0 <= k < |db.codes| ==> SameKey(db.codes[k], after[k]);
    assert forall k :: |db.codes| <= k < |after| ==> after[k].user != user;
    StillNewest(db.codes, after, user, i);
  }

  predicate SameKey(a: Code, b: Code) {
    a.user == b.user && a.createdAt == b.createdAt
  }

  lemma NewestRow(codes: seq<Code>, user: int, i: nat)
    requires Newest(codes, user, i)
    ensures i < |codes| && codes[i].user == user
  {
  }

  lemma StillNewest(before: seq<Code>, after: seq<Code>, user: int, i: nat)
    requires Newest(before, user, i) && |before| <= |after|
    requires forall k :: 0 <= k < |before| ==> SameKey(before[k], after[k])
    requires forall k :: |before| <= k < |after| ==> after[k].user != user
    ensures Newest(after, user, i)
  {
    forall d | d in after && d.user == user
      ensures d.createdAt <= after[i].createdAt
    {
      var k :| 0 <= k < |after| && after[k] == d;
      var e := before[k];
      assert e in before && SameKey(before[i], after[i]);
    }
  }

  predicate ElsewhereRun(rs: seq<Request>, user: int, id: int) {
    forall r <- rs :: Elsewhere(r, user, id)
  }

  lemma {:induction false} UnderwayRun(cfg: Config, db: Db, rs: seq<Request>, user: int, i: nat, c: Code, flow: Flow)
    requires cfg.Valid() && Sound(cfg, db) && FreshRun(cfg, db, rs)
    requires ElsewhereRun(rs, user, c.id) && Underway(db, user, c.id, i, c, flow)
    ensures Underway(Run(cfg, db, rs), user, c.id, i, c, flow) && Sound(cfg, Run(cfg, db, rs))
    decreases |rs|
  {
    if rs != [] {
      hide Sound, Step, Fresh, Underway, Elsewhere;
      assert rs[0] in rs && forall r <- rs[1..] :: r in rs;
      UnderwayStep(cfg, db, rs[0], user, i, c, flow);
      StepKeeps(cfg, db, rs[0]);
      UnderwayRun(cfg, Step(cfg, db, rs[0]), rs[1..], user, i, c, flow);
    }
  }

  lemma {:induction false} RunAppend(cfg: Config, db: Db, a: seq<Request>, b: seq<Request>)
    ensures Run(cfg, db, a + b) == Run(cfg, Run(cfg, db, a), b)
    ensures FreshRun(cfg, db, a + b) <==> FreshRun(cfg, db, a) && FreshRun(cfg, Run(cfg, db, a), b)
    decreases |a|
  {
    if a == [] {
      assert a + b == b;
    } else {
      hide Step, Fresh;
      assert (a + b)[0] == a[0] && (a + b)[1..] == a[1..] + b;
      RunAppend(cfg, Step(cfg, db, a[0]), a[1..], b);
    }
  }

  lemma IssueStarts(cfg: Config, db: Db, r: Request)
    requires cfg.Valid() && r.IssueRequest? && MayBeIssued(cfg, db, r)
    ensures var user := r.who.value;
      Underway(Step(cfg, db, r), user, r.id, |db.codes|,
               Code(r.id, user, r.code, Stored(r.now + cfg.codeLifetime), Some(r.now), 0, Stored(r.now), r.now),
               Flow(user, db.users[user].hash, Issued))
  {
    hide MayIssue, Latest;
    var user, i := r.who.value, |db.codes|;
    MayIssueMeans(db.codes, user, r.now, cfg.cooldown, cfg.hourlyLimit);
    var after := Step(cfg, db, r).codes;
    assert |after| == i + 1 && after[i].createdAt == Stored(r.now);
    forall d | d in after && d.user == user
      ensures d.createdAt <= after[i].createdAt
    {
      var k :| 0 <= k < |after| && after[k] == d;
      if k < i {
        var e := db.codes[k];
        assert e in db.codes && e.user == user && e.createdAt == d.createdAt;
      }
    }
  }

  lemma DeliveryMoves(cfg: Config, db: Db, user: int, i: nat, c: Code, flow: Flow)
    requires Underway(db, user, c.id, i, c, flow) && flow.stage == Issued
    ensures Underway(Step(cfg, db, DeliverRequest(c.id, true)), user, c.id, i, c, flow.(stage := Delivered))
  {
    hide Newest;
  }

  lemma ActivationMoves(cfg: Config, db: Db, user: int, i: nat, c: Code, flow: Flow)
    requires cfg.Valid() && Sound(cfg, db) && Underway(db, user, c.id, i, c, flow) && flow.stage == Delivered
    ensures Underway(Step(cfg, db, ActivateRequest(c.id, true)), user, c.id, i, c.(usedAt := None),
                     flow.(stage := Done))
  {
    hide Sound, Latest, Newest;
    NewestIsLatest(cfg, db, user);
    var after := Step(cfg, db, ActivateRequest(c.id, true)).codes;
    assert after == db.codes[i := c.(usedAt := None)] by { assert Latest(db.codes, user) == Some(i); }
    NewestRow(db.codes, user, i);
    StillNewest(db.codes, after, user, i);
  }

  // A code issued by `issue`, delivered and activated, with other requests in between.
  function MailedRun(issue: Request, a: seq<Request>, b: seq<Request>, c: seq<Request>): seq<Request>
    requires issue.IssueRequest?
  {
    [issue] + a + ([DeliverRequest(issue.id, true)] + b + ([ActivateRequest(issue.id, true)] + c))
  }

  /**
   A code that may be issued, is delivered and is activated completes a reset exactly until its
   lifetime ends, whatever other accounts do in between and whatever clock their requests read.
   */
  lemma MailedCodeResets(cfg: Config, db: Db, issue: Request, a: seq<Request>, b: seq<Request>, c: seq<Request>,
                         reset: Request)
    requires cfg.Valid() && Sound(cfg, db) && issue.IssueRequest? && MayBeIssued(cfg, db, issue)
    requires FreshRun(cfg, db, MailedRun(issue, a, b, c))
    requires forall r <- a + b + c :: Elsewhere(r, issue.who.value, issue.id)
    requires reset.CompleteRequest? && reset.who == issue.who && reset.code == issue.code
    ensures CompletesWith(cfg, Run(cfg, db, MailedRun(issue, a, b, c)), reset, issue.id)
       <==> reset.now < Stored(issue.now + cfg.codeLifetime)
  {
    hide Sound, Step, Run, FreshRun, Underway, Elsewhere, MayBeIssued, CompletesWith, Fresh;
    IssuedUserExists(cfg, db, issue);
    var user, id, i := issue.who.value, issue.id, |db.codes|;
    var deliver, activate := DeliverRequest(id, true), ActivateRequest(id, true);
    var tail := [activate] + c;
    var middle := [deliver] + b + tail;
    assert MailedRun(issue, a, b, c) == [issue] + (a + middle) && middle == [deliver] + (b + tail);
    RunCons(cfg, db, issue, a + middle);
    var issued := Step(cfg, db, issue);
    IssueStarts(cfg, db, issue);
    StepKeeps(cfg, db, issue);
    var code := Code(id, user, issue.code, Stored(issue.now + cfg.codeLifetime), Some(issue.now), 0,
                     Stored(issue.now), issue.now);
    var flow := Flow(user, db.users[user].hash, Issued);
    RunAppend(cfg, issued, a, middle);
    UnderwayRun(cfg, issued, a, user, i, code, flow);
    var waiting := Run(cfg, issued, a);
    RunCons(cfg, waiting, deliver, b + tail);
    DeliveryMoves(cfg, waiting, user, i, code, flow);
    StepKeeps(cfg, waiting, deliver);
    var delivered, flow2 := Step(cfg, waiting, deliver), flow.(stage := Delivered);
    RunAppend(cfg, delivered, b, tail);
    UnderwayRun(cfg, delivered, b, user, i, code, flow2);
    var ready := Run(cfg, delivered, b);
    RunCons(cfg, ready, activate, c);
    ActivationMoves(cfg, ready, user, i, code, flow2);
    StepKeeps(cfg, ready, activate);
    var ended, code2, flow3 := Step(cfg, ready, activate), code.(usedAt := None), flow2.(stage := Done);
    UnderwayRun(cfg, ended, c, user, i, code2, flow3);
    OpenCodeHits(cfg, Run(cfg, ended, c), user, i, code2, flow3, reset);
  }

  lemma IssuedUserExists(cfg: Config, db: Db, r: Request)
    requires r.IssueRequest? && MayBeIssued(cfg, db, r)
    ensures r.who.Some? && r.who.value in db.users
  {
  }

  lemma OpenCodeHits(cfg: Config, db: Db, user: int, i: nat, c: Code, flow: Flow, reset: Request)
    requires cfg.Valid() && Sound(cfg, db) && Underway(db, user, c.id, i, c, flow)
    requires c.usedAt.None? && c.attempts == 0
    requires reset.CompleteRequest? && reset.who == Some(user) && reset.code == c.code
    ensures CompletesWith(cfg, db, reset, c.id) <==> reset.now < c.expiresAt
  {
    hide Sound, Newest, InvalidateOthers, ReplacePassword, Latest;
    NewestRow(db.codes, user, i);
    JudgedIsLatest(cfg, db, reset, i);
    NewestIsLatest(cfg, db, user);
  }

  /******* A failed request *******/

  // The delivery of the code of that id fails, or its activation does not open it.
  ghost predicate Fails(db: Db, r: Request, i: nat)
    requires i < |db.codes|
  {
    var id := db.codes[i].id;
    || (r == DeliverRequest(id, false) && id in db.flows && db.flows[id].stage == Issued)
    || (r.ActivateRequest? && r.id == id && id in db.flows && db.flows[id].stage == Delivered && !MayOpen(db, r, i))
  }

  /** A code whose delivery failed, or that its activation did not open, never completes a reset. */
  lemma FailedRequestNeverWorks(cfg: Config, db: Db, r: Request, i: nat, rs: seq<Request>, reset: Request)
    requires cfg.Valid() && Sound(cfg, db) && i < |db.codes| && Fails(db, r, i)
    requires FreshRun(cfg, Step(cfg, db, r), rs)
    ensures !CompletesWith(cfg, Run(cfg, Step(cfg, db, r), rs), reset, db.codes[i].id)
  {
    hide Sound, Run, FreshRun, CompletesWith, Spent, Step;
    var next, id := Step(cfg, db, r), db.codes[i].id;
    FailureSpends(cfg, db, r, i);
    SpentForGood(cfg, next, rs, i, id);
    StepKeeps(cfg, db, r) by { FailureIsFresh(db, r, i); }
    RunKeeps(cfg, next, rs);
    if CompletesWith(cfg, Run(cfg, next, rs), reset, id) {
      SpentFails(cfg, Run(cfg, next, rs), reset, i, id);
    }
  }

  lemma FailureIsFresh(db: Db, r: Request, i: nat)
    requires i < |db.codes| && Fails(db, r, i)
    ensures Fresh(db, r)
  {
  }

  lemma FailureSpends(cfg: Config, db: Db, r: Request, i: nat)
    requires cfg.Valid() && Sound(cfg, db) && i < |db.codes| && Fails(db, r, i)
    ensures Spent(Step(cfg, db, r), i, db.codes[i].id)
  {
    hide Sound, Latest, Newest;
    FlowOfCode(cfg, db, i);
    if r.ActivateRequest? { OpensExactly(cfg, db, r, i); }
  }

  lemma SpentFails(cfg: Config, db: Db, reset: Request, i: nat, id: int)
    requires Sound(cfg, db) && Spent(db, i, id)
    ensures !CompletesWith(cfg, db, reset, id)
  {
    hide Sound, Latest, InvalidateOthers, ReplacePassword;
    DistinctCodes(cfg, db);
  }

  /** A password is changed exactly by an active account that proves the present one and gives another. */
  lemma ChangeExactly(cfg: Config, db: Db, r: Request)
    requires r.ChangeRequest?
    ensures Handle(cfg, db, r).reply.Completed? <==>
      && r.user in db.users && db.users[r.user].active
      && r.current == db.users[r.user].hash.password && r.hash.password != db.users[r.user].hash.password
    ensures Handle(cfg, db, r).reply.Completed? ==> Step(cfg, db, r).users == db.users[r.user := User(true, r.hash)]
  {
    hide InvalidateActive, RevokeUser;
  }
}
