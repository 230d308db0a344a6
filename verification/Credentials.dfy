/**
 Passwords, refresh sessions and password reset as one protocol: login, rotation, logout,
 password change, and the two-transaction reset with delivery between issue and activation.

 One database transaction is one step.  A step is a function from the database before to
 the database after and the reply; a run is any interleaving of steps.
 */
module Credentials {
  import opened Common
  import opened IssueLimits
  import opened TokenTable
  import opened ResetCodes

  datatype Config = Config(
    refreshLifetime: int, absoluteLifetime: int, maxFamilies: int,
    codeLifetime: int, cooldown: int, hourlyLimit: int, maxAttempts: int)
  {
    // The ranges the settings enforce.
    predicate Valid() {
      0 < refreshLifetime <= absoluteLifetime && maxFamilies >= 1 && codeLifetime > 0 && cooldown > 0 && Whole(cooldown)
      && hourlyLimit >= 1 && maxAttempts >= 1
    }
  }

  // History only: who opened a session family, when, and the password hash that was verified.
  datatype Login = Login(user: int, hash: PasswordHash, at: int)

  // `logins` and `seen` (every password hash ever stored) are history that no step reads.
  // `clock` is the time of the latest timed step.
  datatype Db = Db(
    users: map<int, User>, tokens: seq<Token>, codes: seq<Code>, flows: map<int, Flow>,
    logins: map<int, Login>, seen: set<PasswordHash>, clock: int)

  datatype Reply =
    | Completed
    | SessionOpened(token: Token)
    | InvalidCredentials | SessionRefreshError | RequestVerificationError | TokenCollision
    | InvalidPasswordReset | InvalidPasswordChange

  datatype Outcome = Outcome(db: Db, reply: Reply)

  // A generated row id, refresh-token hash and CSRF hash.
  datatype Candidate = Candidate(id: int, hash: int, csrf: int)

  datatype Csrf = Csrf(cookie: Option<int>, header: Option<int>) {
    predicate Matches() {
      cookie.Some? && cookie == header
    }

    predicate MatchesStored(stored: int) {
      Matches() && header == Some(stored)
    }
  }

  /******* Sessions *******/

  // `_create_token_record`: the first generated token that collides with no row.
  function FirstUsable(ts: seq<Token>, candidates: seq<Candidate>): (r: Option<Candidate>)
    ensures r.Some? ==> r.value in candidates && forall t <- ts :: t.id != r.value.id && t.hash != r.value.hash
  {
    if candidates == [] then None
    else if forall t <- ts :: t.id != candidates[0].id && t.hash != candidates[0].hash then Some(candidates[0])
    else FirstUsable(ts, candidates[1..])
  }

  function NewToken(cfg: Config, c: Candidate, user: int, family: int, familyExpiresAt: int, now: int,
                    createdAt: int): Token {
    var limit := now + cfg.refreshLifetime;
    Token(c.id, user, c.hash, family, c.csrf, createdAt,
          Stored(if limit < familyExpiresAt then limit else familyExpiresAt),
          Stored(familyExpiresAt), None, None, None, None)
  }

  function Overflow(cfg: Config, db: Db, user: int, now: int): nat {
    var active := |ActiveFamilies(db.tokens, user, now)|;
    if active < cfg.maxFamilies then 0 else active - cfg.maxFamilies + 1
  }

  // Login with the password checked, then `create_login_session`.
  function LogIn(cfg: Config, db: Db, user: Option<int>, password: string, now: int, createdAt: int, family: int,
                 candidates: seq<Candidate>): Outcome
  {
    if user.None? || user.value !in db.users || !Verify(password, db.users[user.value].hash)
        || !db.users[user.value].active
    then Outcome(db, InvalidCredentials)
    else
      var u := user.value;
      var kept := Evict(db.tokens, u, now, Overflow(cfg, db, u, now));
      var c := FirstUsable(kept, candidates);
      if c.None? then Outcome(db, TokenCollision)
      else
        var t := NewToken(cfg, c.value, u, family, now + cfg.absoluteLifetime, now, createdAt);
        Outcome(db.(tokens := kept + [t], logins := db.logins[family := Login(u, db.users[u].hash, now)]),
                SessionOpened(t))
  }

  // `rotate_session`
  function Refresh(cfg: Config, db: Db, hash: Option<int>, csrf: Csrf, now: int, createdAt: int,
                   candidates: seq<Candidate>): Outcome
  {
    if hash.None? then Outcome(db, SessionRefreshError)
    else if !csrf.Matches() then Outcome(db, RequestVerificationError)
    else
      var row := FindByHash(db.tokens, hash.value);
      if row.None? then Outcome(db, SessionRefreshError)
      else
        var i, t := row.value, db.tokens[row.value];
        if !csrf.MatchesStored(t.csrf) then Outcome(db, RequestVerificationError)
        else if !t.Unrevoked() then
          Outcome(db.(tokens := RevokeFamily(db.tokens, t.family, ReuseDetected, now, true)), SessionRefreshError)
        else if t.expiresAt <= now || t.familyExpiresAt <= now then
          Outcome(db.(tokens := RevokeFamily(db.tokens, t.family, ExpiredCleanup, now, false)), SessionRefreshError)
        else if t.user !in db.users || !db.users[t.user].active then
          Outcome(db.(tokens := RevokeFamily(db.tokens, t.family, InactiveAccount, now, false)), SessionRefreshError)
        else
          var c := FirstUsable(db.tokens, candidates);
          if c.None? then Outcome(db, TokenCollision)
          else
            var next := NewToken(cfg, c.value, t.user, t.family, t.familyExpiresAt, now, createdAt);
            Outcome(db.(tokens := Rotate(db.tokens, i, next, now)), SessionOpened(next))
  }

  // `logout_current`
  function LogOut(db: Db, hash: Option<int>, csrf: Csrf, now: int): Outcome {
    if hash.None? then Outcome(db, Completed)
    else if !csrf.Matches() then Outcome(db, RequestVerificationError)
    else
      var row := FindByHash(db.tokens, hash.value);
      if row.None? then Outcome(db, Completed)
      else if !csrf.MatchesStored(db.tokens[row.value].csrf) then Outcome(db, RequestVerificationError)
      else Outcome(db.(tokens := RevokeFamily(db.tokens, db.tokens[row.value].family, Logout, now, false)), Completed)
  }

  // `logout_all`
  function LogOutAll(db: Db, user: int, now: int): Outcome {
    Outcome(db.(tokens := RevokeUser(db.tokens, user, LogoutAll, now)), Completed)
  }

  /******* Passwords *******/

  function NewCode(cfg: Config, id: int, user: int, code: string, now: int): Code {
    Code(id, user, code, Stored(now + cfg.codeLifetime), Some(now), 0, Stored(now), now)
  }

  // `request_reset`, first transaction; `provider` is enabled-and-available.
  function IssueReset(cfg: Config, db: Db, user: Option<int>, provider: bool, now: int, id: int,
                      code: string): Outcome {
    if user.Some? && user.value in db.users && db.users[user.value].active && provider
       && MayIssue(db.codes, user.value, now, cfg.cooldown, cfg.hourlyLimit)
    then
      var u := user.value;
      Outcome(db.(
        codes := InvalidateActive(db.codes, u, now) + [NewCode(cfg, id, u, code, now)],
        flows := db.flows[id := Flow(u, db.users[u].hash, Issued)]), Completed)
    else Outcome(db, Completed)
  }

  // The delivery between the transactions: on failure the request is over.
  function DeliverReset(db: Db, id: int, delivered: bool): Outcome {
    if id in db.flows && db.flows[id].stage.Issued?
    then Outcome(db.(flows := db.flows[id := db.flows[id].(stage := if delivered then Delivered else Done)]), Completed)
    else Outcome(db, Completed)
  }

  // `request_reset`, second transaction; a failing one changes nothing.  Either way the request is over.
  function ActivateReset(db: Db, id: int, commits: bool): Outcome {
    if id in db.flows && db.flows[id].stage.Delivered? then
      var flow := db.flows[id];
      var latest := Latest(db.codes, flow.user);
      var opens := commits && flow.user in db.users && db.users[flow.user].active
        && db.users[flow.user].hash == flow.credential && latest.Some? && db.codes[latest.value].id == id;
      Outcome(db.(
        codes := if opens then db.codes[latest.value := db.codes[latest.value].(usedAt := None)] else db.codes,
        flows := db.flows[id := flow.(stage := Done)]), Completed)
    else Outcome(db, Completed)
  }

  // Replacing a password revokes every session of the user.
  function ReplacePassword(db: Db, user: int, hash: PasswordHash, codes: seq<Code>, now: int): Db
    requires user in db.users
  {
    db.(users := db.users[user := db.users[user].(hash := hash)], codes := codes,
        tokens := RevokeUser(db.tokens, user, LogoutAll, now), seen := db.seen + {hash})
  }

  // `reset_password`: the row that would be judged, when there is one.
  function Challenge(db: Db, user: Option<int>): (r: Option<nat>)
    ensures r.Some? ==> r.value < |db.codes| && user.Some? && user.value in db.users
    ensures r.Some? ==> db.codes[r.value].user == user.value
  {
    if user.Some? && user.value in db.users && db.users[user.value].active then Latest(db.codes, user.value) else None
  }

  function CompleteReset(cfg: Config, db: Db, user: Option<int>, code: string, hash: PasswordHash, now: int): Outcome {
    var latest := Challenge(db, user);
    if latest.None? || !db.codes[latest.value].Available(now, cfg.maxAttempts) then Outcome(db, InvalidPasswordReset)
    else
      var i, c := latest.value, db.codes[latest.value];
      if c.code != code then
        Outcome(db.(codes := db.codes[i := c.(attempts := c.attempts + 1)]), InvalidPasswordReset)
      else
        var spent := db.codes[i := c.(usedAt := Some(now))];
        Outcome(ReplacePassword(db, c.user, hash, InvalidateOthers(spent, c.user, c.id, now), now), Completed)
  }

  function ChangePassword(db: Db, user: int, current: string, hash: PasswordHash, now: int): Outcome {
    if user !in db.users || !db.users[user].active
       || !Verify(current, db.users[user].hash) || Verify(hash.password, db.users[user].hash)
    then Outcome(db, InvalidPasswordChange)
    else Outcome(ReplacePassword(db, user, hash, InvalidateActive(db.codes, user, now), now), Completed)
  }

  /******* Runs *******/

  datatype Request =
    | Register(user: int, hash: PasswordHash)
    | SetActive(user: int, active: bool)
    | LoginRequest(who: Option<int>, password: string, now: int, createdAt: int, family: int,
                   candidates: seq<Candidate>)
    | RefreshRequest(token: Option<int>, csrf: Csrf, now: int, createdAt: int, candidates: seq<Candidate>)
    | LogoutRequest(token: Option<int>, csrf: Csrf, now: int)
    | LogoutAllRequest(user: int, now: int)
    | IssueRequest(who: Option<int>, provider: bool, now: int, id: int, code: string)
    | DeliverRequest(id: int, delivered: bool)
    | ActivateRequest(id: int, commits: bool)
    | CompleteRequest(who: Option<int>, code: string, hash: PasswordHash, now: int)
    | ChangeRequest(user: int, current: string, hash: PasswordHash, now: int)

  function Handle(cfg: Config, db: Db, r: Request): Outcome {
    match r
    case Register(user, hash) =>
      Outcome(if user in db.users then db
          else db.(users := db.users[user := User(true, hash)], seen := db.seen + {hash}), Completed)
    case SetActive(user, active) =>
      Outcome(if user in db.users then db.(users := db.users[user := db.users[user].(active := active)])
          else db, Completed)
    case LoginRequest(who, password, now, createdAt, family, candidates) =>
      LogIn(cfg, db, who, password, now, createdAt, family, candidates)
    case RefreshRequest(token, csrf, now, createdAt, candidates) =>
        Refresh(cfg, db, token, csrf, now, createdAt, candidates)
    case LogoutRequest(token, csrf, now) => LogOut(db, token, csrf, now)
    case LogoutAllRequest(user, now) => LogOutAll(db, user, now)
    case IssueRequest(who, provider, now, id, code) => IssueReset(cfg, db, who, provider, now, id, code)
    case DeliverRequest(id, delivered) => DeliverReset(db, id, delivered)
    case ActivateRequest(id, commits) => ActivateReset(db, id, commits)
    case CompleteRequest(who, code, hash, now) => CompleteReset(cfg, db, who, code, hash, now)
    case ChangeRequest(user, current, hash, now) => ChangePassword(db, user, current, hash, now)
  }

  function Time(db: Db, r: Request): int {
    match r
    case Register(_, _) => db.clock
    case SetActive(_, _) => db.clock
    case DeliverRequest(_, _) => db.clock
    case ActivateRequest(_, _) => db.clock
    case _ => r.now
  }

  function Step(cfg: Config, db: Db, r: Request): Db {
    Handle(cfg, db, r).db.(clock := Time(db, r))
  }

  // Generated family ids, code ids and salted hashes are new.
  predicate Fresh(db: Db, r: Request) {
    match r
    case Register(_, hash) => hash !in db.seen
    case LoginRequest(_, _, _, _, family, _) => family !in db.logins
    case IssueRequest(_, _, _, id, _) => id !in db.flows
    case CompleteRequest(_, _, hash, _) => hash !in db.seen
    case ChangeRequest(_, _, hash, _) => hash !in db.seen
    case _ => true
  }

  predicate Timely(db: Db, r: Request) {
    Time(db, r) >= db.clock
  }

  function Run(cfg: Config, db: Db, rs: seq<Request>): Db
    decreases |rs|
  {
    if rs == [] then db else Run(cfg, Step(cfg, db, rs[0]), rs[1..])
  }

  predicate FreshRun(cfg: Config, db: Db, rs: seq<Request>)
    decreases |rs|
  {
    rs == [] || (Fresh(db, rs[0]) && FreshRun(cfg, Step(cfg, db, rs[0]), rs[1..]))
  }

  predicate TimelyRun(cfg: Config, db: Db, rs: seq<Request>)
    decreases |rs|
  {
    rs == [] || (Timely(db, rs[0]) && TimelyRun(cfg, Step(cfg, db, rs[0]), rs[1..]))
  }

  const EMPTY: Db := Db(map[], [], [], map[], map[], {}, 0)
}
