/**
 Password-reset codes (models/password_reset_code.py, repositories/password_reset_code_repository.py)
 and the requests that issue them (services/password_reset_service.py).

 A code is pending, active or spent only through `used_at`: it is inserted already "used",
 activation clears the column, and every invalidation sets it again.  Between insertion and
 activation the request that issued the code keeps, in memory, the password hash it saw.
 */
module ResetCodes {
  import opened Common
  import opened IssueLimits

  // Argon2 output: salted, so hashing the same password again gives another value.
  datatype PasswordHash = Salted(password: string, salt: int)

  predicate Verify(password: string, hash: PasswordHash) {
    hash.password == password
  }

  datatype User = User(active: bool, hash: PasswordHash)

  // `code` stands for the keyed hash of the six digits, which determines them.  `issuedAt` is
  // the time the issuing request read; the row keeps only its rounding, `createdAt`.
  datatype Code = Code(id: int, user: int, code: string, expiresAt: int, usedAt: Option<int>, attempts: int,
                       createdAt: int, issuedAt: int)
  {
    predicate Available(now: int, maxAttempts: int) {
      usedAt.None? && expiresAt > now && attempts < maxAttempts
    }
  }

  datatype Stage = Issued | Delivered | Done

  // The request that issued a code: `credential` is `credential_version`.
  datatype Flow = Flow(user: int, credential: PasswordHash, stage: Stage)

  /******* Queries *******/

  function IssueLog(codes: seq<Code>): (log: seq<Issue>)
    ensures |log| == |codes| && forall i :: 0 <= i < |codes| ==>
        log[i] == Issue(codes[i].user, codes[i].issuedAt, codes[i].createdAt)
  {
    seq(|codes|, i requires 0 <= i < |codes| => Issue(codes[i].user, codes[i].issuedAt, codes[i].createdAt))
  }

  // ORDER BY created_at DESC, id DESC LIMIT 1
  function Latest(codes: seq<Code>, user: int): (r: Option<nat>)
    ensures r.Some? ==> r.value < |codes| && codes[r.value].user == user
    ensures r.Some? ==> forall c <- codes :: c.user == user ==> !Later(c, codes[r.value])
    ensures r.None? ==> forall c <- codes :: c.user != user
  {
    if codes == [] then None
    else
      var n := |codes| - 1;
      var best := Latest(codes[..n], user);
      assert codes == codes[..n] + [codes[n]];
      if codes[n].user == user && (best.None? || Later(codes[n], codes[best.value])) then Some(n) else best
  }

  predicate Later(a: Code, b: Code) {
    a.createdAt > b.createdAt || (a.createdAt == b.createdAt && a.id > b.id)
  }

  // `_may_issue`
  function MayIssue(codes: seq<Code>, user: int, now: int, cooldown: int, limit: int): bool {
    && CountSince(IssueLog(codes), user, now - HOUR) < limit
    && var latest := Latest(codes, user);
       latest.None? || now - codes[latest.value].createdAt >= cooldown
  }

  /******* Updates *******/

  // UPDATE ... SET used_at = now WHERE user_id = user AND used_at IS NULL AND expires_at > now
  function InvalidateActive(codes: seq<Code>, user: int, now: int): (r: seq<Code>)
    ensures |r| == |codes| && forall i :: 0 <= i < |codes| ==> r[i] == InvalidateRow(codes[i], user, now)
  {
    seq(|codes|, i requires 0 <= i < |codes| => InvalidateRow(codes[i], user, now))
  }

  function InvalidateRow(c: Code, user: int, now: int): Code {
    if c.user == user && c.usedAt.None? && c.expiresAt > now then c.(usedAt := Some(now)) else c
  }

  // The same whatever the expiry, sparing one code.
  function InvalidateOthers(codes: seq<Code>, user: int, spared: int, now: int): (r: seq<Code>)
    ensures |r| == |codes| && forall i :: 0 <= i < |codes| ==> r[i] == InvalidateOtherRow(codes[i], user, spared, now)
  {
    seq(|codes|, i requires 0 <= i < |codes| => InvalidateOtherRow(codes[i], user, spared, now))
  }

  function InvalidateOtherRow(c: Code, user: int, spared: int, now: int): Code {
    if c.user == user && c.id != spared && c.usedAt.None? then c.(usedAt := Some(now)) else c
  }

  // Later updates leave the columns written at insertion alone, and clear no `used_at`.
  ghost predicate OnlySpends(before: seq<Code>, after: seq<Code>) {
    && |after| == |before|
    && forall i :: 0 <= i < |before| ==>
        && after[i].(usedAt := before[i].usedAt, attempts := before[i].attempts) == before[i]
        && (after[i].usedAt.None? ==> before[i].usedAt.None?)
  }

  /******* Limits *******/

  // What the limits guarantee, whatever the clock does.
  ghost predicate Limited(codes: seq<Code>, cooldown: int, limit: int, maxAttempts: int) {
    && Paced(IssueLog(codes), cooldown, limit)
    && forall i :: 0 <= i < |codes| ==> 0 <= codes[i].attempts <= maxAttempts
  }

  lemma LatestIsLast(codes: seq<Code>, user: int, cooldown: int, limit: int)
    requires Paced(IssueLog(codes), cooldown, limit) && cooldown > 0
    ensures Latest(codes, user).Some? ==> LastOfUser(codes, Latest(codes, user).value)
  {
    var log := IssueLog(codes);
    var r := Latest(codes, user);
    if r.Some? {
      forall j | r.value < j < |codes|
        ensures codes[j].user != user
      {
        assert codes[j] in codes;
        Gap(log, r.value, j, cooldown, limit);
      }
    }
  }

  lemma SpendingKeepsLimits(before: seq<Code>, after: seq<Code>, cooldown: int, limit: int, maxAttempts: int)
    requires Limited(before, cooldown, limit, maxAttempts) && OnlySpends(before, after)
    requires forall i :: 0 <= i < |before| ==> 0 <= after[i].attempts <= maxAttempts
    ensures Limited(after, cooldown, limit, maxAttempts)
  {
    SameLog(before, after);
  }

  lemma SameLog(before: seq<Code>, after: seq<Code>)
    requires |after| == |before|
    requires forall i :: 0 <= i < |before| ==>
      after[i].user == before[i].user && after[i].createdAt == before[i].createdAt
          && after[i].issuedAt == before[i].issuedAt
    ensures IssueLog(after) == IssueLog(before)
  {
  }

  lemma IssueKeepsLimits(codes: seq<Code>, c: Code, cooldown: int, limit: int, maxAttempts: int)
    requires Limited(codes, cooldown, limit, maxAttempts) && maxAttempts >= 0 && c.attempts == 0
    requires MayIssue(codes, c.user, c.issuedAt, cooldown, limit) && c.createdAt == Stored(c.issuedAt)
        && Whole(cooldown)
    ensures Limited(codes + [c], cooldown, limit, maxAttempts)
  {
    hide Paced;
    var log := IssueLog(codes);
    forall r | r in log && r.user == c.user
      ensures c.issuedAt - r.at >= cooldown
    {
      var i :| 0 <= i < |log| && log[i] == r;
      assert codes[i] in codes;
    }
    IssueKeepsPace(log, Issue(c.user, c.issuedAt, c.createdAt), cooldown, limit);
    assert IssueLog(codes + [c]) == log + [Issue(c.user, c.issuedAt, c.createdAt)];
  }

  /******* Binding to the password *******/

  ghost predicate LastOfUser(codes: seq<Code>, i: int) {
    0 <= i < |codes| && forall j :: i < j < |codes| ==> codes[j].user != codes[i].user
  }

  // Rows, the requests that issued them, and every password hash there ever was.
  ghost predicate Accounted(codes: seq<Code>, flows: map<int, Flow>, users: map<int, User>, seen: set<PasswordHash>) {
    && (forall i, j :: 0 <= i < j < |codes| ==> codes[i].id != codes[j].id)
    && (forall i :: 0 <= i < |codes| ==> AccountedRow(codes[i], flows, users, seen))
    && (forall u <- users :: users[u].hash in seen)
  }

  // A code is unused only once the request that issued it is over.
  ghost predicate AccountedRow(c: Code, flows: map<int, Flow>, users: map<int, User>, seen: set<PasswordHash>) {
    && c.id in flows && flows[c.id].user == c.user && c.user in users && flows[c.id].credential in seen
    && (c.usedAt.None? ==> flows[c.id].stage.Done?)
  }

  // An unused, unexpired code is its user's newest and was issued under the present password.
  ghost predicate Bound(codes: seq<Code>, flows: map<int, Flow>, users: map<int, User>, clock: int) {
    forall i :: 0 <= i < |codes| && codes[i].usedAt.None? && codes[i].expiresAt > clock ==>
      LastOfUser(codes, i) && IssuedUnder(codes[i], flows, users)
  }

  ghost predicate IssuedUnder(c: Code, flows: map<int, Flow>, users: map<int, User>) {
    c.id in flows && c.user in users && users[c.user].hash == flows[c.id].credential
  }

  lemma SpendingKeepsAccounts(before: seq<Code>, after: seq<Code>, flows: map<int, Flow>, users: map<int, User>,
                              seen: set<PasswordHash>)
    requires Accounted(before, flows, users, seen) && OnlySpends(before, after)
    ensures Accounted(after, flows, users, seen)
  {
    assert forall i :: 0 <= i < |before| ==> after[i].id == before[i].id;
    forall i | 0 <= i < |after|
      ensures AccountedRow(after[i], flows, users, seen)
    {
      assert AccountedRow(before[i], flows, users, seen);
      assert after[i].user == before[i].user;
    }
  }

  lemma SpendingKeepsBinding(before: seq<Code>, after: seq<Code>, flows: map<int, Flow>, users: map<int, User>,
                             clock: int, now: int)
    requires Bound(before, flows, users, clock) && clock <= now && OnlySpends(before, after)
    ensures Bound(after, flows, users, now)
  {
    assert forall i :: 0 <= i < |before| ==> after[i].id == before[i].id;
    assert forall i :: 0 <= i < |before| ==> after[i].user == before[i].user;
    assert forall i :: 0 <= i < |before| ==> after[i].expiresAt == before[i].expiresAt;
    forall i | 0 <= i < |after| && after[i].usedAt.None? && after[i].expiresAt > now
      ensures LastOfUser(after, i) && IssuedUnder(after[i], flows, users)
    {
      assert LastOfUser(before, i) && IssuedUnder(before[i], flows, users);
    }
  }

  lemma AccountKeepsAccounts(codes: seq<Code>, flows: map<int, Flow>, users: map<int, User>, seen: set<PasswordHash>,
                             user: int, account: User)
    requires Accounted(codes, flows, users, seen)
    ensures Accounted(codes, flows, users[user := account], seen + {account.hash})
  {
    forall i | 0 <= i < |codes|
      ensures AccountedRow(codes[i], flows, users[user := account], seen + {account.hash})
    {
      assert AccountedRow(codes[i], flows, users, seen);
    }
  }

  /** Replacing a password once every open code of that user is spent or expired. */
  lemma ReplacingKeepsBinding(codes: seq<Code>, flows: map<int, Flow>, users: map<int, User>, clock: int, user: int,
                              account: User)
    requires Bound(codes, flows, users, clock)
    requires forall i :: 0 <= i < |codes| && codes[i].user == user && codes[i].usedAt.None? ==>
        codes[i].expiresAt <= clock
    ensures Bound(codes, flows, users[user := account], clock)
  {
    forall i | 0 <= i < |codes| && codes[i].usedAt.None? && codes[i].expiresAt > clock
      ensures LastOfUser(codes, i) && IssuedUnder(codes[i], flows, users[user := account])
    {
      assert IssuedUnder(codes[i], flows, users);
    }
  }

  // Accounts that keep their password keep every binding.
  lemma SamePasswordsKeepBinding(codes: seq<Code>, flows: map<int, Flow>, users: map<int, User>, clock: int,
                                 user: int, account: User)
    requires Bound(codes, flows, users, clock)
    requires user in users ==> account.hash == users[user].hash
    ensures Bound(codes, flows, users[user := account], clock)
  {
    forall i | 0 <= i < |codes| && codes[i].usedAt.None? && codes[i].expiresAt > clock
      ensures LastOfUser(codes, i) && IssuedUnder(codes[i], flows, users[user := account])
    {
      assert IssuedUnder(codes[i], flows, users);
    }
  }

  lemma IssueKeepsAccounts(codes: seq<Code>, c: Code, flows: map<int, Flow>, users: map<int, User>,
                           seen: set<PasswordHash>)
    requires Accounted(codes, flows, users, seen)
    requires c.id !in flows && c.usedAt.Some? && c.user in users
    ensures Accounted(codes + [c], flows[c.id := Flow(c.user, users[c.user].hash, Issued)], users, seen)
  {
    var after, flows' := codes + [c], flows[c.id := Flow(c.user, users[c.user].hash, Issued)];
    forall i | 0 <= i < |after|
      ensures AccountedRow(after[i], flows', users, seen) && (i < |codes| ==> after[i].id != c.id)
    {
      assert i < |codes| ==> AccountedRow(codes[i], flows, users, seen);
    }
  }

  lemma IssueKeepsBinding(codes: seq<Code>, c: Code, flow: Flow, flows: map<int, Flow>, users: map<int, User>,
                          clock: int)
    requires Bound(codes, flows, users, clock) && c.id !in flows && c.usedAt.Some?
    requires forall i :: 0 <= i < |codes| && codes[i].user == c.user && codes[i].usedAt.None? ==>
        codes[i].expiresAt <= clock
    ensures Bound(codes + [c], flows[c.id := flow], users, clock)
  {
    var after := codes + [c];
    forall i | 0 <= i < |after| && after[i].usedAt.None? && after[i].expiresAt > clock
      ensures LastOfUser(after, i) && IssuedUnder(after[i], flows[c.id := flow], users)
    {
      assert LastOfUser(codes, i) && IssuedUnder(codes[i], flows, users);
    }
  }

  // The request of a code moves to another stage, and its code opens only when that is the end.
  lemma StageKeepsAccounts(codes: seq<Code>, i: nat, c: Code, stage: Stage, id: int, flows: map<int, Flow>,
                           users: map<int, User>, seen: set<PasswordHash>)
    requires Accounted(codes, flows, users, seen) && id in flows && !flows[id].stage.Done?
    requires i < |codes| && c.(usedAt := codes[i].usedAt) == codes[i]
    requires c == codes[i] || (c.id == id && stage.Done?)
    ensures Accounted(codes[i := c], flows[id := flows[id].(stage := stage)], users, seen)
  {
    var flows' := flows[id := flows[id].(stage := stage)];
    var after := codes[i := c];
    assert c.id == codes[i].id && c.user == codes[i].user;
    forall k | 0 <= k < |after|
      ensures AccountedRow(after[k], flows', users, seen)
    {
      assert AccountedRow(codes[k], flows, users, seen);
    }
  }

  lemma StageKeepsBinding(codes: seq<Code>, id: int, stage: Stage, flows: map<int, Flow>, users: map<int, User>,
                          clock: int)
    requires Bound(codes, flows, users, clock) && id in flows
    ensures Bound(codes, flows[id := flows[id].(stage := stage)], users, clock)
  {
    var flows' := flows[id := flows[id].(stage := stage)];
    forall k | 0 <= k < |codes| && codes[k].usedAt.None? && codes[k].expiresAt > clock
      ensures LastOfUser(codes, k) && IssuedUnder(codes[k], flows', users)
    {
      assert IssuedUnder(codes[k], flows, users);
    }
  }

  /** Activation: a code opens only as its user's newest and under the password it was issued under. */
  lemma ActivationKeepsBinding(codes: seq<Code>, i: nat, flows: map<int, Flow>, users: map<int, User>, clock: int)
    requires Bound(codes, flows, users, clock) && LastOfUser(codes, i) && IssuedUnder(codes[i], flows, users)
    ensures Bound(codes[i := codes[i].(usedAt := None)], flows, users, clock)
  {
    var after := codes[i := codes[i].(usedAt := None)];
    forall k | 0 <= k < |after| && after[k].usedAt.None? && after[k].expiresAt > clock
      ensures LastOfUser(after, k) && IssuedUnder(after[k], flows, users)
    {
      assert k != i ==> LastOfUser(codes, k) && IssuedUnder(codes[k], flows, users);
      assert forall j :: 0 <= j < |codes| ==> after[j].user == codes[j].user;
    }
  }
}
