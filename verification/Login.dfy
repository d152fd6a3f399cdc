/**
  The two-phase login of AuthServer (DbPlayerInfo.cpp): an account with a secret first answers with its password,
  which raises the stored `LoginOK` flag, and then with a one-time token, which takes the flag down again.
  Password hashes, the token of the moment and database faults come with each attempt.
 */
module Login {
  const GRADE_ES := 2

  datatype Account = Account(hash: string, secret: string, loginOk: bool, suspendedUntil: nat, grade: nat)
  type Users = map<string, Account>

  datatype Reply = Incorrect | Success | DataError | UseToken | Suspended

  /** The statement that throws, if any: checking the password, resetting the flag, or reading the account. */
  datatype Fault = NoFault | AtVerify | AtReset | AtFetch

  /** One login: what was typed, its hash, the token the secret yields now, the time, and the fault met. */
  datatype Attempt = Attempt(user: string, password: string, hash: string, token: string, now: nat, fault: Fault)

  predicate PasswordMatches(db: Users, a: Attempt) { a.user in db && db[a.user].hash == a.hash }

  predicate HasSecret(db: Users, user: string) { user in db && db[user].secret != "" }

  // ---------------------------------------------------------------- the specification

  function WithFlag(db: Users, user: string, flag: bool): Users
  {
    if user in db then db[user := db[user].(loginOk := flag)] else db
  }

  /** `getPlayerInfo` with its third argument. */
  function Fetch(db: Users, a: Attempt, is2fa: bool): Reply
  {
    if a.fault.AtFetch? then DataError
    else if !(if is2fa then a.user in db else PasswordMatches(db, a)) then Incorrect
    else
      var account := db[a.user];
      if account.grade >= GRADE_ES && account.secret == "" then Incorrect
      else if account.suspendedUntil <= a.now then Success
      else Suspended
  }

  /** `verifyUserCredentials`: raises the flag when the password is right. */
  function Verify(db: Users, a: Attempt): (Users, Reply)
  {
    if a.fault.AtVerify? then (db, DataError)
    else if PasswordMatches(db, a) then (WithFlag(db, a.user, true), UseToken)
    else (db, Incorrect)
  }

  function TwoFactor(db: Users, a: Attempt, isLoginOk: bool): (Users, Reply)
  {
    var (verified, reply) := Verify(db, a);
    if !isLoginOk || reply != Incorrect then (verified, reply)
    else if a.fault.AtReset? then (db, DataError)
    else
      var reset := WithFlag(db, a.user, false);
      (reset, if a.password != a.token then Incorrect else Fetch(reset, a, true))
  }

  function Step(db: Users, a: Attempt): (Users, Reply)
  {
    if HasSecret(db, a.user) then TwoFactor(db, a, db[a.user].loginOk) else (db, Fetch(db, a, false))
  }

  function Run(db: Users, attempts: seq<Attempt>): Users
  {
    if attempts == [] then db else Step(Run(db, attempts[..|attempts| - 1]), attempts[|attempts| - 1]).0
  }

  /** The answer to attempt `k` of a run. */
  function ReplyTo(db: Users, attempts: seq<Attempt>, k: nat): Reply
    requires k < |attempts|
  {
    Step(Run(db, attempts[..k]), attempts[k]).1
  }

  // ---------------------------------------------------------------- what an attempt can change

  /** Only the flag of the account that logs in ever changes. */
  lemma StepFrame(db: Users, a: Attempt)
    ensures var d := Step(db, a).0;
            && d.Keys == db.Keys
            && forall u :: u in db ==> d[u].(loginOk := db[u].loginOk) == db[u] && (u != a.user ==> d[u] == db[u])
  {
  }

  lemma {:induction false} RunFrame(db: Users, attempts: seq<Attempt>)
    ensures Run(db, attempts).Keys == db.Keys
    ensures forall u :: u in db ==> Run(db, attempts)[u].(loginOk := db[u].loginOk) == db[u]
    decreases |attempts|
  {
    hide Step;
    if attempts == [] {
    } else {
      var init := attempts[..|attempts| - 1];
      RunFrame(db, init);
      StepFrame(Run(db, init), attempts[|attempts| - 1]);
    }
  }

  /** Whether the attempt got as far as settling the flag: every answer but an early failure. */
  predicate Settles(a: Attempt, reply: Reply) { reply != DataError || a.fault.AtFetch? }

  /** One attempt on an account with a secret: the flag then says whether the answer asked for the token. */
  lemma StepSettles(db: Users, a: Attempt)
    requires HasSecret(db, a.user)
    ensures var (d, reply) := Step(db, a);
            if Settles(a, reply) then d[a.user].loginOk == (reply == UseToken) else d == db
  {
  }

  /** The user's latest attempt that settled the flag, or -1. */
  function Latest(db: Users, attempts: seq<Attempt>, user: string): (k: int)
    ensures -1 <= k < |attempts| && (k >= 0 ==> attempts[k].user == user)
    decreases |attempts|
  {
    if attempts == [] then -1
    else
      var last := |attempts| - 1;
      if attempts[last].user == user && Settles(attempts[last], ReplyTo(db, attempts, last)) then last
      else Latest(db, attempts[..last], user)
  }

  lemma ReplyToPrefix(db: Users, attempts: seq<Attempt>, n: nat, k: nat)
    requires k < n <= |attempts|
    ensures ReplyTo(db, attempts[..n], k) == ReplyTo(db, attempts, k)
  {
    assert attempts[..n][..k] == attempts[..k];
  }

  /**
    Over every run, with the attempts of all users interleaved and faults anywhere: the flag of an account with a
    secret is up exactly when the latest of its attempts that settled the flag was answered with `UseToken`.
   */
  lemma {:induction false} FlagIff(db: Users, attempts: seq<Attempt>, user: string)
    requires HasSecret(db, user) && !db[user].loginOk
    ensures user in Run(db, attempts)
    ensures var k := Latest(db, attempts, user);
            Run(db, attempts)[user].loginOk == (k >= 0 && ReplyTo(db, attempts, k) == UseToken)
    decreases |attempts|
  {
    hide Step, Settles;
    if attempts == [] {
    } else {
      var last, init := |attempts| - 1, attempts[..|attempts| - 1];
      RunFrame(db, init);
      FlagIff(db, init, user);
      StepFrame(Run(db, init), attempts[last]);
      if attempts[last].user == user {
        StepSettles(Run(db, init), attempts[last]);
      }
      if Latest(db, init, user) >= 0 {
        ReplyToPrefix(db, attempts, last, Latest(db, init, user));
      }
    }
  }

  // ---------------------------------------------------------------- who gets in

  /** Exactly when an attempt is answered `Success`. */
  lemma SuccessIff(db: Users, a: Attempt)
    ensures Step(db, a).1 == Success <==>
              && a.user in db && !a.fault.AtFetch? && db[a.user].suspendedUntil <= a.now
              && if db[a.user].secret == "" then db[a.user].hash == a.hash && db[a.user].grade < 2
                 else db[a.user].loginOk && db[a.user].hash != a.hash && a.password == a.token && a.fault.NoFault?
  {
  }

  /** Exactly when it is answered `Suspended`: it would be a `Success`, but the suspension is not over. */
  lemma SuspendedIff(db: Users, a: Attempt)
    ensures Step(db, a).1 == Suspended <==>
              && a.user in db && !a.fault.AtFetch? && db[a.user].suspendedUntil > a.now
              && if db[a.user].secret == "" then db[a.user].hash == a.hash && db[a.user].grade < 2
                 else db[a.user].loginOk && db[a.user].hash != a.hash && a.password == a.token && a.fault.NoFault?
  {
  }

  /** Exactly when it is answered with a request for the token. */
  lemma UseTokenIff(db: Users, a: Attempt)
    ensures Step(db, a).1 == UseToken <==>
              a.user in db && db[a.user].secret != "" && db[a.user].hash == a.hash && !a.fault.AtVerify?
  {
  }

  /**
    Exactly when it is answered with an error of the database: the fault met is one on its way. Without a secret that
    is reading the account; with one it is checking the password or, for a wrong one in the second phase, resetting
    the flag and, for the right token, reading the account. Every other attempt is answered `Incorrect`.
   */
  lemma DataErrorIff(db: Users, a: Attempt)
    ensures Step(db, a).1 == DataError <==>
              if a.user !in db || db[a.user].secret == "" then a.fault.AtFetch?
              else || a.fault.AtVerify?
                   || (&& db[a.user].loginOk && db[a.user].hash != a.hash
                       && (a.fault.AtReset? || (a.fault.AtFetch? && a.password == a.token)))
  {
  }

  lemma UseTokenMeansPassword(db: Users, a: Attempt)
    requires Step(db, a).1 == UseToken
    ensures a.user in db && db[a.user].hash == a.hash && db[a.user].secret != ""
  {
  }

  /**
    Two phases, over every run: whoever gets into an account with a secret typed the current token, and the latest
    attempt on that account before it that settled the flag was one with the right password.
   */
  lemma SuccessFollowsPassword(db: Users, attempts: seq<Attempt>, k: nat)
    requires k < |attempts| && HasSecret(db, attempts[k].user) && !db[attempts[k].user].loginOk
    requires ReplyTo(db, attempts, k) == Success
    ensures attempts[k].password == attempts[k].token
    ensures var j := Latest(db, attempts[..k], attempts[k].user);
            && 0 <= j < k && attempts[j].user == attempts[k].user
            && ReplyTo(db, attempts, j) == UseToken && attempts[j].hash == db[attempts[k].user].hash
  {
    hide Step, Latest, Run;
    var user := attempts[k].user;
    RunFrame(db, attempts[..k]);
    FlagIff(db, attempts[..k], user);
    SuccessIff(Run(db, attempts[..k]), attempts[k]);
    var j := Latest(db, attempts[..k], user);
    ReplyToPrefix(db, attempts, k, j);
    RunFrame(db, attempts[..j]);
    UseTokenMeansPassword(Run(db, attempts[..j]), attempts[j]);
  }

  /** The attempt is the second phase and reaches the comparison with the token. */
  predicate TriesToken(db: Users, attempts: seq<Attempt>, k: nat)
    requires k < |attempts|
  {
    var d, a := Run(db, attempts[..k]), attempts[k];
    HasSecret(d, a.user) && d[a.user].loginOk && d[a.user].hash != a.hash && !a.fault.AtVerify? && !a.fault.AtReset?
  }

  lemma TryingSettles(db: Users, a: Attempt)
    requires HasSecret(db, a.user) && db[a.user].loginOk && db[a.user].hash != a.hash
    requires !a.fault.AtVerify? && !a.fault.AtReset?
    ensures Settles(a, Step(db, a).1) && Step(db, a).1 != UseToken
  {
  }

  lemma {:induction false} LatestAtLeast(db: Users, attempts: seq<Attempt>, user: string, k: nat)
    requires k < |attempts| && attempts[k].user == user && Settles(attempts[k], ReplyTo(db, attempts, k))
    ensures Latest(db, attempts, user) >= k
    decreases |attempts|
  {
    hide Step, Settles, Run;
    var last := |attempts| - 1;
    if k >= last {
    } else {
      ReplyToPrefix(db, attempts, last, k);
      LatestAtLeast(db, attempts[..last], user, k);
    }
  }

  /** One password step buys at most one try of the token: between two tries the password was asked for and given. */
  lemma OneTokenTry(db: Users, attempts: seq<Attempt>, i: nat, k: nat)
    requires i < k < |attempts| && attempts[i].user == attempts[k].user
    requires HasSecret(db, attempts[k].user) && !db[attempts[k].user].loginOk
    requires TriesToken(db, attempts, i) && TriesToken(db, attempts, k)
    ensures exists j :: i < j < k && attempts[j].user == attempts[k].user && ReplyTo(db, attempts, j) == UseToken
  {
    hide Step, Latest, Run, Settles;
    var user := attempts[k].user;
    FlagIff(db, attempts[..k], user);
    var j := Latest(db, attempts[..k], user);
    ReplyToPrefix(db, attempts, k, j);
    TryingSettles(Run(db, attempts[..i]), attempts[i]);
    ReplyToPrefix(db, attempts, k, i);
    LatestAtLeast(db, attempts[..k], user, i);
    assert j != i;
  }

  // ---------------------------------------------------------------- the database object

  class Database {
    var users: Users

    method SetLoginOk(user: string, flag: bool)
      modifies this
      ensures users == WithFlag(old(users), user, flag)
    {
      if user in users {
        users := users[user := users[user].(loginOk := flag)];
      }
    }

    method VerifyUserCredentials(a: Attempt) returns (reply: Reply)
      modifies this
      ensures (users, reply) == Verify(old(users), a)
    {
      if a.fault.AtVerify? {
        return DataError;
      }
      if a.user in users && users[a.user].hash == a.hash {
        SetLoginOk(a.user, true);
        return UseToken;
      }
      return Incorrect;
    }

    method GetAccount(a: Attempt, is2fa: bool) returns (reply: Reply)
      ensures reply == Fetch(users, a, is2fa)
    {
      if a.fault.AtFetch? {
        return DataError;
      }
      if a.user !in users || (!is2fa && users[a.user].hash != a.hash) {
        return Incorrect;
      }
      var row := users[a.user];
      if row.grade >= GRADE_ES && row.secret == "" {
        return Incorrect;
      }
      return if row.suspendedUntil <= a.now then Success else Suspended;
    }

    method TwoFactorLogin(a: Attempt, isLoginOk: bool) returns (reply: Reply)
      modifies this
      ensures (users, reply) == TwoFactor(old(users), a, isLoginOk)
    {
      hide WithFlag;
      reply := VerifyUserCredentials(a);
      if !isLoginOk || reply == DataError || reply == UseToken {
        return;
      }
      if a.fault.AtReset? {
        return DataError;
      }
      SetLoginOk(a.user, false);
      if a.password != a.token {
        return Incorrect;
      }
      reply := GetAccount(a, true);
    }

    method GetPlayerInfo(a: Attempt) returns (reply: Reply)
      modifies this
      ensures (users, reply) == Step(old(users), a)
    {
      hide WithFlag;
      if a.user in users && users[a.user].secret != "" {
        reply := TwoFactorLogin(a, users[a.user].loginOk);
      } else {
        reply := GetAccount(a, false);
      }
    }
  }
}
