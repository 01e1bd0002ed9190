/**
 Registration, login and token lookup over whole runs.
 */
module Accounts {
  import opened Wrappers
  import opened Entities
  import opened Eviction
  import opened Schema
  import opened Window
  import opened Requests
  import opened BoundedTables

  /** The transaction of registration `c` succeeds. */
  ghost predicate Registers(w: World, c: int, env: Env, account: Account) {
    && c in w.requests && w.requests[c].pending == Register(account)
    && InsertUser(w.db, env.limits, account).Some?
  }

  /** The users registered after `w1`, up to `w2`. */
  ghost function Since(w1: World, w2: World): seq<Entry<Account>>
    requires w1.userLog <= w2.userLog
  {
    w2.userLog[|w1.userLog|..]
  }

  lemma OthersDiffer(w: World, c: int, env: Env, account: Account, u: int)
    requires Inv(w, env) && Registers(w, c, env, account)
    ensures var users := Step(w, Commit(c), env).db.users;
            u in users && u != w.db.nextUser ==>
              users[u].username != account.username && users[u].token != account.token
  {
    assert !NameTaken(w.db, account.username) && !TokenTaken(w.db, account.token);
  }

  lemma NoEarlierHolder(w: World, c: int, later: seq<Event>, env: Env, account: Account, u: int)
    requires Inv(w, env) && Registers(w, c, env, account)
    requires var users := Run(Step(w, Commit(c), env), later, env).db.users;
             && u in users && u != w.db.nextUser
             && (users[u].username == account.username || users[u].token == account.token)
    ensures u >= Step(w, Commit(c), env).db.nextUser
  {
    StepKeeps(w, Commit(c), env);
    RunKeeps(Step(w, Commit(c), env), later, env);
    OthersDiffer(w, c, env, account, u);
  }

  lemma LaterUserIsLogged(w1: World, w2: World, limits: Limits, seeded: nat, u: int)
    requires UsersAreWindow(w1, limits, seeded) && UsersAreWindow(w2, limits, seeded)
    requires w1.userLog <= w2.userLog
    requires u in w2.db.users && u >= w1.db.nextUser
    ensures Entry(u, w2.db.users[u]) in Since(w1, w2)
  {
    var k :| 0 <= k < |w2.userLog| && w2.userLog[k].id == u;
    assert forall j :: 0 <= j < |w1.userLog| ==> w2.userLog[j] == w1.userLog[j];
    assert Since(w1, w2)[k - |w1.userLog|] == Entry(u, w2.db.users[u]);
  }

  /**
   Whoever else holds the name or the token of a registered user, in any later
   state, was registered later.
   */
  lemma OtherHoldersAreLater(w: World, c: int, later: seq<Event>, env: Env, seeded: nat, account: Account, u: int)
    requires Inv(w, env) && UsersAreWindow(w, env.limits, seeded) && Registers(w, c, env, account)
    requires var users := Run(Step(w, Commit(c), env), later, env).db.users;
             && u in users && u != w.db.nextUser
             && (users[u].username == account.username || users[u].token == account.token)
    ensures var w1 := Step(w, Commit(c), env);
            var w2 := Run(w1, later, env);
            && w1.userLog <= w2.userLog
            && Entry(u, w2.db.users[u]) in Since(w1, w2)
  {
    var w1 := Step(w, Commit(c), env);
    NoEarlierHolder(w, c, later, env, account, u);
    StepKeeps(w, Commit(c), env);
    UserStep(w, Commit(c), env, seeded);
    UserWindow(w1, later, env, seeded);
    LaterUserIsLogged(w1, Run(w1, later, env), env.limits, seeded, u);
  }

  /**
   From the moment a registration commits, whatever requests follow: the user
   is stored exactly until `maxUsers` later registrations. While it is, the
   password logs in to it and the token resolves to it. Afterwards the name
   logs in to nobody unless it was registered again later, and the token
   resolves to user 1 unless it was issued again later.
   */
  lemma AccountLifeCycle(w: World, c: int, later: seq<Event>, env: Env, seeded: nat,
                         account: Account, check: (string, string) -> bool, password: string)
    requires Inv(w, env) && UsersAreWindow(w, env.limits, seeded) && Registers(w, c, env, account)
    requires check(password, account.passwordHash)
    ensures var id, w1 := w.db.nextUser, Step(w, Commit(c), env);
            var w2 := Run(w1, later, env);
            && w1.userLog <= w2.userLog
            && (id in w2.db.users <==>
                env.limits.maxUsers <= 0 || id <= env.limits.fixedUsers || |Since(w1, w2)| < env.limits.maxUsers)
            && (id in w2.db.users ==>
                  && Login(w2.db, check, account.username, password) == Some(User(id, account))
                  && Authenticate(w2.db, account.token) == Some(User(id, account)))
            && (id !in w2.db.users && (forall e :: e in Since(w1, w2) ==> e.row.username != account.username) ==>
                  forall p :: Login(w2.db, check, account.username, p) == None)
            && (id !in w2.db.users && (forall e :: e in Since(w1, w2) ==> e.row.token != account.token) ==>
                  Authenticate(w2.db, account.token) ==
                  if 1 in w2.db.users then Some(User(1, w2.db.users[1])) else None)
  {
    var id := w.db.nextUser;
    assert RequestOk(w.db, w.requests[c]);
    var w1 := Step(w, Commit(c), env);
    var w2 := Run(w1, later, env);
    StepKeeps(w, Commit(c), env);
    InsertUserKeeps(w.db, env.ref, env.limits, account);
    RunKeeps(w1, later, env);
    UserStep(w, Commit(c), env, seeded);
    UserWindow(w1, later, env, seeded);
    UserLifetime(w, c, later, env, seeded);
    if id in w2.db.users {
      assert w2.db.users[id] == account;
      NameFinds(w2.db, check, account.username, password, id);
      TokenFinds(w2.db, account.token, id);
    } else {
      AfterEviction(w, c, later, env, seeded, account);
    }
  }

  lemma AfterEviction(w: World, c: int, later: seq<Event>, env: Env, seeded: nat, account: Account)
    requires Inv(w, env) && UsersAreWindow(w, env.limits, seeded) && Registers(w, c, env, account)
    requires w.db.nextUser !in Run(Step(w, Commit(c), env), later, env).db.users
    ensures var w1 := Step(w, Commit(c), env);
            var w2 := Run(w1, later, env);
            && w1.userLog <= w2.userLog
            && (NameTaken(w2.db, account.username) ==>
                  exists e :: e in Since(w1, w2) && e.row.username == account.username)
            && (TokenTaken(w2.db, account.token) ==> exists e :: e in Since(w1, w2) && e.row.token == account.token)
  {
    var w1 := Step(w, Commit(c), env);
    var w2 := Run(w1, later, env);
    StepKeeps(w, Commit(c), env);
    UserStep(w, Commit(c), env, seeded);
    UserWindow(w1, later, env, seeded);
    var users := w2.db.users;
    if NameTaken(w2.db, account.username) {
      var u :| u in users && users[u].username == account.username;
      OtherHoldersAreLater(w, c, later, env, seeded, account, u);
      assert Entry(u, users[u]).row.username == account.username;
    }
    if TokenTaken(w2.db, account.token) {
      var u :| u in users && users[u].token == account.token;
      OtherHoldersAreLater(w, c, later, env, seeded, account, u);
      assert Entry(u, users[u]).row.token == account.token;
    }
  }

  /** An evicted user's id is gone for good: no later state holds it again. */
  lemma EvictedUsersNeverReturn(w: World, es: seq<Event>, env: Env, id: int)
    requires Inv(w, env) && id < w.db.nextUser && id !in w.db.users
    ensures id !in Run(w, es, env).db.users
  {
    RunKeeps(w, es, env);
  }

  // ---------------------------------------------------------------------
  // Username races

  /**
   Two registrations of one name both passed the name check. Once one has
   committed, the other fails as long as the winner is stored, and leaves
   no trace.
   */
  lemma RaceHasOneWinner(w: World, winner: int, loser: int, between: seq<Event>, env: Env, account: Account)
    requires Inv(w, env) && winner != loser && Registers(w, winner, env, account)
    requires loser in w.requests && w.requests[loser].pending.Register?
    requires w.requests[loser].pending.account.username == account.username
    requires forall e :: e in between ==> !Of(e, loser)
    ensures var w2 := Run(Step(w, Commit(winner), env), between, env);
            var w3 := Step(w2, Commit(loser), env);
            w.db.nextUser in w2.db.users ==> w3 == Finish(w2, loser)
  {
    var w1 := Step(w, Commit(winner), env);
    StepKeeps(w, Commit(winner), env);
    InsertUserKeeps(w.db, env.ref, env.limits, account);
    RunKeeps(w1, between, env);
    RequestStays(w1, between, env, loser);
    var w2 := Run(w1, between, env);
    if w.db.nextUser in w2.db.users {
      assert w2.db.users[w.db.nextUser] == account;
      assert NameTaken(w2.db, account.username);
    }
  }

  /** Names and tokens are unique, and "default" is the seeded user 1 only, in every reachable state. */
  lemma NamesStayUnique(w: World, es: seq<Event>, env: Env, u: int, v: int)
    requires Inv(w, env)
    requires u in Run(w, es, env).db.users && v in Run(w, es, env).db.users
    ensures var users := Run(w, es, env).db.users;
            && (users[u].username == users[v].username ==> u == v)
            && (users[u].token == users[v].token ==> u == v)
            && (users[u].username == GLOBAL_USERNAME ==> u == 1)
  {
    RunKeeps(w, es, env);
  }

  // ---------------------------------------------------------------------
  // Token resolution is total

  /** A user in the fixed prefix is never evicted. */
  lemma {:induction false} PrefixUserStays(w: World, es: seq<Event>, env: Env, u: int)
    requires u in w.db.users && (u <= env.limits.fixedUsers || env.limits.maxUsers <= 0)
    ensures u in Run(w, es, env).db.users
  {
    if es != [] {
      var before, e := Run(w, es[..|es| - 1], env), es[|es| - 1];
      PrefixUserStays(w, es[..|es| - 1], env, u);
      if !(e.Commit? && e.c in before.requests && before.requests[e.c].pending.Register?) {
        UsersUntouched(before, e, env);
      }
    }
  }

  /** With user 1 protected, every token resolves to a user in every reachable state. */
  lemma AuthenticateIsTotal(w: World, es: seq<Event>, env: Env, token: string)
    requires 1 in w.db.users
    requires env.limits.fixedUsers >= 1 || env.limits.maxUsers <= 0
    ensures Authenticate(Run(w, es, env).db, token).Some?
  {
    PrefixUserStays(w, es, env, 1);
  }

  /**
   Without that protection it fails exactly when the token is unknown and at
   least `maxUsers` users were registered after user 1.
   */
  lemma AuthenticateFailsExactly(w: World, es: seq<Event>, env: Env, seeded: nat, token: string)
    requires Inv(w, env) && UsersAreWindow(w, env.limits, seeded)
    requires w.userLog != [] && w.userLog[0].id == 1
    ensures var w' := Run(w, es, env);
            Authenticate(w'.db, token) == None <==>
            && !TokenTaken(w'.db, token)
            && env.limits.fixedUsers < 1
            && env.limits.maxUsers > 0
            && |w'.userLog| > env.limits.maxUsers
            && |w'.userLog| > seeded
  {
    UserWindow(w, es, env, seeded);
    var w' := Run(w, es, env);
    assert w'.userLog[0] == w.userLog[0];
    assert 1 in w'.db.users <==> Live(w'.userLog, seeded, env.limits.fixedUsers, env.limits.maxUsers, 0);
  }
}
