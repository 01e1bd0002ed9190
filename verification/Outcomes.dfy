/**
 What a request does, from the moment it is received to its commit, with any
 steps of other requests in between: whom it runs for, when it is accepted, and
 what is stored afterwards.
 */
module Outcomes {
  import opened Wrappers
  import opened Entities
  import opened Eviction
  import opened Schema
  import opened Window
  import opened Requests
  import opened BoundedTables
  import opened RatingSafety
  import opened Accounts

  // ---------------------------------------------------------------------
  // Whom a request runs for

  /** A request enters exactly when its token stands for a stored user, and runs for that user. */
  lemma EnterExactly(w: World, c: int, token: string, env: Env)
    requires Inv(w, env) && c !in w.requests
    ensures var w1 := Step(w, Enter(c, token), env);
            && w1.db == w.db && w1.requests - {c} == w.requests
            && (c in w1.requests <==>
                token != "" && (1 in w.db.users || exists u :: u in w.db.users && w.db.users[u].token == token))
            && (c in w1.requests ==>
                  && w1.requests[c].pending == Idle && w1.requests[c].user.Some?
                  && NamedBy(w.db, w1.requests[c].user.value, token))
  {
    var found := Authenticate(w.db, token);
    if found.Some? {
      AuthenticateExactly(w.db, token, found.value);
    }
  }

  /**
   Request `c` came in at step `j` with `token`, which then stood for `user`,
   and has run for that user ever since.
   */
  ghost predicate EnteredAt(w: World, es: seq<Event>, env: Env, c: int, user: User, j: nat, token: string) {
    && j < |es|
    && es[j] == Enter(c, token) && token != ""
    && NamedBy(Run(w, es[..j], env).db, user, token)
    && c !in Run(w, es[..j], env).requests
    && forall i :: j < i <= |es| ==>
         c in Run(w, es[..i], env).requests && Run(w, es[..i], env).requests[c].user == Some(user)
  }

  /** A step either keeps the user of a request or ends or starts the request. */
  lemma UserOfRequest(w: World, e: Event, env: Env, c: int)
    requires c in Step(w, e, env).requests && Step(w, e, env).requests[c].user.Some?
    ensures c in w.requests ==> Step(w, e, env).requests[c].user == w.requests[c].user
    ensures c !in w.requests ==> e.Enter? && e.c == c
  {
  }

  lemma LongerRun(w: World, es: seq<Event>, env: Env, c: int, user: User, j: nat, token: string)
    requires es != [] && EnteredAt(w, es[..|es| - 1], env, c, user, j, token)
    requires c in Run(w, es, env).requests && Run(w, es, env).requests[c].user == Some(user)
    ensures EnteredAt(w, es, env, c, user, j, token)
  {
    var init := es[..|es| - 1];
    assert init[..j] == es[..j];
    forall i | j < i <= |es|
      ensures c in Run(w, es[..i], env).requests && Run(w, es[..i], env).requests[c].user == Some(user)
    {
      if i == |es| {
        assert es[..i] == es;
      } else {
        assert init[..i] == es[..i];
      }
    }
  }

  lemma JustEntered(w: World, es: seq<Event>, env: Env, c: int)
    requires Inv(w, env) && es != []
    requires c !in Run(w, es[..|es| - 1], env).requests
    requires c in Run(w, es, env).requests && Run(w, es, env).requests[c].user.Some?
    ensures es[|es| - 1].Enter?
    ensures EnteredAt(w, es, env, c, Run(w, es, env).requests[c].user.value, |es| - 1, es[|es| - 1].token)
  {
    var j := |es| - 1;
    var before, e := Run(w, es[..j], env), es[j];
    UserOfRequest(before, e, env, c);
    RunKeeps(w, es[..j], env);
    EnterExactly(before, c, e.token, env);
    assert es[..|es|] == es;
  }

  /**
   In every run: a request that runs for a user came in with a token that stood
   for this user at that moment, and has not run for anybody else since.
   */
  lemma {:induction false} RequestsRunForTheirToken(w: World, es: seq<Event>, env: Env, c: int)
    requires Inv(w, env) && c !in w.requests
    requires c in Run(w, es, env).requests && Run(w, es, env).requests[c].user.Some?
    ensures exists j, token :: EnteredAt(w, es, env, c, Run(w, es, env).requests[c].user.value, j, token)
  {
    var init := es[..|es| - 1];
    var before, user := Run(w, init, env), Run(w, es, env).requests[c].user.value;
    if c in before.requests {
      UserOfRequest(before, es[|es| - 1], env, c);
      RequestsRunForTheirToken(w, init, env, c);
      var j, token :| EnteredAt(w, init, env, c, user, j, token);
      LongerRun(w, es, env, c, user, j, token);
    } else {
      JustEntered(w, es, env, c);
    }
  }

  /** Request `c` runs for the user with id `owner`, by the token it came in with. */
  ghost predicate TracedTo(w: World, es: seq<Event>, env: Env, c: int, owner: int, named: bool) {
    exists user, j, token ::
      EnteredAt(w, es, env, c, user, j, token) && user.id == owner
      && (named ==> user.account.username != "default")
  }

  lemma Trace(w: World, es: seq<Event>, env: Env, c: int)
    requires Inv(w, env) && w.requests == map[]
    requires c in Run(w, es, env).requests && Run(w, es, env).requests[c].user.Some?
    ensures var user := Run(w, es, env).requests[c].user.value;
            TracedTo(w, es, env, c, user.id, user.account.username != "default")
  {
    RequestsRunForTheirToken(w, es, env, c);
  }

  /**
   From a world with no requests in flight, in every run, at every step: a
   rating appears only by a request whose token stood for its user, its stars
   change, and it disappears other than by eviction, only by a request whose
   token stood for its owner, and never when that is the default user.
   */
  lemma OnlyTokenHoldersTouchRatings(w: World, es: seq<Event>, env: Env, k: nat, r: int)
    requires Inv(w, env) && w.requests == map[] && k < |es|
    ensures var w1, e := Run(w, es[..k], env), es[k];
            var before, after := w1.db.ratings, Run(w, es[..k + 1], env).db.ratings;
            && (r in after && r !in before ==>
                  e.Commit? && 1 <= after[r].stars <= 5 && TracedTo(w, es[..k], env, e.c, after[r].userId, false))
            && (r in before && r in after && after[r] != before[r] ==>
                  && e.Commit? && TracedTo(w, es[..k], env, e.c, before[r].userId, true)
                  && 1 <= after[r].stars <= 5 && after[r] == before[r].(stars := after[r].stars))
            && (r in before && r !in after ==>
                  || ((e.Commit? || e.DeleteAll?) && TracedTo(w, es[..k], env, e.c, before[r].userId, true))
                  || Expired(w1, e, env, r, before[r]))
  {
    var w1, e := Run(w, es[..k], env), es[k];
    OnlyOwnersTouchRatings(w, es, env, k, r);
    RunKeeps(w, es[..k], env);
    if (e.Commit? || e.DeleteAll?) && e.c in w1.requests {
      assert RequestOk(w1.db, w1.requests[e.c]);
      if w1.requests[e.c].user.Some? {
        Trace(w, es[..k], env, e.c);
      }
    }
  }

  // ---------------------------------------------------------------------
  // Rating a food

  /**
   A request to rate, from receipt to commit: it is stored exactly when the
   stars are legal, the food is stored at both moments and the user is still
   stored at the commit, and else changes no table. How often the user rated
   the food before does not matter.
   */
  lemma RatingExactly(w: World, c: int, food: int, stars: int, between: seq<Event>, env: Env)
    requires Inv(w, env) && Entered(w, c)
    requires forall e :: e in between ==> !Of(e, c)
    ensures var user := w.requests[c].user.value.id;
            var w2 := Run(Step(w, BeginRate(c, food, stars), env), between, env);
            var w3 := Step(w2, Commit(c), env);
            && c !in w3.requests
            && if 1 <= stars <= 5 && food in w.db.foods && food in w2.db.foods && user in w2.db.users
               then OneRatingMore(w2.db, w3.db, env.limits, Review(stars, user, food))
               else w3.db == w2.db
  {
    var e := BeginRate(c, food, stars);
    var w1 := Step(w, e, env);
    StepKeeps(w, e, env);
    RunKeeps(w1, between, env);
    if 1 <= stars <= 5 && food in w.db.foods {
      RequestStays(w1, between, env, c);
      var w2, review := Run(w1, between, env), Review(stars, w.requests[c].user.value.id, food);
      assert w2.requests[c].pending == Rate(review);
      if review.foodId in w2.db.foods && review.userId in w2.db.users {
        InsertedRating(w2.db, env.limits, review);
      }
    } else {
      AbsentStays(w1, between, env, c);
    }
  }

  // ---------------------------------------------------------------------
  // Deleting all ratings

  /** DELETE of all ratings takes exactly those of the request's user, for good, unless that is the default user. */
  lemma DeleteAllExactly(w: World, c: int, env: Env, after: seq<Event>, r: int)
    requires Inv(w, env) && Entered(w, c) && r in w.db.ratings
    ensures var user, w1 := w.requests[c].user.value, Step(w, DeleteAll(c), env);
            && c !in w1.requests
            && w1.db.users == w.db.users && w1.db.foods == w.db.foods && w1.db.links == w.db.links
            && (r in w1.db.ratings <==> user.account.username == "default" || w.db.ratings[r].userId != user.id)
            && (r in w1.db.ratings ==> w1.db.ratings[r] == w.db.ratings[r])
            && (r !in w1.db.ratings ==> r !in Run(w1, after, env).db.ratings)
  {
    var w1 := Step(w, DeleteAll(c), env);
    StepKeeps(w, DeleteAll(c), env);
    RunKeeps(w1, after, env);
    PurgeRatingsOnly(w.db, RatingsBy(w.db, w.requests[c].user.value.id));
  }

  // ---------------------------------------------------------------------
  // Registering

  /** What the handler asks of a registration before it opens the transaction. */
  ghost predicate Registrable(db: Db, username: string, password: string, hash: Option<string>) {
    && 0 < |username| <= 32 && username != "default" && password != "" && hash.Some?
    && forall u :: u in db.users ==> db.users[u].username != username
  }

  ghost predicate Unclaimed(db: Db, username: string, token: string) {
    forall u :: u in db.users ==> db.users[u].username != username && db.users[u].token != token
  }

  lemma RequestedAccountIsPending(w: World, c: int, username: string, password: string, hash: Option<string>,
                                  token: string, between: seq<Event>, env: Env)
    requires Inv(w, env) && c !in w.requests
    requires forall e :: e in between ==> !Of(e, c)
    ensures var w2 := Run(Step(w, BeginRegister(c, username, password, hash, token), env), between, env);
            && Inv(w2, env)
            && (c in w2.requests <==> Registrable(w.db, username, password, hash))
            && (c in w2.requests ==>
                  w2.requests[c] == Request(None, Register(Account(username, token, hash.value, ""))))
  {
    var e := BeginRegister(c, username, password, hash, token);
    var w1 := Step(w, e, env);
    StepKeeps(w, e, env);
    RunKeeps(w1, between, env);
    if c in w1.requests {
      RequestStays(w1, between, env, c);
    } else {
      AbsentStays(w1, between, env, c);
    }
  }

  /**
   A registration, from receipt to commit: the account asked for, with the hash
   of its password and no plaintext, is stored under the next id exactly when
   name and password are legal, the password was hashed and name and token are
   free; else no table changes.
   */
  lemma RegistrationExactly(w: World, c: int, username: string, password: string, hash: Option<string>,
                            token: string, between: seq<Event>, env: Env)
    requires Inv(w, env) && c !in w.requests
    requires forall e :: e in between ==> !Of(e, c)
    ensures var w2 := Run(Step(w, BeginRegister(c, username, password, hash, token), env), between, env);
            var w3, id := Step(w2, Commit(c), env), w2.db.nextUser;
            && c !in w3.requests
            && if Registrable(w.db, username, password, hash) && Unclaimed(w2.db, username, token)
               then id in w3.db.users && w3.db.users[id] == Account(username, token, hash.value, "")
                    && w3.db.nextUser == id + 1 && w3.userLog == w2.userLog + [Entry(id, w3.db.users[id])]
               else w3.db == w2.db && w3.userLog == w2.userLog
  {
    RequestedAccountIsPending(w, c, username, password, hash, token, between, env);
    var w2 := Run(Step(w, BeginRegister(c, username, password, hash, token), env), between, env);
    if c in w2.requests {
      InsertUserKeeps(w2.db, env.ref, env.limits, w2.requests[c].pending.account);
    }
  }

  /**
   From the request to register to any later state: once it is committed, its
   user is stored exactly until `maxUsers` later registrations, and while it is,
   name and password log in to it and the token stands for it.
   */
  lemma RegisteredUserLogsIn(w: World, c: int, username: string, password: string, hash: string, token: string,
                             between: seq<Event>, later: seq<Event>, env: Env, seeded: nat,
                             check: (string, string) -> bool)
    requires Inv(w, env) && UsersAreWindow(w, env.limits, seeded) && c !in w.requests
    requires forall e :: e in between ==> !Of(e, c)
    requires Registrable(w.db, username, password, Some(hash)) && check(password, hash)
    requires var w2 := Run(Step(w, BeginRegister(c, username, password, Some(hash), token), env), between, env);
             Unclaimed(w2.db, username, token)
    ensures var w2 := Run(Step(w, BeginRegister(c, username, password, Some(hash), token), env), between, env);
            var id, w3 := w2.db.nextUser, Step(w2, Commit(c), env);
            var w4, user := Run(w3, later, env), User(id, Account(username, token, hash, ""));
            && w3.userLog <= w4.userLog
            && (id in w4.db.users <==>
                env.limits.maxUsers <= 0 || id <= env.limits.fixedUsers || |Since(w3, w4)| < env.limits.maxUsers)
            && (id in w4.db.users ==>
                  Login(w4.db, check, username, password) == Some(user) && Authenticate(w4.db, token) == Some(user))
            && (id !in w4.db.users && (forall e :: e in Since(w3, w4) ==> e.row.username != username) ==>
                  forall p :: Login(w4.db, check, username, p) == None)
            && (id !in w4.db.users && (forall e :: e in Since(w3, w4) ==> e.row.token != token) ==>
                  Authenticate(w4.db, token) == if 1 in w4.db.users then Some(User(1, w4.db.users[1])) else None)
  {
    var e := BeginRegister(c, username, password, Some(hash), token);
    var w1 := Step(w, e, env);
    var w2 := Run(w1, between, env);
    RequestedAccountIsPending(w, c, username, password, Some(hash), token, between, env);
    StepKeeps(w, e, env);
    UserStep(w, e, env, seeded);
    UserWindow(w1, between, env, seeded);
    AccountLifeCycle(w2, c, later, env, seeded, Account(username, token, hash, ""), check, password);
  }

  // ---------------------------------------------------------------------
  // Recording a food

  /**
   A food is recorded exactly when its id is 0 or not stored, its rice and tool
   are known, and its ingredients are known and pairwise different; else nothing
   changes.
   */
  lemma FoodRecordedExactly(w: World, id: int, row: FoodRow, ingredients: seq<int>, env: Env)
    requires Inv(w, env)
    ensures var w1 := Step(w, RecordFood(id, row, ingredients), env);
            if && (id == 0 || id !in w.db.foods)
               && row.riceId in env.ref.rices && row.tool in env.ref.tools
               && (forall i :: i in ingredients ==> i in env.ref.ingredients && multiset(ingredients)[i] == 1)
            then w1.foodLog == w.foodLog + [Entry(if id == 0 then w.db.nextFood else id, row)]
            else w1 == w
  {
    if id == 0 {
      assert w.db.nextFood !in w.db.foods;
    }
    DistinctByCount(ingredients);
  }

  lemma {:induction false} DistinctByCount(s: seq<int>)
    ensures Distinct(s) <==> forall i :: i in s ==> multiset(s)[i] == 1
  {
    if s != [] {
      var init, last := s[..|s| - 1], s[|s| - 1];
      DistinctByCount(init);
      assert s == init + [last];
      assert multiset(s) == multiset(init) + multiset{last};
      assert forall i :: i in init <==> i in multiset(init);
      assert Distinct(s) <==> Distinct(init) && last !in init;
      if Distinct(init) && last in init {
        assert last in s && multiset(s)[last] > 1;
      } else if !Distinct(init) {
        var i :| i in init && multiset(init)[i] != 1;
        assert i in s && multiset(s)[i] > 1;
      }
    }
  }
}
