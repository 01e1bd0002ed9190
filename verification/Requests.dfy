/**
 Any number of requests against one store. Each request is a few atomic steps:
 the middleware resolves a user, the handler reads, the transaction writes.
 Between two steps of a request any steps of other requests may happen.
 */
module Requests {
  import opened Wrappers
  import opened Entities
  import opened Schema
  import opened Window

  /** What a handler has read and is about to write. */
  datatype Pending =
    | Idle
    | Rate(review: Review)
    | Update(rating: int, seen: Review, stars: int)
    | Delete(rating: int, seen: Review)
    | Register(account: Account)

  /** A request in flight, with the user its middleware resolved. */
  datatype Request = Request(user: Option<User>, pending: Pending)

  datatype Event =
    | Enter(c: int, token: string)
    | BeginRate(c: int, food: int, stars: int)
    | BeginUpdate(c: int, rating: int, stars: int)
    | BeginDelete(c: int, rating: int)
    | DeleteAll(c: int)
    | BeginRegister(c: int, username: string, password: string, hash: Option<string>, token: string)
    | Commit(c: int)
    | RecordFood(id: int, row: FoodRow, ingredients: seq<int>)

  /** The logs list every user and food ever inserted, in order. */
  datatype World = World(
    db: Db,
    requests: map<int, Request>,
    userLog: seq<Entry<Account>>,
    foodLog: seq<Entry<FoodRow>>)

  /** Request `c` has a user and has not read anything yet. */
  ghost predicate Entered(w: World, c: int) {
    c in w.requests && w.requests[c].user.Some? && w.requests[c].pending == Idle
  }

  ghost function Finish(w: World, c: int): World {
    w.(requests := w.requests - {c})
  }

  ghost function Await(w: World, c: int, pending: Pending): World
    requires c in w.requests
  {
    w.(requests := w.requests[c := w.requests[c].(pending := pending)])
  }

  /** The transaction of request `c`. A failed one changes no table. */
  ghost function Write(w: World, c: int, env: Env): World
    requires c in w.requests
  {
    match w.requests[c].pending
    case Idle => w
    case Rate(review) =>
      (match InsertRating(w.db, env.limits, review)
       case None => Finish(w, c)
       case Some(db) => Finish(w, c).(db := db))
    case Update(rating, _, stars) => Finish(w, c).(db := SetStars(w.db, rating, stars))
    case Delete(rating, _) => Finish(w, c).(db := Purge(w.db, {}, {}, {rating}))
    case Register(account) =>
      match InsertUser(w.db, env.limits, account)
      case None => Finish(w, c)
      case Some(db) => Finish(w, c).(db := db, userLog := w.userLog + [Entry(w.db.nextUser, account)])
  }

  ghost function Step(w: World, e: Event, env: Env): World {
    match e
    case Enter(c, token) =>
      if c in w.requests || token == "" || Authenticate(w.db, token) == None then w
      else w.(requests := w.requests[c := Request(Authenticate(w.db, token), Idle)])
    case BeginRate(c, food, stars) =>
      if !Entered(w, c) then w
      else if ValidStars(stars) && food in w.db.foods
      then Await(w, c, Rate(Review(stars, w.requests[c].user.value.id, food)))
      else Finish(w, c)
    case BeginUpdate(c, rating, stars) =>
      if !Entered(w, c) then w
      else
        var user := w.requests[c].user.value;
        if ValidStars(stars) && !user.IsGlobal() && rating in RatingsBy(w.db, user.id)
        then Await(w, c, Update(rating, w.db.ratings[rating], stars))
        else Finish(w, c)
    case BeginDelete(c, rating) =>
      if !Entered(w, c) then w
      else
        var user := w.requests[c].user.value;
        if !user.IsGlobal() && rating in RatingsBy(w.db, user.id)
        then Await(w, c, Delete(rating, w.db.ratings[rating]))
        else Finish(w, c)
    case DeleteAll(c) =>
      if !Entered(w, c) then w
      else
        var user := w.requests[c].user.value;
        if user.IsGlobal() then Finish(w, c)
        else Finish(w, c).(db := Purge(w.db, {}, {}, RatingsBy(w.db, user.id)))
    case BeginRegister(c, username, password, hash, token) =>
      if c in w.requests || ValidateUser(username, password) != None || hash == None || NameTaken(w.db, username) then w
      else w.(requests := w.requests[c := Request(None, Register(Account(username, token, hash.value, "")))])
    case Commit(c) =>
      if c in w.requests then Write(w, c, env) else w
    case RecordFood(id, row, ingredients) =>
      match InsertFood(w.db, env, id, row, ingredients)
      case None => w
      case Some(db) => w.(db := db, foodLog := w.foodLog + [Entry(FoodKey(w.db.nextFood, id), row)])
  }

  ghost function Run(w: World, es: seq<Event>, env: Env): World {
    if es == [] then w
    else Step(Run(w, es[..|es| - 1], env), es[|es| - 1], env)
  }

  /** `e` is a step of request `c`. */
  predicate Of(e: Event, c: int) {
    !e.RecordFood? && e.c == c
  }

  // ---------------------------------------------------------------------
  // The invariant of every reachable world

  ghost predicate CaptureOk(db: Db, user: User) {
    && user.id < db.nextUser
    && (user.id in db.users ==> db.users[user.id] == user.account)
  }

  /** A rating read earlier: if it is still there, owner and food are as read. */
  ghost predicate SeenOk(db: Db, rating: int, seen: Review) {
    && rating < db.nextRating
    && (rating in db.ratings ==>
          && db.ratings[rating].userId == seen.userId
          && db.ratings[rating].foodId == seen.foodId)
  }

  ghost predicate RequestOk(db: Db, request: Request) {
    && (request.user.Some? ==> CaptureOk(db, request.user.value))
    && match request.pending
       case Idle => request.user.Some?
       case Rate(review) =>
         request.user.Some? && ValidStars(review.stars) && review.userId == request.user.value.id
       case Update(rating, seen, stars) =>
         && request.user.Some? && !request.user.value.IsGlobal()
         && ValidStars(stars) && seen.userId == request.user.value.id && SeenOk(db, rating, seen)
       case Delete(rating, seen) =>
         && request.user.Some? && !request.user.value.IsGlobal()
         && seen.userId == request.user.value.id && SeenOk(db, rating, seen)
       case Register(account) =>
         request.user == None && account.username != GLOBAL_USERNAME && account.passwordPlaintext == ""
  }

  ghost predicate Inv(w: World, env: Env) {
    && Consistent(w.db, env.ref)
    && Vetted(w.db)
    && forall c :: c in w.requests ==> RequestOk(w.db, w.requests[c])
  }

  lemma RequestFollows(db: Db, db': Db, request: Request)
    requires Evolves(db, db') && RequestOk(db, request)
    ensures RequestOk(db', request)
  {
  }

  lemma RequestsFollow(w: World, db': Db, env: Env)
    requires Inv(w, env) && Evolves(w.db, db') && Consistent(db', env.ref) && Vetted(db')
    ensures Inv(w.(db := db'), env)
  {
    forall c | c in w.requests
      ensures RequestOk(db', w.requests[c])
    {
      RequestFollows(w.db, db', w.requests[c]);
    }
  }

  /** A write that keeps the store right keeps every other request right. */
  lemma FinishKeeps(w: World, c: int, w': World, env: Env)
    requires Inv(w, env) && Evolves(w.db, w'.db) && Consistent(w'.db, env.ref) && Vetted(w'.db)
    requires w'.requests == w.requests - {c}
    ensures Inv(w', env)
  {
    forall i | i in w'.requests
      ensures RequestOk(w'.db, w'.requests[i])
    {
      RequestFollows(w.db, w'.db, w.requests[i]);
    }
  }

  lemma WriteRatingKeeps(w: World, c: int, env: Env)
    requires Inv(w, env) && c in w.requests && w.requests[c].pending.Rate?
    ensures Inv(Write(w, c, env), env) && Evolves(w.db, Write(w, c, env).db)
  {
    assert RequestOk(w.db, w.requests[c]);
    InsertRatingKeeps(w.db, env.ref, env.limits, w.requests[c].pending.review);
    FinishKeeps(w, c, Write(w, c, env), env);
  }

  lemma WriteStarsKeeps(w: World, c: int, env: Env)
    requires Inv(w, env) && c in w.requests && w.requests[c].pending.Update?
    ensures Inv(Write(w, c, env), env) && Evolves(w.db, Write(w, c, env).db)
  {
    assert RequestOk(w.db, w.requests[c]);
    SetStarsKeeps(w.db, env.ref, w.requests[c].pending.rating, w.requests[c].pending.stars);
    FinishKeeps(w, c, Write(w, c, env), env);
  }

  lemma WriteDeleteKeeps(w: World, c: int, env: Env)
    requires Inv(w, env) && c in w.requests && w.requests[c].pending.Delete?
    ensures Inv(Write(w, c, env), env) && Evolves(w.db, Write(w, c, env).db)
  {
    PurgeKeeps(w.db, env.ref, {}, {}, {w.requests[c].pending.rating});
    FinishKeeps(w, c, Write(w, c, env), env);
  }

  lemma WriteUserKeeps(w: World, c: int, env: Env)
    requires Inv(w, env) && c in w.requests && w.requests[c].pending.Register?
    ensures Inv(Write(w, c, env), env) && Evolves(w.db, Write(w, c, env).db)
  {
    assert RequestOk(w.db, w.requests[c]);
    InsertUserKeeps(w.db, env.ref, env.limits, w.requests[c].pending.account);
    FinishKeeps(w, c, Write(w, c, env), env);
  }

  lemma WriteKeeps(w: World, c: int, env: Env)
    requires Inv(w, env) && c in w.requests
    ensures Inv(Write(w, c, env), env) && Evolves(w.db, Write(w, c, env).db)
  {
    match w.requests[c].pending
    case Idle =>
    case Rate(_) => WriteRatingKeeps(w, c, env);
    case Update(_, _, _) => WriteStarsKeeps(w, c, env);
    case Delete(_, _) => WriteDeleteKeeps(w, c, env);
    case Register(_) => WriteUserKeeps(w, c, env);
  }

  lemma DeleteAllKeeps(w: World, c: int, env: Env)
    requires Inv(w, env) && Entered(w, c)
    ensures Inv(Step(w, DeleteAll(c), env), env) && Evolves(w.db, Step(w, DeleteAll(c), env).db)
  {
    var gone := RatingsBy(w.db, w.requests[c].user.value.id);
    PurgeKeeps(w.db, env.ref, {}, {}, gone);
    RequestsFollow(w, Purge(w.db, {}, {}, gone), env);
  }

  lemma RecordFoodKeeps(w: World, id: int, row: FoodRow, ingredients: seq<int>, env: Env)
    requires Inv(w, env)
    ensures var w' := Step(w, RecordFood(id, row, ingredients), env);
            Inv(w', env) && Evolves(w.db, w'.db)
  {
    InsertFoodKeeps(w.db, env, id, row, ingredients);
    RequestsFollow(w, Step(w, RecordFood(id, row, ingredients), env).db, env);
  }

  /** What a handler remembers is right at the moment it reads. */
  lemma ReadKeeps(w: World, e: Event, env: Env)
    requires Inv(w, env)
    requires !e.DeleteAll? && !e.Commit? && !e.RecordFood?
    ensures Inv(Step(w, e, env), env) && w.db == Step(w, e, env).db
  {
    var w' := Step(w, e, env);
    forall c | c in w'.requests
      ensures RequestOk(w.db, w'.requests[c])
    {
      if c in w.requests {
        assert RequestOk(w.db, w.requests[c]);
      }
    }
  }

  /** One step of any request keeps the invariant and reuses no identifier. */
  lemma StepKeeps(w: World, e: Event, env: Env)
    requires Inv(w, env)
    ensures Inv(Step(w, e, env), env) && Evolves(w.db, Step(w, e, env).db)
  {
    match e
    case DeleteAll(c) =>
      if Entered(w, c) {
        DeleteAllKeeps(w, c, env);
      }
    case Commit(c) =>
      if c in w.requests {
        WriteKeeps(w, c, env);
      }
    case RecordFood(id, row, ingredients) => RecordFoodKeeps(w, id, row, ingredients, env);
    case _ => ReadKeeps(w, e, env);
  }

  /**
   Every reachable state, under any interleaving: references hold, keys and
   names are unique, stars are legal, only user 1 is named "default".
   */
  lemma {:induction false} RunKeeps(w: World, es: seq<Event>, env: Env)
    requires Inv(w, env)
    ensures Inv(Run(w, es, env), env) && Evolves(w.db, Run(w, es, env).db)
  {
    if es != [] {
      var before := Run(w, es[..|es| - 1], env);
      RunKeeps(w, es[..|es| - 1], env);
      StepKeeps(before, es[|es| - 1], env);
      EvolvesTransitive(w.db, before.db, Run(w, es, env).db);
    }
  }

  /** No other request can change what a request has read. */
  lemma {:induction false} RequestStays(w: World, es: seq<Event>, env: Env, c: int)
    requires c in w.requests
    requires forall e :: e in es ==> !Of(e, c)
    ensures c in Run(w, es, env).requests && Run(w, es, env).requests[c] == w.requests[c]
  {
    if es != [] {
      RequestStays(w, es[..|es| - 1], env, c);
      assert es[|es| - 1] in es;
    }
  }

  /** No step of another request starts request `c`. */
  lemma {:induction false} AbsentStays(w: World, es: seq<Event>, env: Env, c: int)
    requires c !in w.requests && forall e :: e in es ==> !Of(e, c)
    ensures c !in Run(w, es, env).requests
  {
    if es != [] {
      AbsentStays(w, es[..|es| - 1], env, c);
      assert es[|es| - 1] in es;
    }
  }

  lemma RunAppend(w: World, es: seq<Event>, e: Event, env: Env)
    ensures Run(w, es + [e], env) == Step(Run(w, es, env), e, env)
  {
    assert (es + [e])[..|es|] == es;
  }

  lemma RunSnoc(w: World, es: seq<Event>, env: Env, k: nat)
    requires k < |es|
    ensures Run(w, es[..k + 1], env) == Step(Run(w, es[..k], env), es[k], env)
  {
    assert es[..k + 1][..k] == es[..k];
  }
}
