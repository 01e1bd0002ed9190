/**
 Who can touch a rating. Requests act on users and ratings they read earlier;
 these theorems hold in every interleaving.
 */
module RatingSafety {
  import opened Wrappers
  import opened Entities
  import opened Eviction
  import opened Schema
  import opened Requests

  /** Request `c` runs for user `owner`, who is not the shared default user. */
  ghost predicate ActsFor(w: World, c: int, owner: int) {
    && c in w.requests
    && w.requests[c].user.Some?
    && w.requests[c].user.value.id == owner
    && !w.requests[c].user.value.IsGlobal()
    && owner in w.db.users && w.db.users[owner] == w.requests[c].user.value.account
  }

  /** Rating `r` appears in this step. */
  ghost predicate Created(w: World, e: Event, r: int, review: Review) {
    && e.Commit? && e.c in w.requests
    && w.requests[e.c].pending == Rate(review)
    && w.requests[e.c].user.Some? && w.requests[e.c].user.value.id == review.userId
    && ValidStars(review.stars)
    && r == w.db.nextRating
  }

  ghost predicate Restarred(w: World, e: Event, r: int, before: Review, after: Review) {
    && e.Commit? && ActsFor(w, e.c, before.userId)
    && w.requests[e.c].pending.Update? && w.requests[e.c].pending.rating == r
    && after == before.(stars := w.requests[e.c].pending.stars)
  }

  /** The owner asked for this rating, or all ratings, to go. */
  ghost predicate Withdrawn(w: World, e: Event, r: int, before: Review) {
    && (e.DeleteAll? || e.Commit?)
    && ActsFor(w, e.c, before.userId)
    && (e.Commit? ==> w.requests[e.c].pending.Delete? && w.requests[e.c].pending.rating == r)
  }

  /** The rating is too old, or its user or its food is. */
  ghost predicate Expired(w: World, e: Event, env: Env, r: int, before: Review) {
    var w' := Step(w, e, env);
    || (w'.db.nextRating == w.db.nextRating + 1 &&
        r in Victims(w.db.ratings.Keys + {w.db.nextRating}, env.limits.fixedRatings, env.limits.maxRatings))
    || (w'.db.nextUser == w.db.nextUser + 1 && before.userId !in w'.db.users &&
        before.userId in Victims(w.db.users.Keys + {w.db.nextUser}, env.limits.fixedUsers, env.limits.maxUsers))
    || (e.RecordFood? && before.foodId !in w'.db.foods &&
        before.foodId in
          Victims(w.db.foods.Keys + {FoodKey(w.db.nextFood, e.id)}, env.limits.fixedFoods, env.limits.maxFoods))
  }

  /** Everything that can happen to rating `r` in one step. */
  ghost predicate Accounted(w: World, e: Event, env: Env, r: int) {
    var before, after := w.db.ratings, Step(w, e, env).db.ratings;
    && (r in after && r !in before ==> Created(w, e, r, after[r]))
    && (r in before && r in after && after[r] != before[r] ==> Restarred(w, e, r, before[r], after[r]))
    && (r in before && r !in after ==> Withdrawn(w, e, r, before[r]) || Expired(w, e, env, r, before[r]))
  }

  lemma CommitAccounted(w: World, c: int, env: Env, r: int)
    requires Inv(w, env) && c in w.requests
    ensures Accounted(w, Commit(c), env, r)
  {
    assert RequestOk(w.db, w.requests[c]);
    match w.requests[c].pending
    case Idle =>
    case Rate(review) =>
      InsertRatingKeeps(w.db, env.ref, env.limits, review);
      assert AddRating(w.db, review).ratings.Keys == w.db.ratings.Keys + {w.db.nextRating};
    case Update(rating, seen, stars) =>
    case Delete(rating, seen) =>
    case Register(account) =>
      InsertUserKeeps(w.db, env.ref, env.limits, account);
      assert AddUser(w.db, account).users.Keys == w.db.users.Keys + {w.db.nextUser};
  }

  lemma RecordFoodAccounted(w: World, id: int, row: FoodRow, ingredients: seq<int>, env: Env, r: int)
    requires Inv(w, env)
    ensures Accounted(w, RecordFood(id, row, ingredients), env, r)
  {
    var key := FoodKey(w.db.nextFood, id);
    assert AddFood(w.db, id, row, ingredients).foods.Keys == w.db.foods.Keys + {key};
  }

  lemma StepAccounted(w: World, e: Event, env: Env, r: int)
    requires Inv(w, env)
    ensures Accounted(w, e, env, r)
  {
    match e
    case Commit(c) =>
      if c in w.requests {
        CommitAccounted(w, c, env, r);
      }
    case RecordFood(id, row, ingredients) => RecordFoodAccounted(w, id, row, ingredients, env, r);
    case DeleteAll(c) =>
      if Entered(w, c) {
        assert RequestOk(w.db, w.requests[c]);
      }
    case _ =>
  }

  /**
   In every run, at every step: a rating is created only for the user the
   request was resolved to, its stars change only at a request of its owner,
   nothing else of it ever changes, and it disappears only when its owner
   deletes it or when it, its user or its food is evicted.
   */
  lemma OnlyOwnersTouchRatings(w: World, es: seq<Event>, env: Env, k: nat, r: int)
    requires Inv(w, env) && k < |es|
    ensures Run(w, es[..k + 1], env) == Step(Run(w, es[..k], env), es[k], env)
    ensures Accounted(Run(w, es[..k], env), es[k], env, r)
  {
    RunSnoc(w, es, env, k);
    RunKeeps(w, es[..k], env);
    StepAccounted(Run(w, es[..k], env), es[k], env, r);
  }

  /**
   An update is reported as done exactly when the stars are legal and the rating
   belongs to the request's user, who is not the default user. Whatever other
   requests do in between, after it the row holds the new stars, or it was
   already gone; nothing else changes.
   */
  lemma UpdateReportIsTrue(w: World, c: int, rating: int, stars: int, between: seq<Event>, env: Env)
    requires Inv(w, env) && Entered(w, c)
    requires forall e :: e in between ==> !Of(e, c)
    ensures var user, w1 := w.requests[c].user.value, Step(w, BeginUpdate(c, rating, stars), env);
            var w2 := Run(w1, between, env);
            var w3 := Step(w2, Commit(c), env);
            && (c in w1.requests <==>
                && 1 <= stars <= 5 && user.account.username != "default"
                && rating in w.db.ratings && w.db.ratings[rating].userId == user.id)
            && c !in w3.requests
            && w3.db ==
               if c in w1.requests && rating in w2.db.ratings
               then w2.db.(ratings := w2.db.ratings[rating := w.db.ratings[rating].(stars := stars)])
               else w2.db
  {
    var e := BeginUpdate(c, rating, stars);
    var w1 := Step(w, e, env);
    StepKeeps(w, e, env);
    RunKeeps(w1, between, env);
    if c in w1.requests {
      RequestStays(w1, between, env, c);
      var w2 := Run(w1, between, env);
      assert w2.requests[c].pending == Update(rating, w.db.ratings[rating], stars);
      assert RequestOk(w2.db, w2.requests[c]);
    } else {
      AbsentStays(w1, between, env, c);
    }
  }

  /**
   A delete passes its checks exactly when the rating belongs to the request's
   user, who is not the default user. After it the rating is gone for good, and
   nothing else is; a refused one changes no table.
   */
  lemma DeleteIsFinal(w: World, c: int, rating: int, between: seq<Event>, after: seq<Event>, env: Env)
    requires Inv(w, env) && Entered(w, c)
    requires forall e :: e in between ==> !Of(e, c)
    ensures var user, w1 := w.requests[c].user.value, Step(w, BeginDelete(c, rating), env);
            var w2 := Run(w1, between, env);
            var w3 := Step(w2, Commit(c), env);
            && (c in w1.requests <==>
                user.account.username != "default" && rating in w.db.ratings && w.db.ratings[rating].userId == user.id)
            && c !in w3.requests
            && w3.db == (if c in w1.requests then w2.db.(ratings := w2.db.ratings - {rating}) else w2.db)
            && (c in w1.requests ==> rating !in Run(w3, after, env).db.ratings)
  {
    var w1 := Step(w, BeginDelete(c, rating), env);
    StepKeeps(w, BeginDelete(c, rating), env);
    RunKeeps(w1, between, env);
    var w2 := Run(w1, between, env);
    if c in w1.requests {
      RequestStays(w1, between, env, c);
      assert RequestOk(w2.db, w2.requests[c]);
      PurgeRatingsOnly(w2.db, {rating});
      StepKeeps(w2, Commit(c), env);
      RunKeeps(Step(w2, Commit(c), env), after, env);
    } else {
      AbsentStays(w1, between, env, c);
    }
  }

  // ---------------------------------------------------------------------
  // Protected ratings

  predicate InPrefix(id: int, fixed: int, maximum: int) {
    id <= fixed || maximum <= 0
  }

  /** A rating of the default user whose key, user and food are all in the fixed prefix. */
  ghost predicate Protected(w: World, limits: Limits, r: int) {
    && r in w.db.ratings
    && InPrefix(r, limits.fixedRatings, limits.maxRatings)
    && InPrefix(w.db.ratings[r].userId, limits.fixedUsers, limits.maxUsers)
    && InPrefix(w.db.ratings[r].foodId, limits.fixedFoods, limits.maxFoods)
    && w.db.ratings[r].userId in w.db.users
    && w.db.users[w.db.ratings[r].userId].username == GLOBAL_USERNAME
  }

  /** Protected ratings are immortal and never change, in any run. */
  lemma {:induction false} ProtectedRatingsAreImmortal(w: World, es: seq<Event>, env: Env, r: int)
    requires Inv(w, env) && Protected(w, env.limits, r)
    ensures Protected(Run(w, es, env), env.limits, r)
    ensures Run(w, es, env).db.ratings[r] == w.db.ratings[r]
  {
    if es != [] {
      var before, e := Run(w, es[..|es| - 1], env), es[|es| - 1];
      ProtectedRatingsAreImmortal(w, es[..|es| - 1], env, r);
      RunKeeps(w, es[..|es| - 1], env);
      StepAccounted(before, e, env, r);
      var after := Step(before, e, env);
      StepKeeps(before, e, env);
      assert r in after.db.ratings;
      assert after.db.ratings[r].userId in after.db.users;
    }
  }
}
