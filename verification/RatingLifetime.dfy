/**
 How long a rating lives: it goes by its owner's request or when its own table,
 or that of its user or food, is full of newer rows, and for no other reason.
 */
module RatingLifetime {
  import opened Wrappers
  import opened Entities
  import opened Eviction
  import opened Schema
  import opened Requests
  import opened BoundedTables
  import opened RatingSafety

  /** In no step of the run does the owner have the rating deleted. */
  ghost predicate NeverWithdrawn(w: World, es: seq<Event>, env: Env, r: int, review: Review) {
    forall k :: 0 <= k < |es| ==> !Withdrawn(Run(w, es[..k], env), es[k], r, review)
  }

  /** A row with `newer` newer rows stays when `added` rows are inserted. */
  predicate HasRoom(id: int, newer: int, added: int, fixed: int, maximum: int) {
    maximum <= 0 || id <= fixed || newer + added < maximum
  }

  /** The inserts of the run leave room for the rating, its user and its food. */
  ghost predicate RoomFor(w: World, w': World, limits: Limits, r: int, review: Review) {
    && HasRoom(r, |Newer(w.db.ratings.Keys, r)|, w'.db.nextRating - w.db.nextRating,
               limits.fixedRatings, limits.maxRatings)
    && HasRoom(review.userId, |Newer(w.db.users.Keys, review.userId)|, w'.db.nextUser - w.db.nextUser,
               limits.fixedUsers, limits.maxUsers)
    && HasRoom(review.foodId, |Newer(w.db.foods.Keys, review.foodId)|, |w'.foodLog| - |w.foodLog|,
               limits.fixedFoods, limits.maxFoods)
  }

  lemma OneMoreNewer(ids: set<int>, after: set<int>, added: int, id: int)
    requires after <= ids + {added}
    ensures |Newer(after, id)| <= |Newer(ids, id)| + 1
  {
    SubsetSize(Newer(after, id), Newer(ids, id) + {added});
  }

  lemma NoMoreNewer(ids: set<int>, after: set<int>, id: int)
    requires after <= ids
    ensures |Newer(after, id)| <= |Newer(ids, id)|
  {
    SubsetSize(Newer(after, id), Newer(ids, id));
  }

  /** A table gained at most the row `added`, counted by `inserts`. */
  predicate Gains(ids: set<int>, after: set<int>, inserts: int, added: int) {
    (inserts == 0 && after <= ids) || (inserts == 1 && after <= ids + {added})
  }

  lemma GainedNewer(ids: set<int>, after: set<int>, inserts: int, added: int, id: int)
    requires Gains(ids, after, inserts, added)
    ensures |Newer(after, id)| <= |Newer(ids, id)| + inserts
  {
    if inserts == 0 {
      NoMoreNewer(ids, after, id);
    } else {
      OneMoreNewer(ids, after, added, id);
    }
  }

  /** What one step can add to each table. */
  lemma StepInserts(w: World, e: Event, env: Env)
    ensures var w' := Step(w, e, env);
            && Gains(w.db.ratings.Keys, w'.db.ratings.Keys, w'.db.nextRating - w.db.nextRating, w.db.nextRating)
            && Gains(w.db.users.Keys, w'.db.users.Keys, w'.db.nextUser - w.db.nextUser, w.db.nextUser)
            && Gains(w.db.foods.Keys, w'.db.foods.Keys, |w'.foodLog| - |w.foodLog|,
                     if e.RecordFood? then FoodKey(w.db.nextFood, e.id) else 0)
            && (|w'.foodLog| == |w.foodLog| ==> w'.db.foods == w.db.foods)
  {
    var w' := Step(w, e, env);
    if !e.RecordFood? {
      FoodsUntouched(w, e, env);
    }
    if !(e.Commit? && e.c in w.requests && w.requests[e.c].pending.Register?) {
      UsersUntouched(w, e, env);
    }
    assert Gains(w.db.ratings.Keys, w'.db.ratings.Keys, w'.db.nextRating - w.db.nextRating, w.db.nextRating);
  }

  /** Rows newer than a given one become more only by inserts. */
  lemma StepGrowth(w: World, e: Event, env: Env, r: int, u: int, f: int)
    ensures var w' := Step(w, e, env);
            && 0 <= w'.db.nextRating - w.db.nextRating
            && |Newer(w'.db.ratings.Keys, r)| - |Newer(w.db.ratings.Keys, r)| <= w'.db.nextRating - w.db.nextRating
            && 0 <= w'.db.nextUser - w.db.nextUser
            && |Newer(w'.db.users.Keys, u)| - |Newer(w.db.users.Keys, u)| <= w'.db.nextUser - w.db.nextUser
            && 0 <= |w'.foodLog| - |w.foodLog|
            && |Newer(w'.db.foods.Keys, f)| - |Newer(w.db.foods.Keys, f)| <= |w'.foodLog| - |w.foodLog|
  {
    var w' := Step(w, e, env);
    StepInserts(w, e, env);
    GainedNewer(w.db.ratings.Keys, w'.db.ratings.Keys, w'.db.nextRating - w.db.nextRating, w.db.nextRating, r);
    GainedNewer(w.db.users.Keys, w'.db.users.Keys, w'.db.nextUser - w.db.nextUser, w.db.nextUser, u);
    GainedNewer(w.db.foods.Keys, w'.db.foods.Keys, |w'.foodLog| - |w.foodLog|,
                if e.RecordFood? then FoodKey(w.db.nextFood, e.id) else 0, f);
  }

  lemma {:induction false} RunGrowth(w: World, es: seq<Event>, env: Env, r: int, u: int, f: int)
    ensures var w' := Run(w, es, env);
            && |Newer(w'.db.ratings.Keys, r)| - |Newer(w.db.ratings.Keys, r)| <= w'.db.nextRating - w.db.nextRating
            && |Newer(w'.db.users.Keys, u)| - |Newer(w.db.users.Keys, u)| <= w'.db.nextUser - w.db.nextUser
            && |Newer(w'.db.foods.Keys, f)| - |Newer(w.db.foods.Keys, f)| <= |w'.foodLog| - |w.foodLog|
  {
    if es != [] {
      RunGrowth(w, es[..|es| - 1], env, r, u, f);
      StepGrowth(Run(w, es[..|es| - 1], env), es[|es| - 1], env, r, u, f);
    }
  }

  /** With room for one more step, nothing of the rating expires in that step. */
  lemma NothingExpires(w: World, e: Event, env: Env, r: int, review: Review)
    requires Inv(w, env) && r in w.db.ratings && w.db.ratings[r] == review
    requires RoomFor(w, Step(w, e, env), env.limits, r, review)
    ensures !Expired(w, e, env, r, review)
  {
    StepInserts(w, e, env);
    VictimsByRank(w.db.ratings.Keys + {w.db.nextRating}, env.limits.fixedRatings, env.limits.maxRatings, r);
    OneMoreNewer(w.db.ratings.Keys, w.db.ratings.Keys + {w.db.nextRating}, w.db.nextRating, r);
    VictimsByRank(w.db.users.Keys + {w.db.nextUser}, env.limits.fixedUsers, env.limits.maxUsers, review.userId);
    OneMoreNewer(w.db.users.Keys, w.db.users.Keys + {w.db.nextUser}, w.db.nextUser, review.userId);
    if e.RecordFood? && review.foodId !in Step(w, e, env).db.foods {
      var key := FoodKey(w.db.nextFood, e.id);
      VictimsByRank(w.db.foods.Keys + {key}, env.limits.fixedFoods, env.limits.maxFoods, review.foodId);
      OneMoreNewer(w.db.foods.Keys, w.db.foods.Keys + {key}, key, review.foodId);
    }
  }

  /**
   A rating is stored after every run in which its owner does not delete it and
   the inserts leave room for it, its user and its food; owner and food are
   unchanged.
   */
  lemma {:induction false} RatingSurvives(w: World, es: seq<Event>, env: Env, r: int)
    requires Inv(w, env) && r in w.db.ratings
    requires NeverWithdrawn(w, es, env, r, w.db.ratings[r])
    requires RoomFor(w, Run(w, es, env), env.limits, r, w.db.ratings[r])
    ensures r in Run(w, es, env).db.ratings
    ensures Run(w, es, env).db.ratings[r] == w.db.ratings[r].(stars := Run(w, es, env).db.ratings[r].stars)
  {
    if es != [] {
      var init, e, review := es[..|es| - 1], es[|es| - 1], w.db.ratings[r];
      var before := Run(w, init, env);
      assert forall k :: 0 <= k < |init| ==> init[..k] == es[..k];
      StepGrowth(before, e, env, r, review.userId, review.foodId);
      RatingSurvives(w, init, env, r);
      RunGrowth(w, init, env, r, review.userId, review.foodId);
      RunKeeps(w, init, env);
      StepAccounted(before, e, env, r);
      NothingExpires(before, e, env, r, before.db.ratings[r]);
    }
  }
}
