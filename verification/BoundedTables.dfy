/**
 What survives: over whole runs, the bounded tables against the logs of all
 users and foods ever inserted.
 */
module BoundedTables {
  import opened Wrappers
  import opened Entities
  import opened Eviction
  import opened Schema
  import opened Window
  import opened Requests

  // ---------------------------------------------------------------------
  // Users

  ghost predicate UsersAreWindow(w: World, limits: Limits, seeded: nat) {
    && seeded <= |w.userLog|
    && Increasing(w.userLog)
    && (forall k :: 0 <= k < |w.userLog| ==> w.userLog[k].id < w.db.nextUser)
    && IsWindow(w.db.users, w.userLog, seeded, limits.fixedUsers, limits.maxUsers)
  }

  /** Only a registration touches the users. */
  lemma UsersUntouched(w: World, e: Event, env: Env)
    requires !(e.Commit? && e.c in w.requests && w.requests[e.c].pending.Register?)
    ensures var w' := Step(w, e, env);
            w'.userLog == w.userLog && w'.db.users == w.db.users && w'.db.nextUser == w.db.nextUser
  {
    assert forall u: set<int> :: u == {} ==> w.db.users - u == w.db.users;
  }

  /** Only a recorded food touches the foods and their links. */
  lemma FoodsUntouched(w: World, e: Event, env: Env)
    requires !e.RecordFood?
    ensures var w' := Step(w, e, env);
            && w'.foodLog == w.foodLog && w'.db.foods == w.db.foods
            && w'.db.nextFood == w.db.nextFood && w'.db.links == w.db.links
  {
    assert forall f: set<int> :: f == {} ==> w.db.foods - f == w.db.foods;
    if e.Commit? && e.c in w.requests {
      match w.requests[e.c].pending
      case Rate(review) => LinksStay(AddRating(w.db, review));
      case Register(account) => LinksStay(AddUser(w.db, account));
      case _ => LinksStay(w.db);
    } else {
      LinksStay(w.db);
    }
  }

  lemma LinksStay(db: Db)
    ensures forall u, r :: Purge(db, u, {}, r).links == db.links
  {
  }

  lemma UserStep(w: World, e: Event, env: Env, seeded: nat)
    requires Inv(w, env) && UsersAreWindow(w, env.limits, seeded)
    ensures UsersAreWindow(Step(w, e, env), env.limits, seeded)
    ensures w.userLog <= Step(w, e, env).userLog
  {
    if e.Commit? && e.c in w.requests && w.requests[e.c].pending.Register? {
      var account := w.requests[e.c].pending.account;
      if InsertUser(w.db, env.limits, account).Some? {
        var added := Entry(w.db.nextUser, account);
        WindowStep(w.db.users, w.userLog, seeded, env.limits.fixedUsers, env.limits.maxUsers, added);
      }
    } else {
      UsersUntouched(w, e, env);
    }
  }

  /**
   After any run by any number of clients the users table is the window of
   the log: a logged user is stored exactly when it is in the fixed prefix or
   among the last `maxUsers` inserted.
   */
  lemma {:induction false} UserWindow(w: World, es: seq<Event>, env: Env, seeded: nat)
    requires Inv(w, env) && UsersAreWindow(w, env.limits, seeded)
    ensures UsersAreWindow(Run(w, es, env), env.limits, seeded)
    ensures w.userLog <= Run(w, es, env).userLog
  {
    if es != [] {
      UserWindow(w, es[..|es| - 1], env, seeded);
      RunKeeps(w, es[..|es| - 1], env);
      UserStep(Run(w, es[..|es| - 1], env), es[|es| - 1], env, seeded);
    }
  }

  /** A registered user lives until exactly `maxUsers` later registrations. */
  lemma UserLifetime(w: World, c: int, later: seq<Event>, env: Env, seeded: nat)
    requires Inv(w, env) && UsersAreWindow(w, env.limits, seeded)
    requires Step(w, Commit(c), env).db.nextUser > w.db.nextUser
    ensures var w1 := Step(w, Commit(c), env);
            var w2 := Run(w1, later, env);
            w.db.nextUser in w2.db.users <==>
            (env.limits.maxUsers <= 0 || w.db.nextUser <= env.limits.fixedUsers
             || |w2.userLog| - |w1.userLog| < env.limits.maxUsers)
  {
    var w1 := Step(w, Commit(c), env);
    StepKeeps(w, Commit(c), env);
    UserStep(w, Commit(c), env, seeded);
    UserWindow(w1, later, env, seeded);
    var w2 := Run(w1, later, env);
    var added := Entry(w.db.nextUser, w.requests[c].pending.account);
    assert w1.userLog == w.userLog + [added];
    WindowLifetime(w.userLog, added, w2.db.users, w2.userLog, seeded, env.limits.fixedUsers, env.limits.maxUsers);
  }

  // ---------------------------------------------------------------------
  // Foods, recorded under any ids

  ghost predicate FoodsByRank(w: World, limits: Limits, seeded: nat) {
    && seeded <= |w.foodLog|
    && IsRanked(w.db.foods, w.foodLog, seeded, limits.fixedFoods, limits.maxFoods)
  }

  lemma FoodRankStep(w: World, e: Event, env: Env, seeded: nat)
    requires Inv(w, env) && FoodsByRank(w, env.limits, seeded)
    ensures FoodsByRank(Step(w, e, env), env.limits, seeded)
    ensures w.foodLog <= Step(w, e, env).foodLog
  {
    if e.RecordFood? {
      if InsertFood(w.db, env, e.id, e.row, e.ingredients).Some? {
        var added := Entry(FoodKey(w.db.nextFood, e.id), e.row);
        RankStep(w.db.foods, w.foodLog, seeded, env.limits.fixedFoods, env.limits.maxFoods, added);
      }
    } else {
      FoodsUntouched(w, e, env);
    }
  }

  /**
   After any run, with any explicit ids, a food ever recorded is stored exactly
   when it is in the fixed prefix or fewer than `maxFoods` of all ids ever
   recorded are larger. It has the row it was first recorded with.
   */
  lemma {:induction false} FoodRank(w: World, es: seq<Event>, env: Env, seeded: nat)
    requires Inv(w, env) && FoodsByRank(w, env.limits, seeded)
    ensures var w' := Run(w, es, env);
            && w.foodLog <= w'.foodLog
            && FoodsByRank(w', env.limits, seeded)
            && forall id :: id in w'.db.foods <==>
                 && id in Ids(w'.foodLog)
                 && (env.limits.maxFoods <= 0 || id <= env.limits.fixedFoods
                     || |Newer(Ids(w'.foodLog), id)| < env.limits.maxFoods || |w'.foodLog| == seeded)
  {
    if es != [] {
      FoodRank(w, es[..|es| - 1], env, seeded);
      RunKeeps(w, es[..|es| - 1], env);
      FoodRankStep(Run(w, es[..|es| - 1], env), es[|es| - 1], env, seeded);
    }
    var w' := Run(w, es, env);
    forall id
      ensures id in w'.db.foods <==>
              && id in Ids(w'.foodLog)
              && (env.limits.maxFoods <= 0 || id <= env.limits.fixedFoods
                  || |Newer(Ids(w'.foodLog), id)| < env.limits.maxFoods || |w'.foodLog| == seeded)
    {
      RankedByCount(w'.db.foods, w'.foodLog, seeded, env.limits.fixedFoods, env.limits.maxFoods, id);
    }
  }

  /**
   A food recorded under any id is stored, as recorded, exactly until
   `maxFoods` larger ids have been recorded, before it or after it.
   */
  lemma FoodLifetime(w: World, id: int, row: FoodRow, ingredients: seq<int>, later: seq<Event>, env: Env, seeded: nat)
    requires Inv(w, env) && FoodsByRank(w, env.limits, seeded)
    requires InsertFood(w.db, env, id, row, ingredients).Some?
    ensures var key, w1 := FoodKey(w.db.nextFood, id), Step(w, RecordFood(id, row, ingredients), env);
            var w2 := Run(w1, later, env);
            && w1.foodLog <= w2.foodLog
            && (key in w2.db.foods <==>
                env.limits.maxFoods <= 0 || key <= env.limits.fixedFoods
                || |Newer(Ids(w2.foodLog), key)| < env.limits.maxFoods)
            && (key in w2.db.foods ==> w2.db.foods[key] == row)
  {
    var key, e := FoodKey(w.db.nextFood, id), RecordFood(id, row, ingredients);
    var w1 := Step(w, e, env);
    StepKeeps(w, e, env);
    FoodRankStep(w, e, env, seeded);
    FoodRank(w1, later, env, seeded);
    var w2 := Run(w1, later, env);
    assert w1.foodLog == w.foodLog + [Entry(key, row)];
    RankedLifetime(w.db.foods, w.foodLog, w2.db.foods, w2.foodLog, seeded,
                   env.limits.fixedFoods, env.limits.maxFoods, Entry(key, row));
  }

  // ---------------------------------------------------------------------
  // Foods, recorded under ascending ids

  ghost predicate FoodsAreWindow(w: World, limits: Limits, seeded: nat) {
    && seeded <= |w.foodLog|
    && Increasing(w.foodLog)
    && (forall k :: 0 <= k < |w.foodLog| ==> w.foodLog[k].id < w.db.nextFood)
    && IsWindow(w.db.foods, w.foodLog, seeded, limits.fixedFoods, limits.maxFoods)
  }

  /** Every food gets a store-assigned id, or one above all ids recorded before it. */
  ghost predicate Ascending(w: World, es: seq<Event>, env: Env) {
    forall k :: 0 <= k < |es| && es[k].RecordFood? ==>
      es[k].id == 0 || es[k].id >= Run(w, es[..k], env).db.nextFood
  }

  lemma AscendingPrefix(w: World, es: seq<Event>, env: Env)
    requires Ascending(w, es, env) && es != []
    ensures Ascending(w, es[..|es| - 1], env)
  {
    assert forall k :: 0 <= k < |es| - 1 ==> es[..|es| - 1][..k] == es[..k];
  }

  lemma FoodStep(w: World, e: Event, env: Env, seeded: nat)
    requires Inv(w, env) && FoodsAreWindow(w, env.limits, seeded)
    requires e.RecordFood? ==> e.id == 0 || e.id >= w.db.nextFood
    ensures FoodsAreWindow(Step(w, e, env), env.limits, seeded)
    ensures w.foodLog <= Step(w, e, env).foodLog
  {
    if e.RecordFood? {
      if InsertFood(w.db, env, e.id, e.row, e.ingredients).Some? {
        var added := Entry(FoodKey(w.db.nextFood, e.id), e.row);
        WindowStep(w.db.foods, w.foodLog, seeded, env.limits.fixedFoods, env.limits.maxFoods, added);
      }
    } else {
      FoodsUntouched(w, e, env);
    }
  }

  lemma {:induction false} FoodWindow(w: World, es: seq<Event>, env: Env, seeded: nat)
    requires Inv(w, env) && FoodsAreWindow(w, env.limits, seeded) && Ascending(w, es, env)
    ensures FoodsAreWindow(Run(w, es, env), env.limits, seeded)
    ensures w.foodLog <= Run(w, es, env).foodLog
  {
    if es != [] {
      AscendingPrefix(w, es, env);
      FoodWindow(w, es[..|es| - 1], env, seeded);
      RunKeeps(w, es[..|es| - 1], env);
      FoodStep(Run(w, es[..|es| - 1], env), es[|es| - 1], env, seeded);
    }
  }

  /** Under ascending ids the larger ones are the later ones: a food lives for exactly `maxFoods` later foods. */
  lemma AscendingFoodLifetime(w: World, id: int, row: FoodRow, ingredients: seq<int>, later: seq<Event>,
                              env: Env, seeded: nat)
    requires Inv(w, env) && FoodsAreWindow(w, env.limits, seeded)
    requires id == 0 || id >= w.db.nextFood
    requires InsertFood(w.db, env, id, row, ingredients).Some?
    requires Ascending(Step(w, RecordFood(id, row, ingredients), env), later, env)
    ensures var key, w1 := FoodKey(w.db.nextFood, id), Step(w, RecordFood(id, row, ingredients), env);
            var w2 := Run(w1, later, env);
            key in w2.db.foods <==>
            (env.limits.maxFoods <= 0 || key <= env.limits.fixedFoods
             || |w2.foodLog| - |w1.foodLog| < env.limits.maxFoods)
  {
    var e, added := RecordFood(id, row, ingredients), Entry(FoodKey(w.db.nextFood, id), row);
    StepKeeps(w, e, env);
    FoodStep(w, e, env, seeded);
    LastLoggedLifetime(Step(w, e, env), w.foodLog, added, later, env, seeded);
  }

  lemma LastLoggedLifetime(w1: World, log: seq<Entry<FoodRow>>, added: Entry<FoodRow>, later: seq<Event>,
                           env: Env, seeded: nat)
    requires Inv(w1, env) && FoodsAreWindow(w1, env.limits, seeded) && Ascending(w1, later, env)
    requires w1.foodLog == log + [added] && seeded <= |log|
    ensures var w2 := Run(w1, later, env);
            added.id in w2.db.foods <==>
            (env.limits.maxFoods <= 0 || added.id <= env.limits.fixedFoods
             || |w2.foodLog| - |w1.foodLog| < env.limits.maxFoods)
  {
    FoodWindow(w1, later, env, seeded);
    var w2 := Run(w1, later, env);
    WindowLifetime(log, added, w2.db.foods, w2.foodLog, seeded, env.limits.fixedFoods, env.limits.maxFoods);
  }

  /** A food evicted by its own insert is the last of the log and yet not stored. */
  lemma LostFoodBreaksWindow(w: World, e: Event, env: Env, seeded: nat)
    requires e.RecordFood? && InsertFood(w.db, env, e.id, e.row, e.ingredients).Some?
    requires FoodKey(w.db.nextFood, e.id) !in Step(w, e, env).db.foods
    ensures var w' := Step(w, e, env);
            !IsWindow(w'.db.foods, w'.foodLog, seeded, env.limits.fixedFoods, env.limits.maxFoods)
  {
    var w', k := Step(w, e, env), |w.foodLog|;
    ExplicitFoodStays(w.db, w'.db, env, e.id, e.row, e.ingredients);
    assert w'.foodLog[k].id == FoodKey(w.db.nextFood, e.id);
    assert Live(w'.foodLog, seeded, env.limits.fixedFoods, env.limits.maxFoods, k);
  }

  const LONE_ROW := FoodRow("", 1, "")
  const LONE_ENV := Env(Reference(map[], map[], map[1 := Rice(1, "", 0)], {""}), Limits(0, 0, 0, 1, 0, 0))
  const LONE_FOOD := World(Db(map[], map[5 := LONE_ROW], {}, map[], 1, 6, 1), map[], [], [Entry(5, LONE_ROW)])

  lemma LoneFoodIsWindow()
    ensures Inv(LONE_FOOD, LONE_ENV) && FoodsAreWindow(LONE_FOOD, LONE_ENV.limits, 0)
  {
    assert LONE_FOOD.foodLog[0].id == 5;
  }

  lemma LoneFoodBuriesThree()
    ensures InsertFood(LONE_FOOD.db, LONE_ENV, 3, LONE_ROW, []).Some?
    ensures |Newer(LONE_FOOD.db.foods.Keys, 3)| == 1
  {
    assert Newer(LONE_FOOD.db.foods.Keys, 3) == {5};
  }

  /**
   Among explicit ids below the counter the rank of an id decides, not the
   order of insertion: with a limit of one and food 5 stored, food 3 is
   recorded last and evicted by its own insert.
   */
  lemma SmallIdBreaksWindow() returns (w: World, e: Event, env: Env)
    ensures Inv(w, env) && FoodsAreWindow(w, env.limits, 0)
    ensures e.RecordFood? && 0 < e.id < w.db.nextFood && |Step(w, e, env).foodLog| == |w.foodLog| + 1
    ensures var w' := Step(w, e, env);
            !IsWindow(w'.db.foods, w'.foodLog, 0, env.limits.fixedFoods, env.limits.maxFoods)
  {
    w, e, env := LONE_FOOD, RecordFood(3, LONE_ROW, []), LONE_ENV;
    LoneFoodIsWindow();
    LoneFoodBuriesThree();
    ExplicitFoodStays(w.db, Step(w, e, env).db, env, 3, LONE_ROW, []);
    LostFoodBreaksWindow(w, e, env, 0);
  }

  // ---------------------------------------------------------------------
  // What becomes of one food

  /** Food `food` is stored before and after, with the same row and links. */
  ghost predicate FoodSame(db: Db, db': Db, food: int) {
    && food in db.foods && food in db'.foods
    && db'.foods[food] == db.foods[food]
    && LinksOf(db', food) == LinksOf(db, food)
  }

  /** Food `food` is gone, and enough newer foods are stored to keep it out. */
  ghost predicate Sunk(db: Db, limits: Limits, food: int) {
    && limits.maxFoods > 0 && food > limits.fixedFoods
    && food !in db.foods
    && |Newer(db.foods.Keys, food)| >= limits.maxFoods
  }

  lemma EvictionSinks(db: Db, db': Db, limits: Limits, key: int, food: int)
    requires limits.maxFoods > 0 && food > limits.fixedFoods
    requires |Newer(db.foods.Keys + {key}, food)| >= limits.maxFoods
    requires db'.foods.Keys ==
             db.foods.Keys + {key} - Victims(db.foods.Keys + {key}, limits.fixedFoods, limits.maxFoods)
    ensures Sunk(db', limits, food)
  {
    var all := db.foods.Keys + {key};
    EvictionKeepsBurying(all, limits.fixedFoods, limits.maxFoods, food);
    VictimsByRank(all, limits.fixedFoods, limits.maxFoods, food);
  }

  /** Recording a sunk id again is undone by its own insert. */
  lemma SunkStays(w: World, e: Event, env: Env, food: int)
    requires Inv(w, env) && Sunk(w.db, env.limits, food)
    ensures Sunk(Step(w, e, env).db, env.limits, food)
  {
    if e.RecordFood? {
      InsertFoodEffect(w.db, env, e.id, e.row, e.ingredients);
      if InsertFood(w.db, env, e.id, e.row, e.ingredients).Some? {
        var key := FoodKey(w.db.nextFood, e.id);
        SubsetSize(Newer(w.db.foods.Keys, food), Newer(w.db.foods.Keys + {key}, food));
        EvictionSinks(w.db, Step(w, e, env).db, env.limits, key, food);
      }
    } else {
      FoodsUntouched(w, e, env);
    }
  }

  lemma FoodStaysOrSinks(w: World, e: Event, env: Env, food: int)
    requires Inv(w, env) && food in w.db.foods
    ensures FoodSame(w.db, Step(w, e, env).db, food) || Sunk(Step(w, e, env).db, env.limits, food)
  {
    if e.RecordFood? {
      InsertFoodEffect(w.db, env, e.id, e.row, e.ingredients);
      if InsertFood(w.db, env, e.id, e.row, e.ingredients).Some? {
        var key, db' := FoodKey(w.db.nextFood, e.id), Step(w, e, env).db;
        assert FoodKept(w.db, db', food);
        if food !in db'.foods {
          VictimsByRank(w.db.foods.Keys + {key}, env.limits.fixedFoods, env.limits.maxFoods, food);
          EvictionSinks(w.db, db', env.limits, key, food);
        }
      }
    } else {
      FoodsUntouched(w, e, env);
    }
  }

  /**
   Whatever requests follow, even ones that record a food under this very id,
   a stored food keeps its row and ingredients until it is evicted, and is then
   out for good.
   */
  lemma {:induction false} FoodUnchanged(w: World, es: seq<Event>, env: Env, food: int)
    requires Inv(w, env)
    ensures food in w.db.foods ==>
              FoodSame(w.db, Run(w, es, env).db, food) || Sunk(Run(w, es, env).db, env.limits, food)
    ensures Sunk(w.db, env.limits, food) ==> Sunk(Run(w, es, env).db, env.limits, food)
  {
    if es != [] {
      var before, e := Run(w, es[..|es| - 1], env), es[|es| - 1];
      FoodUnchanged(w, es[..|es| - 1], env, food);
      RunKeeps(w, es[..|es| - 1], env);
      if Sunk(before.db, env.limits, food) {
        SunkStays(before, e, env, food);
      } else if food in before.db.foods {
        FoodStaysOrSinks(before, e, env, food);
      }
    }
  }

  /** An evicted food's id is gone for good: no later state holds it again, under any row. */
  lemma EvictedFoodsNeverReturn(w: World, es: seq<Event>, more: seq<Event>, env: Env, food: int)
    requires Inv(w, env)
    requires food in w.db.foods && food !in Run(w, es, env).db.foods
    ensures food !in Run(Run(w, es, env), more, env).db.foods
  {
    RunKeeps(w, es, env);
    FoodUnchanged(w, es, env, food);
    FoodUnchanged(Run(w, es, env), more, env, food);
  }

  /**
   A food recorded under an identifier of the caller's choice may be evicted by
   its own insert: it stays exactly when it would stay among the foods there.
   */
  lemma ExplicitFoodStays(db: Db, db': Db, env: Env, id: int, row: FoodRow, ingredients: seq<int>)
    requires InsertFood(db, env, id, row, ingredients) == Some(db')
    ensures var key := FoodKey(db.nextFood, id);
            key in db'.foods <==>
            (env.limits.maxFoods <= 0 || key <= env.limits.fixedFoods
             || |Newer(db.foods.Keys, key)| < env.limits.maxFoods)
    ensures var key := FoodKey(db.nextFood, id);
            key in db'.foods ==> db'.foods[key] == row
  {
    var key := FoodKey(db.nextFood, id);
    var mid := AddFood(db, id, row, ingredients);
    VictimsByRank(mid.foods.Keys, env.limits.fixedFoods, env.limits.maxFoods, key);
    assert Newer(mid.foods.Keys, key) == Newer(db.foods.Keys, key);
  }

  // ---------------------------------------------------------------------
  // Steady state

  ghost predicate AllSteady(db: Db, limits: Limits) {
    && Steady(db.users.Keys, limits.fixedUsers, limits.maxUsers)
    && Steady(db.foods.Keys, limits.fixedFoods, limits.maxFoods)
    && Steady(db.ratings.Keys, limits.fixedRatings, limits.maxRatings)
  }

  lemma SteadyAfterPurge(db: Db, limits: Limits, users: set<int>, foods: set<int>, ratings: set<int>)
    requires AllSteady(db, limits)
    ensures AllSteady(Purge(db, users, foods, ratings), limits)
  {
    var db' := Purge(db, users, foods, ratings);
    SteadyAfterDelete(db.users.Keys, db'.users.Keys, limits.fixedUsers, limits.maxUsers);
    SteadyAfterDelete(db.foods.Keys, db'.foods.Keys, limits.fixedFoods, limits.maxFoods);
    SteadyAfterDelete(db.ratings.Keys, db'.ratings.Keys, limits.fixedRatings, limits.maxRatings);
  }

  lemma CommitSteady(w: World, c: int, env: Env)
    requires AllSteady(w.db, env.limits) && c in w.requests
    ensures AllSteady(Write(w, c, env).db, env.limits)
  {
    var limits := env.limits;
    match w.requests[c].pending
    case Idle =>
    case Rate(review) =>
      var mid := AddRating(w.db, review);
      EvictionSettles(mid.ratings.Keys, limits.fixedRatings, limits.maxRatings);
      var gone := Victims(mid.ratings.Keys, limits.fixedRatings, limits.maxRatings);
      var db' := Purge(mid, {}, {}, gone);
      assert db'.ratings.Keys == mid.ratings.Keys - gone;
      assert db'.users == w.db.users && db'.foods == w.db.foods;
    case Update(rating, seen, stars) =>
      assert SetStars(w.db, rating, stars).ratings.Keys == w.db.ratings.Keys;
    case Delete(rating, seen) => SteadyAfterPurge(w.db, limits, {}, {}, {rating});
    case Register(account) =>
      var mid := AddUser(w.db, account);
      EvictionSettles(mid.users.Keys, limits.fixedUsers, limits.maxUsers);
      var gone := Victims(mid.users.Keys, limits.fixedUsers, limits.maxUsers);
      var db' := Purge(mid, gone, {}, {});
      assert db'.users.Keys == mid.users.Keys - gone;
      assert db'.foods == w.db.foods;
      SteadyAfterDelete(w.db.ratings.Keys, db'.ratings.Keys, limits.fixedRatings, limits.maxRatings);
  }

  lemma RecordFoodSteady(w: World, id: int, row: FoodRow, ingredients: seq<int>, env: Env)
    requires AllSteady(w.db, env.limits)
    ensures AllSteady(Step(w, RecordFood(id, row, ingredients), env).db, env.limits)
  {
    var limits := env.limits;
    var mid := AddFood(w.db, id, row, ingredients);
    EvictionSettles(mid.foods.Keys, limits.fixedFoods, limits.maxFoods);
    var gone := Victims(mid.foods.Keys, limits.fixedFoods, limits.maxFoods);
    var db' := Purge(mid, {}, gone, {});
    assert db'.foods.Keys == mid.foods.Keys - gone;
    assert db'.users == w.db.users;
    SteadyAfterDelete(w.db.ratings.Keys, db'.ratings.Keys, limits.fixedRatings, limits.maxRatings);
  }

  /** Once steady, all three tables are steady in every later state. */
  lemma {:induction false} RunSteady(w: World, es: seq<Event>, env: Env)
    requires AllSteady(w.db, env.limits)
    ensures AllSteady(Run(w, es, env).db, env.limits)
  {
    if es != [] {
      var before, e := Run(w, es[..|es| - 1], env), es[|es| - 1];
      RunSteady(w, es[..|es| - 1], env);
      match e
      case Commit(c) =>
        if c in before.requests {
          CommitSteady(before, c, env);
        }
      case RecordFood(id, row, ingredients) => RecordFoodSteady(before, id, row, ingredients, env);
      case DeleteAll(c) =>
        if Entered(before, c) {
          SteadyAfterPurge(before.db, env.limits, {}, {}, RatingsBy(before.db, before.requests[c].user.value.id));
        }
      case _ =>
    }
  }

  function Cap(fixed: int, maximum: int): int {
    maximum + if fixed > 0 then fixed else 0
  }

  /** No client records a food under a negative id. */
  predicate NoNegativeIds(es: seq<Event>) {
    forall e :: e in es && e.RecordFood? ==> e.id >= 0
  }

  lemma {:induction false} FoodIdsStayPositive(w: World, es: seq<Event>, env: Env)
    requires Inv(w, env) && NoNegativeIds(es)
    requires forall f :: f in w.db.foods ==> 1 <= f
    ensures forall f :: f in Run(w, es, env).db.foods ==> 1 <= f
  {
    if es != [] {
      var before, e := Run(w, es[..|es| - 1], env), es[|es| - 1];
      assert e in es;
      assert forall e' :: e' in es[..|es| - 1] ==> e' in es;
      FoodIdsStayPositive(w, es[..|es| - 1], env);
      RunKeeps(w, es[..|es| - 1], env);
      if !e.RecordFood? {
        FoodsUntouched(before, e, env);
      }
    }
  }

  /** The size bounds of every reachable state that started steady. Of the foods only the prefix can outgrow them. */
  lemma TablesStayBounded(w: World, es: seq<Event>, env: Env)
    requires Inv(w, env) && AllSteady(w.db, env.limits)
    ensures var db := Run(w, es, env).db;
            && (env.limits.maxUsers > 0 ==> |db.users| <= Cap(env.limits.fixedUsers, env.limits.maxUsers))
            && (env.limits.maxRatings > 0 ==> |db.ratings| <= Cap(env.limits.fixedRatings, env.limits.maxRatings))
            && (env.limits.maxFoods > 0 ==> |Newer(db.foods.Keys, env.limits.fixedFoods)| <= env.limits.maxFoods)
            && (env.limits.maxFoods > 0 && NoNegativeIds(es) && (forall f :: f in w.db.foods ==> 1 <= f) ==>
                  |db.foods| <= Cap(env.limits.fixedFoods, env.limits.maxFoods))
  {
    var db := Run(w, es, env).db;
    RunKeeps(w, es, env);
    RunSteady(w, es, env);
    if env.limits.maxUsers > 0 {
      SteadySize(db.users.Keys, env.limits.fixedUsers, env.limits.maxUsers);
    }
    if env.limits.maxRatings > 0 {
      SteadySize(db.ratings.Keys, env.limits.fixedRatings, env.limits.maxRatings);
    }
    if env.limits.maxFoods > 0 {
      SteadyAbovePrefix(db.foods.Keys, env.limits.fixedFoods, env.limits.maxFoods);
    }
    if env.limits.maxFoods > 0 && NoNegativeIds(es) && forall f :: f in w.db.foods ==> 1 <= f {
      FoodIdsStayPositive(w, es, env);
      SteadySize(db.foods.Keys, env.limits.fixedFoods, env.limits.maxFoods);
    }
  }

  /** `n` foods more than in `db`, the new ones under negative ids. */
  ghost predicate Piled(db: Db, db': Db, n: nat, fixed: int) {
    && db'.nextFood == db.nextFood
    && |db'.foods| == |db.foods| + n
    && (forall f :: f in db'.foods ==> 0 - n <= f <= fixed)
  }

  /**
   Foods under negative ids count as part of the fixed prefix and are never
   evicted: from any store that has not outgrown its prefix, some run holds `n`
   foods more than that store, for every `n`.
   */
  lemma {:induction false} NegativeFoodsPileUp(w: World, env: Env, row: FoodRow, n: nat) returns (es: seq<Event>)
    requires KeysIssued(w.db) && row.riceId in env.ref.rices && row.tool in env.ref.tools
    requires forall f :: f in w.db.foods ==> 1 <= f <= env.limits.fixedFoods
    requires env.limits.fixedFoods >= 0
    ensures |es| == n && forall k :: 0 <= k < n ==> es[k] == RecordFood(0 - (k + 1), row, [])
    ensures Piled(w.db, Run(w, es, env).db, n, env.limits.fixedFoods)
  {
    if n == 0 {
      es := [];
    } else {
      var fewer := NegativeFoodsPileUp(w, env, row, n - 1);
      var e := RecordFood(0 - n, row, []);
      es := fewer + [e];
      NegativeFoodStays(w.db, Run(w, fewer, env), env, row, n);
      RunAppend(w, fewer, e, env);
    }
  }

  lemma NegativeFoodStays(db: Db, before: World, env: Env, row: FoodRow, n: nat)
    requires n > 0 && db.nextFood >= 1 && row.riceId in env.ref.rices && row.tool in env.ref.tools
    requires Piled(db, before.db, n - 1, env.limits.fixedFoods) && env.limits.fixedFoods >= 0
    ensures Piled(db, Step(before, RecordFood(0 - n, row, []), env).db, n, env.limits.fixedFoods)
  {
    assert Insertable(before.db, env.ref, 0 - n, row, []);
    NegativeFoodIsSpared(before.db, env, row, n);
  }

  lemma NegativeFoodIsSpared(db: Db, env: Env, row: FoodRow, n: nat)
    requires n > 0 && env.limits.fixedFoods >= 0
    requires forall f :: f in db.foods ==> f <= env.limits.fixedFoods
    ensures EvictFoods(AddFood(db, 0 - n, row, []), env.limits).foods == db.foods[0 - n := row]
  {
    var mid := AddFood(db, 0 - n, row, []);
    PrefixIsSpared(mid.foods.Keys, env.limits.fixedFoods, env.limits.maxFoods);
    assert EvictFoods(mid, env.limits).foods == mid.foods - {};
  }

  /** In a steady store a registration costs at most one old user. */
  lemma RegistrationCostsOneUser(db: Db, db': Db, env: Env, account: Account)
    requires KeysIssued(db) && AllSteady(db, env.limits)
    requires InsertUser(db, env.limits, account) == Some(db')
    ensures |db.users.Keys - db'.users.Keys| <= 1
  {
    var mid := AddUser(db, account);
    assert mid.users.Keys == db.users.Keys + {db.nextUser};
    assert db'.users.Keys == mid.users.Keys - Victims(mid.users.Keys, env.limits.fixedUsers, env.limits.maxUsers);
    AtMostOneMissing(db.users.Keys, db'.users.Keys, env.limits.fixedUsers, env.limits.maxUsers, db.nextUser);
  }

  /** In a steady store a new rating costs at most one old rating. */
  lemma RatingCostsOneRating(db: Db, db': Db, env: Env, review: Review)
    requires KeysIssued(db) && AllSteady(db, env.limits)
    requires InsertRating(db, env.limits, review) == Some(db')
    ensures |db.ratings.Keys - db'.ratings.Keys| <= 1
  {
    var mid := AddRating(db, review);
    assert mid.ratings.Keys == db.ratings.Keys + {db.nextRating};
    PurgeRatingsOnly(mid, Victims(mid.ratings.Keys, env.limits.fixedRatings, env.limits.maxRatings));
    assert db'.ratings.Keys ==
           mid.ratings.Keys - Victims(mid.ratings.Keys, env.limits.fixedRatings, env.limits.maxRatings);
    AtMostOneMissing(db.ratings.Keys, db'.ratings.Keys, env.limits.fixedRatings, env.limits.maxRatings, db.nextRating);
  }

  /** In a steady store a new food, under whatever id, costs at most one old food. */
  lemma FoodCostsOneFood(db: Db, db': Db, env: Env, id: int, row: FoodRow, ingredients: seq<int>)
    requires AllSteady(db, env.limits)
    requires InsertFood(db, env, id, row, ingredients) == Some(db')
    ensures |db.foods.Keys - db'.foods.Keys| <= 1
  {
    var key, mid := FoodKey(db.nextFood, id), AddFood(db, id, row, ingredients);
    assert mid.foods.Keys == db.foods.Keys + {key};
    assert db'.foods.Keys == mid.foods.Keys - Victims(mid.foods.Keys, env.limits.fixedFoods, env.limits.maxFoods);
    AtMostOneMissing(db.foods.Keys, db'.foods.Keys, env.limits.fixedFoods, env.limits.maxFoods, key);
  }
}
