/**
 The state the migrations leave, under the default limits: the run theorems
 apply to it.
 */
module Seed {
  import opened Entities
  import opened Eviction
  import opened Schema
  import opened Window
  import opened Requests
  import opened RatingSafety
  import opened BoundedTables
  import opened Accounts

  const DEFAULT_LIMITS := Limits(100, 10, 10, 5000, 5000, 10000)

  const SEED_USERS: map<int, Account> := map[
    1 := Account("default", "abcdef0123456789", "", ""),
    2 := Account("synthetics_multihttp_example", "woSyhhrE3pQVUxMU", "", "synthetics_multihttp_example"),
    3 := Account("studio-user", "oBGOPc5tVtk9WAgf", "", "k6studiorocks")]

  const SEED_FOODS: map<int, FoodRow> := map[
    1 := FoodRow("A Spicy Delight", 1, "Chopsticks"),
    2 := FoodRow("The Comfort Bowl", 2, "Spoon"),
    3 := FoodRow("The Fusion Feast", 3, "Fork")]

  const SEED_LINKS: set<Link> := {
    Link(1, 1), Link(1, 6), Link(1, 12), Link(1, 17), Link(1, 21),
    Link(2, 2), Link(2, 7), Link(2, 13), Link(2, 24),
    Link(3, 5), Link(3, 9), Link(3, 15), Link(3, 19)}

  const SEED_RATINGS: map<int, Review> := map[
    1 := Review(5, 1, 1),
    2 := Review(1, 1, 2),
    3 := Review(1, 1, 3)]

  const SEED_DB := Db(SEED_USERS, SEED_FOODS, SEED_LINKS, SEED_RATINGS, 4, 4, 4)

  const SEED_WORLD := World(
    SEED_DB, map[],
    [Entry(1, SEED_USERS[1]), Entry(2, SEED_USERS[2]), Entry(3, SEED_USERS[3])],
    [Entry(1, SEED_FOODS[1]), Entry(2, SEED_FOODS[2]), Entry(3, SEED_FOODS[3])])

  /** The reference rows the seed refers to: 40 ingredients, 10 rices, 4 tools. */
  ghost predicate Seeded(ref: Reference) {
    && (forall i :: 1 <= i <= 40 ==> i in ref.ingredients)
    && (forall r :: 1 <= r <= 10 ==> r in ref.rices)
    && ref.tools == {"Chopsticks", "Spoon", "Fork", "Spork"}
  }

  lemma SeedUsersUnique()
    ensures UniqueUsers(SEED_DB)
  {
    assert SEED_USERS[1].username[0] == 'd' && SEED_USERS[2].username[1] == 'y' && SEED_USERS[3].username[1] == 't';
    assert SEED_USERS[1].username[1] == 'e';
    assert SEED_USERS[1].token[0] == 'a' && SEED_USERS[2].token[0] == 'w' && SEED_USERS[3].token[0] == 'o';
  }

  lemma SeedReferencesHold(ref: Reference)
    requires Seeded(ref)
    ensures ReferencesHold(SEED_DB, ref)
  {
    assert forall l :: l in SEED_LINKS ==> l.foodId in SEED_FOODS && 1 <= l.ingredientId <= 40;
    assert forall f :: f in SEED_FOODS ==> 1 <= SEED_FOODS[f].riceId <= 10 && SEED_FOODS[f].tool in ref.tools;
    assert forall r :: r in SEED_RATINGS ==>
             SEED_RATINGS[r].userId in SEED_USERS && SEED_RATINGS[r].foodId in SEED_FOODS;
  }

  lemma SeedVetted()
    ensures KeysIssued(SEED_DB) && Vetted(SEED_DB)
  {
    assert SEED_USERS[2].username[0] == 's' && SEED_USERS[3].username[0] == 's' && GLOBAL_USERNAME[0] == 'd';
  }

  lemma SeedUserWindow()
    ensures UsersAreWindow(SEED_WORLD, DEFAULT_LIMITS, 3)
  {
    assert forall u :: u in SEED_USERS ==> SEED_WORLD.userLog[u - 1].id == u;
  }

  lemma SeedFoodWindow()
    ensures FoodsAreWindow(SEED_WORLD, DEFAULT_LIMITS, 3)
  {
    assert forall f :: f in SEED_FOODS ==> SEED_WORLD.foodLog[f - 1].id == f;
  }

  lemma SeedFoodRank()
    ensures FoodsByRank(SEED_WORLD, DEFAULT_LIMITS, 3)
  {
    var log := SEED_WORLD.foodLog;
    assert log[0].id == 1 && log[1].id == 2 && log[2].id == 3;
    assert SEED_FOODS.Keys == Ids(log);
  }

  lemma SeedFoodIds()
    ensures forall f :: f in SEED_FOODS ==> 1 <= f <= 3
  {
  }

  /** The migrated store satisfies the hypotheses of every theorem about runs. */
  lemma SeedIsReachable(ref: Reference)
    requires Seeded(ref)
    ensures Inv(SEED_WORLD, Env(ref, DEFAULT_LIMITS))
    ensures UsersAreWindow(SEED_WORLD, DEFAULT_LIMITS, 3)
    ensures FoodsAreWindow(SEED_WORLD, DEFAULT_LIMITS, 3)
    ensures FoodsByRank(SEED_WORLD, DEFAULT_LIMITS, 3)
    ensures AllSteady(SEED_DB, DEFAULT_LIMITS)
  {
    SeedUsersUnique();
    SeedReferencesHold(ref);
    SeedVetted();
    SeedUserWindow();
    SeedFoodWindow();
    SeedFoodRank();
  }

  lemma DefaultBounds(w: World, es: seq<Event>, env: Env)
    requires Inv(w, env) && AllSteady(w.db, env.limits) && env.limits == DEFAULT_LIMITS
    requires forall f :: f in w.db.foods ==> 1 <= f
    ensures var db := Run(w, es, env).db;
            && |db.users| <= 5010 && |db.ratings| <= 10010 && |Newer(db.foods.Keys, 100)| <= 5000
            && (NoNegativeIds(es) ==> |db.foods| <= 5100)
  {
    TablesStayBounded(w, es, env);
  }

  /**
   Under the default limits no run ever holds more than 5010 users, 10010
   ratings or 5000 foods above id 100, and none without negative food ids more
   than 5100 foods.
   */
  lemma SeedStaysBounded(ref: Reference, es: seq<Event>)
    requires Seeded(ref)
    ensures var db := Run(SEED_WORLD, es, Env(ref, DEFAULT_LIMITS)).db;
            && |db.users| <= 5010 && |db.ratings| <= 10010 && |Newer(db.foods.Keys, 100)| <= 5000
            && (NoNegativeIds(es) ==> |db.foods| <= 5100)
  {
    SeedIsReachable(ref);
    SeedFoodIds();
    DefaultBounds(SEED_WORLD, es, Env(ref, DEFAULT_LIMITS));
  }

  /** With negative food ids there is no bound: for every `n` some run from the seed holds `n` foods more. */
  lemma SeedFoodsUnbounded(ref: Reference, n: nat) returns (es: seq<Event>)
    requires Seeded(ref)
    ensures |Run(SEED_WORLD, es, Env(ref, DEFAULT_LIMITS)).db.foods| == 3 + n
  {
    var row := FoodRow("", 1, "Spoon");
    assert 1 in ref.rices;
    SeedVetted();
    SeedFoodIds();
    es := NegativeFoodsPileUp(SEED_WORLD, Env(ref, DEFAULT_LIMITS), row, n);
    assert SEED_FOODS.Keys == {1, 2, 3};
    assert |SEED_FOODS| == 3;
  }

  /** The three ratings of the seed are there, unchanged, after any run of any requests. */
  lemma SeedRatingsAreImmortal(ref: Reference, es: seq<Event>)
    requires Seeded(ref)
    ensures var db := Run(SEED_WORLD, es, Env(ref, DEFAULT_LIMITS)).db;
            forall r :: r in SEED_RATINGS ==> r in db.ratings && db.ratings[r] == SEED_RATINGS[r]
  {
    SeedIsReachable(ref);
    SeedRatingsProtected();
    RatingsImmortal(SEED_WORLD, es, Env(ref, DEFAULT_LIMITS));
  }

  lemma SeedRatingsProtected()
    ensures forall r :: r in SEED_RATINGS ==> Protected(SEED_WORLD, DEFAULT_LIMITS, r)
  {
  }

  lemma RatingsImmortal(w: World, es: seq<Event>, env: Env)
    requires Inv(w, env) && forall r :: r in w.db.ratings ==> Protected(w, env.limits, r)
    ensures forall r :: r in w.db.ratings ==>
              r in Run(w, es, env).db.ratings && Run(w, es, env).db.ratings[r] == w.db.ratings[r]
  {
    forall r | r in w.db.ratings
      ensures r in Run(w, es, env).db.ratings && Run(w, es, env).db.ratings[r] == w.db.ratings[r]
    {
      ProtectedRatingsAreImmortal(w, es, env, r);
    }
  }

  /** Under the default limits every token resolves to a user, forever. */
  lemma SeedAuthenticates(ref: Reference, es: seq<Event>, token: string)
    requires Seeded(ref)
    ensures Authenticate(Run(SEED_WORLD, es, Env(ref, DEFAULT_LIMITS)).db, token).Some?
  {
    AuthenticateIsTotal(SEED_WORLD, es, Env(ref, DEFAULT_LIMITS), token);
  }
}
