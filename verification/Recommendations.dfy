/**
 The join of the generator and the store: what the generator emits can be
 stored, reads back as it was, and stays so for its lifetime.
 */
module Recommendations {
  import opened Wrappers
  import opened Entities
  import opened GoInt
  import opened Schema
  import opened Requests
  import opened BoundedTables
  import opened Catalogs
  import opened Json
  import Generator
  import Servings

  /** Every entry of the pools is a row of the reference tables. */
  ghost predicate FromReference(pools: Generator.Pools, ref: Reference) {
    && (forall i :: Generator.Offers(pools, i) ==>
          i.id in ref.ingredients && ref.ingredients[i.id] == i)
    && (forall r :: r in pools.rices ==> r.id in ref.rices && ref.rices[r.id] == r)
    && (forall t :: t in pools.tools ==> t in ref.tools)
  }

  ghost predicate Generated(food: Food, pools: Generator.Pools,
                            r: Generator.Restrictions, d: Generator.Draw, ref: Reference) {
    && FromReference(pools, ref)
    && Generator.IsAttempt(food, Generator.ValidPools(r, pools), r, d)
  }

  /** A food whose parts are reference rows, no ingredient twice. */
  ghost predicate Wholesome(food: Food, ref: Reference) {
    && food.id == 0
    && food.rice.id in ref.rices && ref.rices[food.rice.id] == food.rice
    && food.tool in ref.tools
    && (forall i :: i in food.ingredients ==> i.id in ref.ingredients && ref.ingredients[i.id] == i)
    && Distinct(IngredientIds(food.ingredients))
  }

  lemma GeneratedIsWholesome(food: Food, pools: Generator.Pools,
                             r: Generator.Restrictions, d: Generator.Draw, ref: Reference)
    requires Generated(food, pools, r, d, ref)
    ensures Wholesome(food, ref)
  {
    Generator.GeneratedContents(food, pools, r, d);
    var ids := IngredientIds(food.ingredients);
    forall j, k | 0 <= j < k < |ids|
      ensures ids[j] != ids[k]
    {
      assert food.ingredients[j] in food.ingredients && food.ingredients[k] in food.ingredients;
      assert food.ingredients[j].name != food.ingredients[k].name;
    }
  }

  lemma WholesomeIsStorable(food: Food, db: Db, env: Env)
    requires Wholesome(food, env.ref) && KeysIssued(db)
    ensures InsertFood(db, env, 0, RowOf(food), IngredientIds(food.ingredients)).Some?
  {
    var ids := IngredientIds(food.ingredients);
    forall i | i in ids
      ensures i in env.ref.ingredients
    {
      var k :| 0 <= k < |ids| && ids[k] == i;
      assert food.ingredients[k] in food.ingredients;
    }
  }

  /** The food as the catalog service receives it: the reference strings are UTF-8, the name need not be. */
  function Sent(food: Food): Food {
    food.(name := Transmit(food.name))
  }

  /**
   For any draws and any map order, recording a generated food violates no key
   and no foreign key, in any state of the store.
   */
  lemma GeneratedIsStorable(food: Food, pools: Generator.Pools,
                            r: Generator.Restrictions, d: Generator.Draw, db: Db, env: Env)
    requires Generated(food, pools, r, d, env.ref) && KeysIssued(db)
    ensures InsertFood(db, env, 0, RowOf(food), IngredientIds(food.ingredients)).Some?
    ensures InsertFood(db, env, 0, RowOf(Sent(food)), IngredientIds(food.ingredients)).Some?
  {
    GeneratedIsWholesome(food, pools, r, d, env.ref);
    WholesomeIsStorable(food, db, env);
    WholesomeIsStorable(Sent(food), db, env);
  }

  // ---------------------------------------------------------------------
  // Reading back

  lemma {:induction false} ListedOnce(s: seq<Ingredient>, i: Ingredient)
    requires Distinct(IngredientIds(s))
    ensures multiset(s)[i] == if i in s then 1 else 0
  {
    if s != [] {
      var init, last := s[..|s| - 1], s[|s| - 1];
      assert IngredientIds(init) == IngredientIds(s)[..|s| - 1];
      assert forall k :: 0 <= k < |init| ==> IngredientIds(s)[k] == init[k].id;
      ListedOnce(init, i);
      assert s == init + [last];
      assert IngredientIds(s)[|s| - 1] == last.id;
      assert forall k :: 0 <= k < |init| ==> init[k] != last;
    }
  }

  /** Lists of the same ingredients, none of them with an id twice, are permutations. */
  lemma ListsPermute(s: seq<Ingredient>, t: seq<Ingredient>)
    requires Distinct(IngredientIds(s)) && Distinct(IngredientIds(t))
    requires forall i :: i in s <==> i in t
    ensures multiset(s) == multiset(t)
  {
    forall i: Ingredient
      ensures multiset(s)[i] == multiset(t)[i]
    {
      ListedOnce(s, i);
      ListedOnce(t, i);
    }
  }

  /** The stored food is the one recorded. */
  ghost predicate Stores(db: Db, id: int, food: Food) {
    && id in db.foods
    && db.foods[id] == RowOf(food)
    && LinksOf(db, id) == set i | i in IngredientIds(food.ingredients)
  }

  /** A read answers with the recorded food, up to the order of ingredients. */
  lemma ReadsBack(db: Db, ref: Reference, id: int, food: Food, answer: Food)
    requires ReferencesHold(db, ref) && Wholesome(food, ref)
    requires Stores(db, id, food)
    requires ReadsAs(db, ref, id, answer)
    ensures answer == food.(id := id, ingredients := answer.ingredients)
    ensures multiset(answer.ingredients) == multiset(food.ingredients)
  {
    var ids, given := IngredientIds(food.ingredients), answer.ingredients;
    var keys :| Lists(keys, LinksOf(db, id)) && given == Fetch(ref, keys);
    forall j | 0 <= j < |ids|
      ensures ref.ingredients[ids[j]] == food.ingredients[j] && food.ingredients[j] in given
    {
      assert food.ingredients[j] in food.ingredients;
      assert ids[j] in LinksOf(db, id);
      var k :| 0 <= k < |keys| && keys[k] == ids[j];
      assert given[k] == food.ingredients[j];
    }
    forall k | 0 <= k < |keys|
      ensures given[k].id == keys[k] && given[k] in food.ingredients
    {
      assert keys[k] in LinksOf(db, id);
      var j :| 0 <= j < |ids| && ids[j] == keys[k];
      assert given[k] == food.ingredients[j];
    }
    assert IngredientIds(given) == keys;
    ListsPermute(given, food.ingredients);
  }

  /** And there is an answer: the recorded food itself is one. */
  lemma CanRead(db: Db, ref: Reference, id: int, food: Food)
    requires ReferencesHold(db, ref) && Wholesome(food, ref) && Stores(db, id, food)
    ensures ReadsAs(db, ref, id, food.(id := id))
  {
    var ids := IngredientIds(food.ingredients);
    assert Lists(ids, LinksOf(db, id));
    forall k | 0 <= k < |ids|
      ensures ids[k] in ref.ingredients && ref.ingredients[ids[k]] == food.ingredients[k]
    {
      assert food.ingredients[k] in food.ingredients;
    }
    assert Fetch(ref, ids) == food.ingredients;
  }

  /** `answer` is `food` under the key `id`, up to the order of ingredients. */
  ghost predicate SameFood(answer: Food, food: Food, id: int) {
    && answer == food.(id := id, ingredients := answer.ingredients)
    && multiset(answer.ingredients) == multiset(food.ingredients)
    && TotalCalories(answer.ingredients) == TotalCalories(food.ingredients)
    && (AllVegetarian(answer.ingredients) <==> AllVegetarian(food.ingredients))
  }

  lemma StoredFoodReadsBack(db: Db, ref: Reference, id: int, food: Food)
    requires ReferencesHold(db, ref) && Wholesome(food, ref) && Stores(db, id, food)
    ensures ReadsAs(db, ref, id, food.(id := id))
    ensures forall answer :: ReadsAs(db, ref, id, answer) ==> SameFood(answer, food, id)
  {
    CanRead(db, ref, id, food);
    forall answer | ReadsAs(db, ref, id, answer)
      ensures SameFood(answer, food, id)
    {
      ReadsBack(db, ref, id, food, answer);
      CaloriesIgnoreOrder(answer.ingredients, food.ingredients);
      VegetarianIgnoresOrder(answer.ingredients, food.ingredients);
    }
  }

  lemma SentIsStored(w: World, food: Food, env: Env)
    requires Inv(w, env) && Wholesome(food, env.ref)
    ensures var w1 := Step(w, RecordFood(0, RowOf(food), IngredientIds(food.ingredients)), env);
            Inv(w1, env) && Stores(w1.db, w.db.nextFood, food) && w.db.nextFood < w1.db.nextFood
  {
    var ids := IngredientIds(food.ingredients);
    WholesomeIsStorable(food, w.db, env);
    InsertFoodEffect(w.db, env, 0, RowOf(food), ids);
    StepKeeps(w, RecordFood(0, RowOf(food), ids), env);
  }

  /**
   Round trip over runs. A generated food is sent to the catalog and recorded;
   then any requests by anyone follow. As long as the food is stored, every
   read gives the food sent, with the calories and vegetarian flag that were returned when it
   was generated; its name is the generated one exactly when that is UTF-8.
   */
  lemma GeneratedFoodRoundTrip(w: World, food: Food, pools: Generator.Pools,
                               r: Generator.Restrictions, d: Generator.Draw, later: seq<Event>, env: Env)
    requires Inv(w, env) && Generated(food, pools, r, d, env.ref)
    ensures var id := w.db.nextFood;
            var w1 := Step(w, RecordFood(0, RowOf(Sent(food)), IngredientIds(food.ingredients)), env);
            var db := Run(w1, later, env).db;
            && id in w1.db.foods
            && ReferencesHold(db, env.ref)
            && (id in db.foods ==> ReadsAs(db, env.ref, id, Sent(food).(id := id)))
            && (forall answer ::
                  id in db.foods && ReadsAs(db, env.ref, id, answer) ==> SameFood(answer, Sent(food), id))
            && (Sent(food) == food <==> ValidUtf8(food.name))
  {
    var id, sent := w.db.nextFood, Sent(food);
    var w1 := Step(w, RecordFood(0, RowOf(sent), IngredientIds(food.ingredients)), env);
    GeneratedIsWholesome(food, pools, r, d, env.ref);
    SentIsStored(w, sent, env);
    RunKeeps(w1, later, env);
    FoodUnchanged(w1, later, env, id);
    TransmitExactly(food.name);
    var db := Run(w1, later, env).db;
    if id in db.foods {
      StoredFoodReadsBack(db, env.ref, id, sent);
    }
  }

  /** A UTF-8 custom name of at most 64 bytes is stored as it was asked for. */
  lemma ShortNamesArrive(food: Food, valid: Generator.Pools, request: Generator.Restrictions, d: Generator.Draw)
    requires Generator.IsAttempt(food, valid, request.Effective(), d)
    requires 0 < |request.customName| <= MAX_FOOD_NAME_LENGTH && ValidUtf8(request.customName)
    ensures Sent(food).name == request.customName
  {
    TransmitExactly(food.name);
  }

  /**
   A UTF-8 custom name is cut at 64 bytes and stored as it was cut exactly when
   the cut is not inside a character.
   */
  lemma CutNamesArriveExactly(food: Food, valid: Generator.Pools, request: Generator.Restrictions, d: Generator.Draw)
    requires Generator.IsAttempt(food, valid, request.Effective(), d)
    requires request.customName != "" && ValidUtf8(request.customName)
    ensures food.name == if |request.customName| > 64 then request.customName[..64] else request.customName
    ensures Sent(food).name == food.name <==> |request.customName| <= 64 || !Continues(request.customName[64])
  {
    TransmitExactly(food.name);
    if |request.customName| > 64 {
      PrefixIsValid(request.customName, 64);
    }
  }

  /** Otherwise the whole characters are stored, and a replacement for each byte of the last. */
  lemma CutNamesAreRepaired(food: Food, valid: Generator.Pools, request: Generator.Restrictions, d: Generator.Draw)
      returns (whole: nat)
    requires Generator.IsAttempt(food, valid, request.Effective(), d)
    requires |request.customName| > 64 && ValidUtf8(request.customName) && Continues(request.customName[64])
    ensures 61 <= whole < 64 && ValidUtf8(request.customName[..whole])
    ensures Sent(food).name == request.customName[..whole] + Replacements(64 - whole)
  {
    whole := CutArrives(request.customName, 64);
  }

  /** A longer one may be cut inside a character, and is then stored under another name than the generated one. */
  lemma CutNamesChange(prefix: string, d: Generator.Draw) returns (request: Generator.Restrictions)
    requires |prefix| == MAX_FOOD_NAME_LENGTH - 1 && forall k :: 0 <= k < |prefix| ==> prefix[k] as int < 0x80
    ensures request.customName == prefix + [0xC3 as char, 0xA9 as char] && ValidUtf8(request.customName)
    ensures forall food, valid :: Generator.IsAttempt(food, valid, request.Effective(), d) ==>
              food.name == prefix + [0xC3 as char] && Sent(food).name != food.name
  {
    var e := [0xC3 as char, 0xA9 as char];
    request := Generator.Restrictions(0, false, [], [], 0, 0, prefix + e);
    AsciiPrefix(prefix, e);
    assert e[2..] == "";
    var cut := prefix + [0xC3 as char];
    assert request.customName[..MAX_FOOD_NAME_LENGTH] == cut;
    AsciiPrefix(prefix, [0xC3 as char]);
    TransmitExactly(cut);
  }

  // ---------------------------------------------------------------------
  // The handler

  datatype Response = ServerError | Recommended(food: Food, calories: Int64, vegetarian: bool)

  /** The pools hold exactly the catalog's rows of each kind. */
  ghost predicate CatalogPools(pools: Generator.Pools, ref: Reference) {
    && (forall i :: i in pools.sauces <==> OfKind(ref, "sauce", i))
    && (forall i :: i in pools.proteins <==> OfKind(ref, "protein", i))
    && (forall i :: i in pools.vegetables <==> OfKind(ref, "vegetable", i))
    && (forall i :: i in pools.sideDishes <==> OfKind(ref, "side_dish", i))
    && (forall r :: r in pools.rices <==> exists key :: key in ref.rices && ref.rices[key] == r)
    && (forall t :: t in pools.tools <==> t in ref.tools)
  }

  /** The row `key` of the ingredients is of this kind. */
  ghost predicate RowOfKind(ref: Reference, kind: string, key: int) {
    key in ref.ingredients && key in ref.kinds && ref.kinds[key] == kind
  }

  ghost predicate NoneOfKind(ref: Reference, kind: string) {
    forall key :: !RowOfKind(ref, kind, key)
  }

  /** A food generated from the catalog has the name of one of its sauces, of a protein and of a vegetable. */
  lemma EachKindIsServed(food: Food, pools: Generator.Pools, r: Generator.Restrictions, d: Generator.Draw,
                         ref: Reference)
      returns (sauce: int, protein: int, vegetable: int)
    requires CatalogPools(pools, ref)
    requires Generator.IsAttempt(food, Generator.ValidPools(r, pools), r, d)
    ensures RowOfKind(ref, "sauce", sauce) && RowOfKind(ref, "protein", protein)
    ensures RowOfKind(ref, "vegetable", vegetable)
    ensures {ref.ingredients[sauce].name, ref.ingredients[protein].name, ref.ingredients[vegetable].name}
            <= Generator.Names(food.ingredients)
  {
    var s, p, v := Servings.EachKindIsServed(food, pools, r, d);
    assert OfKind(ref, "sauce", s) && OfKind(ref, "protein", p) && OfKind(ref, "vegetable", v);
    sauce :| RowOfKind(ref, "sauce", sauce) && ref.ingredients[sauce] == s;
    protein :| RowOfKind(ref, "protein", protein) && ref.ingredients[protein] == p;
    vegetable :| RowOfKind(ref, "vegetable", vegetable) && ref.ingredients[vegetable] == v;
  }

  /** The handler misses a kind exactly when the catalog has no row of it. */
  lemma KindMissingExactly(pools: Generator.Pools, ref: Reference)
    requires CatalogPools(pools, ref)
    ensures SomeKindMissing(pools) <==>
            NoneOfKind(ref, "sauce") || NoneOfKind(ref, "protein")
            || NoneOfKind(ref, "vegetable") || NoneOfKind(ref, "side_dish")
  {
    PoolMissing(pools.sauces, ref, "sauce");
    PoolMissing(pools.proteins, ref, "protein");
    PoolMissing(pools.vegetables, ref, "vegetable");
    PoolMissing(pools.sideDishes, ref, "side_dish");
  }

  lemma PoolMissing(pool: seq<Ingredient>, ref: Reference, kind: string)
    requires forall i :: i in pool <==> OfKind(ref, kind, i)
    ensures pool == [] <==> NoneOfKind(ref, kind)
  {
    if pool != [] {
      assert pool[0] in pool && OfKind(ref, kind, pool[0]);
      var key :| RowOfKind(ref, kind, key) && ref.ingredients[key] == pool[0];
    }
    if key :| RowOfKind(ref, kind, key) {
      assert OfKind(ref, kind, ref.ingredients[key]);
    }
  }

  lemma CatalogPoolsAreReference(pools: Generator.Pools, ref: Reference)
    requires CatalogPools(pools, ref) && Keyed(ref)
    ensures FromReference(pools, ref)
  {
  }

  method FetchPools(store: Catalog) returns (pools: Generator.Pools)
    ensures CatalogPools(pools, store.env.ref)
  {
    var sauces := store.GetIngredients("sauce");
    var proteins := store.GetIngredients("protein");
    var vegetables := store.GetIngredients("vegetable");
    var sideDishes := store.GetIngredients("side_dish");
    var tools := store.GetTools();
    var rices := store.GetRices();
    pools := Generator.Pools(sauces, proteins, vegetables, sideDishes, tools, rices);
  }

  /** Some kind of ingredient is missing from the catalog. */
  predicate SomeKindMissing(pools: Generator.Pools) {
    pools.sauces == [] || pools.proteins == [] || pools.vegetables == [] || pools.sideDishes == []
  }

  /** The generator, asked for `request`, can come to this outcome. */
  ghost predicate Answers(outcome: Generator.Outcome, pools: Generator.Pools, request: Generator.Restrictions,
                          draws: seq<Generator.Draw>)
    requires |draws| == Generator.ATTEMPTS
  {
    var r := request.Effective();
    Generator.IsAnswer(outcome, Generator.ValidPools(r, pools), r, draws)
  }

  /**
   POST /api/food against the store. It fails only when a kind of ingredient is
   missing from the catalog or the generator's random choice has nothing to
   choose from; the store never refuses the food. A food is answered as it is
   stored, which is as it was sent, under its new key.
   */
  method PostFood(store: Catalog, request: Generator.Restrictions, draws: seq<Generator.Draw>)
      returns (response: Response, pools: Generator.Pools)
    requires |draws| == Generator.ATTEMPTS
    requires store.Valid() && Keyed(store.env.ref)
    modifies store`foods, store`links, store`ratings, store`nextFood
    ensures store.Valid()
    ensures CatalogPools(pools, store.env.ref)
    ensures match response
            case ServerError =>
              && store.Contents() == old(store.Contents())
              && (SomeKindMissing(pools) || Answers(Generator.Panicked, pools, request, draws))
            case Recommended(food, calories, vegetarian) =>
              && !SomeKindMissing(pools)
              && food.id == old(store.nextFood)
              && Stores(store.Contents(), food.id, food)
              && InsertFood(old(store.Contents()), store.env, 0, RowOf(food), IngredientIds(food.ingredients))
                 == Some(store.Contents())
              && exists made, attempt ::
                   Sent(made) == food.(id := 0)
                   && Answers(Generator.Served(made, calories, vegetarian, attempt), pools, request, draws)
  {
    pools := FetchPools(store);
    CatalogPoolsAreReference(pools, store.env.ref);
    var outcome := Generator.Generate(pools, request, draws);
    if SomeKindMissing(pools) || outcome.Panicked? {
      return ServerError, pools;
    }
    var Served(made, calories, vegetarian, attempt) := outcome;
    GeneratedIsStorable(made, pools, request.Effective(), draws[attempt], store.Contents(), store.env);
    InsertFoodEffect(store.Contents(), store.env, 0, RowOf(Sent(made)), IngredientIds(made.ingredients));
    var result := store.RecordRecommendation(Sent(made));
    assert Sent(made) == result.value.(id := 0);
    return Recommended(result.value, calories, vegetarian), pools;
  }
}
