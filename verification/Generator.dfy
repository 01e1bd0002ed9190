/**
 The food generator of POST /api/food. Random numbers are an arbitrary `Draw`
 an attempt, and the iteration order of Go's map is left open.
 */
module Generator {
  import opened Wrappers
  import opened Entities
  import opened GoInt

  const ATTEMPTS := 10

  datatype Restrictions = Restrictions(
    maxCalories: Int64,
    mustBeVegetarian: bool,
    excludedIngredients: seq<string>,
    excludedTools: seq<string>,
    maxToppings: Int64,
    minToppings: Int64,
    customName: string)
  {
    function WithDefaults(): (r: Restrictions)
      ensures r.maxCalories != 0 && r.maxToppings != 0 && r.minToppings != 0
    {
      this.(maxCalories := if maxCalories == 0 then 1000 else maxCalories,
            maxToppings := if maxToppings == 0 then 5 else maxToppings,
            minToppings := if minToppings == 0 then 3 else minToppings)
    }

    /** The restrictions the handler works with. */
    function Effective(): Restrictions {
      var r := WithDefaults();
      if |r.customName| > MAX_FOOD_NAME_LENGTH then r.(customName := r.customName[..MAX_FOOD_NAME_LENGTH]) else r
    }

    predicate Admits(i: Ingredient) {
      i.name !in excludedIngredients && (mustBeVegetarian ==> i.vegetarian)
    }
  }

  datatype Pools = Pools(
    sauces: seq<Ingredient>,
    proteins: seq<Ingredient>,
    vegetables: seq<Ingredient>,
    sideDishes: seq<Ingredient>,
    tools: seq<string>,
    rices: seq<Rice>)

  /** One attempt's random numbers; `name` is the name made up for it. */
  datatype Draw = Draw(
    name: string,
    rice: nat, sauce: nat, protein: nat, vegetable: nat, tool: nat,
    extra: nat,
    sides: nat -> nat)

  // ---------------------------------------------------------------------
  // Filtering

  /** The admissible ingredients of a pool, in the pool's order. */
  ghost function Admitted(r: Restrictions, pool: seq<Ingredient>): seq<Ingredient> {
    if pool == [] then []
    else
      var last := pool[|pool| - 1];
      Admitted(r, pool[..|pool| - 1]) + if r.Admits(last) then [last] else []
  }

  ghost function AdmittedTools(r: Restrictions, tools: seq<string>): seq<string> {
    if tools == [] then []
    else
      var last := tools[|tools| - 1];
      AdmittedTools(r, tools[..|tools| - 1]) + if last !in r.excludedTools then [last] else []
  }

  ghost function ValidPools(r: Restrictions, pools: Pools): Pools {
    Pools(Admitted(r, pools.sauces), Admitted(r, pools.proteins), Admitted(r, pools.vegetables),
          Admitted(r, pools.sideDishes), AdmittedTools(r, pools.tools), pools.rices)
  }

  lemma {:induction false} AdmittedMembers(r: Restrictions, pool: seq<Ingredient>)
    ensures forall i :: i in Admitted(r, pool) <==> i in pool && r.Admits(i)
  {
    if pool != [] {
      var init := pool[..|pool| - 1];
      AdmittedMembers(r, init);
      assert pool == init + [pool[|pool| - 1]];
    }
  }

  lemma {:induction false} AdmittedToolMembers(r: Restrictions, tools: seq<string>)
    ensures forall t :: t in AdmittedTools(r, tools) <==> t in tools && t !in r.excludedTools
  {
    if tools != [] {
      var init := tools[..|tools| - 1];
      AdmittedToolMembers(r, init);
      assert tools == init + [tools[|tools| - 1]];
    }
  }

  method FilterIngredients(r: Restrictions, pool: seq<Ingredient>) returns (valid: seq<Ingredient>)
    ensures valid == Admitted(r, pool)
  {
    valid := [];
    for k := 0 to |pool|
      invariant valid == Admitted(r, pool[..k])
    {
      assert pool[..k + 1][..k] == pool[..k];
      if r.Admits(pool[k]) {
        valid := valid + [pool[k]];
      }
    }
    assert pool[..|pool|] == pool;
  }

  method FilterTools(r: Restrictions, tools: seq<string>) returns (valid: seq<string>)
    ensures valid == AdmittedTools(r, tools)
  {
    valid := [];
    for k := 0 to |tools|
      invariant valid == AdmittedTools(r, tools[..k])
    {
      assert tools[..k + 1][..k] == tools[..k];
      if tools[k] !in r.excludedTools {
        valid := valid + [tools[k]];
      }
    }
    assert tools[..|tools|] == tools;
  }

  // ---------------------------------------------------------------------
  // How many side dishes

  /** rand.Intn: None is its panic. */
  function Intn(n: Int64, random: nat): Option<nat> {
    if n <= 0 then None else Some(random % n)
  }

  /** The bound of the side dish loop; a negative bound runs it zero times. */
  function SideDishBound(r: Restrictions, random: nat): Option<int> {
    var extra := Wrap(r.maxToppings - r.minToppings);
    if extra > 0 then
      match Intn(Wrap(extra + 1), random)
      case None => None
      case Some(n) => Some(Wrap(n + r.minToppings))
    else Some(Wrap(extra + r.minToppings))
  }

  ghost predicate InRange(r: Restrictions, bound: Option<int>) {
    && bound.Some?
    && (if r.minToppings < r.maxToppings then r.minToppings else r.maxToppings) <= bound.value <= r.maxToppings
  }

  /**
   The number of side dishes lies between the smaller of the two limits and
   the maximum, whatever is drawn, exactly when `maximum - minimum` neither
   wraps below the least integer nor is the greatest integer.
   */
  lemma SideDishRange(r: Restrictions)
    ensures (forall random: nat :: InRange(r, SideDishBound(r, random))) <==>
            r.maxToppings - r.minToppings >= -LIMIT && r.maxToppings - r.minToppings != LIMIT - 1
  {
    var difference := r.maxToppings - r.minToppings;
    if difference >= -LIMIT && difference != LIMIT - 1 {
      forall random: nat
        ensures InRange(r, SideDishBound(r, random))
      {
        if 0 < difference < LIMIT {
          assert 0 <= random % (difference + 1) <= difference;
        }
      }
    } else {
      assert !InRange(r, SideDishBound(r, 0));
    }
  }

  lemma SmallModulus(x: nat, m: nat)
    requires x < m
    ensures x % m == x
  {
  }

  /** Every count between the limits can be drawn. */
  lemma SideDishCountsReached(r: Restrictions, above: nat)
    ensures r.minToppings + above <= r.maxToppings && r.maxToppings - r.minToppings < LIMIT - 1 ==>
              SideDishBound(r, above) == Some(r.minToppings + above)
  {
    var span := r.maxToppings - r.minToppings;
    if above <= span && 0 < span < LIMIT - 1 {
      assert Wrap(span) == span && Wrap(span + 1) == span + 1;
      SmallModulus(above, span + 1);
      assert Intn(span + 1, above) == Some(above);
    }
  }

  /** A request without topping limits gets three to five side dishes, each number possible. */
  lemma DefaultSideDishes(request: Restrictions, count: int)
    requires request.minToppings == 0 && request.maxToppings == 0
    ensures (exists random: nat :: SideDishBound(request.Effective(), random) == Some(count)) <==> 3 <= count <= 5
  {
    var r := request.Effective();
    forall random: nat | SideDishBound(r, random) == Some(count)
      ensures 3 <= count <= 5
    {
      assert 0 <= random % 3 <= 2;
    }
    if 3 <= count <= 5 {
      SideDishCountsReached(r, count - 3);
    }
  }

  lemma SideDishesAtMostMaximum(r: Restrictions, random: nat)
    requires r.maxToppings >= 0 && SideDishBound(r, random).Some?
    ensures SideDishBound(r, random).value <= r.maxToppings
  {
    SideDishRange(r);
    if r.maxToppings - r.minToppings != LIMIT - 1 {
      assert InRange(r, SideDishBound(r, random));
    }
  }

  function SideDishCount(r: Restrictions, random: nat): nat {
    match SideDishBound(r, random)
    case None => 0
    case Some(bound) => if bound < 0 then 0 else bound
  }

  // ---------------------------------------------------------------------
  // One attempt

  /** Some rand.Intn of the attempt gets a bound it refuses. */
  ghost predicate Panics(valid: Pools, r: Restrictions, d: Draw) {
    || valid.rices == [] || valid.sauces == [] || valid.proteins == [] || valid.vegetables == []
    || valid.tools == []
    || SideDishBound(r, d.extra) == None
    || (SideDishCount(r, d.extra) > 0 && valid.sideDishes == [])
  }

  function Pick<T>(pool: seq<T>, random: nat): (choice: T)
    requires pool != []
    ensures choice in pool
  {
    pool[random % |pool|]
  }

  ghost function Sides(valid: Pools, d: Draw, n: nat): seq<Ingredient>
    requires n > 0 ==> valid.sideDishes != []
  {
    seq(n, k requires 0 <= k < n => Pick(valid.sideDishes, d.sides(k)))
  }

  /** The ingredients drawn, before duplicates go. */
  ghost function Drawn(valid: Pools, r: Restrictions, d: Draw): seq<Ingredient>
    requires !Panics(valid, r, d)
  {
    [Pick(valid.sauces, d.sauce), Pick(valid.proteins, d.protein), Pick(valid.vegetables, d.vegetable)]
    + Sides(valid, d, SideDishCount(r, d.extra))
  }

  /** The map from name to ingredient; later ingredients replace earlier ones. */
  ghost function ByName(ingredients: seq<Ingredient>): map<string, Ingredient> {
    if ingredients == [] then map[]
    else
      var last := ingredients[|ingredients| - 1];
      ByName(ingredients[..|ingredients| - 1])[last.name := last]
  }

  ghost predicate NamesDistinct(s: seq<Ingredient>) {
    forall j, k :: 0 <= j < k < |s| ==> s[j].name != s[k].name
  }

  /** `list` visits every entry of `m` once, in some order. */
  ghost predicate Enumerates(m: map<string, Ingredient>, list: seq<Ingredient>) {
    && NamesDistinct(list)
    && (forall k :: 0 <= k < |list| ==> list[k].name in m && m[list[k].name] == list[k])
    && (forall name :: name in m ==> m[name] in list)
  }

  /** `food` is a possible result of an attempt with these draws. */
  ghost predicate IsAttempt(food: Food, valid: Pools, r: Restrictions, d: Draw) {
    && !Panics(valid, r, d)
    && food.id == 0
    && food.name == (if r.customName == "" then d.name else r.customName)
    && food.rice == Pick(valid.rices, d.rice)
    && food.tool == Pick(valid.tools, d.tool)
    && Enumerates(ByName(Drawn(valid, r, d)), food.ingredients)
  }

  method Dedupe(ingredients: seq<Ingredient>) returns (list: seq<Ingredient>)
    ensures Enumerates(ByName(ingredients), list)
  {
    var unique: map<string, Ingredient> := map[];
    for k := 0 to |ingredients|
      invariant unique == ByName(ingredients[..k])
      invariant KeyedByName(unique)
    {
      assert ingredients[..k + 1][..k] == ingredients[..k];
      unique := unique[ingredients[k].name := ingredients[k]];
    }
    assert ingredients[..|ingredients|] == ingredients;
    list := [];
    var todo := unique;
    while todo != map[]
      invariant todo.Keys <= unique.Keys && forall name :: name in todo ==> todo[name] == unique[name]
      invariant NamesDistinct(list)
      invariant forall k :: 0 <= k < |list| ==>
                  list[k].name in unique && list[k].name !in todo && unique[list[k].name] == list[k]
      invariant forall name :: name in unique && name !in todo ==> unique[name] in list
      decreases |todo|
    {
      SomeName(todo);
      var name :| name in todo;
      list := list + [todo[name]];
      todo := todo - {name};
    }
  }

  ghost predicate KeyedByName(m: map<string, Ingredient>) {
    forall name :: name in m ==> m[name].name == name
  }

  lemma SomeName(m: map<string, Ingredient>)
    ensures m == map[] || exists name :: name in m
  {
    if forall name :: name !in m {
      assert m == map[];
    }
  }

  method TryOnce(valid: Pools, r: Restrictions, d: Draw) returns (food: Option<Food>)
    ensures food == None <==> Panics(valid, r, d)
    ensures food.Some? ==> IsAttempt(food.value, valid, r, d)
  {
    if valid.rices == [] || valid.sauces == [] || valid.proteins == [] || valid.vegetables == [] || valid.tools == [] {
      return None;
    }
    var ingredients :=
      [Pick(valid.sauces, d.sauce), Pick(valid.proteins, d.protein), Pick(valid.vegetables, d.vegetable)];
    var bound := SideDishBound(r, d.extra);
    if bound == None || (bound.value > 0 && valid.sideDishes == []) {
      return None;
    }
    ghost var base := ingredients;
    var k := 0;
    while k < bound.value
      invariant 0 <= k <= SideDishCount(r, d.extra)
      invariant ingredients == base + Sides(valid, d, k)
    {
      ingredients := ingredients + [Pick(valid.sideDishes, d.sides(k))];
      k := k + 1;
    }
    assert ingredients == Drawn(valid, r, d);
    ingredients := Dedupe(ingredients);
    food := Some(Food(0, if r.customName == "" then d.name else r.customName,
                      Pick(valid.rices, d.rice), ingredients, Pick(valid.tools, d.tool)));
  }

  // ---------------------------------------------------------------------
  // The answer

  datatype Outcome = Panicked | Served(food: Food, calories: Int64, vegetarian: bool, attempt: nat)

  /** The attempt's food has too many calories, whatever the map order was. */
  ghost predicate OverLimit(valid: Pools, r: Restrictions, d: Draw) {
    forall food :: IsAttempt(food, valid, r, d) ==> TotalCalories(food.ingredients) > r.maxCalories
  }

  /** The first attempt within the limit, else the tenth; nothing after it is drawn. */
  ghost predicate IsAnswer(outcome: Outcome, valid: Pools, r: Restrictions, draws: seq<Draw>)
    requires |draws| == ATTEMPTS
  {
    match outcome
    case Panicked =>
      exists k :: 0 <= k < ATTEMPTS && Panics(valid, r, draws[k])
        && forall j :: 0 <= j < k ==> !Panics(valid, r, draws[j]) && OverLimit(valid, r, draws[j])
    case Served(food, calories, vegetarian, k) =>
      && k < ATTEMPTS
      && (forall j :: 0 <= j < k ==> !Panics(valid, r, draws[j]) && OverLimit(valid, r, draws[j]))
      && IsAttempt(food, valid, r, draws[k])
      && calories == TotalCalories(food.ingredients)
      && (vegetarian <==> AllVegetarian(food.ingredients))
      && (calories <= r.maxCalories || k == ATTEMPTS - 1)
  }

  method FilterPools(r: Restrictions, pools: Pools) returns (valid: Pools)
    ensures valid == ValidPools(r, pools)
  {
    var sauces := FilterIngredients(r, pools.sauces);
    var proteins := FilterIngredients(r, pools.proteins);
    var vegetables := FilterIngredients(r, pools.vegetables);
    var sideDishes := FilterIngredients(r, pools.sideDishes);
    var tools := FilterTools(r, pools.tools);
    valid := Pools(sauces, proteins, vegetables, sideDishes, tools, pools.rices);
  }

  /** The ten-attempt loop, which leaves the last food in place. */
  method TryTenTimes(valid: Pools, r: Restrictions, draws: seq<Draw>) returns (outcome: Outcome)
    requires |draws| == ATTEMPTS
    ensures IsAnswer(outcome, valid, r, draws)
  {
    var attempt := 0;
    while true
      invariant 0 <= attempt < ATTEMPTS
      invariant forall j :: 0 <= j < attempt ==> !Panics(valid, r, draws[j]) && OverLimit(valid, r, draws[j])
      decreases ATTEMPTS - attempt
    {
      var tried := TryOnce(valid, r, draws[attempt]);
      if tried == None {
        return Panicked;
      }
      var calories := CalculateCalories(tried.value);
      if calories <= r.maxCalories || attempt == ATTEMPTS - 1 {
        var vegetarian := IsVegetarian(tried.value);
        return Served(tried.value, calories, vegetarian, attempt);
      }
      AttemptsAgree(tried.value, valid, r, draws[attempt]);
      attempt := attempt + 1;
    }
  }

  method Generate(pools: Pools, request: Restrictions, draws: seq<Draw>)
      returns (outcome: Outcome)
    requires |draws| == ATTEMPTS
    ensures IsAnswer(outcome, ValidPools(request.Effective(), pools), request.Effective(), draws)
  {
    var r := request.WithDefaults();
    if |r.customName| > MAX_FOOD_NAME_LENGTH {
      r := r.(customName := r.customName[..MAX_FOOD_NAME_LENGTH]);
    }
    var valid := FilterPools(r, pools);
    outcome := TryTenTimes(valid, r, draws);
  }

  // ---------------------------------------------------------------------
  // Map order does not matter

  lemma {:induction false} NamedOnce(s: seq<Ingredient>, i: Ingredient)
    requires NamesDistinct(s)
    ensures multiset(s)[i] == if i in s then 1 else 0
  {
    if s != [] {
      var init, last := s[..|s| - 1], s[|s| - 1];
      NamedOnce(init, i);
      assert s == init + [last];
    }
  }

  /** Two enumerations of one map are permutations of each other. */
  lemma EnumerationsPermute(m: map<string, Ingredient>, s: seq<Ingredient>, t: seq<Ingredient>)
    requires Enumerates(m, s) && Enumerates(m, t)
    ensures multiset(s) == multiset(t)
  {
    forall i: Ingredient
      ensures multiset(s)[i] == multiset(t)[i]
    {
      NamedOnce(s, i);
      NamedOnce(t, i);
    }
  }

  /** Two foods of one attempt differ in ingredient order only. */
  lemma SameDrawsSameFood(food: Food, other: Food, valid: Pools, r: Restrictions, d: Draw)
    requires IsAttempt(food, valid, r, d) && IsAttempt(other, valid, r, d)
    ensures other == food.(ingredients := other.ingredients)
    ensures multiset(other.ingredients) == multiset(food.ingredients)
    ensures TotalCalories(other.ingredients) == TotalCalories(food.ingredients)
    ensures AllVegetarian(other.ingredients) <==> AllVegetarian(food.ingredients)
  {
    EnumerationsPermute(ByName(Drawn(valid, r, d)), food.ingredients, other.ingredients);
    CaloriesIgnoreOrder(food.ingredients, other.ingredients);
    VegetarianIgnoresOrder(food.ingredients, other.ingredients);
  }

  lemma AttemptsAgree(food: Food, valid: Pools, r: Restrictions, d: Draw)
    requires IsAttempt(food, valid, r, d)
    ensures OverLimit(valid, r, d) <==> TotalCalories(food.ingredients) > r.maxCalories
  {
    forall other | IsAttempt(other, valid, r, d)
      ensures TotalCalories(other.ingredients) == TotalCalories(food.ingredients)
    {
      SameDrawsSameFood(food, other, valid, r, d);
    }
  }

  /** An answer over the limit means every one of the ten attempts was over it. */
  lemma OverLimitAnswer(outcome: Outcome, valid: Pools, r: Restrictions, draws: seq<Draw>)
    requires |draws| == ATTEMPTS
    ensures outcome.Served? && IsAnswer(outcome, valid, r, draws) ==>
              (outcome.calories > r.maxCalories <==>
               forall j :: 0 <= j < ATTEMPTS ==> !Panics(valid, r, draws[j]) && OverLimit(valid, r, draws[j]))
  {
    if outcome.Served? && IsAnswer(outcome, valid, r, draws) {
      var d := draws[outcome.attempt];
      assert OverLimit(valid, r, d) <==> outcome.calories > r.maxCalories by {
        AttemptsAgree(outcome.food, valid, r, d);
      }
      assert !Panics(valid, r, d);
    }
  }

  // ---------------------------------------------------------------------
  // What is in a generated food

  /** Every ingredient kept was drawn, and every name drawn is kept. */
  lemma {:induction false} ByNameContents(s: seq<Ingredient>)
    ensures KeyedByName(ByName(s))
    ensures forall name :: name in ByName(s) ==> ByName(s)[name] in s
    ensures forall i :: i in s ==> i.name in ByName(s)
    ensures |ByName(s)| <= |s|
    ensures s != [] ==> |ByName(s)| >= 1
  {
    if s != [] {
      var init, last := s[..|s| - 1], s[|s| - 1];
      ByNameContents(init);
      assert s == init + [last];
      assert last.name in ByName(s);
    }
  }

  ghost function Names(s: seq<Ingredient>): set<string> {
    set i | i in s :: i.name
  }

  lemma {:induction false} DistinctNamesSize(s: seq<Ingredient>)
    requires NamesDistinct(s)
    ensures |Names(s)| == |s|
  {
    if s != [] {
      var init, last := s[..|s| - 1], s[|s| - 1];
      DistinctNamesSize(init);
      assert s == init + [last];
      assert Names(s) == Names(init) + {last.name};
      assert last.name !in Names(init);
    }
  }

  lemma EnumerationSize(m: map<string, Ingredient>, list: seq<Ingredient>)
    requires Enumerates(m, list) && KeyedByName(m)
    ensures |list| == |m|
  {
    DistinctNamesSize(list);
    assert Names(list) == m.Keys;
    assert |m.Keys| == |m|;
  }

  ghost predicate Offers(pools: Pools, i: Ingredient) {
    i in pools.sauces || i in pools.proteins || i in pools.vegetables || i in pools.sideDishes
  }

  lemma ValidOffers(pools: Pools, r: Restrictions, i: Ingredient)
    ensures Offers(ValidPools(r, pools), i) <==> Offers(pools, i) && r.Admits(i)
  {
    AdmittedMembers(r, pools.sauces);
    AdmittedMembers(r, pools.proteins);
    AdmittedMembers(r, pools.vegetables);
    AdmittedMembers(r, pools.sideDishes);
  }

  lemma DrawnAreOffered(valid: Pools, r: Restrictions, d: Draw, i: Ingredient)
    requires !Panics(valid, r, d) && i in Drawn(valid, r, d)
    ensures Offers(valid, i)
  {
    var k :| 0 <= k < |Drawn(valid, r, d)| && Drawn(valid, r, d)[k] == i;
    if k >= 3 {
      assert i == Pick(valid.sideDishes, d.sides(k - 3));
    }
  }

  /**
   A generated food has between one ingredient and three more than its side
   dishes, no name twice, only admissible ingredients from the pools, an
   admissible tool and a known rice.
   */
  lemma GeneratedContents(food: Food, pools: Pools, r: Restrictions, d: Draw)
    requires IsAttempt(food, ValidPools(r, pools), r, d)
    ensures 1 <= |food.ingredients| <= 3 + SideDishCount(r, d.extra)
    ensures NamesDistinct(food.ingredients)
    ensures forall i :: i in food.ingredients ==> r.Admits(i) && Offers(pools, i)
    ensures food.tool in pools.tools && food.tool !in r.excludedTools
    ensures food.rice in pools.rices
  {
    var drawn := Drawn(ValidPools(r, pools), r, d);
    ByNameContents(drawn);
    EnumerationSize(ByName(drawn), food.ingredients);
    assert |drawn| == 3 + SideDishCount(r, d.extra);
    forall i | i in food.ingredients
      ensures r.Admits(i) && Offers(pools, i)
    {
      DrawnAreOffered(ValidPools(r, pools), r, d, i);
      ValidOffers(pools, r, i);
    }
    AdmittedToolMembers(r, pools.tools);
    assert food.tool in AdmittedTools(r, pools.tools);
  }

  // ---------------------------------------------------------------------
  // Sizes that do occur

  ghost function Longest(names: seq<string>): nat {
    if names == [] then 0
    else
      var rest, last := Longest(names[..|names| - 1]), |names[|names| - 1]|;
      if rest < last then last else rest
  }

  lemma {:induction false} LongestBounds(names: seq<string>)
    ensures forall name :: name in names ==> |name| <= Longest(names)
  {
    if names != [] {
      var init := names[..|names| - 1];
      LongestBounds(init);
      assert names == init + [names[|names| - 1]];
    }
  }

  /** Names longer than every excluded one, a different one for every `k`. */
  ghost function FreshName(taken: seq<string>, k: nat): (name: string)
    ensures name !in taken
    ensures |name| == Longest(taken) + 1 + k
  {
    LongestBounds(taken);
    seq(Longest(taken) + 1 + k, _ => 'x')
  }

  /** The first has all the calories, the others none. */
  ghost function FreshIngredient(r: Restrictions, calories: Int64, k: nat): (i: Ingredient)
    ensures r.Admits(i)
  {
    Ingredient(k, FreshName(r.excludedIngredients, k), if k == 0 then calories else 0, true)
  }

  ghost function FreshIngredients(r: Restrictions, calories: Int64, size: nat): seq<Ingredient> {
    seq(size, k requires 0 <= k < size => FreshIngredient(r, calories, k))
  }

  /** The same ingredients, the last of them repeated up to length `n`. */
  ghost function Repeated(r: Restrictions, calories: Int64, size: nat, n: nat): seq<Ingredient>
    requires 1 <= size
  {
    seq(n, k requires 0 <= k < n => FreshIngredient(r, calories, if k < size then k else size - 1))
  }

  lemma {:induction false} AdmittedWhole(r: Restrictions, pool: seq<Ingredient>)
    requires forall k :: 0 <= k < |pool| ==> r.Admits(pool[k])
    ensures Admitted(r, pool) == pool
  {
    if pool != [] {
      AdmittedWhole(r, pool[..|pool| - 1]);
    }
  }

  /** Distinct names are kept, and duplicates go. */
  lemma DistinctAreKept(drawn: seq<Ingredient>, list: seq<Ingredient>)
    requires NamesDistinct(list)
    requires forall i :: i in drawn <==> i in list
    ensures Enumerates(ByName(drawn), list)
  {
    var m := ByName(drawn);
    ByNameContents(drawn);
    forall k | 0 <= k < |list|
      ensures list[k].name in m && m[list[k].name] == list[k]
    {
      assert list[k] in drawn;
      assert m[list[k].name] in list;
    }
  }

  lemma {:induction false} FreshCalories(r: Restrictions, calories: Int64, size: nat)
    requires size > 0
    ensures TotalCalories(FreshIngredients(r, calories, size)) == calories
  {
    var s := FreshIngredients(r, calories, size);
    assert s[..size - 1] == FreshIngredients(r, calories, size - 1);
    if size > 1 {
      FreshCalories(r, calories, size - 1);
    } else {
      assert TotalCalories(s[..0]) == 0;
    }
  }

  lemma AllAdmitted(r: Restrictions, pools: Pools, tool: string)
    requires forall i :: Offers(pools, i) ==> r.Admits(i)
    requires pools.tools == [tool] && tool !in r.excludedTools
    ensures ValidPools(r, pools) == pools
  {
    AdmittedWhole(r, pools.sauces);
    AdmittedWhole(r, pools.proteins);
    AdmittedWhole(r, pools.vegetables);
    AdmittedWhole(r, pools.sideDishes);
    assert [tool][..0] == [] && AdmittedTools(r, []) == [];
  }

  /** A catalog with these ingredients, one in each of the basic kinds. */
  ghost function FreshPools(r: Restrictions, all: seq<Ingredient>): (pools: Pools)
    requires |all| >= 3 && forall k :: 0 <= k < |all| ==> r.Admits(all[k])
    ensures ValidPools(r, pools) == pools
    ensures pools.sauces == all[..1] && pools.proteins == all[1..2] && pools.vegetables == all[2..3]
    ensures pools.sideDishes == all[3..] && pools.rices != [] && pools.tools != []
  {
    var pools := Pools(all[..1], all[1..2], all[2..3], all[3..], [FreshName(r.excludedTools, 0)], [Rice(1, "", 0)]);
    AllAdmitted(r, pools, FreshName(r.excludedTools, 0));
    pools
  }

  lemma FreshNamesDistinct(r: Restrictions, calories: Int64, size: nat)
    ensures NamesDistinct(FreshIngredients(r, calories, size))
  {
    var all := FreshIngredients(r, calories, size);
    forall j, k | 0 <= j < k < size
      ensures all[j].name != all[k].name
    {
      assert |all[j].name| < |all[k].name|;
    }
  }

  lemma RepeatedHasTheSame(r: Restrictions, calories: Int64, size: nat, n: nat)
    requires 1 <= size <= n
    ensures forall i :: i in Repeated(r, calories, size, n) <==> i in FreshIngredients(r, calories, size)
  {
    var drawn, list := Repeated(r, calories, size, n), FreshIngredients(r, calories, size);
    forall k | 0 <= k < size
      ensures list[k] in drawn
    {
      assert drawn[k] == list[k];
    }
    forall k | 0 <= k < n
      ensures drawn[k] in list
    {
      assert drawn[k] == list[if k < size then k else size - 1];
    }
  }

  /**
   Whatever is excluded, for every draw that does not panic some catalog leaves
   any number of ingredients from one to all those drawn, of any calories.
   */
  lemma AttemptOfSize(r: Restrictions, random: nat, size: nat, calories: Int64)
      returns (food: Food, pools: Pools, d: Draw)
    requires SideDishBound(r, random).Some?
    requires 1 <= size <= 3 + SideDishCount(r, random)
    ensures d.extra == random && IsAttempt(food, ValidPools(r, pools), r, d)
    ensures |food.ingredients| == size
    ensures TotalCalories(food.ingredients) == calories
  {
    var drawn := Repeated(r, calories, size, 3 + SideDishCount(r, random));
    var list := FreshIngredients(r, calories, size);
    pools := FreshPools(r, drawn);
    d := Draw("", 0, 0, 0, 0, 0, random, k => k);
    FreshNamesDistinct(r, calories, size);
    RepeatedHasTheSame(r, calories, size, |drawn|);
    food := Keeps(pools, r, d, drawn, list);
    FreshCalories(r, calories, size);
  }

  lemma Keeps(pools: Pools, r: Restrictions, d: Draw, drawn: seq<Ingredient>, list: seq<Ingredient>)
      returns (food: Food)
    requires !Panics(pools, r, d) && |drawn| == 3 + SideDishCount(r, d.extra)
    requires pools.sauces == drawn[..1] && pools.proteins == drawn[1..2] && pools.vegetables == drawn[2..3]
    requires pools.sideDishes == drawn[3..] && forall k: nat :: d.sides(k) == k
    requires NamesDistinct(list) && forall i :: i in drawn <==> i in list
    ensures IsAttempt(food, pools, r, d) && food.ingredients == list
  {
    food := Food(0, if r.customName == "" then d.name else r.customName,
                 Pick(pools.rices, d.rice), list, Pick(pools.tools, d.tool));
    DistinctAreKept(drawn, list);
    DrawnInOrder(pools, r, d, drawn);
  }

  /** In particular all of them, within the calorie limit. */
  lemma FullAttempt(r: Restrictions, random: nat) returns (food: Food, pools: Pools, d: Draw)
    requires SideDishBound(r, random).Some?
    ensures d.extra == random && IsAttempt(food, ValidPools(r, pools), r, d)
    ensures |food.ingredients| == 3 + SideDishCount(r, random)
    ensures TotalCalories(food.ingredients) == r.maxCalories
  {
    food, pools, d := AttemptOfSize(r, random, 3 + SideDishCount(r, random), r.maxCalories);
  }

  lemma DrawnInOrder(pools: Pools, r: Restrictions, d: Draw, all: seq<Ingredient>)
    requires !Panics(pools, r, d) && |all| == 3 + SideDishCount(r, d.extra)
    requires pools.sauces == all[..1] && pools.proteins == all[1..2] && pools.vegetables == all[2..3]
    requires pools.sideDishes == all[3..] && forall k: nat :: d.sides(k) == k
    ensures Drawn(pools, r, d) == all
  {
    var n := SideDishCount(r, d.extra);
    forall k | 0 <= k < n
      ensures Sides(pools, d, n)[k] == all[3 + k]
    {
      SmallModulus(k, n);
    }
    assert Drawn(pools, r, d)[3..] == Sides(pools, d, n);
  }

  /** No food of these restrictions has more than three ingredients beyond the maximum. */
  ghost predicate SizeBounded(r: Restrictions) {
    forall food, pools, d :: IsAttempt(food, ValidPools(r, pools), r, d) ==>
      |food.ingredients| <= 3 + (if r.maxToppings > 0 then r.maxToppings else 0)
  }

  lemma GeneratedSize(food: Food, pools: Pools, r: Restrictions, d: Draw)
    requires IsAttempt(food, ValidPools(r, pools), r, d)
    requires r.maxToppings - r.minToppings >= -LIMIT - 1
    ensures 1 <= |food.ingredients| <= 3 + (if r.maxToppings > 0 then r.maxToppings else 0)
  {
    GeneratedContents(food, pools, r, d);
    SideDishRange(r);
    if r.maxToppings - r.minToppings != LIMIT - 1 && r.maxToppings - r.minToppings != -LIMIT - 1 {
      assert InRange(r, SideDishBound(r, d.extra));
    }
  }

  /**
   The bound holds for every catalog and draw exactly when the difference of
   the limits is at least -2^63 - 1; at -2^63 - 1 the draw always panics, and
   below it a draw of zero serves the minimum, above the maximum.
   */
  lemma SizeBoundedExactly(r: Restrictions)
    ensures SizeBounded(r) <==> r.maxToppings - r.minToppings >= -LIMIT - 1
  {
    if r.maxToppings - r.minToppings >= -LIMIT - 1 {
      forall food, pools, d | IsAttempt(food, ValidPools(r, pools), r, d)
        ensures |food.ingredients| <= 3 + (if r.maxToppings > 0 then r.maxToppings else 0)
      {
        GeneratedSize(food, pools, r, d);
      }
    } else {
      assert SideDishBound(r, 0) == Some(r.minToppings);
      var food, pools, d := FullAttempt(r, 0);
      assert |food.ingredients| > 3;
    }
  }
}
