/**
 Which foods the generator can serve, in terms of the catalog alone: every
 admissible choice, and nothing else.
 */
module Servings {
  import opened Wrappers
  import opened Entities
  import opened GoInt
  import opened Generator

  /** `i` may be taken from this pool. */
  ghost predicate Choice(r: Restrictions, pool: seq<Ingredient>, i: Ingredient) {
    i in pool && i.name !in r.excludedIngredients && (r.mustBeVegetarian ==> i.vegetarian)
  }

  /** A sauce, a protein, a vegetable, and side dishes in a number that can be drawn. */
  ghost predicate Meal(pools: Pools, r: Restrictions, chosen: seq<Ingredient>) {
    && |chosen| >= 3
    && Choice(r, pools.sauces, chosen[0])
    && Choice(r, pools.proteins, chosen[1])
    && Choice(r, pools.vegetables, chosen[2])
    && (forall k :: 3 <= k < |chosen| ==> Choice(r, pools.sideDishes, chosen[k]))
    && exists random: nat :: SideDishBound(r, random).Some? && SideDishCount(r, random) == |chosen| - 3
  }

  /** `i` was chosen, and nothing of its name after it. */
  ghost predicate Kept(chosen: seq<Ingredient>, i: Ingredient) {
    exists k :: 0 <= k < |chosen| && chosen[k] == i && forall j :: k < j < |chosen| ==> chosen[j].name != i.name
  }

  /** `food` is this choice, with a rice and an admissible tool. */
  ghost predicate Serves(food: Food, pools: Pools, r: Restrictions, chosen: seq<Ingredient>) {
    && Meal(pools, r, chosen)
    && food.id == 0 && (r.customName != "" ==> food.name == r.customName)
    && food.rice in pools.rices
    && food.tool in pools.tools && food.tool !in r.excludedTools
    && NamesDistinct(food.ingredients)
    && forall i :: i in food.ingredients <==> Kept(chosen, i)
  }

  lemma {:induction false} ByNameKeepsLast(s: seq<Ingredient>, i: Ingredient)
    ensures i.name in ByName(s) && ByName(s)[i.name] == i <==> Kept(s, i)
  {
    if s != [] {
      var init, last := s[..|s| - 1], s[|s| - 1];
      ByNameKeepsLast(init, i);
      assert s == init + [last];
      if last.name == i.name {
        assert s[|s| - 1].name == i.name;
      } else if Kept(init, i) {
        var k :| 0 <= k < |init| && init[k] == i && forall j :: k < j < |init| ==> init[j].name != i.name;
        assert s[k] == i;
      }
    }
  }

  lemma EnumerationIsKept(s: seq<Ingredient>, list: seq<Ingredient>)
    ensures Enumerates(ByName(s), list) <==> NamesDistinct(list) && forall i :: i in list <==> Kept(s, i)
  {
    var m := ByName(s);
    ByNameContents(s);
    forall i
      ensures Kept(s, i) <==> i.name in m && m[i.name] == i
    {
      ByNameKeepsLast(s, i);
    }
    if NamesDistinct(list) && forall i :: i in list <==> Kept(s, i) {
      assert forall k :: 0 <= k < |list| ==> list[k] in list;
      forall name | name in m
        ensures m[name] in list
      {
        assert m[name].name == name;
      }
    }
  }

  lemma PoolChoices(r: Restrictions, pool: seq<Ingredient>)
    ensures forall i :: i in Admitted(r, pool) <==> Choice(r, pool, i)
  {
    AdmittedMembers(r, pool);
  }

  lemma ChoicesOf(pools: Pools, r: Restrictions)
    ensures var valid := ValidPools(r, pools);
            && (forall i :: i in valid.sauces <==> Choice(r, pools.sauces, i))
            && (forall i :: i in valid.proteins <==> Choice(r, pools.proteins, i))
            && (forall i :: i in valid.vegetables <==> Choice(r, pools.vegetables, i))
            && (forall i :: i in valid.sideDishes <==> Choice(r, pools.sideDishes, i))
            && (forall t :: t in valid.tools <==> t in pools.tools && t !in r.excludedTools)
  {
    PoolChoices(r, pools.sauces);
    PoolChoices(r, pools.proteins);
    PoolChoices(r, pools.vegetables);
    PoolChoices(r, pools.sideDishes);
    AdmittedToolMembers(r, pools.tools);
  }

  lemma DrawnIsMeal(pools: Pools, r: Restrictions, d: Draw)
    requires !Panics(ValidPools(r, pools), r, d)
    ensures Meal(pools, r, Drawn(ValidPools(r, pools), r, d))
  {
    var valid := ValidPools(r, pools);
    var chosen := Drawn(valid, r, d);
    ChoicesOf(pools, r);
    assert chosen[0] == Pick(valid.sauces, d.sauce);
    assert chosen[1] == Pick(valid.proteins, d.protein);
    assert chosen[2] == Pick(valid.vegetables, d.vegetable);
    assert forall k :: 3 <= k < |chosen| ==> chosen[k] == Pick(valid.sideDishes, d.sides(k - 3));
    assert |chosen| - 3 == SideDishCount(r, d.extra);
  }

  lemma AttemptServes(food: Food, pools: Pools, r: Restrictions, d: Draw)
    requires IsAttempt(food, ValidPools(r, pools), r, d)
    ensures Serves(food, pools, r, Drawn(ValidPools(r, pools), r, d))
  {
    DrawnIsMeal(pools, r, d);
    ChoicesOf(pools, r);
    EnumerationIsKept(Drawn(ValidPools(r, pools), r, d), food.ingredients);
    assert food.tool in ValidPools(r, pools).tools;
  }

  ghost function IndexOf<T(!new)>(s: seq<T>, x: T): (k: nat)
    requires x in s
    ensures k < |s| && s[k] == x
  {
    var k: nat :| k < |s| && s[k] == x;
    k
  }

  lemma PickIndex<T(!new)>(s: seq<T>, x: T)
    requires x in s
    ensures Pick(s, IndexOf(s, x)) == x
  {
    SmallModulus(IndexOf(s, x), |s|);
  }

  /** The draw that makes these choices. */
  ghost function DrawFor(valid: Pools, chosen: seq<Ingredient>, name: string, rice: Rice, tool: string,
                         random: nat): Draw
    requires |chosen| >= 3 && rice in valid.rices && tool in valid.tools
    requires chosen[0] in valid.sauces && chosen[1] in valid.proteins && chosen[2] in valid.vegetables
    requires forall k :: 3 <= k < |chosen| ==> chosen[k] in valid.sideDishes
  {
    Draw(name, IndexOf(valid.rices, rice), IndexOf(valid.sauces, chosen[0]), IndexOf(valid.proteins, chosen[1]),
         IndexOf(valid.vegetables, chosen[2]), IndexOf(valid.tools, tool), random,
         (k: nat) => if 3 + k < |chosen| then IndexOf(valid.sideDishes, chosen[3 + k]) else 0)
  }

  lemma DrawForDraws(valid: Pools, r: Restrictions, chosen: seq<Ingredient>, name: string, rice: Rice, tool: string,
                     random: nat)
    requires |chosen| >= 3 && rice in valid.rices && tool in valid.tools
    requires chosen[0] in valid.sauces && chosen[1] in valid.proteins && chosen[2] in valid.vegetables
    requires forall k :: 3 <= k < |chosen| ==> chosen[k] in valid.sideDishes
    requires SideDishBound(r, random).Some? && SideDishCount(r, random) == |chosen| - 3
    ensures var d := DrawFor(valid, chosen, name, rice, tool, random);
            && !Panics(valid, r, d) && Drawn(valid, r, d) == chosen
            && Pick(valid.rices, d.rice) == rice && Pick(valid.tools, d.tool) == tool
  {
    var d := DrawFor(valid, chosen, name, rice, tool, random);
    PickIndex(valid.rices, rice);
    PickIndex(valid.tools, tool);
    BasicsDrawn(valid, chosen);
    SidesDrawn(valid, chosen, d);
    assert chosen == chosen[..3] + chosen[3..];
  }

  lemma BasicsDrawn(valid: Pools, chosen: seq<Ingredient>)
    requires |chosen| >= 3
    requires chosen[0] in valid.sauces && chosen[1] in valid.proteins && chosen[2] in valid.vegetables
    ensures [Pick(valid.sauces, IndexOf(valid.sauces, chosen[0])),
             Pick(valid.proteins, IndexOf(valid.proteins, chosen[1])),
             Pick(valid.vegetables, IndexOf(valid.vegetables, chosen[2]))] == chosen[..3]
  {
    PickIndex(valid.sauces, chosen[0]);
    PickIndex(valid.proteins, chosen[1]);
    PickIndex(valid.vegetables, chosen[2]);
  }

  lemma SidesDrawn(valid: Pools, chosen: seq<Ingredient>, d: Draw)
    requires |chosen| >= 3 && forall k :: 3 <= k < |chosen| ==> chosen[k] in valid.sideDishes
    requires forall k :: 3 <= k < |chosen| ==> d.sides(k - 3) == IndexOf(valid.sideDishes, chosen[k])
    ensures |chosen| > 3 ==> valid.sideDishes != []
    ensures Sides(valid, d, |chosen| - 3) == chosen[3..]
  {
    if |chosen| > 3 {
      assert chosen[3] in valid.sideDishes;
    }
    forall k | 0 <= k < |chosen| - 3
      ensures Sides(valid, d, |chosen| - 3)[k] == chosen[3..][k]
    {
      PickIndex(valid.sideDishes, chosen[k + 3]);
      assert d.sides(k + 3 - 3) == IndexOf(valid.sideDishes, chosen[k + 3]);
    }
  }

  lemma ServesIsAttempt(food: Food, pools: Pools, r: Restrictions, chosen: seq<Ingredient>) returns (d: Draw)
    requires Serves(food, pools, r, chosen)
    ensures IsAttempt(food, ValidPools(r, pools), r, d)
  {
    var valid := ValidPools(r, pools);
    ChoicesOf(pools, r);
    var random: nat :| SideDishBound(r, random).Some? && SideDishCount(r, random) == |chosen| - 3;
    d := DrawFor(valid, chosen, food.name, food.rice, food.tool, random);
    DrawForDraws(valid, r, chosen, food.name, food.rice, food.tool, random);
    EnumerationIsKept(chosen, food.ingredients);
  }

  /**
   The generator can serve exactly the foods made of an admissible sauce, protein
   and vegetable, admissible side dishes in a number that can be drawn, any rice
   and any admissible tool, with the last of each name kept.
   */
  lemma ServedExactly(food: Food, pools: Pools, r: Restrictions)
    ensures (exists d :: IsAttempt(food, ValidPools(r, pools), r, d)) <==>
            (exists chosen :: Serves(food, pools, r, chosen))
  {
    if d :| IsAttempt(food, ValidPools(r, pools), r, d) {
      AttemptServes(food, pools, r, d);
    }
    if chosen :| Serves(food, pools, r, chosen) {
      var d := ServesIsAttempt(food, pools, r, chosen);
    }
  }

  /** The names chosen are the names kept. */
  lemma {:induction false} KeptNames(s: seq<Ingredient>, list: seq<Ingredient>)
    requires forall i :: i in list <==> Kept(s, i)
    ensures Names(list) == Names(s)
  {
    ByNameContents(s);
    forall i | i in s
      ensures i.name in Names(list)
    {
      ByNameKeepsLast(s, ByName(s)[i.name]);
    }
  }

  /** Each food has the name of an admissible sauce, of a protein and of a vegetable. */
  lemma EachKindIsServed(food: Food, pools: Pools, r: Restrictions, d: Draw)
      returns (sauce: Ingredient, protein: Ingredient, vegetable: Ingredient)
    requires IsAttempt(food, ValidPools(r, pools), r, d)
    ensures Choice(r, pools.sauces, sauce) && Choice(r, pools.proteins, protein)
    ensures Choice(r, pools.vegetables, vegetable)
    ensures {sauce.name, protein.name, vegetable.name} <= Names(food.ingredients)
  {
    var chosen := Drawn(ValidPools(r, pools), r, d);
    AttemptServes(food, pools, r, d);
    sauce, protein, vegetable := chosen[0], chosen[1], chosen[2];
    KeptNames(chosen, food.ingredients);
    assert chosen[0] in chosen && chosen[1] in chosen && chosen[2] in chosen;
  }

  lemma {:induction false} Enumerable(m: map<string, Ingredient>) returns (list: seq<Ingredient>)
    requires KeyedByName(m)
    ensures Enumerates(m, list)
    decreases m.Keys
  {
    SomeName(m);
    if m == map[] {
      list := [];
    } else {
      var name :| name in m;
      var rest := m - {name};
      var tail := Enumerable(rest);
      list := tail + [m[name]];
      assert forall k :: 0 <= k < |tail| ==> tail[k].name in rest && m[tail[k].name] == tail[k];
      assert list[|tail|] == m[name] && m[name].name == name;
      forall other | other in m
        ensures m[other] in list
      {
        assert other != name ==> rest[other] in tail;
      }
    }
  }

  /**
   Every choice of sauce, protein, vegetable, side dishes, rice and tool is
   served by some draw, under all the names chosen.
   */
  lemma EveryChoiceIsServed(pools: Pools, r: Restrictions, chosen: seq<Ingredient>, rice: Rice, tool: string)
      returns (food: Food, d: Draw)
    requires Meal(pools, r, chosen)
    requires rice in pools.rices && tool in pools.tools && tool !in r.excludedTools
    ensures IsAttempt(food, ValidPools(r, pools), r, d)
    ensures food.rice == rice && food.tool == tool && Names(food.ingredients) == Names(chosen)
    ensures forall i :: i in food.ingredients <==> Kept(chosen, i)
  {
    ByNameContents(chosen);
    var list := Enumerable(ByName(chosen));
    EnumerationIsKept(chosen, list);
    food := Food(0, r.customName, rice, list, tool);
    d := ServesIsAttempt(food, pools, r, chosen);
    KeptNames(chosen, list);
  }

  /** An attempt panics exactly when there is nothing to choose from or no number of side dishes to draw. */
  lemma PanicsWhen(pools: Pools, r: Restrictions, d: Draw)
    ensures Panics(ValidPools(r, pools), r, d) <==>
            || pools.rices == []
            || (forall i :: !Choice(r, pools.sauces, i))
            || (forall i :: !Choice(r, pools.proteins, i))
            || (forall i :: !Choice(r, pools.vegetables, i))
            || (forall t :: t in pools.tools ==> t in r.excludedTools)
            || SideDishBound(r, d.extra) == None
            || (SideDishCount(r, d.extra) > 0 && forall i :: !Choice(r, pools.sideDishes, i))
  {
    NothingToChoose(r, pools.sauces);
    NothingToChoose(r, pools.proteins);
    NothingToChoose(r, pools.vegetables);
    NothingToChoose(r, pools.sideDishes);
    var tools := AdmittedTools(r, pools.tools);
    AdmittedToolMembers(r, pools.tools);
    assert tools != [] ==> tools[0] in tools;
  }

  lemma NothingToChoose(r: Restrictions, pool: seq<Ingredient>)
    ensures Admitted(r, pool) == [] <==> forall i :: !Choice(r, pool, i)
  {
    var valid := Admitted(r, pool);
    PoolChoices(r, pool);
    assert valid != [] ==> valid[0] in valid;
  }

  // ---------------------------------------------------------------------
  // Ten attempts

  /** The first of the ten draws can come to these foods. */
  ghost predicate Attempts(foods: seq<Food>, valid: Pools, r: Restrictions, draws: seq<Draw>) {
    && |foods| <= |draws| == 10
    && forall j :: 0 <= j < |foods| ==> IsAttempt(foods[j], valid, r, draws[j])
  }

  lemma OverLimitByFood(foods: seq<Food>, valid: Pools, r: Restrictions, draws: seq<Draw>)
    requires Attempts(foods, valid, r, draws)
    ensures forall j :: 0 <= j < |foods| ==>
              (OverLimit(valid, r, draws[j]) <==> TotalCalories(foods[j].ingredients) > r.maxCalories)
  {
    forall j | 0 <= j < |foods|
      ensures OverLimit(valid, r, draws[j]) <==> TotalCalories(foods[j].ingredients) > r.maxCalories
    {
      AttemptsAgree(foods[j], valid, r, draws[j]);
    }
  }

  /**
   The answer is the first food within the calorie limit, else the tenth, up to
   the order of ingredients.
   */
  lemma FirstWithinLimit(outcome: Outcome, valid: Pools, r: Restrictions, draws: seq<Draw>, foods: seq<Food>, k: nat)
    requires Attempts(foods, valid, r, draws) && IsAnswer(outcome, valid, r, draws)
    requires |foods| == k + 1 && forall j :: 0 <= j < k ==> TotalCalories(foods[j].ingredients) > r.maxCalories
    requires k < 9 ==> TotalCalories(foods[k].ingredients) <= r.maxCalories
    ensures outcome.Served? && outcome.attempt == k
    ensures outcome.food == foods[k].(ingredients := outcome.food.ingredients)
    ensures multiset(outcome.food.ingredients) == multiset(foods[k].ingredients)
    ensures outcome.calories == TotalCalories(foods[k].ingredients)
    ensures outcome.vegetarian <==> forall i :: i in foods[k].ingredients ==> i.vegetarian
  {
    OverLimitByFood(foods, valid, r, draws);
    assert outcome.Served? && outcome.attempt == k;
    SameDrawsSameFood(foods[k], outcome.food, valid, r, draws[k]);
  }

  /** A panic before that is the answer. */
  lemma PanicIsAnswer(outcome: Outcome, valid: Pools, r: Restrictions, draws: seq<Draw>, foods: seq<Food>)
    requires Attempts(foods, valid, r, draws) && IsAnswer(outcome, valid, r, draws)
    requires forall j :: 0 <= j < |foods| ==> TotalCalories(foods[j].ingredients) > r.maxCalories
    requires |foods| < 10 && Panics(valid, r, draws[|foods|])
    ensures outcome == Panicked
  {
    OverLimitByFood(foods, valid, r, draws);
  }

  lemma SmallIsAnswered(outcome: Outcome, valid: Pools, r: Restrictions, draws: seq<Draw>, foods: seq<Food>, k: nat)
    requires Attempts(foods, valid, r, draws) && IsAnswer(outcome, valid, r, draws)
    requires k < |foods| && TotalCalories(foods[k].ingredients) <= r.maxCalories
    requires forall j :: 0 <= j < k ==> TotalCalories(foods[j].ingredients) > r.maxCalories
    ensures outcome.Served? && outcome.calories <= r.maxCalories
  {
    FirstWithinLimit(outcome, valid, r, draws, foods[..k + 1], k);
  }

  lemma AnswerCalories(outcome: Outcome, valid: Pools, r: Restrictions, draws: seq<Draw>, foods: seq<Food>)
    requires Attempts(foods, valid, r, draws) && |foods| == 10 && IsAnswer(outcome, valid, r, draws)
    ensures outcome.Served?
    ensures outcome.calories > r.maxCalories <==>
            forall j :: 0 <= j < 10 ==> TotalCalories(foods[j].ingredients) > r.maxCalories
  {
    if j :| 0 <= j < 10 && TotalCalories(foods[j].ingredients) <= r.maxCalories {
      var k := FirstSmall(foods, r.maxCalories, j);
      SmallIsAnswered(outcome, valid, r, draws, foods, k);
    } else {
      FirstWithinLimit(outcome, valid, r, draws, foods, 9);
    }
  }

  /** A request without a calorie limit is answered over 1000 calories only if all ten foods are over. */
  lemma DefaultCalorieLimit(outcome: Outcome, valid: Pools, request: Restrictions, draws: seq<Draw>, foods: seq<Food>)
    requires request.maxCalories == 0
    requires Attempts(foods, valid, request.Effective(), draws) && |foods| == 10
    requires IsAnswer(outcome, valid, request.Effective(), draws)
    ensures outcome.Served?
    ensures outcome.calories > 1000 <==> forall j :: 0 <= j < 10 ==> TotalCalories(foods[j].ingredients) > 1000
  {
    assert request.Effective().maxCalories == 1000;
    AnswerCalories(outcome, valid, request.Effective(), draws, foods);
  }

  lemma {:induction false} FirstSmall(foods: seq<Food>, limit: int, j: nat) returns (k: nat)
    requires j < |foods| && TotalCalories(foods[j].ingredients) <= limit
    ensures k <= j && TotalCalories(foods[k].ingredients) <= limit
    ensures forall i :: 0 <= i < k ==> TotalCalories(foods[i].ingredients) > limit
  {
    k := j;
    if i :| 0 <= i < j && TotalCalories(foods[i].ingredients) <= limit {
      k := FirstSmall(foods, limit, i);
    }
  }
}
