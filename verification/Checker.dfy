/**
 The independent checker of the load test extension, and what it says about
 generated foods.
 */
module Checker {
  import opened Wrappers
  import opened Entities
  import opened GoInt
  import opened Generator

  datatype Verdict =
    | NotChecked
    | NotVegetarian
    | TooManyCalories(limit: int, calories: int)
    | ExcludedIngredient(name: string)
    | ExcludedTool
    | TooManyToppings(limit: int, toppings: int)
    | TooFewToppings(limit: int, toppings: int)
    | Fine

  ghost predicate NoExcludedIngredient(food: Food, r: Restrictions) {
    forall i :: i in food.ingredients ==> i.name !in r.excludedIngredients
  }

  /** All clauses of the checker. */
  ghost predicate Accepts(food: Food, r: Restrictions) {
    && (r.mustBeVegetarian ==> AllVegetarian(food.ingredients))
    && TotalCalories(food.ingredients) <= r.maxCalories
    && NoExcludedIngredient(food, r)
    && food.tool !in r.excludedTools
    && Wrap(r.minToppings + 3) <= |food.ingredients| <= Wrap(r.maxToppings + 3)
  }

  /** The verdict names a clause that fails, and every clause tested before it holds. */
  ghost predicate Explains(v: Verdict, food: Food, r: Restrictions) {
    && (v == NotVegetarian <==> r.mustBeVegetarian && !AllVegetarian(food.ingredients))
    && match v
       case NotChecked => false
       case NotVegetarian => true
       case TooManyCalories(limit, calories) =>
         limit == r.maxCalories && calories == TotalCalories(food.ingredients) && calories > limit
       case ExcludedIngredient(name) =>
         && TotalCalories(food.ingredients) <= r.maxCalories
         && name in r.excludedIngredients && exists i :: i in food.ingredients && i.name == name
       case ExcludedTool =>
         && TotalCalories(food.ingredients) <= r.maxCalories
         && NoExcludedIngredient(food, r) && food.tool in r.excludedTools
       case TooManyToppings(limit, toppings) =>
         && TotalCalories(food.ingredients) <= r.maxCalories
         && NoExcludedIngredient(food, r) && food.tool !in r.excludedTools
         && limit == Wrap(r.maxToppings + 3) && toppings == |food.ingredients| > limit
       case TooFewToppings(limit, toppings) =>
         && TotalCalories(food.ingredients) <= r.maxCalories
         && NoExcludedIngredient(food, r) && food.tool !in r.excludedTools
         && |food.ingredients| <= Wrap(r.maxToppings + 3)
         && limit == Wrap(r.minToppings + 3) && toppings == |food.ingredients| < limit
       case Fine => Accepts(food, r)
  }

  class Internal {
    var checkResult: Verdict

    constructor ()
      ensures checkResult == NotChecked
    {
      checkResult := NotChecked;
    }

    method CheckRestrictions(food: Food, r: Restrictions) returns (ok: bool)
      modifies this
      ensures ok <==> Accepts(food, r)
      ensures ok <==> checkResult == Fine
      ensures Explains(checkResult, food, r)
    {
      var vegetarian := IsVegetarian(food);
      if r.mustBeVegetarian && !vegetarian {
        checkResult := NotVegetarian;
        return false;
      }
      var calories := CalculateCalories(food);
      if calories > r.maxCalories {
        checkResult := TooManyCalories(r.maxCalories, calories);
        return false;
      }
      for k := 0 to |food.ingredients|
        invariant forall j :: 0 <= j < k ==> food.ingredients[j].name !in r.excludedIngredients
      {
        for x := 0 to |r.excludedIngredients|
          invariant food.ingredients[k].name !in r.excludedIngredients[..x]
        {
          if food.ingredients[k].name == r.excludedIngredients[x] {
            checkResult := ExcludedIngredient(r.excludedIngredients[x]);
            assert food.ingredients[k] in food.ingredients;
            return false;
          }
          assert r.excludedIngredients[..x + 1] == r.excludedIngredients[..x] + [r.excludedIngredients[x]];
        }
        assert r.excludedIngredients[..|r.excludedIngredients|] == r.excludedIngredients;
      }
      for x := 0 to |r.excludedTools|
        invariant food.tool !in r.excludedTools[..x]
      {
        if food.tool == r.excludedTools[x] {
          checkResult := ExcludedTool;
          return false;
        }
        assert r.excludedTools[..x + 1] == r.excludedTools[..x] + [r.excludedTools[x]];
      }
      assert r.excludedTools[..|r.excludedTools|] == r.excludedTools;
      if |food.ingredients| > Wrap(r.maxToppings + 3) {
        checkResult := TooManyToppings(Wrap(r.maxToppings + 3), |food.ingredients|);
        return false;
      }
      if |food.ingredients| < Wrap(r.minToppings + 3) {
        checkResult := TooFewToppings(Wrap(r.minToppings + 3), |food.ingredients|);
        return false;
      }
      checkResult := Fine;
      return true;
    }
  }

  /** Of several clauses that fail, the first in the order of the source is reported. */
  lemma FirstClauseIsReported(v: Verdict, food: Food, r: Restrictions)
    requires Explains(v, food, r)
    ensures v == NotVegetarian <==> r.mustBeVegetarian && exists i :: i in food.ingredients && !i.vegetarian
    ensures v != NotVegetarian ==> (v.TooManyCalories? <==> TotalCalories(food.ingredients) > r.maxCalories)
    ensures v != NotVegetarian && !v.TooManyCalories? ==>
              (v.ExcludedIngredient? <==> exists i :: i in food.ingredients && i.name in r.excludedIngredients)
    ensures v != NotVegetarian && !v.TooManyCalories? && !v.ExcludedIngredient? ==>
              (v == ExcludedTool <==> food.tool in r.excludedTools)
    ensures v.TooManyToppings? ==> |food.ingredients| > Wrap(r.maxToppings + 3)
    ensures v.TooFewToppings? ==>
              |food.ingredients| < Wrap(r.minToppings + 3) && |food.ingredients| <= Wrap(r.maxToppings + 3)
    ensures v.ExcludedIngredient? ==>
              v.name in r.excludedIngredients && exists i :: i in food.ingredients && i.name == v.name
  {
  }

  /**
   An accepted food is refused when one of its ingredients, or its tool, is
   excluded as well, and by no other further exclusion.
   */
  lemma ExclusionsBind(food: Food, r: Restrictions, name: string)
    requires Accepts(food, r)
    ensures Accepts(food, r.(excludedIngredients := r.excludedIngredients + [name])) <==>
            forall i :: i in food.ingredients ==> i.name != name
    ensures Accepts(food, r.(excludedTools := r.excludedTools + [name])) <==> food.tool != name
  {
    var excluding := r.(excludedIngredients := r.excludedIngredients + [name]);
    assert forall n :: n in excluding.excludedIngredients <==> n in r.excludedIngredients || n == name;
    assert NoExcludedIngredient(food, excluding) <==> forall i :: i in food.ingredients ==> i.name != name;
  }

  /**
   With one other restriction changed, an accepted food stays so exactly when all
   its ingredients are vegetarian, it is within the calories, or its ingredients
   are not too many or too few, as the case may be.
   */
  lemma LimitsBind(food: Food, r: Restrictions, limit: Int64)
    requires Accepts(food, r)
    ensures Accepts(food, r.(mustBeVegetarian := true)) <==> forall i :: i in food.ingredients ==> i.vegetarian
    ensures Accepts(food, r.(maxCalories := limit)) <==> TotalCalories(food.ingredients) <= limit
    ensures Accepts(food, r.(maxToppings := limit)) <==> |food.ingredients| <= Wrap(limit + 3)
    ensures Accepts(food, r.(minToppings := limit)) <==> |food.ingredients| >= Wrap(limit + 3)
  {
  }

  /**
   For every catalog, every draw and every map order, the checker's clauses on
   vegetarian food, excluded ingredients and excluded tools pass; what it
   accepts depends on calories and the number of ingredients alone.
   */
  lemma CheckerTestsSizeAndCalories(food: Food, pools: Pools, r: Restrictions, d: Draw)
    requires IsAttempt(food, ValidPools(r, pools), r, d)
    ensures Accepts(food, r) <==>
            && TotalCalories(food.ingredients) <= r.maxCalories
            && Wrap(r.minToppings + 3) <= |food.ingredients| <= Wrap(r.maxToppings + 3)
  {
    GeneratedContents(food, pools, r, d);
  }

  /**
   With a maximum from zero to the greatest integer minus three the upper bound
   never fails either: a generated food is accepted exactly when it is within
   the calorie limit and enough distinct ingredients are left.
   */
  lemma GeneratorMeetsChecker(food: Food, pools: Pools, r: Restrictions, d: Draw)
    requires IsAttempt(food, ValidPools(r, pools), r, d)
    requires 0 <= r.maxToppings < LIMIT - 3
    ensures |food.ingredients| <= Wrap(r.maxToppings + 3)
    ensures Accepts(food, r) <==>
            && TotalCalories(food.ingredients) <= r.maxCalories
            && |food.ingredients| >= Wrap(r.minToppings + 3)
  {
    GeneratedContents(food, pools, r, d);
    SideDishesAtMostMaximum(r, d.extra);
  }

  /** Above that range the checker's own sum wraps around and it accepts nothing. */
  lemma HugeMaximumAcceptsNothing(food: Food, r: Restrictions)
    requires r.maxToppings >= LIMIT - 3
    ensures !Accepts(food, r)
  {
    assert Wrap(r.maxToppings + 3) < 0;
  }

  // ---------------------------------------------------------------------
  // Where generator and checker agree, exactly

  /** The generator has no draw that serves these restrictions: rand.Intn refuses its bound. */
  predicate AlwaysPanics(r: Restrictions) {
    r.maxToppings - r.minToppings == LIMIT - 1 || r.maxToppings - r.minToppings == -LIMIT - 1
  }

  lemma PanicsExactly(r: Restrictions, random: nat)
    ensures SideDishBound(r, random) == None <==> AlwaysPanics(r)
  {
  }

  /** The clause on too many toppings refuses no generated food. */
  ghost predicate UpperClauseFree(r: Restrictions) {
    forall food, pools, d :: IsAttempt(food, ValidPools(r, pools), r, d) ==>
      |food.ingredients| <= Wrap(r.maxToppings + 3)
  }

  /** A generated food is accepted exactly when calories and minimum are met. */
  ghost predicate Agrees(r: Restrictions) {
    forall food, pools, d :: IsAttempt(food, ValidPools(r, pools), r, d) ==>
      (Accepts(food, r) <==>
       TotalCalories(food.ingredients) <= r.maxCalories && |food.ingredients| >= Wrap(r.minToppings + 3))
  }

  /**
   The clause never refuses for maxima from zero to the greatest integer minus
   three, and for no others that are served.
   */
  lemma UpperClauseFreeExactly(r: Restrictions)
    ensures UpperClauseFree(r) <==> 0 <= r.maxToppings < LIMIT - 3 || AlwaysPanics(r)
  {
    if 0 <= r.maxToppings < LIMIT - 3 || AlwaysPanics(r) {
      forall food, pools, d | IsAttempt(food, ValidPools(r, pools), r, d)
        ensures |food.ingredients| <= Wrap(r.maxToppings + 3)
      {
        PanicsExactly(r, d.extra);
        GeneratorMeetsChecker(food, pools, r, d);
      }
    } else {
      PanicsExactly(r, 0);
      var food, pools, d := FullAttempt(r, 0);
      assert |food.ingredients| > Wrap(r.maxToppings + 3);
    }
  }

  /**
   Below zero only three basic ingredients are left, too many for the maximum:
   agreement then means that they are too few for the minimum as well.
   */
  predicate AgreesBelowZero(r: Restrictions) {
    && r.maxToppings < 0
    && 1 <= r.minToppings < LIMIT - 3
    && r.maxToppings - r.minToppings >= -LIMIT
  }

  lemma NegativeMaximumAgrees(food: Food, pools: Pools, r: Restrictions, d: Draw)
    requires IsAttempt(food, ValidPools(r, pools), r, d) && AgreesBelowZero(r)
    ensures !Accepts(food, r) && |food.ingredients| < Wrap(r.minToppings + 3)
  {
    GeneratedSize(food, pools, r, d);
  }

  /**
   Generator and checker agree on every catalog and draw exactly for maxima
   from zero to the greatest integer minus three, for the negative maxima of
   `AgreesBelowZero`, and where nothing is ever served.
   */
  lemma AgreesExactly(r: Restrictions)
    ensures Agrees(r) <==> 0 <= r.maxToppings < LIMIT - 3 || AgreesBelowZero(r) || AlwaysPanics(r)
  {
    if 0 <= r.maxToppings < LIMIT - 3 || AgreesBelowZero(r) || AlwaysPanics(r) {
      forall food, pools, d | IsAttempt(food, ValidPools(r, pools), r, d)
        ensures Accepts(food, r) <==>
                TotalCalories(food.ingredients) <= r.maxCalories && |food.ingredients| >= Wrap(r.minToppings + 3)
      {
        PanicsExactly(r, d.extra);
        if AgreesBelowZero(r) {
          NegativeMaximumAgrees(food, pools, r, d);
        } else {
          GeneratorMeetsChecker(food, pools, r, d);
        }
      }
    } else {
      PanicsExactly(r, 0);
      var food, pools, d := FullAttempt(r, 0);
      DisagreementSize(r);
      CheckerTestsSizeAndCalories(food, pools, r, d);
    }
  }

  lemma DisagreementSize(r: Restrictions)
    requires !(0 <= r.maxToppings < LIMIT - 3) && !AgreesBelowZero(r) && !AlwaysPanics(r)
    ensures 3 + SideDishCount(r, 0) > Wrap(r.maxToppings + 3)
    ensures 3 + SideDishCount(r, 0) >= Wrap(r.minToppings + 3)
  {
  }

  // ---------------------------------------------------------------------
  // A client that checks against the request as it wrote it

  /**
   The load test passes the request to the checker as written, while the
   generator fills in defaults. On a request without zeros the two verdicts
   are the same.
   */
  lemma RawRequestAgrees(food: Food, request: Restrictions)
    requires request.maxCalories != 0 && request.maxToppings != 0 && request.minToppings != 0
    ensures Accepts(food, request) <==> Accepts(food, request.Effective())
  {
  }

  /** Generator and checker agree on every food for this request, though the checker reads zeros as zeros. */
  ghost predicate RawAgrees(request: Restrictions) {
    var r := request.Effective();
    forall food, pools, d :: IsAttempt(food, ValidPools(r, pools), r, d) ==>
      (Accepts(food, request) <==> Accepts(food, r))
  }

  /** The most ingredients a food can have. */
  function Biggest(r: Restrictions): int {
    if r.maxToppings - r.minToppings < -LIMIT - 1 then LIMIT + 2
    else 3 + if r.maxToppings > 0 then r.maxToppings else 0
  }

  lemma BiggestBounds(r: Restrictions, random: nat)
    requires SideDishBound(r, random).Some?
    ensures 3 + SideDishCount(r, random) <= Biggest(r)
  {
    SideDishRange(r);
    if r.maxToppings - r.minToppings >= -LIMIT && r.maxToppings - r.minToppings != LIMIT - 1 {
      assert InRange(r, SideDishBound(r, random));
    }
  }

  lemma BiggestIsReached(r: Restrictions) returns (random: nat)
    requires !AlwaysPanics(r)
    ensures SideDishBound(r, random).Some? && 3 + SideDishCount(r, random) == Biggest(r)
  {
    var span := Wrap(r.maxToppings - r.minToppings);
    if r.maxToppings - r.minToppings < -LIMIT {
      random := LIMIT - 1 - r.minToppings;
      SmallModulus(random, span + 1);
      assert SideDishBound(r, random) == Some(LIMIT - 1);
    } else if span > 0 {
      random := span;
      SideDishCountsReached(r, random);
    } else {
      random := 0;
    }
  }

  /** The least and greatest number of ingredients, of those that occur, within the checker's topping clauses. */
  function Least(r: Restrictions): int {
    if Wrap(r.minToppings + 3) < 1 then 1 else Wrap(r.minToppings + 3)
  }

  function Greatest(r: Restrictions, biggest: int): int {
    if Wrap(r.maxToppings + 3) < biggest then Wrap(r.maxToppings + 3) else biggest
  }

  /** Request and effective restrictions admit the same numbers of ingredients, none for a zero calorie limit. */
  predicate SameSizes(request: Restrictions) {
    var r := request.Effective();
    var none := Least(r) > Greatest(r, Biggest(r));
    && (if none then Least(request) > Greatest(request, Biggest(r))
        else Least(request) == Least(r) && Greatest(request, Biggest(r)) == Greatest(r, Biggest(r)))
    && (request.maxCalories == 0 ==> none)
  }

  predicate InSizes(r: Restrictions, size: int) {
    Wrap(r.minToppings + 3) <= size <= Wrap(r.maxToppings + 3)
  }

  /** The verdicts on foods of one size agree, whatever their calories. */
  predicate SizeAgrees(request: Restrictions, size: int) {
    && (InSizes(request, size) <==> InSizes(request.Effective(), size))
    && (request.maxCalories == 0 ==> !InSizes(request.Effective(), size))
  }

  lemma SameSizesBySize(request: Restrictions)
    ensures SameSizes(request) <==>
            forall size :: 1 <= size <= Biggest(request.Effective()) ==> SizeAgrees(request, size)
  {
    var r := request.Effective();
    var big := Biggest(r);
    if forall size :: 1 <= size <= big ==> SizeAgrees(request, size) {
      var low, high, low', high' := Least(r), Greatest(r, big), Least(request), Greatest(request, big);
      assert low <= high ==> SizeAgrees(request, low) && SizeAgrees(request, high);
      assert low' <= high' ==> SizeAgrees(request, low') && SizeAgrees(request, high');
    }
  }

  lemma RawClauses(food: Food, pools: Pools, request: Restrictions, d: Draw)
    requires IsAttempt(food, ValidPools(request.Effective(), pools), request.Effective(), d)
    ensures Accepts(food, request) <==>
            TotalCalories(food.ingredients) <= request.maxCalories && InSizes(request, |food.ingredients|)
    ensures Accepts(food, request.Effective()) <==>
            && TotalCalories(food.ingredients) <= request.Effective().maxCalories
            && InSizes(request.Effective(), |food.ingredients|)
  {
    var r := request.Effective();
    GeneratedContents(food, pools, r, d);
    assert r.excludedIngredients == request.excludedIngredients && r.excludedTools == request.excludedTools;
  }

  /**
   For every request: the verdict on the request as written is the verdict on
   its effective restrictions, for every food generated for it, exactly when the
   topping clauses admit the same of the sizes that occur, and none of them if
   the calorie limit is zero, or where nothing is ever served.
   */
  lemma RawAgreesExactly(request: Restrictions)
    ensures RawAgrees(request) <==> SameSizes(request) || AlwaysPanics(request.Effective())
  {
    var r := request.Effective();
    SameSizesBySize(request);
    if SameSizes(request) || AlwaysPanics(r) {
      forall food, pools, d | IsAttempt(food, ValidPools(r, pools), r, d)
        ensures Accepts(food, request) <==> Accepts(food, r)
      {
        PanicsExactly(r, d.extra);
        RawClauses(food, pools, request, d);
        GeneratedContents(food, pools, r, d);
        BiggestBounds(r, d.extra);
        assert SizeAgrees(request, |food.ingredients|);
      }
    } else {
      var size :| 1 <= size <= Biggest(r) && !SizeAgrees(request, size);
      RawDisagrees(request, size);
    }
  }

  lemma RawDisagrees(request: Restrictions, size: int)
    requires 1 <= size <= Biggest(request.Effective()) && !AlwaysPanics(request.Effective())
    requires !SizeAgrees(request, size)
    ensures !RawAgrees(request)
  {
    var r := request.Effective();
    var random := BiggestIsReached(r);
    var calories := if request.maxCalories == 0 && InSizes(r, size) then r.maxCalories else request.maxCalories;
    var food, pools, d := AttemptOfSize(r, random, size, calories);
    RawClauses(food, pools, request, d);
  }

  /** With zeros they need not be: a food for the empty request that only the defaults accept. */
  lemma ZeroRequestDiffers() returns (food: Food, pools: Pools, request: Restrictions, d: Draw)
    ensures request == Restrictions(0, false, [], [], 0, 0, "")
    ensures IsAttempt(food, ValidPools(request.Effective(), pools), request.Effective(), d)
    ensures Accepts(food, request.Effective()) && !Accepts(food, request)
  {
    request := Restrictions(0, false, [], [], 0, 0, "");
    var r := request.Effective();
    assert SideDishBound(r, 0) == Some(3);
    food, pools, d := FullAttempt(r, 0);
    CheckerTestsSizeAndCalories(food, pools, r, d);
  }
}
