/**
 The values of package `model`: foods, ingredients, ratings, users and their
 validation. Strings are sequences of bytes, one `char` a byte, so that `|s|`
 is Go's `len(s)`.
 */
module Entities {
  import opened Wrappers
  import opened GoInt

  const GLOBAL_USERNAME := "default"
  const USER_TOKEN_LENGTH := 16
  const MAX_USER_NAME_LENGTH := 32
  const MAX_FOOD_NAME_LENGTH := 64

  datatype Ingredient = Ingredient(id: int, name: string, calories: Int64, vegetarian: bool)

  datatype Rice = Rice(id: int, name: string, calories: Int64)

  /** `id == 0` asks the store for an identifier. */
  datatype Food = Food(id: int, name: string, rice: Rice, ingredients: seq<Ingredient>, tool: string)

  /** A rating row without its key. */
  datatype Review = Review(stars: int, userId: int, foodId: int)

  datatype Rating = Rating(id: int, review: Review)

  /** A user row without its key. */
  datatype Account = Account(username: string, token: string, passwordHash: string, passwordPlaintext: string)

  datatype User = User(id: int, account: Account) {
    predicate IsGlobal() {
      account.username == GLOBAL_USERNAME
    }
  }

  predicate ValidStars(stars: int) {
    1 <= stars <= 5
  }

  datatype UserFault = UsernameEmpty | UsernameTooLong | UsernameInvalid | PasswordEmpty

  /** The first fault of a registration, in the order the handler reports them. */
  function ValidateUser(username: string, password: string): (fault: Option<UserFault>)
    ensures fault == None <==>
            0 < |username| <= MAX_USER_NAME_LENGTH && username != GLOBAL_USERNAME && password != ""
  {
    if username == "" then Some(UsernameEmpty)
    else if |username| > MAX_USER_NAME_LENGTH then Some(UsernameTooLong)
    else if username == GLOBAL_USERNAME then Some(UsernameInvalid)
    else if password == "" then Some(PasswordEmpty)
    else None
  }

  ghost function TotalCalories(ingredients: seq<Ingredient>): Int64 {
    if ingredients == [] then 0
    else Add(TotalCalories(ingredients[..|ingredients| - 1]), ingredients[|ingredients| - 1].calories)
  }

  ghost predicate AllVegetarian(ingredients: seq<Ingredient>) {
    forall i :: i in ingredients ==> i.vegetarian
  }

  method CalculateCalories(food: Food) returns (calories: Int64)
    ensures calories == TotalCalories(food.ingredients)
  {
    calories := 0;
    for k := 0 to |food.ingredients|
      invariant calories == TotalCalories(food.ingredients[..k])
    {
      assert food.ingredients[..k + 1][..k] == food.ingredients[..k];
      calories := Add(calories, food.ingredients[k].calories);
    }
    assert food.ingredients[..|food.ingredients|] == food.ingredients;
  }

  method IsVegetarian(food: Food) returns (vegetarian: bool)
    ensures vegetarian <==> AllVegetarian(food.ingredients)
    ensures vegetarian <==> forall i :: i in food.ingredients ==> i.vegetarian
  {
    for k := 0 to |food.ingredients|
      invariant forall j :: 0 <= j < k ==> food.ingredients[j].vegetarian
    {
      if !food.ingredients[k].vegetarian {
        return false;
      }
    }
    return true;
  }

  /** The total is that of the other ingredients plus any one of them. */
  lemma {:induction false} CaloriesWithout(s: seq<Ingredient>, k: nat)
    requires k < |s|
    ensures TotalCalories(s) == Add(TotalCalories(s[..k] + s[k + 1..]), s[k].calories)
  {
    var last := |s| - 1;
    if k == last {
      assert s[..k] + s[k + 1..] == s[..last];
    } else {
      var init := s[..last];
      CaloriesWithout(init, k);
      var rest := s[..k] + s[k + 1..];
      assert rest[..|rest| - 1] == init[..k] + init[k + 1..];
      assert rest[|rest| - 1] == s[last];
      AddSwaps(TotalCalories(init[..k] + init[k + 1..]), s[k].calories, s[last].calories);
    }
  }

  lemma WithoutOne<T>(s: seq<T>, k: nat)
    requires k < |s|
    ensures multiset(s[..k] + s[k + 1..]) == multiset(s) - multiset{s[k]}
  {
    assert s == s[..k] + [s[k]] + s[k + 1..];
  }

  /** Calories do not depend on the order in which ingredients are listed. */
  lemma {:induction false} CaloriesIgnoreOrder(s: seq<Ingredient>, t: seq<Ingredient>)
    requires multiset(s) == multiset(t)
    ensures TotalCalories(s) == TotalCalories(t)
    decreases |s|
  {
    if s == [] {
      assert |t| == |multiset(t)| == 0;
    } else {
      var last := |s| - 1;
      assert s[last] in multiset(t);
      var k :| 0 <= k < |t| && t[k] == s[last];
      assert s[..last] + s[last + 1..] == s[..last];
      WithoutOne(s, last);
      WithoutOne(t, k);
      CaloriesIgnoreOrder(s[..last], t[..k] + t[k + 1..]);
      CaloriesWithout(t, k);
    }
  }

  /** Neither does the vegetarian flag. */
  lemma VegetarianIgnoresOrder(s: seq<Ingredient>, t: seq<Ingredient>)
    requires multiset(s) == multiset(t)
    ensures AllVegetarian(s) <==> AllVegetarian(t)
  {
    assert forall i :: i in s <==> i in multiset(s);
    assert forall i :: i in t <==> i in multiset(t);
  }
}
