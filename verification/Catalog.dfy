/**
 The methods of `Catalog`, over tables updated in place. Each is tied to the
 functions of `Schema` by its postcondition.
 */
module Catalogs {
  import opened Wrappers
  import opened Entities
  import opened Eviction
  import opened Schema

  datatype Fault = NotPermitted | NotFound | UsernameTaken | HashingFailed | ConstraintViolated

  class Catalog {
    const env: Env
    const check: (string, string) -> bool

    var users: map<int, Account>
    var foods: map<int, FoodRow>
    var links: set<Link>
    var ratings: map<int, Review>
    var nextUser: int
    var nextFood: int
    var nextRating: int

    ghost function Contents(): Db
      reads this
    {
      Db(users, foods, links, ratings, nextUser, nextFood, nextRating)
    }

    ghost predicate Valid()
      reads this
    {
      Consistent(Contents(), env.ref)
    }

    constructor (env: Env, check: (string, string) -> bool, seed: Db)
      requires Consistent(seed, env.ref)
      ensures Valid() && Contents() == seed && this.env == env && this.check == check
    {
      this.env, this.check := env, check;
      users, foods, links, ratings := seed.users, seed.foods, seed.links, seed.ratings;
      nextUser, nextFood, nextRating := seed.nextUser, seed.nextFood, seed.nextRating;
    }

    // DELETE with ON DELETE CASCADE

    method DropUsers(gone: set<int>)
      modifies this`users, this`ratings
      ensures Contents() == Purge(old(Contents()), gone, {}, {})
    {
      users := users - gone;
      ratings := map r | r in ratings && ratings[r].userId !in gone :: ratings[r];
      assert links == set l | l in links && l.foodId !in {};
    }

    method DropFoods(gone: set<int>)
      modifies this`foods, this`links, this`ratings
      ensures Contents() == Purge(old(Contents()), {}, gone, {})
    {
      foods := foods - gone;
      links := set l | l in links && l.foodId !in gone;
      ratings := map r | r in ratings && ratings[r].foodId !in gone :: ratings[r];
    }

    method DropRatings(gone: set<int>)
      modifies this`ratings
      ensures Contents() == Purge(old(Contents()), {}, {}, gone)
    {
      PurgeRatingsOnly(Contents(), gone);
      ratings := ratings - gone;
    }

    // enforceTableSizeLimits, for each of the three tables

    method EnforceUserLimit()
      modifies this`users, this`ratings
      ensures Contents() == EvictUsers(old(Contents()), env.limits)
    {
      var gone := SelectVictims(users.Keys, env.limits.fixedUsers, env.limits.maxUsers);
      DropUsers(gone);
    }

    method EnforceFoodLimit()
      modifies this`foods, this`links, this`ratings
      ensures Contents() == EvictFoods(old(Contents()), env.limits)
    {
      var gone := SelectVictims(foods.Keys, env.limits.fixedFoods, env.limits.maxFoods);
      DropFoods(gone);
    }

    method EnforceRatingLimit()
      modifies this`ratings
      ensures Contents() == EvictRatings(old(Contents()), env.limits)
    {
      var gone := SelectVictims(ratings.Keys, env.limits.fixedRatings, env.limits.maxRatings);
      DropRatings(gone);
    }

    // Reads

    method GetIngredients(kind: string) returns (found: seq<Ingredient>)
      ensures forall i :: i in found <==> OfKind(env.ref, kind, i)
    {
      found := [];
      var todo := env.ref.ingredients.Keys;
      while todo != {}
        invariant todo <= env.ref.ingredients.Keys
        invariant forall i :: i in found ==> OfKind(env.ref, kind, i)
        invariant forall key ::
                    (key in env.ref.ingredients && key !in todo && key in env.ref.kinds && env.ref.kinds[key] == kind)
                    ==> env.ref.ingredients[key] in found
        decreases todo
      {
        SomeMember(todo);
        var key :| key in todo;
        todo := todo - {key};
        if key in env.ref.kinds && env.ref.kinds[key] == kind {
          found := found + [env.ref.ingredients[key]];
        }
      }
    }

    method GetRices() returns (found: seq<Rice>)
      ensures forall r :: r in found <==> exists key :: key in env.ref.rices && env.ref.rices[key] == r
    {
      found := [];
      var todo := env.ref.rices.Keys;
      while todo != {}
        invariant todo <= env.ref.rices.Keys
        invariant forall r :: r in found <==>
                    exists key :: key in env.ref.rices && key !in todo && env.ref.rices[key] == r
        decreases todo
      {
        SomeMember(todo);
        var key :| key in todo;
        todo := todo - {key};
        found := found + [env.ref.rices[key]];
      }
    }

    method GetTools() returns (found: seq<string>)
      ensures forall t :: t in found <==> t in env.ref.tools
    {
      found := [];
      var todo := env.ref.tools;
      while todo != {}
        invariant todo <= env.ref.tools
        invariant forall t :: t in found <==> t in env.ref.tools && t !in todo
        decreases todo
      {
        SomeTool(todo);
        var t :| t in todo;
        todo := todo - {t};
        found := found + [t];
      }
    }

    method GetRecommendation(id: int) returns (food: Option<Food>)
      requires Valid()
      ensures food == None <==> id !in foods
      ensures food.Some? ==> ReadsAs(Contents(), env.ref, id, food.value)
    {
      if id !in foods {
        return None;
      }
      var todo: set<int> := set l | l in links && l.foodId == id :: l.ingredientId;
      ghost var all := todo;
      var keys: seq<int>, ingredients: seq<Ingredient> := [], [];
      while todo != {}
        invariant todo <= all && Lists(keys, all - todo)
        invariant ingredients == Fetch(env.ref, keys)
        decreases todo
      {
        SomeMember(todo);
        var i :| i in todo;
        todo := todo - {i};
        keys := keys + [i];
        ingredients := ingredients + [env.ref.ingredients[i]];
      }
      assert all - todo == LinksOf(Contents(), id);
      food := Some(Food(id, foods[id].name, env.ref.rices[foods[id].riceId], ingredients, foods[id].tool));
    }

    method GetRating(user: User, id: int) returns (rating: Option<Rating>)
      ensures rating == if id in RatingsBy(Contents(), user.id) then Some(Rating(id, ratings[id])) else None
    {
      if id in ratings && ratings[id].userId == user.id {
        rating := Some(Rating(id, ratings[id]));
      } else {
        rating := None;
      }
    }

    method FindByName(username: string) returns (id: Option<int>)
      ensures id == None <==> !NameTaken(Contents(), username)
      ensures id.Some? ==> id.value in users && users[id.value].username == username
    {
      var todo := users.Keys;
      while todo != {}
        invariant todo <= users.Keys
        invariant forall u :: u in users && users[u].username == username ==> u in todo
        decreases todo
      {
        SomeMember(todo);
        var u :| u in todo;
        todo := todo - {u};
        if users[u].username == username {
          return Some(u);
        }
      }
      id := None;
    }

    method FindByToken(token: string) returns (id: Option<int>)
      ensures id == None <==> !TokenTaken(Contents(), token)
      ensures id.Some? ==> id.value in users && users[id.value].token == token
    {
      var todo := users.Keys;
      while todo != {}
        invariant todo <= users.Keys
        invariant forall u :: u in users && users[u].token == token ==> u in todo
        decreases todo
      {
        SomeMember(todo);
        var u :| u in todo;
        todo := todo - {u};
        if users[u].token == token {
          return Some(u);
        }
      }
      id := None;
    }

    method Authenticate(token: string) returns (user: Option<User>)
      requires Valid()
      ensures user == Schema.Authenticate(Contents(), token)
    {
      var found := FindByToken(token);
      if found.Some? {
        TokenFinds(Contents(), token, found.value);
        user := Some(User(found.value, users[found.value]));
      } else if 1 in users {
        user := Some(User(1, users[1]));
      } else {
        user := None;
      }
    }

    method LoginUser(username: string, password: string) returns (user: Option<User>)
      requires Valid()
      ensures user == Login(Contents(), check, username, password)
    {
      var found := FindByName(username);
      if found == None {
        return None;
      }
      var candidate := User(found.value, users[found.value]);
      NameFinds(Contents(), check, username, password, found.value);
      if candidate.account.passwordPlaintext != "" {
        if password == candidate.account.passwordPlaintext {
          return Some(candidate);
        }
        return None;
      }
      if candidate.IsGlobal() || check(password, candidate.account.passwordHash) {
        return Some(candidate);
      }
      user := None;
    }

    // Writes

    method DeleteRatings(user: User) returns (fault: Option<Fault>)
      requires Valid()
      modifies this`ratings
      ensures Valid()
      ensures user.IsGlobal() ==> fault == Some(NotPermitted) && Contents() == old(Contents())
      ensures !user.IsGlobal() ==>
                fault == None && Contents() == Purge(old(Contents()), {}, {}, RatingsBy(old(Contents()), user.id))
    {
      if user.IsGlobal() {
        return Some(NotPermitted);
      }
      var gone := set r | r in ratings && ratings[r].userId == user.id;
      PurgeKeeps(Contents(), env.ref, {}, {}, gone);
      DropRatings(gone);
      fault := None;
    }

    method DeleteRating(user: User, id: int) returns (fault: Option<Fault>)
      requires Valid()
      modifies this`ratings
      ensures Valid()
      ensures fault == if user.IsGlobal() then Some(NotPermitted)
                       else if id !in RatingsBy(old(Contents()), user.id) then Some(NotFound)
                       else None
      ensures Contents() == if fault == None then Purge(old(Contents()), {}, {}, {id}) else old(Contents())
    {
      if user.account.username == GLOBAL_USERNAME {
        return Some(NotPermitted);
      }
      var rating := GetRating(user, id);
      if rating == None {
        return Some(NotFound);
      }
      PurgeKeeps(Contents(), env.ref, {}, {}, {id});
      DropRatings({rating.value.id});
      fault := None;
    }

    /** UPDATE ... SET stars WHERE id = ?, which matches no row if the rating is gone. */
    method UpdateTx(existing: Rating)
      requires Valid()
      modifies this`ratings
      ensures Valid() && Contents() == SetStars(old(Contents()), existing.id, existing.review.stars)
    {
      SetStarsKeeps(Contents(), env.ref, existing.id, existing.review.stars);
      if existing.id in ratings {
        ratings := ratings[existing.id := ratings[existing.id].(stars := existing.review.stars)];
      }
    }

    method UpdateRating(user: User, id: int, stars: int) returns (r: Result<Rating, Fault>)
      requires Valid()
      modifies this`ratings
      ensures Valid()
      ensures user.IsGlobal() ==> r == Err(NotPermitted)
      ensures !user.IsGlobal() && id !in RatingsBy(old(Contents()), user.id) ==> r == Err(NotFound)
      ensures !user.IsGlobal() && id in RatingsBy(old(Contents()), user.id) ==>
                r == Ok(Rating(id, old(ratings)[id].(stars := stars)))
      ensures Contents() == if r.Ok? then SetStars(old(Contents()), id, stars) else old(Contents())
    {
      if user.IsGlobal() {
        return Err(NotPermitted);
      }
      var existing := GetRating(user, id);
      if existing == None || existing.value.review.userId != user.id {
        return Err(NotFound);
      }
      var updated := existing.value.(review := existing.value.review.(stars := stars));
      UpdateTx(updated);
      r := Ok(updated);
    }

    /** The insert and the size limit; None is a violated foreign key. */
    method RatingTx(review: Review) returns (key: Option<int>)
      requires Valid()
      modifies this`ratings, this`nextRating
      ensures Valid()
      ensures match InsertRating(old(Contents()), env.limits, review)
              case None => key == None && Contents() == old(Contents())
              case Some(db) => key == Some(old(nextRating)) && Contents() == db
    {
      if review.userId !in users || review.foodId !in foods {
        return None;
      }
      InsertRatingKeeps(Contents(), env.ref, env.limits, review);
      key := Some(nextRating);
      ratings, nextRating := ratings[nextRating := review], nextRating + 1;
      EnforceRatingLimit();
    }

    method RecordRating(review: Review) returns (r: Result<Rating, Fault>)
      requires Valid()
      modifies this`ratings, this`nextRating
      ensures Valid()
      ensures review.foodId !in foods ==> r == Err(NotFound) && Contents() == old(Contents())
      ensures review.foodId in foods ==>
                match InsertRating(old(Contents()), env.limits, review)
                case None => r == Err(ConstraintViolated) && Contents() == old(Contents())
                case Some(db) => r == Ok(Rating(old(nextRating), review)) && Contents() == db
      ensures r.Ok? <==> review.foodId in foods && review.userId in users
      ensures r.Ok? ==> OneRatingMore(old(Contents()), Contents(), env.limits, review)
    {
      if review.foodId in foods && review.userId in users {
        InsertedRating(Contents(), env.limits, review);
      }
      var food := GetRecommendation(review.foodId);
      if food == None {
        return Err(NotFound);
      }
      var key := RatingTx(review);
      r := if key == None then Err(ConstraintViolated) else Ok(Rating(key.value, review));
    }

    /** The insert and the size limit; None is a violated unique column. */
    method UserTx(account: Account) returns (key: Option<int>)
      requires Valid()
      modifies this`users, this`ratings, this`nextUser
      ensures Valid()
      ensures match InsertUser(old(Contents()), env.limits, account)
              case None => key == None && Contents() == old(Contents())
              case Some(db) => key == Some(old(nextUser)) && Contents() == db
    {
      var named := FindByName(account.username);
      var holder := FindByToken(account.token);
      if named.Some? || holder.Some? {
        return None;
      }
      InsertUserKeeps(Contents(), env.ref, env.limits, account);
      key := Some(nextUser);
      users, nextUser := users[nextUser := account], nextUser + 1;
      EnforceUserLimit();
    }

    /** `hash` is the outcome of hashing the password; `token` is the generated token. */
    method RecordUser(username: string, hash: Option<string>, token: string) returns (r: Result<User, Fault>)
      requires Valid()
      modifies this`users, this`ratings, this`nextUser
      ensures Valid()
      ensures r.Err? ==> Contents() == old(Contents())
      ensures r == Err(HashingFailed) <==> hash == None
      ensures r == Err(UsernameTaken) <==> hash.Some? && NameTaken(old(Contents()), username)
      ensures hash.Some? && !NameTaken(old(Contents()), username) ==>
                var account := Account(username, token, hash.value, "");
                match InsertUser(old(Contents()), env.limits, account)
                case None => r == Err(ConstraintViolated) && TokenTaken(old(Contents()), token)
                case Some(db) => r == Ok(User(old(nextUser), account)) && Contents() == db
    {
      if hash == None {
        return Err(HashingFailed);
      }
      var named := FindByName(username);
      if named.Some? {
        return Err(UsernameTaken);
      }
      var account := Account(username, token, hash.value, "");
      var key := UserTx(account);
      r := if key == None then Err(ConstraintViolated) else Ok(User(key.value, account));
    }

    /**
     The insert loop over the ingredients of food `key`. It stops at the first
     duplicate or unknown one.
     */
    method InsertLinks(key: int, ingredients: seq<Ingredient>) returns (ok: bool)
      requires forall l :: l in links ==> l.foodId != key
      modifies this`links
      ensures ok <==> (Distinct(IngredientIds(ingredients))
                       && forall k :: 0 <= k < |ingredients| ==> ingredients[k].id in env.ref.ingredients)
      ensures ok ==> links == old(links) + set i | i in IngredientIds(ingredients) :: Link(key, i)
    {
      ghost var ids := IngredientIds(ingredients);
      for k := 0 to |ingredients|
        invariant Distinct(ids[..k])
        invariant forall j :: 0 <= j < k ==> ingredients[j].id in env.ref.ingredients
        invariant links == old(links) + set i | i in ids[..k] :: Link(key, i)
      {
        var link := Link(key, ingredients[k].id);
        assert ids[k] == link.ingredientId && ids[..k + 1] == ids[..k] + [ids[k]];
        if link in links {
          ghost var j :| 0 <= j < k && ids[..k][j] == ids[k];
          assert ids[j] == ids[k];
          return false;
        }
        if link.ingredientId !in env.ref.ingredients {
          return false;
        }
        assert ids[k] !in ids[..k];
        links := links + {link};
      }
      assert ids[..|ids|] == ids;
      return true;
    }

    /** The inserts of one transaction; on failure the tables are left half written. */
    method InsertRows(food: Food) returns (ok: bool)
      requires Valid()
      modifies this`foods, this`links, this`nextFood
      ensures ok <==> Insertable(old(Contents()), env.ref, food.id, RowOf(food), IngredientIds(food.ingredients))
      ensures ok ==>
                Contents() == AddFood(old(Contents()), food.id, RowOf(food), IngredientIds(food.ingredients))
    {
      KnownIngredients(env.ref, food.ingredients);
      var key := FoodKey(nextFood, food.id);
      if key in foods || food.rice.id !in env.ref.rices || food.tool !in env.ref.tools {
        return false;
      }
      foods := foods[key := RowOf(food)];
      nextFood := if key < nextFood then nextFood else key + 1;
      ok := InsertLinks(key, food.ingredients);
    }

    /** One transaction: a failure at any ingredient restores the tables. */
    method RecordRecommendation(food: Food) returns (r: Result<Food, Fault>)
      requires Valid()
      modifies this`foods, this`links, this`ratings, this`nextFood
      ensures Valid()
      ensures match InsertFood(old(Contents()), env, food.id, RowOf(food), IngredientIds(food.ingredients))
              case None => r == Err(ConstraintViolated) && Contents() == old(Contents())
              case Some(db) => r == Ok(food.(id := FoodKey(old(nextFood), food.id))) && Contents() == db
    {
      InsertFoodKeeps(Contents(), env, food.id, RowOf(food), IngredientIds(food.ingredients));
      var foods0, links0, nextFood0 := foods, links, nextFood;
      var ok := InsertRows(food);
      if !ok {
        foods, links, nextFood := foods0, links0, nextFood0;
        return Err(ConstraintViolated);
      }
      EnforceFoodLimit();
      r := Ok(food.(id := FoodKey(nextFood0, food.id)));
    }
  }

  lemma KnownIngredients(ref: Reference, ingredients: seq<Ingredient>)
    ensures (forall i :: i in IngredientIds(ingredients) ==> i in ref.ingredients) <==>
            (forall k :: 0 <= k < |ingredients| ==> ingredients[k].id in ref.ingredients)
  {
    assert forall k :: 0 <= k < |ingredients| ==> IngredientIds(ingredients)[k] == ingredients[k].id;
  }

  lemma SomeTool(tools: set<string>)
    ensures tools == {} || exists t :: t in tools
  {
    if forall t :: t !in tools {
      assert tools == {};
    }
  }
}
