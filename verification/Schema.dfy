/**
 The relational store: four tables, their constraints, and the effect of each
 transaction on them as a function of the tables.
 */
module Schema {
  import opened Wrappers
  import opened Entities
  import opened Eviction

  /** Tables that nothing changes after the migrations. */
  datatype Reference = Reference(
    ingredients: map<int, Ingredient>,
    kinds: map<int, string>,
    rices: map<int, Rice>,
    tools: set<string>)

  /** Ingredient `i` is a row of the given kind. */
  ghost predicate OfKind(ref: Reference, kind: string, i: Ingredient) {
    exists key :: key in ref.ingredients && key in ref.kinds && ref.kinds[key] == kind && ref.ingredients[key] == i
  }

  datatype Limits = Limits(
    fixedFoods: int, fixedUsers: int, fixedRatings: int,
    maxFoods: int, maxUsers: int, maxRatings: int)

  datatype Env = Env(ref: Reference, limits: Limits)

  datatype FoodRow = FoodRow(name: string, riceId: int, tool: string)

  datatype Link = Link(foodId: int, ingredientId: int)

  datatype Db = Db(
    users: map<int, Account>,
    foods: map<int, FoodRow>,
    links: set<Link>,
    ratings: map<int, Review>,
    nextUser: int,
    nextFood: int,
    nextRating: int)

  // ---------------------------------------------------------------------
  // What every committed state satisfies

  ghost predicate KeysIssued(db: Db) {
    && 1 <= db.nextUser && 1 <= db.nextFood && 1 <= db.nextRating
    && (forall u :: u in db.users ==> 1 <= u < db.nextUser)
    && (forall f :: f in db.foods ==> f < db.nextFood)
    && (forall r :: r in db.ratings ==> 1 <= r < db.nextRating)
  }

  ghost predicate ReferencesHold(db: Db, ref: Reference) {
    && (forall r :: r in db.ratings ==> db.ratings[r].userId in db.users && db.ratings[r].foodId in db.foods)
    && (forall l :: l in db.links ==> l.foodId in db.foods && l.ingredientId in ref.ingredients)
    && (forall f :: f in db.foods ==> db.foods[f].riceId in ref.rices && db.foods[f].tool in ref.tools)
  }

  ghost predicate UniqueUsers(db: Db) {
    forall u, v :: u in db.users && v in db.users && u != v ==>
      db.users[u].username != db.users[v].username && db.users[u].token != db.users[v].token
  }

  ghost predicate Consistent(db: Db, ref: Reference) {
    KeysIssued(db) && ReferencesHold(db, ref) && UniqueUsers(db)
  }

  /** What the handlers' validation adds: legal stars, one user named "default". */
  ghost predicate Vetted(db: Db) {
    && (forall r :: r in db.ratings ==> ValidStars(db.ratings[r].stars))
    && (forall u :: u in db.users && db.users[u].username == GLOBAL_USERNAME ==> u == 1)
  }

  /** Identifiers are never reused, accounts never change, ratings keep owner and food. */
  ghost predicate Evolves(db: Db, db': Db) {
    && db.nextUser <= db'.nextUser
    && db.nextRating <= db'.nextRating
    && (forall u :: u in db'.users && u < db.nextUser ==> u in db.users && db'.users[u] == db.users[u])
    && (forall r :: r in db'.ratings && r < db.nextRating ==>
          && r in db.ratings
          && db'.ratings[r].userId == db.ratings[r].userId
          && db'.ratings[r].foodId == db.ratings[r].foodId)
  }

  lemma EvolvesTransitive(a: Db, b: Db, c: Db)
    requires Evolves(a, b) && Evolves(b, c)
    ensures Evolves(a, c)
  {
  }

  ghost function LinksOf(db: Db, food: int): set<int> {
    set l | l in db.links && l.foodId == food :: l.ingredientId
  }

  /** Food `food`, if still stored, is the row it was, with the links it had. */
  ghost predicate FoodKept(db: Db, db': Db, food: int) {
    && db.nextFood <= db'.nextFood
    && (food in db'.foods ==>
          && food in db.foods
          && db'.foods[food] == db.foods[food]
          && LinksOf(db', food) == LinksOf(db, food))
  }

  // ---------------------------------------------------------------------
  // Deletion with cascades

  /**
   Deletes the given rows. Ratings follow their user and their food, links
   follow their food.
   */
  ghost function Purge(db: Db, users: set<int>, foods: set<int>, ratings: set<int>): Db {
    db.(users := db.users - users,
        foods := db.foods - foods,
        links := (set l | l in db.links && l.foodId !in foods),
        ratings := (map r | r in db.ratings && r !in ratings
                       && db.ratings[r].userId !in users && db.ratings[r].foodId !in foods :: db.ratings[r]))
  }

  lemma PurgeRatingsOnly(db: Db, ratings: set<int>)
    ensures Purge(db, {}, {}, ratings) == db.(ratings := db.ratings - ratings)
  {
    var purged := Purge(db, {}, {}, ratings);
    assert purged.links == db.links;
    assert purged.ratings == db.ratings - ratings;
  }

  /** No deletion, with its cascades, can break a constraint. */
  lemma PurgeKeeps(db: Db, ref: Reference, users: set<int>, foods: set<int>, ratings: set<int>)
    requires Consistent(db, ref)
    ensures Consistent(Purge(db, users, foods, ratings), ref)
    ensures Evolves(db, Purge(db, users, foods, ratings))
    ensures Vetted(db) ==> Vetted(Purge(db, users, foods, ratings))
  {
  }

  lemma PurgeKeepsFood(db: Db, users: set<int>, foods: set<int>, ratings: set<int>, food: int)
    ensures FoodKept(db, Purge(db, users, foods, ratings), food)
  {
    var db' := Purge(db, users, foods, ratings);
    if food in db'.foods {
      assert forall l :: l in db.links && l.foodId == food ==> l in db'.links;
      assert LinksOf(db', food) == LinksOf(db, food);
    }
  }

  ghost function EvictUsers(db: Db, limits: Limits): Db {
    Purge(db, Victims(db.users.Keys, limits.fixedUsers, limits.maxUsers), {}, {})
  }

  ghost function EvictFoods(db: Db, limits: Limits): Db {
    Purge(db, {}, Victims(db.foods.Keys, limits.fixedFoods, limits.maxFoods), {})
  }

  ghost function EvictRatings(db: Db, limits: Limits): Db {
    Purge(db, {}, {}, Victims(db.ratings.Keys, limits.fixedRatings, limits.maxRatings))
  }

  // ---------------------------------------------------------------------
  // Transactions. None is a rolled back transaction.

  ghost predicate NameTaken(db: Db, username: string) {
    exists u :: u in db.users && db.users[u].username == username
  }

  ghost predicate TokenTaken(db: Db, token: string) {
    exists u :: u in db.users && db.users[u].token == token
  }

  ghost function AddUser(db: Db, account: Account): Db {
    db.(users := db.users[db.nextUser := account], nextUser := db.nextUser + 1)
  }

  ghost function InsertUser(db: Db, limits: Limits, account: Account): Option<Db> {
    if NameTaken(db, account.username) || TokenTaken(db, account.token) then None
    else Some(EvictUsers(AddUser(db, account), limits))
  }

  ghost function AddRating(db: Db, review: Review): Db {
    db.(ratings := db.ratings[db.nextRating := review], nextRating := db.nextRating + 1)
  }

  ghost function InsertRating(db: Db, limits: Limits, review: Review): Option<Db> {
    if review.userId !in db.users || review.foodId !in db.foods then None
    else Some(EvictRatings(AddRating(db, review), limits))
  }

  /** The key a food is stored under: the one it carries, or the next one. */
  function FoodKey(next: int, id: int): int {
    if id == 0 then next else id
  }

  ghost predicate Distinct(s: seq<int>) {
    forall j, k :: 0 <= j < k < |s| ==> s[j] != s[k]
  }

  /** Every key and foreign key of the insert is satisfied. */
  ghost predicate Insertable(db: Db, ref: Reference, id: int, row: FoodRow, ingredients: seq<int>) {
    && FoodKey(db.nextFood, id) !in db.foods
    && row.riceId in ref.rices
    && row.tool in ref.tools
    && Distinct(ingredients)
    && (forall i :: i in ingredients ==> i in ref.ingredients)
  }

  ghost function AddFood(db: Db, id: int, row: FoodRow, ingredients: seq<int>): Db {
    var key := FoodKey(db.nextFood, id);
    db.(foods := db.foods[key := row],
        links := db.links + (set i | i in ingredients :: Link(key, i)),
        nextFood := if key < db.nextFood then db.nextFood else key + 1)
  }

  ghost function InsertFood(db: Db, env: Env, id: int, row: FoodRow, ingredients: seq<int>): Option<Db> {
    if Insertable(db, env.ref, id, row, ingredients)
    then Some(EvictFoods(AddFood(db, id, row, ingredients), env.limits))
    else None
  }

  ghost function SetStars(db: Db, rating: int, stars: int): Db {
    if rating in db.ratings then db.(ratings := db.ratings[rating := db.ratings[rating].(stars := stars)])
    else db
  }

  ghost function RatingsBy(db: Db, user: int): set<int> {
    set r | r in db.ratings && db.ratings[r].userId == user
  }

  // ---------------------------------------------------------------------
  // Each transaction keeps every constraint

  lemma AddUserUnique(db: Db, account: Account)
    requires KeysIssued(db) && UniqueUsers(db)
    requires !NameTaken(db, account.username) && !TokenTaken(db, account.token)
    ensures UniqueUsers(AddUser(db, account))
  {
  }

  lemma AddUserKeeps(db: Db, ref: Reference, account: Account)
    requires Consistent(db, ref)
    requires !NameTaken(db, account.username) && !TokenTaken(db, account.token)
    ensures Consistent(AddUser(db, account), ref)
    ensures Evolves(db, AddUser(db, account))
    ensures Vetted(db) && account.username != GLOBAL_USERNAME ==> Vetted(AddUser(db, account))
  {
    var mid := AddUser(db, account);
    AddUserUnique(db, account);
    assert KeysIssued(mid);
    assert ReferencesHold(mid, ref);
  }

  lemma InsertUserKeeps(db: Db, ref: Reference, limits: Limits, account: Account)
    requires Consistent(db, ref)
    ensures match InsertUser(db, limits, account)
            case None => true
            case Some(db') =>
              && Consistent(db', ref)
              && Evolves(db, db')
              && (Vetted(db) && account.username != GLOBAL_USERNAME ==> Vetted(db'))
              && db.nextUser in db'.users && db'.users[db.nextUser] == account
              && db'.nextUser == db.nextUser + 1
  {
    if InsertUser(db, limits, account).Some? {
      var mid := AddUser(db, account);
      var gone := Victims(mid.users.Keys, limits.fixedUsers, limits.maxUsers);
      AddUserKeeps(db, ref, account);
      PurgeKeeps(mid, ref, gone, {}, {});
      EvolvesTransitive(db, mid, EvictUsers(mid, limits));
      FreshRowStays(mid.users.Keys, limits.fixedUsers, limits.maxUsers, db.nextUser);
    }
  }

  lemma AddRatingKeeps(db: Db, ref: Reference, review: Review)
    requires Consistent(db, ref) && review.userId in db.users && review.foodId in db.foods
    ensures Consistent(AddRating(db, review), ref)
    ensures Evolves(db, AddRating(db, review))
    ensures Vetted(db) && ValidStars(review.stars) ==> Vetted(AddRating(db, review))
  {
    var mid := AddRating(db, review);
    assert KeysIssued(mid);
    assert ReferencesHold(mid, ref);
    assert UniqueUsers(mid);
  }

  lemma InsertRatingKeeps(db: Db, ref: Reference, limits: Limits, review: Review)
    requires Consistent(db, ref)
    ensures match InsertRating(db, limits, review)
            case None => true
            case Some(db') =>
              && Consistent(db', ref)
              && Evolves(db, db')
              && (Vetted(db) && ValidStars(review.stars) ==> Vetted(db'))
              && db.nextRating in db'.ratings && db'.ratings[db.nextRating] == review
              && db'.nextRating == db.nextRating + 1
  {
    if InsertRating(db, limits, review).Some? {
      var mid := AddRating(db, review);
      var gone := Victims(mid.ratings.Keys, limits.fixedRatings, limits.maxRatings);
      AddRatingKeeps(db, ref, review);
      PurgeKeeps(mid, ref, {}, {}, gone);
      PurgeRatingsOnly(mid, gone);
      EvolvesTransitive(db, mid, EvictRatings(mid, limits));
      FreshRowStays(mid.ratings.Keys, limits.fixedRatings, limits.maxRatings, db.nextRating);
    }
  }

  lemma AddFoodKeeps(db: Db, ref: Reference, id: int, row: FoodRow, ingredients: seq<int>)
    requires Consistent(db, ref) && Insertable(db, ref, id, row, ingredients)
    ensures Consistent(AddFood(db, id, row, ingredients), ref)
    ensures Evolves(db, AddFood(db, id, row, ingredients))
    ensures Vetted(db) ==> Vetted(AddFood(db, id, row, ingredients))
  {
    var mid := AddFood(db, id, row, ingredients);
    assert KeysIssued(mid);
    assert ReferencesHold(mid, ref);
    assert UniqueUsers(mid);
  }

  lemma InsertFoodKeeps(db: Db, env: Env, id: int, row: FoodRow, ingredients: seq<int>)
    requires Consistent(db, env.ref)
    ensures match InsertFood(db, env, id, row, ingredients)
            case None => true
            case Some(db') => Consistent(db', env.ref) && Evolves(db, db') && (Vetted(db) ==> Vetted(db'))
  {
    if InsertFood(db, env, id, row, ingredients).Some? {
      AddFoodKeeps(db, env.ref, id, row, ingredients);
      var mid := AddFood(db, id, row, ingredients);
      PurgeKeeps(mid, env.ref, {}, Victims(mid.foods.Keys, env.limits.fixedFoods, env.limits.maxFoods), {});
      EvolvesTransitive(db, mid, EvictFoods(mid, env.limits));
    }
  }

  lemma SetStarsKeeps(db: Db, ref: Reference, rating: int, stars: int)
    requires Consistent(db, ref)
    ensures Consistent(SetStars(db, rating, stars), ref)
    ensures Evolves(db, SetStars(db, rating, stars))
    ensures Vetted(db) && ValidStars(stars) ==> Vetted(SetStars(db, rating, stars))
  {
  }

  // ---------------------------------------------------------------------
  // What a successful rating insert does

  /** The ratings after one insert: `key` is new, the others stay as they were or have too many newer ones. */
  ghost predicate OneRatingMore(db: Db, db': Db, limits: Limits, review: Review) {
    var key := db.nextRating;
    && db'.nextRating == key + 1
    && key in db'.ratings && db'.ratings[key] == review
    && (forall r :: r in db'.ratings && r != key ==> r in db.ratings && db'.ratings[r] == db.ratings[r])
    && (forall r :: r in db.ratings ==>
          (r in db'.ratings <==>
           limits.maxRatings <= 0 || r <= limits.fixedRatings
           || |Newer(db.ratings.Keys, r)| + 1 < limits.maxRatings))
    && db'.users == db.users && db'.foods == db.foods && db'.links == db.links
  }

  lemma InsertedRating(db: Db, limits: Limits, review: Review)
    requires KeysIssued(db) && review.userId in db.users && review.foodId in db.foods
    ensures InsertRating(db, limits, review).Some?
    ensures OneRatingMore(db, InsertRating(db, limits, review).value, limits, review)
  {
    var mid := AddRating(db, review);
    PurgeRatingsOnly(mid, Victims(mid.ratings.Keys, limits.fixedRatings, limits.maxRatings));
    FreshRowStays(mid.ratings.Keys, limits.fixedRatings, limits.maxRatings, db.nextRating);
    forall r | r in db.ratings
      ensures r in Victims(mid.ratings.Keys, limits.fixedRatings, limits.maxRatings) <==>
              limits.maxRatings > 0 && r > limits.fixedRatings && |Newer(db.ratings.Keys, r)| + 1 >= limits.maxRatings
    {
      VictimsByRank(mid.ratings.Keys, limits.fixedRatings, limits.maxRatings, r);
      assert Newer(mid.ratings.Keys, r) == Newer(db.ratings.Keys, r) + {db.nextRating};
    }
  }

  // ---------------------------------------------------------------------
  // What a successful food insert does

  lemma AddFoodLinks(db: Db, ref: Reference, id: int, row: FoodRow, ingredients: seq<int>, food: int)
    requires Consistent(db, ref) && Insertable(db, ref, id, row, ingredients)
    ensures var key := FoodKey(db.nextFood, id);
            LinksOf(AddFood(db, id, row, ingredients), food) ==
            if food == key then set i | i in ingredients else LinksOf(db, food)
  {
    var key := FoodKey(db.nextFood, id);
    var mid := AddFood(db, id, row, ingredients);
    assert forall i :: i in ingredients ==> Link(key, i) in mid.links;
    assert forall l :: l in db.links ==> l.foodId != key;
    if food == key {
      forall i | i in LinksOf(mid, food)
        ensures i in ingredients
      {
        var l :| l in mid.links && l.foodId == food && l.ingredientId == i;
        assert l !in db.links;
      }
      forall i | i in ingredients
        ensures i in LinksOf(mid, food)
      {
        assert Link(key, i) in mid.links;
      }
      assert LinksOf(mid, food) == set i | i in ingredients;
    } else {
      assert forall l :: l in mid.links && l.foodId == food ==> l in db.links;
      assert LinksOf(mid, food) == LinksOf(db, food);
    }
  }

  /**
   A recorded food is there with exactly its ingredients, unless it is itself
   too old to stay, which cannot happen to a store-assigned key. Users are
   untouched, every other food still there is as it was, a missing food is a
   victim of the size limit, and a rating that is gone went with its food.
   */
  lemma InsertFoodEffect(db: Db, env: Env, id: int, row: FoodRow, ingredients: seq<int>)
    requires Consistent(db, env.ref)
    ensures match InsertFood(db, env, id, row, ingredients)
            case None => true
            case Some(db') =>
              var key := FoodKey(db.nextFood, id);
              var gone := Victims(db.foods.Keys + {key}, env.limits.fixedFoods, env.limits.maxFoods);
              && db'.foods.Keys == db.foods.Keys + {key} - gone
              && (key in db'.foods ==> db'.foods[key] == row && LinksOf(db', key) == set i | i in ingredients)
              && (key >= db.nextFood ==> key in db'.foods)
              && db'.nextFood == (if key < db.nextFood then db.nextFood else key + 1)
              && db'.users == db.users
              && (forall f :: f != key ==> FoodKept(db, db', f))
              && (forall r :: r in db'.ratings ==> r in db.ratings && db'.ratings[r] == db.ratings[r])
              && (forall r :: r in db.ratings && r !in db'.ratings ==> db.ratings[r].foodId in gone)
  {
    if Insertable(db, env.ref, id, row, ingredients) {
      var key := FoodKey(db.nextFood, id);
      var mid := AddFood(db, id, row, ingredients);
      var gone := Victims(mid.foods.Keys, env.limits.fixedFoods, env.limits.maxFoods);
      var db' := EvictFoods(mid, env.limits);
      assert mid.foods.Keys == db.foods.Keys + {key};
      if key >= db.nextFood {
        FreshRowStays(mid.foods.Keys, env.limits.fixedFoods, env.limits.maxFoods, key);
      }
      assert db'.users == db.users;
      forall f
        ensures FoodKept(mid, db', f)
        ensures LinksOf(mid, f) == if f == key then set i | i in ingredients else LinksOf(db, f)
      {
        PurgeKeepsFood(mid, {}, gone, {}, f);
        AddFoodLinks(db, env.ref, id, row, ingredients, f);
      }
      assert FoodKept(mid, db', key);
      assert forall f :: f != key ==> FoodKept(db, db', f);
    }
  }

  /** An insert, with any key, leaves every food of another key as it was or deletes it. */
  lemma InsertFoodKeepsOthers(db: Db, env: Env, id: int, row: FoodRow, ingredients: seq<int>, food: int)
    requires Consistent(db, env.ref)
    requires food != FoodKey(db.nextFood, id)
    ensures match InsertFood(db, env, id, row, ingredients)
            case None => true
            case Some(db') => FoodKept(db, db', food)
  {
    if Insertable(db, env.ref, id, row, ingredients) {
      var mid := AddFood(db, id, row, ingredients);
      AddFoodLinks(db, env.ref, id, row, ingredients, food);
      PurgeKeepsFood(mid, {}, Victims(mid.foods.Keys, env.limits.fixedFoods, env.limits.maxFoods), {}, food);
    }
  }

  // ---------------------------------------------------------------------
  // Reading a food back

  function RowOf(food: Food): FoodRow {
    FoodRow(food.name, food.rice.id, food.tool)
  }

  function IngredientIds(ingredients: seq<Ingredient>): seq<int> {
    seq(|ingredients|, k requires 0 <= k < |ingredients| => ingredients[k].id)
  }

  /** Rows are stored under the identifier they carry. */
  ghost predicate Keyed(ref: Reference) {
    && (forall i :: i in ref.ingredients ==> ref.ingredients[i].id == i)
    && (forall r :: r in ref.rices ==> ref.rices[r].id == r)
  }

  /** `keys` lists the elements of `ids` once each, in some order. */
  ghost predicate Lists(keys: seq<int>, ids: set<int>) {
    && Distinct(keys)
    && (forall k :: 0 <= k < |keys| ==> keys[k] in ids)
    && (forall i :: i in ids ==> i in keys)
  }

  ghost function Fetch(ref: Reference, keys: seq<int>): seq<Ingredient>
    requires forall k :: 0 <= k < |keys| ==> keys[k] in ref.ingredients
  {
    seq(|keys|, k requires 0 <= k < |keys| => ref.ingredients[keys[k]])
  }

  /** `food` is a possible answer to a read of `id`: the order of ingredients is the database's. */
  ghost predicate ReadsAs(db: Db, ref: Reference, id: int, food: Food)
    requires ReferencesHold(db, ref)
  {
    && id in db.foods
    && food.id == id
    && RowOf(food) == db.foods[id].(riceId := food.rice.id)
    && food.rice == ref.rices[db.foods[id].riceId]
    && exists keys :: Lists(keys, LinksOf(db, id)) && food.ingredients == Fetch(ref, keys)
  }

  // ---------------------------------------------------------------------
  // Looking users up

  /** SELECT ... WHERE token = ?, else user 1 */
  ghost function Authenticate(db: Db, token: string): Option<User> {
    if TokenTaken(db, token) then
      var u :| u in db.users && db.users[u].token == token;
      Some(User(u, db.users[u]))
    else if 1 in db.users then Some(User(1, db.users[1]))
    else None
  }

  /** `check(password, hash)` stands for the password hash comparison. */
  ghost function Login(db: Db, check: (string, string) -> bool, username: string, password: string): Option<User> {
    if NameTaken(db, username) then
      var u :| u in db.users && db.users[u].username == username;
      var user := User(u, db.users[u]);
      if user.account.passwordPlaintext != "" then
        if password == user.account.passwordPlaintext then Some(user) else None
      else if user.IsGlobal() || check(password, user.account.passwordHash) then Some(user)
      else None
    else None
  }

  lemma TokenFinds(db: Db, token: string, u: int)
    requires UniqueUsers(db)
    requires u in db.users && db.users[u].token == token
    ensures Authenticate(db, token) == Some(User(u, db.users[u]))
  {
  }

  lemma NameFinds(db: Db, check: (string, string) -> bool, username: string, password: string, u: int)
    requires UniqueUsers(db)
    requires u in db.users && db.users[u].username == username
    ensures Login(db, check, username, password) ==
            var account := db.users[u];
            var accepted := if account.passwordPlaintext != "" then password == account.passwordPlaintext
                            else username == GLOBAL_USERNAME || check(password, account.passwordHash);
            if accepted then Some(User(u, account)) else None
  {
  }

  /** The stored user a token stands for: its holder or, when nobody holds it, user 1. */
  ghost predicate NamedBy(db: Db, user: User, token: string) {
    && user.id in db.users && db.users[user.id] == user.account
    && (user.account.token == token || (user.id == 1 && forall u :: u in db.users ==> db.users[u].token != token))
  }

  lemma AuthenticateExactly(db: Db, token: string, user: User)
    requires UniqueUsers(db)
    ensures Authenticate(db, token) == Some(user) <==> NamedBy(db, user, token)
    ensures Authenticate(db, token) == None <==>
            1 !in db.users && forall u :: u in db.users ==> db.users[u].token != token
  {
  }

  /** The password rule: the plaintext if there is one, else the hash, and none for the default user. */
  predicate PasswordFits(account: Account, check: (string, string) -> bool, password: string) {
    if account.passwordPlaintext != "" then password == account.passwordPlaintext
    else account.username == "default" || check(password, account.passwordHash)
  }

  lemma LoginExactly(db: Db, check: (string, string) -> bool, username: string, password: string, user: User)
    requires UniqueUsers(db)
    ensures Login(db, check, username, password) == Some(user) <==>
            && user.id in db.users && db.users[user.id] == user.account
            && user.account.username == username && PasswordFits(user.account, check, password)
  {
  }
}
