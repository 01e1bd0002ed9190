/**
 The handlers, cut at the points where requests can interleave. Each method is
 one atomic step on the store and the table of requests in flight, and does
 exactly what `Requests.Step` says.
 */
module Handlers {
  import opened Wrappers
  import opened Entities
  import opened Schema
  import opened Window
  import opened Requests
  import opened Catalogs

  class Server {
    const store: Catalog
    var requests: map<int, Request>
    ghost var userLog: seq<Entry<Account>>
    ghost var foodLog: seq<Entry<FoodRow>>

    ghost function State(): World
      reads this, store
    {
      World(store.Contents(), requests, userLog, foodLog)
    }

    constructor (store: Catalog, ghost userLog: seq<Entry<Account>>, ghost foodLog: seq<Entry<FoodRow>>)
      ensures this.store == store
      ensures State() == World(store.Contents(), map[], userLog, foodLog)
    {
      this.store, this.requests := store, map[];
      this.userLog, this.foodLog := userLog, foodLog;
    }

    // Middleware: no request proceeds without a token

    method Enter(c: int, token: string)
      requires store.Valid()
      modifies this`requests
      ensures State() == Step(old(State()), Event.Enter(c, token), store.env)
      ensures c !in old(requests) && c in requests ==>
                requests[c].user.Some? && NamedBy(store.Contents(), requests[c].user.value, token)
    {
      if token == "" {
        return;
      }
      var user := store.Authenticate(token);
      if user.Some? {
        AuthenticateExactly(store.Contents(), token, user.value);
      }
      if c !in requests && user.Some? {
        requests := requests[c := Request(user, Idle)];
      }
    }

    // Checks and reads

    method BeginRate(c: int, food: int, stars: int)
      requires store.Valid()
      modifies this`requests
      ensures State() == Step(old(State()), Event.BeginRate(c, food, stars), store.env)
    {
      if c !in requests || requests[c].user == None || requests[c].pending != Idle {
        return;
      }
      var user := requests[c].user.value;
      var found := store.GetRecommendation(food);
      if !ValidStars(stars) || found == None {
        requests := requests - {c};
        return;
      }
      requests := requests[c := requests[c].(pending := Rate(Review(stars, user.id, food)))];
    }

    method BeginUpdate(c: int, rating: int, stars: int)
      modifies this`requests
      ensures State() == Step(old(State()), Event.BeginUpdate(c, rating, stars), store.env)
    {
      if c !in requests || requests[c].user == None || requests[c].pending != Idle {
        return;
      }
      var user := requests[c].user.value;
      var existing := store.GetRating(user, rating);
      if !ValidStars(stars) || user.IsGlobal() || existing == None {
        requests := requests - {c};
        return;
      }
      requests := requests[c := requests[c].(pending := Update(rating, existing.value.review, stars))];
    }

    method BeginDelete(c: int, rating: int)
      modifies this`requests
      ensures State() == Step(old(State()), Event.BeginDelete(c, rating), store.env)
    {
      if c !in requests || requests[c].user == None || requests[c].pending != Idle {
        return;
      }
      var user := requests[c].user.value;
      var existing := store.GetRating(user, rating);
      if user.IsGlobal() || existing == None {
        requests := requests - {c};
        return;
      }
      requests := requests[c := requests[c].(pending := Delete(rating, existing.value.review))];
    }

    method BeginRegister(c: int, username: string, password: string, hash: Option<string>, token: string)
      modifies this`requests
      ensures State() == Step(old(State()), Event.BeginRegister(c, username, password, hash, token), store.env)
    {
      var named := store.FindByName(username);
      if c in requests || ValidateUser(username, password) != None || hash == None || named.Some? {
        return;
      }
      requests := requests[c := Request(None, Register(Account(username, token, hash.value, "")))];
    }

    // Transactions

    method DeleteAll(c: int)
      requires store.Valid()
      modifies this`requests, store
      ensures store.Valid()
      ensures State() == Step(old(State()), Event.DeleteAll(c), store.env)
      ensures old(Entered(State(), c)) ==>
                var user, before := old(requests)[c].user.value, old(store.ratings);
                && store.ratings.Keys <= before.Keys
                && forall r :: r in before ==>
                     (r in store.ratings <==> user.IsGlobal() || before[r].userId != user.id)
    {
      if c !in requests || requests[c].user == None || requests[c].pending != Idle {
        return;
      }
      var fault := store.DeleteRatings(requests[c].user.value);
      requests := requests - {c};
    }

    method Commit(c: int)
      requires store.Valid()
      modifies this, store
      ensures store.Valid()
      ensures State() == Step(old(State()), Event.Commit(c), store.env)
    {
      if c !in requests || requests[c].pending == Idle {
        return;
      }
      match requests[c].pending {
        case Rate(review) =>
          var key := store.RatingTx(review);
        case Update(rating, seen, stars) =>
          store.UpdateTx(Rating(rating, seen.(stars := stars)));
        case Delete(rating, _) =>
          PurgeKeeps(store.Contents(), store.env.ref, {}, {}, {rating});
          store.DropRatings({rating});
        case Register(account) =>
          var key := store.UserTx(account);
          if key.Some? {
            userLog := userLog + [Entry(key.value, account)];
          }
      }
      requests := requests - {c};
    }

    method RecordFood(food: Food)
      requires store.Valid()
      modifies this`foodLog, store
      ensures store.Valid()
      ensures State() ==
              Step(old(State()), Event.RecordFood(food.id, RowOf(food), IngredientIds(food.ingredients)), store.env)
    {
      var stored := store.RecordRecommendation(food);
      if stored.Ok? {
        foodLog := foodLog + [Entry(stored.value.id, RowOf(food))];
      }
    }
  }
}
