# Verification of the food catalog and its recommendation generator

This project models three parts of the repository and proves what they promise
over all inputs and all runs.

* **The catalog store.** Users, foods, ratings and food-to-ingredient links with
  their keys, cascades and size limits. `Catalogs.Catalog` updates the tables in
  place, as `pkg/database/catalog.go` does; `Schema` says what each transaction
  does to them. `Requests` is the state machine of any number of requests, cut
  where they can interleave: the middleware resolves a user, the handler reads,
  the transaction writes. `Handlers.Server` runs the same steps on the tables.
  `Outcomes` follows each request from receipt to commit, with any steps of others
  in between. The theorems about runs are in `RatingSafety`, `RatingLifetime`,
  `BoundedTables` and `Accounts`; `Seed` applies them to the migrated database.
* **The generator** of `POST /api/food` (`Generator`): exactly the foods it can
  serve (`Servings`), against the independent checker of the load test extension
  (`Checker`).
* **What joins them.** `Recommendations`: what the generator emits can be stored
  and reads back as it was. `Identity`: who a request belongs to, on both paths.

## Assumptions

* Identifiers are assigned in increasing order and a committed one is never
  assigned again (SQLite's AUTOINCREMENT); an explicit food id moves the counter
  past it. Foreign keys are enforced. Transactions are serial.
* Password hashing is an input: the hash stored for a password is any string,
  and `check(password, hash)` is assumed of the pair that was issued.
* Generated tokens, random numbers and the made-up food name are arbitrary
  inputs; Go's map order and the row order of the database are left open.
* Ingredients, rices and tools do not change after the migrations.
* Strings are sequences of bytes; those of the reference tables and the made-up
  names are UTF-8. Letter case is ASCII. An HTTP header value arrives as it was
  sent. Go's `int` is 64 bits wide and wraps in the topping and calorie
  arithmetic; row identifiers are unbounded.

## Where code and expectation part

* The checker's verdict on a generated food is calories and minimum alone for
  maximum topping counts from 0 to the greatest integer minus 3. Above, its own
  addition wraps and it accepts nothing. Below 0 it refuses every food that
  keeps three ingredients; verdict and minimum still agree if the minimum is at
  least 1, does not wrap when 3 is added, and the difference of the limits does
  not wrap. `Checker.AgreesExactly` has the whole condition. A client that checks
  against the request as it wrote it, as the load script does, gets the same
  verdict if the request has no zero. Zeros stand for defaults, and there the two
  can differ (`Checker.ZeroRequestDiffers`); `Checker.RawAgreesExactly` has the
  condition, computed from the limits of the request.
* A cookie that is neither empty nor 16 bytes long makes the recommendations
  service answer 401 to requests the catalog itself would serve
  (`Identity.PathsAgree` gives the exact condition).
* The side-dish count leaves the range of its limits, or the random choice
  panics, exactly when their difference wraps downwards or is the greatest
  integer (`Generator.SideDishRange`).
* The comment on `enforceTableSizeLimits` counts protected ids from 0; the code
  protects every id up to and including `fixed`, negative ones too. The recording
  endpoint takes any id, so foods under negative ids are never evicted and their
  number has no bound (`Seed.SeedFoodsUnbounded`).
* The comment on `enforceTableSizeLimits` speaks of the newest entries; the code
  goes by id. For users that is the order of registration. A food recorded under
  an explicit id can be last in time and not the newest by id: it is then evicted
  by its own insert (`BoundedTables.ExplicitFoodStays`,
  `BoundedTables.SmallIdBreaksWindow`). What the code keeps besides the prefix,
  for any explicit ids, is the `maxFoods` largest ids ever recorded
  (`BoundedTables.FoodRank`), and an evicted id never comes back (`BoundedTables.EvictedFoodsNeverReturn`).
* A custom name is cut at 64 bytes. Inside a character this leaves bytes that
  JSON replaces, so the food is stored under another name than it was made with,
  exactly when its 65th byte continues a character
  (`Recommendations.CutNamesArriveExactly`, `Recommendations.CutNamesAreRepaired`).

## Model

| member | source | states |
|---|---|---|
| Eviction.NewestByRank | pkg/database/catalog.go:318-324 | `ORDER BY id DESC LIMIT n` selects a row exactly when fewer than n rows are newer |
| Eviction.VictimsByRank | pkg/database/catalog.go:313-326 | the delete statement removes exactly the rows above `fixed` with at least `maximum` newer rows, and none when `maximum <= 0` |
| Eviction.EvictionSettles | pkg/database/catalog.go:304-326 | eviction leaves a table where every row above `fixed` has fewer than `maximum` newer rows; evicting again removes nothing |
| Eviction.NoOlderSurvivor | pkg/database/catalog.go:304-312 | no row is evicted while an older row above the fixed prefix stays |
| Eviction.FreshRowStays | pkg/database/catalog.go:304-326 | the row with the largest id is never evicted |
| Eviction.OneInOneOut | pkg/database/catalog.go:304-326 | in a steady table one more row, whatever its id, evicts at most one row |
| Eviction.EvictionKeepsBurying | pkg/database/catalog.go:313-326 | a row with at least `maximum` newer rows still has as many after the eviction |
| Eviction.EvictionCanWait | pkg/database/catalog.go:313-326 | insert and evict give the same rows whether or not the table was evicted before the insert |
| Eviction.SteadyAbovePrefix | pkg/database/catalog.go:304-312 | a steady table holds at most `maximum` rows above the fixed prefix, whatever the ids |
| Eviction.SteadySize | pkg/database/catalog.go:304-312 | a steady table with positive ids holds at most `maximum + max(fixed, 0)` rows |
| Eviction.SelectNewest | pkg/database/catalog.go:318-324 | the sub-select, computed by a loop taking the largest remaining id, is the set `Newest` |
| Eviction.SelectVictims | pkg/database/catalog.go:313-326 | the walk over all ids against sub-select and cutoff yields exactly the rows of the delete statement |
| Window.WindowStep | pkg/database/catalog.go:304-326 | insert then evict turns the window of the log into the window of the log with one more entry |
| Window.RankStep | pkg/database/catalog.go:287-326 | insert and evict, with any id not in the table, keep the table equal to all ids ever inserted less the victims among them, each with its first row |
| Schema.PurgeKeeps | pkg/database/migrations/catalog/20230829142500_initialize_db.go:34-51 | deleting any rows with their cascades breaks no key or reference, brings nothing back and changes no owner |
| Schema.InsertUserKeeps | pkg/database/catalog.go:231-237 | a committed registration keeps every constraint, reuses no id, and the new user is stored after the eviction of the same transaction |
| Schema.InsertRatingKeeps | pkg/database/catalog.go:201-208 | the same for a rating |
| Schema.InsertedRating | pkg/database/catalog.go:201-208 | with user and food stored the insert always succeeds, whatever the user rated before: the new rating is stored, every other stays as it was exactly when it is in the prefix or fewer than `maxRatings` ratings are now newer, and no other table changes |
| Schema.InsertFoodKeeps | pkg/database/catalog.go:287-301 | a recorded food, with a store-assigned or explicit id, keeps every constraint |
| Schema.InsertFoodEffect | pkg/database/catalog.go:287-301 | for any id: the foods afterwards are those before and the new one less the victims of the size limit, the new one is there with exactly its links unless it is a victim (never with a store-assigned id), other foods are as they were, users are untouched, and a missing rating went with a victim |
| Schema.InsertFoodKeepsOthers | pkg/database/catalog.go:287-301 | recording a food under any id leaves a food of another id as it was, or evicts it |
| Schema.TokenFinds | pkg/database/catalog.go:266-278 | a stored token resolves to its holder, whichever row the LIMIT 1 picks |
| Schema.AuthenticateExactly | pkg/database/catalog.go:262-278 | a token resolves to a user exactly when that user is stored and holds it, or is user 1 and nobody holds it; it resolves to nobody exactly when neither exists |
| Schema.NameFinds | pkg/database/catalog.go:240-260 | a login answers the one user of that name, by plaintext password, hash, or any password for the default user, and nobody when that test fails |
| Schema.LoginExactly | pkg/database/catalog.go:240-260 | a login answers a user exactly when that user is stored under this name and the password fits its plaintext, else its hash, or it is the default user |
| Catalogs.Catalog.EnforceUserLimit | pkg/database/catalog.go:313-326 | deleting the selected users with cascades is the statement on users |
| Catalogs.Catalog.EnforceFoodLimit | pkg/database/catalog.go:313-326 | deleting the selected foods with their links and ratings is the statement on foods |
| Catalogs.Catalog.EnforceRatingLimit | pkg/database/catalog.go:313-326 | deleting the selected ratings is the statement on ratings |
| Catalogs.Catalog.GetRecommendation | pkg/database/catalog.go:110-117 | answers nothing exactly for unknown ids, else the stored food with its rice and each linked ingredient once, in any order |
| Catalogs.Catalog.GetRating | pkg/database/catalog.go:128-135 | answers the rating only to its owner |
| Catalogs.Catalog.DeleteRatings | pkg/database/catalog.go:137-144 | removes all and only the user's ratings; refused for the default user with no change |
| Catalogs.Catalog.DeleteRating | pkg/database/catalog.go:146-160 | removes the one rating if owned; the two refusals change nothing |
| Catalogs.Catalog.UpdateRating | pkg/database/catalog.go:162-187 | sets only the stars of an owned rating; the refusals change nothing |
| Catalogs.Catalog.RecordRating | pkg/database/catalog.go:189-209 | succeeds exactly when food and user are stored, with the new rating and the ratings that stay given one by one; unknown food and violated reference change nothing |
| Catalogs.Catalog.RecordUser | pkg/database/catalog.go:211-238 | hash failure, taken name, taken token and success, each with the whole new state |
| Catalogs.Catalog.LoginUser | pkg/database/catalog.go:240-260 | the loop over users computes `Login` |
| Catalogs.Catalog.Authenticate | pkg/database/catalog.go:262-278 | the loop over users with its fallback to user 1 computes `Authenticate` |
| Catalogs.Catalog.RecordRecommendation | pkg/database/catalog.go:280-302 | all or nothing: the insert loop either fails at some ingredient and restores every table, or ends in the state `InsertFood` describes |
| Catalogs.Catalog.GetIngredients | pkg/database/catalog.go:80-90 | answers exactly the ingredients of the kind |
| Catalogs.Catalog.InsertRows | pkg/database/catalog.go:287-297 | the inserts succeed exactly when every key and reference holds, and then add exactly the food and its links |
| Catalogs.Catalog.InsertLinks | pkg/database/catalog.go:292-297 | the link loop succeeds exactly when the ingredients are known and pairwise different, and then adds exactly their links |
| Handlers.Server.Enter | pkg/http/http.go:777-795 | the middleware's step is the state machine's step, and a request that enters runs for the user its token stands for |
| Handlers.Server.BeginRate | pkg/http/http.go:856-878 | validation and existence check of a new rating, as one atomic read step |
| Handlers.Server.BeginUpdate | pkg/http/http.go:924-957 | validation, default-user check and ownership read of an update, as one atomic read step |
| Handlers.Server.BeginDelete | pkg/http/http.go:997-1018 | default-user check and ownership read of a delete, as one atomic read step |
| Handlers.Server.DeleteAll | pkg/http/http.go:977-992 | deleting all ratings is one step of the state machine, after which a rating is stored exactly when it is not the user's, or the user is the default user |
| Handlers.Server.BeginRegister | pkg/http/http.go:1036-1055 | validation, hashing and name check of a registration, as one atomic read step |
| Handlers.Server.Commit | pkg/database/catalog.go:155-238 | each transaction, run on the tables updated in place, is the `Commit` step of the state machine |
| Handlers.Server.RecordFood | pkg/http/http.go:1148-1166 | the internal recording endpoint is the `RecordFood` step of the state machine |
| Requests.StepKeeps | pkg/database/catalog.go:137-302 | one atomic step of any request keeps the invariant and never reuses a user or rating id |
| Requests.RunKeeps | pkg/database/catalog.go:137-326 | in every reachable state under every interleaving: references hold, keys, names and tokens are unique, stars are 1 to 5, only user 1 is named default, and what each request has read is still right or gone |
| Requests.RequestStays | pkg/database/catalog.go:162-187 | no step of another request changes what a request has captured |
| RatingSafety.OnlyOwnersTouchRatings | pkg/database/catalog.go:137-209 | at every step of every run: ratings are created only for the resolved user with legal stars, only the stars change and only by a non-default owner's request, and a rating disappears only by its owner or by an eviction of it, its user or its food |
| RatingSafety.UpdateReportIsTrue | pkg/database/catalog.go:162-187 | an update passes its checks exactly when the stars are 1 to 5 and the rating is owned by the request's non-default user; then, with any steps of others in between, the commit sets exactly its stars, or the row was already deleted and nothing changes |
| RatingSafety.DeleteIsFinal | pkg/database/catalog.go:146-160 | a delete passes its checks exactly when the rating is owned by the request's non-default user; then the commit removes exactly that rating, and it never reappears |
| RatingSafety.ProtectedRatingsAreImmortal | pkg/database/catalog.go:137-187 | a default user's rating with id, user and food in the fixed prefixes is stored and unchanged after any run |
| Outcomes.EnterExactly | pkg/http/http.go:777-795 | a request enters exactly when it has a token and somebody stored holds it or user 1 is stored, and then runs for the user the token stands for |
| Outcomes.RequestsRunForTheirToken | pkg/http/http.go:777-795 | in every run, a request that runs for a user came in with a token that stood for this user at that moment, and has run for nobody else since |
| Outcomes.OnlyTokenHoldersTouchRatings | pkg/database/catalog.go:137-209 | at every step of every run that starts without requests in flight: a rating appears only for the user whose token the request brought, and is restarred or withdrawn only by a request with its owner's token, who is not the default user |
| Outcomes.RatingExactly | pkg/http/http.go:856-878 | a request to rate, with any steps of others before its commit, stores the rating exactly when the stars are 1 to 5, the food is stored at both moments and the user at the commit; else no table changes |
| Outcomes.DeleteAllExactly | pkg/database/catalog.go:137-144 | deleting all ratings removes exactly those of the request's user, which are in no later state, and none for the default user |
| Outcomes.RegistrationExactly | pkg/http/http.go:1036-1055 | a registration as received, with any steps of others before its commit, stores exactly the name, token and password hash it came with, exactly when name and password are legal and name and token are free; else no table changes |
| Outcomes.RegisteredUserLogsIn | pkg/database/catalog.go:211-278 | from that request to any later state: the user is stored exactly until `maxUsers` later registrations, and while it is, name and password log in to it and the token stands for it |
| Outcomes.FoodRecordedExactly | pkg/database/catalog.go:280-302 | a food is recorded exactly when its id is 0 or not stored, rice and tool are known and the ingredients are known and pairwise different; else nothing changes |
| RatingLifetime.RatingSurvives | pkg/database/catalog.go:137-209 | a rating is stored after every run in which its owner does not delete it and the later inserts into its own, its user's and its food's table leave room for it; owner and food are unchanged |
| BoundedTables.UserWindow | pkg/database/catalog.go:280-326 | after any run the users table is the part of the insert log in the fixed prefix or among the last `maxUsers` |
| BoundedTables.UserLifetime | pkg/database/catalog.go:231-238 | a registered user is stored exactly until `maxUsers` later registrations (for ever in the fixed prefix or without limit) |
| BoundedTables.FoodRank | pkg/database/catalog.go:280-326 | after any run, with any explicit ids, the stored foods are exactly the recorded ones in the fixed prefix or with fewer than `maxFoods` larger ids ever recorded (all of them before the first insert or without limit), each with the row it was first recorded with |
| BoundedTables.FoodWindow | pkg/database/catalog.go:280-326 | in runs where each food gets a store-assigned id or one above all earlier ids, that is the window of the last `maxFoods` recorded |
| BoundedTables.FoodLifetime | pkg/database/catalog.go:280-326 | a food recorded under any id is stored, with its row, exactly until `maxFoods` larger ids have been recorded, before or after it (for ever in the fixed prefix or without limit) |
| BoundedTables.AscendingFoodLifetime | pkg/database/catalog.go:280-326 | under ascending ids that is exactly until `maxFoods` later foods |
| BoundedTables.SmallIdBreaksWindow | pkg/database/catalog.go:287-301 | an explicit id below the counter: the food is recorded last and not stored, so the order of insertion does not decide |
| BoundedTables.FoodUnchanged | pkg/database/catalog.go:280-302 | whatever is requested, also under its own id, a stored food keeps row and ingredients or is evicted; once evicted, `maxFoods` newer foods stay for ever, so recording its id again is undone by its own insert |
| BoundedTables.EvictedFoodsNeverReturn | pkg/database/catalog.go:280-326 | an evicted food's id is never stored again |
| BoundedTables.ExplicitFoodStays | pkg/database/catalog.go:287-301 | a food with a caller-chosen id survives its own insert exactly when fewer than `maxFoods` stored foods are newer, or it is in the prefix, or there is no limit |
| BoundedTables.RunSteady | pkg/database/catalog.go:304-326 | the steady state of all three tables is kept by every step of every request |
| BoundedTables.TablesStayBounded | pkg/database/catalog.go:304-312 | the size bounds hold in every reachable state: users and ratings in all, foods above the fixed prefix, and foods in all if no client records one under a negative id |
| BoundedTables.NegativeFoodsPileUp | pkg/database/catalog.go:287-326 | foods under negative ids are never evicted: recording -1, -2, ..., -n adds n foods, for every n |
| BoundedTables.RegistrationCostsOneUser | pkg/database/catalog.go:231-237 | in steady state a registration evicts at most one user |
| BoundedTables.RatingCostsOneRating | pkg/database/catalog.go:201-208 | in steady state a rating evicts at most one rating |
| BoundedTables.FoodCostsOneFood | pkg/database/catalog.go:287-301 | in steady state a food, under any id, evicts at most one food |
| Accounts.AccountLifeCycle | pkg/database/catalog.go:211-278 | after a registration, whatever requests follow: the user is stored exactly until `maxUsers` later registrations; while stored, password and token lead to that user; afterwards the name logs in to nobody if no later log entry has it, and the token leads to user 1, if stored, when no later log entry has it |
| Accounts.OtherHoldersAreLater | pkg/database/catalog.go:231-238 | whoever else holds the user's name or token in a later state is a later entry of the log |
| Accounts.EvictedUsersNeverReturn | pkg/database/catalog.go:304-312 | an evicted user id is never stored again |
| Accounts.RaceHasOneWinner | pkg/database/catalog.go:222-237 | of two registrations that both passed the name check, the second to commit fails while the first is stored, and leaves no trace but its end |
| Accounts.NamesStayUnique | pkg/database/catalog.go:211-238 | names and tokens are unique and only user 1 is named default, in every reachable state |
| Accounts.AuthenticateIsTotal | pkg/database/catalog.go:262-278 | with user 1 protected every token resolves to a user in every reachable state |
| Accounts.AuthenticateFailsExactly | pkg/database/catalog.go:262-278 | without that, it fails exactly for unknown tokens once user 1 has `maxUsers` later users and is not protected |
| Entities.ValidateUser | pkg/model/user.go:16-29 | accepts exactly names of 1 to 32 bytes other than default with a non-empty password |
| Entities.CalculateCalories | pkg/model/food.go:28-34 | the loop computes the wrapping sum |
| Entities.IsVegetarian | pkg/model/food.go:19-26 | the early-exit loop is true exactly when every ingredient is vegetarian |
| Entities.CaloriesIgnoreOrder | pkg/model/food.go:28-34 | calories do not depend on the order of ingredients |
| Generator.FilterIngredients | pkg/http/http.go:1388-1394 | the append loop keeps exactly the admissible ingredients, in order |
| Generator.AdmittedMembers | pkg/http/http.go:1388-1436 | an ingredient is kept exactly when it is not excluded and, if required, vegetarian |
| Generator.FilterTools | pkg/http/http.go:1445-1450 | the append loop keeps exactly the tools not excluded, in order |
| Generator.SideDishRange | pkg/http/http.go:1510-1518 | the side-dish bound lies between the smaller limit and the maximum for every draw, exactly when `maximum - minimum` does not wrap downwards and is not the greatest integer |
| Generator.SideDishCountsReached | pkg/http/http.go:1510-1518 | every number between the limits can be drawn |
| Generator.DefaultSideDishes | pkg/http/http.go:180-192 | without topping limits the possible numbers of side dishes are exactly 3, 4 and 5 |
| Generator.Dedupe | pkg/http/http.go:1520-1527 | the map loops list each name once, with the last ingredient of that name, in some order |
| Generator.TryOnce | pkg/http/http.go:1503-1527 | one attempt panics exactly when a random choice has nothing to choose from, else yields a food with these draws |
| Generator.TryTenTimes | pkg/http/http.go:1474-1535 | the first attempt within the calorie limit, else the tenth; every earlier one is over the limit |
| Generator.Generate | pkg/http/http.go:1375-1541 | the same from the request as received, with calories and vegetarian flag of the food answered |
| Generator.SameDrawsSameFood | pkg/http/http.go:1520-1541 | the iteration order of the map changes neither calories nor the vegetarian flag nor the set of ingredients |
| Generator.OverLimitAnswer | pkg/http/http.go:1529-1534 | an answer is over the limit exactly when all ten attempts were |
| Generator.GeneratedContents | pkg/http/http.go:1503-1527 | a food has 1 to 3 + side dishes ingredients with distinct names, all admissible and from the catalog, an admissible tool and a known rice |
| Generator.GeneratedSize | pkg/http/http.go:1510-1527 | between 1 and 3 + max(0, Max) ingredients, when the difference of the limits is at least -2^63 - 1 |
| Generator.SizeBoundedExactly | pkg/http/http.go:1510-1527 | that bound holds for every catalog and draw exactly under this condition; below it a draw of zero exceeds it |
| Generator.AttemptOfSize | pkg/http/http.go:1503-1534 | whatever is excluded, for every draw that does not panic some catalog leaves any number of ingredients from one to all drawn, with any calories |
| Generator.FullAttempt | pkg/http/http.go:1503-1534 | whatever is excluded, a catalog and draws where an attempt that does not panic keeps all ingredients drawn |
| Servings.ServedExactly | pkg/http/http.go:1375-1527 | the foods that can be served are exactly those of an admissible sauce, protein and vegetable, admissible side dishes in a number that can be drawn, a rice and an admissible tool, with the last ingredient of each name kept |
| Servings.EveryChoiceIsServed | pkg/http/http.go:1503-1527 | every such choice is served by some draw, under all the names chosen |
| Servings.EachKindIsServed | pkg/http/http.go:1503-1508 | each food has the name of an admissible sauce, of a protein and of a vegetable |
| Servings.PanicsWhen | pkg/http/http.go:1503-1518 | an attempt panics exactly when a basic kind, the tools or the rices have nothing admissible, no number of side dishes can be drawn, or side dishes are wanted and none is admissible |
| Servings.FirstWithinLimit | pkg/http/http.go:1474-1535 | whatever each draw comes to, the first food within the calorie limit is answered, else the tenth, with its calories and vegetarian flag |
| Servings.PanicIsAnswer | pkg/http/http.go:1474-1518 | a panic before that is the outcome, whatever comes later |
| Servings.DefaultCalorieLimit | pkg/http/http.go:180-183 | a request without a calorie limit is answered over 1000 calories exactly when all ten foods are over |
| Checker.Internal.CheckRestrictions | k6/extensions/internal/main.go:31-71 | accepts exactly when all clauses hold, and reports the first clause that fails |
| Checker.FirstClauseIsReported | k6/extensions/internal/main.go:31-71 | of several clauses that fail the first is reported: vegetarian, calories, ingredients, tool, toppings |
| Checker.ExclusionsBind | k6/extensions/internal/main.go:43-56 | excluding one more name refuses an accepted food exactly when it is that of an ingredient, or of the tool |
| Checker.LimitsBind | k6/extensions/internal/main.go:31-66 | with one other restriction changed an accepted food stays accepted exactly when it meets the new one |
| Checker.CheckerTestsSizeAndCalories | k6/extensions/internal/main.go:31-71 | on generated foods the vegetarian, ingredient and tool clauses always pass |
| Checker.GeneratorMeetsChecker | k6/extensions/internal/main.go:31-71 | for a maximum from 0 to the greatest integer minus 3, a generated food is accepted exactly when its calories are within the limit and its distinct ingredients reach the minimum plus 3 (a wrapping sum) |
| Checker.HugeMaximumAcceptsNothing | k6/extensions/internal/main.go:58-61 | for a larger maximum the checker's own sum wraps and it accepts nothing |
| Checker.UpperClauseFreeExactly | k6/extensions/internal/main.go:58-61 | the clause on too many toppings refuses no generated food exactly for maxima from 0 to the greatest integer minus 3, or where the generator always panics |
| Checker.NegativeMaximumAgrees | k6/extensions/internal/main.go:58-66 | for a negative maximum, a minimum from 1 and a difference that does not wrap, a generated food has too few ingredients for the minimum and is refused |
| Checker.AgreesExactly | k6/extensions/internal/main.go:31-71 | acceptance is calories and minimum alone, for every catalog and draw, exactly for maxima from 0 to the greatest integer minus 3, for those negative maxima, and where the generator always panics |
| Checker.RawRequestAgrees | k6/extensions/internal/main.go:31-71 | the plain case: any food gets the verdict of the effective restrictions if the request has no zero |
| Checker.RawAgreesExactly | k6/extensions/internal/main.go:31-71 | for every request, the verdict on it as written is the verdict on its effective restrictions, for every catalog and draw, exactly when both topping intervals admit the same of the sizes that occur, and none if the calorie limit is zero, or where the generator always panics |
| Checker.ZeroRequestDiffers | pkg/http/http.go:180-192 | for the empty request a food that the defaults accept and the request as written refuses |
| Recommendations.GeneratedIsStorable | pkg/http/http.go:1503-1527 | for any draws and map order a generated food, as made or as sent, violates no key or foreign key of any store |
| Recommendations.EachKindIsServed | pkg/http/http.go:1381-1436 | a food generated from the catalog has the names of a row of kind sauce, one of kind protein and one of kind vegetable |
| Recommendations.KindMissingExactly | pkg/http/http.go:809-823 | the handler finds a kind missing exactly when the catalog has no row of kind sauce, protein, vegetable or side_dish |
| Recommendations.ReadsBack | pkg/database/catalog.go:110-117 | a read of a stored food answers the same food up to the order of ingredients |
| Recommendations.GeneratedFoodRoundTrip | pkg/http/http.go:1537-1552 | after any later requests, with any ids, as long as the food is stored, every read gives the food sent, with the calories and vegetarian flag of the generated one, and its name exactly when that is UTF-8 |
| Json.TransmitExactly | pkg/http/client.go:65-72 | a string arrives as it was sent exactly when it is UTF-8 |
| Json.TransmitIsValid | pkg/http/http.go:334-343 | what arrives is UTF-8 |
| Json.PrefixIsValid | pkg/http/http.go:1377-1379 | a prefix of a UTF-8 string is UTF-8 exactly when the first byte cut off does not continue a character |
| Json.ValidExactly | pkg/http/http.go:334-343 | a string is UTF-8 exactly when it encodes a sequence of Unicode code points (RFC 3629, section 3) |
| Json.TransmitJoins | pkg/http/http.go:334-343 | UTF-8 at the front of a string arrives as it is, whatever follows |
| Json.StrayByte | pkg/http/http.go:334-343 | a byte that starts no encoded code point is replaced by U+FFFD, and only that byte |
| Json.CutArrives | pkg/http/http.go:1377-1379 | a prefix cut inside a character arrives as the whole characters before and a replacement for each of the one to three bytes left |
| Recommendations.ShortNamesArrive | pkg/http/http.go:1377-1379 | a UTF-8 custom name of at most 64 bytes is stored as asked for |
| Recommendations.CutNamesArriveExactly | pkg/http/http.go:1377-1379 | a UTF-8 custom name is the food's name up to byte 64, and is stored so exactly when it has at most 64 bytes or its 65th byte does not continue a character |
| Recommendations.CutNamesAreRepaired | pkg/http/http.go:1377-1379 | otherwise the whole characters are stored with a replacement for each byte left of the last |
| Recommendations.CutNamesChange | pkg/http/http.go:1377-1379 | inputs where it does: 63 bytes of ASCII and a character of two bytes, stored under another name than the generated one |
| Recommendations.PostFood | pkg/http/http.go:1351-1565 | the handler fails only for a missing kind of ingredient or a panic of the generator, and then changes nothing; otherwise it answers the generated food as sent and stored, under its new id |
| Identity.Cut | pkg/http/http.go:225-228 | splits at the first space, and only there |
| Identity.HeaderToken | pkg/http/http.go:218-235 | the token is what follows the first space after token or bearer in any case, if 16 bytes long |
| Identity.AnyLetterCase | pkg/http/http.go:225-235 | the word before the space is read in any mixture of cases, and nothing else is read as it |
| Identity.DirectExactly | pkg/http/http.go:777-795 | a request served directly resolves to a user exactly when it brings a token that stands for this stored user |
| Identity.ForwardedUser | pkg/http/http.go:751-773 | a forwarded request resolves to a user exactly when the token it brings on, a cookie of 16 bytes or with no cookie the header's, stands for the stored user of that id, name and token; password and hash are not sent |
| Identity.PathsAgree | pkg/http/http.go:751-795 | the forwarded path resolves what the direct path resolves exactly when the cookie is absent or 16 bytes, or the Authorization header alone would not be served |
| Identity.OddCookieIsRefused | pkg/http/http.go:757-769 | a cookie of any other length ends in 401 |
| Identity.PathsDiffer | pkg/http/http.go:218-235 | a request the direct path serves and the forwarded path refuses |
| Identity.Exchange.AuthMiddleware | pkg/http/http.go:777-795 | the middleware passes the request on with the resolved user, or answers 401 and sets nothing |
| Identity.Exchange.AuthViaCatalogClient | pkg/http/client.go:107-119 | the forwarding middleware with the header it sets and the inner request it makes |
| Seed.SeedIsReachable | pkg/database/migrations/catalog/testdata.yaml:241-309 | the migrated store under the default limits satisfies the hypotheses of all run theorems |
| Seed.SeedRatingsAreImmortal | pkg/database/migrations/catalog/testdata.yaml:296-309 | the three seeded ratings are stored and unchanged after any run |
| Seed.SeedStaysBounded | pkg/database/catalog.go:57-65 | no run from the seed exceeds 5010 users, 10010 ratings or 5000 foods above id 100, and none without negative food ids exceeds 5100 foods |
| Seed.SeedFoodsUnbounded | pkg/http/http.go:1148-1166 | with negative food ids, for every n some run from the seed holds 3 + n foods |
| Seed.SeedAuthenticates | pkg/database/catalog.go:57-65 | under the default limits every token resolves to a user after any run |

## Left out

- SQL text, the ORM, migrations machinery, PostgreSQL sequences and connection pooling: only the relational effect of each statement is modelled.
- Identifiers that skip numbers after a rolled back transaction, and the exhaustion of 64-bit row ids.
- The random name of a food and its retry loop, which has no bound: the name is an input of each attempt.
- Recommendations.PostFood: calls the catalog directly; the JSON between the services is modelled only where it changes a value: the user's password hash, which it drops, and bytes of a food's name that are not UTF-8, which it replaces.
- Recommendations.PostFood: error and delay injection are taken as absent, since they are configured from outside.
- The text of the checker's result: a verdict value stands for each message.
- `GetRatings` and `GetHistory`: their limit and order are the database's.
- Admin login, CSRF cookies and the HTTP status codes of the rating and user handlers: single branches without state.
- Tracing, metrics, logging, WebSocket, gRPC, static pages, the gateway and deployment files.
