# Recipe catalog — a Dafny model

This project models the domain logic of a recipe-sharing server. Users publish
recipes, list them a page at a time and look them up by id. They can search
them with up to six optional criteria and rate each recipe once. Each user also
keeps a list of favorite recipes.

Every HTTP handler is modelled as a pure function over an in-memory store.
The store holds `map<RecipeId, Recipe>`, `map<UserId, User>` and the counter
that hands out fresh recipe ids. A handler that changes data returns the new
store inside a `Result`: `Result<Store>` for rating and favorites, and
`Result<(Store, Recipe)>` for publishing, which also returns the created
recipe. A failing call returns no store, so the store is unchanged.
The failure kinds are `NotFound`, `InvalidInput`, `DuplicateRating`,
`AlreadyFavorited` and `ServerError`. `ServerError` is the catch-all 500
response. In the handlers of this model it arises only when the caller has no user document.
A document that fails schema validation at `save()` also reaches the source's
catch-all 500; the model reports that case as `InvalidInput` instead (see
"## Left out").

Modules, following the source layout:

- `Results`: `Error`, `Option`, `Result`.
- `Seqs`: duplicate-freedom, `indexOf`, `splice(i, 1)`, order-preserving filter.
- `Text`: `trim`, `split(',')`, and the case-insensitive literal match that stands in for `new RegExp(term, 'i')`.
- `Paging`: skip/limit slicing and `Math.ceil(count / limit)`.
- `RecipeSchema`: the Recipe document and its schema validation, from `src/models/Recipe.js`. It also defines the rating sum and mean, and the well-formedness invariant.
- `Ratings`: the rating aggregator used by `rateRecipe`.
- `RatingsAsWritten`: the rating submission over the schema exactly as written, where a `null` rating is accepted; it backs the finding below and is not used by the handlers.
- `FilterCompiler`: the query object `searchRecipes` builds, how each clause is evaluated, and the criteria-level meaning it must agree with.
- `Store`: the user record, the store, its invariant `Valid`, and the listing in creation order.
- `RecipeController`: `createRecipe`, `getRecipes`, `getRecipeById`, `rateRecipe`, `searchRecipes`, `getUserRecipes`.
- `UserController`: `getUserProfile`, `addFavorite`, `removeFavorite`.

The model follows the code on these points, where a reader might expect otherwise:

- A numeric rating is any number in [1, 5] (`min: 1, max: 5`, no integer check), so rating values are `real`. The schema does not mark `rating` as `required`, so a `null` or empty rating passes validation; the model treats that as a defect (see "## Findings") and handles the request with `rating` required.
- The duplicate-rating check runs before the range check. The range is only checked when the document is saved.
- The schema does not require the `ingredients` or `preparationSteps` arrays to be non-empty. It does not require `cookingTime` to be positive or `calories` to be non-negative. Only the presence of these fields is checked, plus non-empty items in the arrays.
- `image` is required by the schema. Publishing without an upload therefore always fails.
- Favorites are an ordered list, not a set. Adding appends; removing deletes the first occurrence.
- When the author has no user document, `createRecipe` still stores the recipe, because `findByIdAndUpdate` on a missing user does nothing.

## Model

| member | source | states |
|---|---|---|
| Seqs.IndexOf | src/controllers/userController.js:56 | the first position holding the id, or -1 exactly when the id is absent; no earlier position holds it |
| Seqs.RemoveAt | src/controllers/userController.js:61 | `splice(i, 1)` drops exactly entry i and shifts the later entries down by one |
| Seqs.RemoveAtNoDup | src/controllers/userController.js:61 | in a duplicate-free list, deleting an entry leaves it duplicate-free and without that value |
| Seqs.AppendNoDup | src/controllers/userController.js:40 | appending a non-member keeps a list duplicate-free |
| Seqs.FilterAppend | src/controllers/recipeController.js:142 | filtering distributes over concatenation, so the kept documents stay in listing order with their multiplicity |
| Seqs.FilterSingleton | src/controllers/recipeController.js:142 | a single document is kept exactly when it satisfies the condition |
| Seqs.RemoveAppendedFirst | src/controllers/userController.js:40-61 | after appending a non-member, its first occurrence is the appended one, and deleting it gives back the list |
| Text.Trim | src/controllers/recipeController.js:109 | the result is a contiguous piece of the input, with only whitespace around it and no whitespace at either end |
| Text.TrimIdempotent | src/controllers/recipeController.js:109 | trimming a trimmed term changes nothing |
| Text.Split | src/controllers/recipeController.js:109 | at least one piece; no piece contains the separator; joining the pieces with the separator gives back the input |
| Text.SplitJoin | src/controllers/recipeController.js:109 | splitting the join of separator-free pieces gives back those pieces |
| Text.Contains | src/controllers/recipeController.js:109 | the position-by-position scan answers true exactly when the pattern occurs somewhere in the subject |
| Text.ContainsIgnoreCase | src/controllers/recipeController.js:121 | the case-insensitive match holds exactly when the lower-cased pattern occurs in the lower-cased subject |
| Text.EmptyPatternMatches | src/controllers/recipeController.js:109 | an empty term, as produced by `"a,,b"`, matches every ingredient |
| Text.MatchIgnoresCase | src/controllers/recipeController.js:127 | lower-casing either side never changes whether a case-insensitive match holds |
| Paging.Paginate | src/controllers/recipeController.js:42-44 | the page has `min(limit, max(0, count - (page-1)*limit))` entries, and entry k is listing entry `(page-1)*limit + k` |
| Paging.TotalPages | src/controllers/recipeController.js:50 | the fewest pages of size `limit` holding every document: `count <= n*limit`, `(n-1)*limit < count` when `n > 0`, and `n = 0` exactly when `count = 0` |
| Paging.NoEntriesNoPages | src/controllers/recipeController.js:50 | an empty collection reports 0 pages |
| Paging.PageNonEmptyIff | src/controllers/recipeController.js:42-50 | a page has entries exactly when its number is at most the page count |
| Paging.EntryPage | src/controllers/recipeController.js:42-44 | entry i of the listing is entry `i % limit` of page `i / limit + 1`, so the pages cover the listing |
| Paging.SecondPageOfFifteen | src/controllers/recipeController.js:41-50 | 15 entries with pages of 10: page 2 holds the last 5, and there are 2 pages |
| RecipeSchema.ParseDifficulty | src/models/Recipe.js:11 | the enum accepts exactly the spellings Easy, Medium and Hard |
| RecipeSchema.DifficultyRoundTrip | src/models/Recipe.js:11 | every difficulty's spelling parses back to that difficulty |
| RecipeSchema.Publish | src/models/Recipe.js:4-19 | the document validates exactly when every required field is present and non-empty, every ingredient and step is non-empty, and the difficulty is in the enum; otherwise `InvalidInput`. A valid document copies the request fields, has no ratings and average 0, and is well-formed |
| RecipeSchema.NoImageRejected | src/models/Recipe.js:6 | without an image the document never validates |
| RecipeSchema.Sum | src/controllers/recipeController.js:90 | the left-to-right `reduce` over the rating values; for n ratings in [1, 5] (src/models/Recipe.js:17) the total lies between n and 5n |
| RecipeSchema.MeanInRange | src/models/Recipe.js:17 | the mean of one or more in-range ratings lies in [1, 5] |
| RecipeSchema.AverageBounds | src/models/Recipe.js:17-19 | a well-formed recipe's average is 0 with no ratings and in [1, 5] otherwise |
| Ratings.HasRated | src/controllers/recipeController.js:84 | the `some` scan is true exactly when some entry belongs to the user |
| Ratings.SubmitRequired | src/controllers/recipeController.js:78-92 | the submission `rateRecipe` makes, with `rating` required as every other field of src/models/Recipe.js is: a repeat rater gets `DuplicateRating`; otherwise it succeeds exactly when the value is a number in [1, 5], and a `null`, missing or out-of-range value gives `InvalidInput`. On success the entry is appended and the average is the mean |
| Ratings.RequiredKeepsAverageInRange | src/models/Recipe.js:15-19 | with `rating` required, a successful submission keeps the recipe well-formed and its average in [1, 5] |
| RatingsAsWritten.SubmitAsWritten | src/controllers/recipeController.js:78-92 | the handler over the schema as written: a repeat rater gets `DuplicateRating`, a missing value fails the save, a number outside [1, 5] is refused, and a `null` value is accepted and stored as a `null` entry |
| RatingsAsWritten.NullRatingAveragesZero | src/models/Recipe.js:17 | a first `null` rating is stored and leaves average 0, outside [1, 5], on a rated recipe, and the same user can never rate it with a number afterwards |
| Ratings.SubmitRating | src/controllers/recipeController.js:84-91 | a user with an entry gets `DuplicateRating` whatever the value. Otherwise the call succeeds exactly when the value is in [1, 5]. A user without an entry and a value outside [1, 5] gets `InvalidInput`. On success the ratings are the old ones plus the new entry at the end, the average is their mean, and no other field changes |
| Ratings.SubmitPreservesWellFormed | src/controllers/recipeController.js:84-91 | a successful submission keeps one entry per user, in-range values, and the average equal to the mean |
| Ratings.MeanAfterAppend | src/controllers/recipeController.js:88-91 | the new mean is (old mean × old count + value) / (old count + 1) |
| Ratings.SecondSubmissionRejected | src/controllers/recipeController.js:84-87 | after a successful rating, the same user's next rating fails with `DuplicateRating`, whatever its value |
| Ratings.ThreeFiveFour | src/controllers/recipeController.js:88-91 | ratings 3 and 5 average 4; adding a 4 by a new user gives ratings [3, 5, 4] with average exactly 4 |
| FilterCompiler.AnyMatch | src/controllers/recipeController.js:109 | `$in` over the ingredients: true exactly when some ingredient contains some pattern, ignoring case |
| FilterCompiler.AnyPattern | src/controllers/recipeController.js:109 | one ingredient matches exactly when it contains one of the patterns, ignoring case |
| FilterCompiler.Terms | src/controllers/recipeController.js:109 | one term per comma-separated piece of the criterion, each trimmed |
| FilterCompiler.Compile | src/controllers/recipeController.js:105-128 | builds one clause per given criterion, at most six, and the empty query `{}` exactly when no criterion is given; what the clauses mean is stated by `CompileCorrect` |
| FilterCompiler.CompileCorrect | src/controllers/recipeController.js:105-128 | the compiled query matches a recipe exactly when every given criterion holds of its field: cooking time and calories at most the bound, exact difficulty name, cuisine and diet contain the text, some ingredient contains some term |
| FilterCompiler.PartsCorrect | src/controllers/recipeController.js:107-128 | each criterion's clause constrains only its own field, and an absent criterion adds no clause |
| FilterCompiler.NoCriteriaMatchesAll | src/controllers/recipeController.js:105 | with no criteria the query matches every recipe |
| FilterCompiler.DifficultyOnly | src/controllers/recipeController.js:123-125 | a difficulty criterion alone matches exactly the recipes of that difficulty |
| FilterCompiler.MergeIsIntersection | src/controllers/recipeController.js:105-128 | criteria on different fields combine by intersection |
| Store.IdsBelow | src/controllers/recipeController.js:42 | the stored ids below the counter, each once, in strictly increasing order |
| Store.Listing | src/controllers/recipeController.js:42 | every listed entry is a stored recipe |
| Store.ListingComplete | src/controllers/recipeController.js:42-47 | in a valid store the listing holds every recipe, and its length is the document count |
| Store.EmptyValid | src/models/Recipe.js:4-19 | the empty store satisfies the invariant |
| RecipeController.ImagePath | src/controllers/recipeController.js:9 | the image path exists exactly when a file was uploaded, and is then non-empty |
| RecipeController.CreateRecipe | src/controllers/recipeController.js:6-28 | the call succeeds exactly when an upload is present and the document built from the request validates. The returned recipe is the stored one: it takes the next id, has the caller as author, copies title, description, ingredients, steps, cooking time, calories, difficulty, cuisine and diet from the request, has image `/uploads/` followed by the file name, no ratings and average 0, and is well-formed. The caller's `recipes` gains exactly that id at the end, and nothing else changes. Without an upload, or with an invalid document, the result is `InvalidInput` |
| RecipeController.CreatePreservesValid | src/controllers/recipeController.js:11-28 | publishing uses an id not in use and keeps the store valid |
| RecipeController.CreatedRecipeFound | src/controllers/recipeController.js:63-67 | a published recipe is found again by its id |
| RecipeController.CreatedRecipeListedForAuthor | src/controllers/recipeController.js:142 | a published recipe appears in its author's recipes |
| RecipeController.GetRecipes | src/controllers/recipeController.js:39-52 | defaults are page 1 and limit 10. The page holds the summaries of the right slice of the listing, `currentPage` is the page asked for, and `totalPages` is the ceiling of the document count over the limit (0 when there are no documents) |
| RecipeController.FifteenRecipesSecondPage | src/controllers/recipeController.js:41-51 | 15 recipes, page 2 of size 10: 5 entries, 2 pages, current page 2 |
| RecipeController.PageNonEmptyIffInRange | src/controllers/recipeController.js:42-50 | in a valid store a page has entries exactly when its number is at most the reported page count |
| RecipeController.GetRecipeById | src/controllers/recipeController.js:63-67 | the stored recipe, or `NotFound` for an unknown id |
| RecipeController.RateRecipe | src/controllers/recipeController.js:76-92 | an unknown id gives `NotFound`. A repeat rater gives `DuplicateRating`. Otherwise the call succeeds exactly when the value is a number in [1, 5], and a `null`, missing or out-of-range value gives `InvalidInput`. On success only that recipe changes: the entry is appended and the average is the mean. Users and the id counter are untouched |
| RecipeController.RatePreservesValid | src/controllers/recipeController.js:79-92 | rating keeps every store invariant, including one rating per user and average equal to the mean |
| RecipeController.Search | src/controllers/recipeController.js:105-130 | every recipe returned is stored and satisfies the criteria |
| RecipeController.SearchRecipes | src/controllers/recipeController.js:130 | the response holds the summaries of the matching recipes, in order |
| RecipeController.SearchExact | src/controllers/recipeController.js:105-130 | in a valid store a recipe is returned exactly when it satisfies the criteria |
| RecipeController.SearchWithoutCriteria | src/controllers/recipeController.js:105-130 | with no criteria the search returns the whole listing |
| RecipeController.GetUserRecipes | src/controllers/recipeController.js:142 | every recipe returned is stored and has the given author |
| RecipeController.UserRecipesComplete | src/controllers/recipeController.js:142 | in a valid store every recipe by the author is returned, including each one in the author's `recipes` list |
| UserController.Resolve | src/controllers/userController.js:10-11 | when every id resolves, each id becomes its recipe's brief view, in order |
| UserController.GetUserProfile | src/controllers/userController.js:8-17 | an unknown user gives `NotFound`. Otherwise the result is the user's id and name with both recipe lists resolved |
| UserController.ProfileComplete | src/controllers/userController.js:8-17 | in a valid store the profile lists every authored and every favorite recipe, in the user's order |
| UserController.AddFavorite | src/controllers/userController.js:28-41 | an unknown recipe gives `NotFound` even when the caller has no user document (the recipe check at :31 comes before `user` is dereferenced at :36). A missing user gives `ServerError`. A current favorite gives `AlreadyFavorited`. Otherwise the id is appended to the favorites and nothing else changes |
| UserController.RemoveFavorite | src/controllers/userController.js:53-62 | a missing user gives `ServerError`. A non-favorite gives `NotFound`. Otherwise the first occurrence is deleted, the rest keep their order, and nothing else changes. The recipe need not exist |
| UserController.AddPreservesValid | src/controllers/userController.js:36-41 | adding keeps favorites duplicate-free and pointing at stored recipes |
| UserController.RemovePreservesValid | src/controllers/userController.js:56-62 | removing keeps the store valid, and the id is no longer a favorite |
| UserController.AddTwiceFails | src/controllers/userController.js:36-38 | adding the same favorite twice fails the second time with `AlreadyFavorited` |
| UserController.AddThenRemove | src/controllers/userController.js:36-61 | adding a new favorite and then removing it restores the store exactly |
| UserController.RemoveIgnoresRecipeExistence | src/controllers/userController.js:53-61 | a favorite can be removed even when its recipe no longer exists |

## Findings

| source | as written | input that shows it | evidently intended | confidence | as-written member | corrected member |
|---|---|---|---|---|---|---|
| src/models/Recipe.js:17 | `rating: { type: Number, min: 1, max: 5 }` has no `required`; the range validators accept `null`, and src/controllers/recipeController.js:90-91 counts a `null` entry as 0 | a first rating `{"rating": null}` (or `""`) from a user on a recipe without ratings: stored as a `null` entry with average 0, and that user can never rate the recipe again | `rating` is required like every other schema field, so a rated recipe averages between 1 and 5 | medium; not executed | RatingsAsWritten.NullRatingAveragesZero | Ratings.RequiredKeepsAverageInRange |

## Left out

- Schema validation failures at `save()` (a publish request with a missing or invalid field, a rating outside [1, 5]) reach the catch-all 500 in the source (src/controllers/recipeController.js:25 and :31-33, :92 and :94-96); the model reports them as `InvalidInput`, so `Publish`, `SubmitRating`, `CreateRecipe` and `RateRecipe` name that failure rather than folding it into `ServerError`.

- `server.js`, the route files and the upload middleware: process bootstrap, database connection, URL wiring, authentication and multer storage. The uploaded file's name is a parameter of `CreateRecipe`.
- Concurrency: the read-then-save races in `rateRecipe`, `addFavorite` and `removeFavorite`. Each call is one atomic transition.
- `populate` of the author's username in the list and by-id views. The author stays a user id. Profile lists do resolve, and ids without a document are dropped.
- `JSON.parse` of ingredients and steps, `Number()` of query values (NaN included), and string-typed query parameters. The model takes already-parsed values.
- `page` or `limit` of 0, negative or non-numeric values. `Positive` rules them out.
- Regular-expression metacharacters in search terms. Terms are literals.
- Unicode case folding under the `i` flag. Case-insensitivity is ASCII lower-casing.
- The order of `find()` results (listing, search, by author), which the database does not guarantee without a sort; the model uses creation order.
- A non-numeric rating string such as `"abc"`, which fails the number cast. The model's rating is a number, `null` or missing.
- IEEE rounding of the average. The average is an exact `real`.
- `cookingTime` and `calories` are `int`. Fractional JavaScript numbers are not modelled.
- Malformed ids (Mongoose cast errors), storage failures and `console.error` logging, which all end in the catch-all 500.
- The password field and its exclusion from the profile. `src/models/User.js` is not part of this model.
- RecipeController.Search: its contract gives one direction (soundness). Completeness needs the store invariant and is stated by `SearchExact`.
- RecipeController.GetUserRecipes: its contract gives one direction. Completeness needs the store invariant and is stated by `UserRecipesComplete`.
- Store.Listing: its contract gives one direction. Completeness needs the store invariant and is stated by `ListingComplete`.
