/** The recipe handlers: publish, paged listing, lookup by id, rating,
    advanced search and listing by author, each a transition or query over
    the store. */
module RecipeController {
  import opened Results
  import opened RecipeSchema
  import opened Ratings
  import opened FilterCompiler
  import opened Paging
  import opened Store
  import opened Seqs

  /** The fields list and search views select. */
  datatype Summary = Summary(
    id: RecipeId,
    title: string,
    image: string,
    averageRating: real,
    cookingTime: int,
    calories: int,
    difficulty: Difficulty,
    author: UserId)

  function Summarize(r: Recipe): Summary {
    Summary(r.id, r.title, r.image, r.averageRating, r.cookingTime, r.calories, r.difficulty, r.author)
  }

  /** The summaries of `rs`, in order. */
  function Project(rs: seq<Recipe>): (ss: seq<Summary>)
    ensures |ss| == |rs|
    ensures forall k :: 0 <= k < |rs| ==> ss[k] == Summarize(rs[k])
  {
    seq(|rs|, k requires 0 <= k < |rs| => Summarize(rs[k]))
  }

  /** The stored path of an uploaded image, or no image without an upload. */
  function ImagePath(upload: Option<string>): (image: Option<string>)
    ensures image.Some? <==> upload.Some?
    ensures image.Some? ==> |image.value| > 0
  {
    match upload
    case None => None
    case Some(filename) => Some("/uploads/" + filename)
  }

  /** Publishes a recipe for `caller`: the new document gets the next fresh id,
      and the caller's `recipes` list gains that id at its end. An invalid
      document is not stored. When the caller has no user document the recipe
      is still stored and no user changes. */
  function CreateRecipe(s: Store, caller: UserId, d: Draft, upload: Option<string>): (res: Result<(Store, Recipe)>)
    ensures upload.None? ==> res == Err(InvalidInput)
    ensures res.Err? ==> res.error == InvalidInput
    ensures res.Ok? <==> Publish(d, ImagePath(upload), s.nextId, caller).Ok?
    ensures res.Ok? ==> res.value.1 == Publish(d, ImagePath(upload), s.nextId, caller).value
    ensures res.Ok? ==>
      var (s', r) := res.value;
      && r.id == s.nextId && r.author == caller
      && r.title == d.title.value && r.description == d.description.value
      && r.image == "/uploads/" + upload.value
      && r.ingredients == d.ingredients && r.preparationSteps == d.preparationSteps
      && r.cookingTime == d.cookingTime.value && r.calories == d.calories.value
      && DifficultyName(r.difficulty) == d.difficulty.value
      && r.cuisine == d.cuisine.value && r.diet == d.diet.value
      && r.ratings == [] && r.averageRating == 0.0
      && WellFormed(r)
      && s'.recipes == s.recipes[r.id := r]
      && s'.nextId == s.nextId + 1
      && (caller in s.users ==>
            s'.users == s.users[caller := s.users[caller].(recipes := s.users[caller].recipes + [r.id])])
      && (caller !in s.users ==> s'.users == s.users)
  {
    match Publish(d, ImagePath(upload), s.nextId, caller)
    case Err(e) => Err(e)
    case Ok(r) =>
      var users :=
        if caller in s.users
        then s.users[caller := s.users[caller].(recipes := s.users[caller].recipes + [r.id])]
        else s.users;
      Ok((Store(s.recipes[r.id := r], users, s.nextId + 1), r))
  }

  /** One page of the listing with its paging metadata. */
  datatype Page = Page(recipes: seq<Summary>, totalPages: nat, currentPage: Positive)

  /** The paged listing: page `page` (default 1) of size `limit` (default 10)
      of all recipes in creation order, with the page count over all documents. */
  function GetRecipes(s: Store, page: Option<Positive>, limit: Option<Positive>): (p: Page)
    ensures var pg := if page.Some? then page.value else DefaultPage;
            var lim := if limit.Some? then limit.value else DefaultLimit;
            var all := Listing(s);
            && p.currentPage == pg
            && |p.recipes| == Min(lim, Max(0, |all| - Offset(pg, lim)))
            && (forall k :: 0 <= k < |p.recipes| ==> p.recipes[k] == Summarize(all[Offset(pg, lim) + k]))
            && (|s.recipes| == 0 ==> p.totalPages == 0)
            && |s.recipes| <= p.totalPages * lim
            && (p.totalPages > 0 ==> (p.totalPages - 1) * lim < |s.recipes|)
  {
    var pg := if page.Some? then page.value else DefaultPage;
    var lim := if limit.Some? then limit.value else DefaultLimit;
    var items := Paginate(Listing(s), pg, lim);
    var n := TotalPages(|s.recipes|, lim);
    Page(Project(items), n, pg)
  }

  /** With 15 recipes, page 2 of size 10 holds the last 5 and there are 2 pages. */
  lemma FifteenRecipesSecondPage(s: Store)
    requires Valid(s) && |s.recipes| == 15
    ensures var p := GetRecipes(s, Some(2), Some(10));
            |p.recipes| == 5 && p.totalPages == 2 && p.currentPage == 2
  {
    ListingComplete(s);
  }

  /** In a valid store a page has entries exactly when its number is at most
      the reported page count. */
  lemma PageNonEmptyIffInRange(s: Store, page: Positive, limit: Positive)
    requires Valid(s)
    ensures var p := GetRecipes(s, Some(page), Some(limit));
            |p.recipes| > 0 <==> page <= p.totalPages
  {
    ListingComplete(s);
    PageNonEmptyIff(Listing(s), page, limit);
  }

  /** Looks a recipe up by id. */
  function GetRecipeById(s: Store, id: RecipeId): (res: Result<Recipe>)
    ensures id !in s.recipes ==> res == Err(NotFound)
    ensures id in s.recipes ==> res == Ok(s.recipes[id])
  {
    if id in s.recipes then Ok(s.recipes[id]) else Err(NotFound)
  }

  /** A published recipe can be fetched back by its id. */
  lemma CreatedRecipeFound(s: Store, caller: UserId, d: Draft, upload: Option<string>)
    requires CreateRecipe(s, caller, d, upload).Ok?
    ensures var (s', r) := CreateRecipe(s, caller, d, upload).value;
            GetRecipeById(s', r.id) == Ok(r)
  {
  }

  /** Rates recipe `id` on behalf of `caller`: an unknown recipe is `NotFound`,
      a second rating by the same user is `DuplicateRating`, a value outside
      [1, 5], `null` or missing is `InvalidInput`; otherwise only that recipe
      changes. */
  function RateRecipe(s: Store, id: RecipeId, caller: UserId, value: RawValue): (res: Result<Store>)
    ensures id !in s.recipes ==> res == Err(NotFound)
    ensures id in s.recipes && HasRated(s.recipes[id].ratings, caller) ==> res == Err(DuplicateRating)
    ensures id in s.recipes && !HasRated(s.recipes[id].ratings, caller) ==>
              (res.Ok? <==> value.Num? && InRange(value.v))
    ensures id in s.recipes && !HasRated(s.recipes[id].ratings, caller) && !(value.Num? && InRange(value.v)) ==>
              res == Err(InvalidInput)
    ensures res.Ok? ==>
      var s' := res.value;
      && id in s.recipes && value.Num?
      && s'.users == s.users && s'.nextId == s.nextId
      && s'.recipes.Keys == s.recipes.Keys
      && (forall other :: other in s.recipes && other != id ==> s'.recipes[other] == s.recipes[other])
      && s'.recipes[id].ratings == s.recipes[id].ratings + [Rating(caller, value.v)]
      && s'.recipes[id].averageRating == Mean(s'.recipes[id].ratings)
      && s'.recipes[id] == s.recipes[id].(ratings := s'.recipes[id].ratings,
                                           averageRating := s'.recipes[id].averageRating)
  {
    if id !in s.recipes then Err(NotFound)
    else
      match SubmitRequired(s.recipes[id], caller, value)
      case Err(e) => Err(e)
      case Ok(r) => Ok(s.(recipes := s.recipes[id := r]))
  }

  /** Rating keeps the store valid. */
  lemma RatePreservesValid(s: Store, id: RecipeId, caller: UserId, value: RawValue)
    requires Valid(s)
    requires RateRecipe(s, id, caller, value).Ok?
    ensures Valid(RateRecipe(s, id, caller, value).value)
  {
    RequiredKeepsAverageInRange(s.recipes[id], caller, value);
    var s' := RateRecipe(s, id, caller, value).value;
    forall uid | uid in s'.users ensures UserValid(s', uid) {
      assert UserValid(s, uid);
    }
  }

  /** The recipes matching the criteria, in creation order. */
  function Search(s: Store, c: Criteria): (rs: seq<Recipe>)
    ensures forall k :: 0 <= k < |rs| ==> rs[k] in s.recipes.Values && Satisfies(c, rs[k])
  {
    CompileCorrectAll(c);
    Filter(Listing(s), r => Matches(Compile(c), r))
  }

  lemma CompileCorrectAll(c: Criteria)
    ensures forall r :: Matches(Compile(c), r) <==> Satisfies(c, r)
  {
    forall r ensures Matches(Compile(c), r) <==> Satisfies(c, r) {
      CompileCorrect(c, r);
    }
  }

  /** The search handler's response: the summaries of the matching recipes. */
  function SearchRecipes(s: Store, c: Criteria): (ss: seq<Summary>)
    ensures |ss| == |Search(s, c)|
    ensures forall k :: 0 <= k < |ss| ==> ss[k] == Summarize(Search(s, c)[k])
  {
    Project(Search(s, c))
  }

  /** In a valid store the search returns exactly the recipes satisfying the criteria. */
  lemma SearchExact(s: Store, c: Criteria, id: RecipeId)
    requires Valid(s) && id in s.recipes
    ensures s.recipes[id] in Search(s, c) <==> Satisfies(c, s.recipes[id])
  {
    ListingComplete(s);
    CompileCorrect(c, s.recipes[id]);
  }

  /** With no criteria the search returns the whole listing. */
  lemma SearchWithoutCriteria(s: Store)
    ensures Search(s, NoCriteria) == Listing(s)
  {
    var all := Listing(s);
    forall k | 0 <= k < |all| ensures Matches(Compile(NoCriteria), all[k]) {
      NoCriteriaMatchesAll(all[k]);
    }
    FilterKeepsAll(all, r => Matches(Compile(NoCriteria), r));
  }

  /** The recipes whose author is `author`, in creation order. */
  function GetUserRecipes(s: Store, author: UserId): (rs: seq<Recipe>)
    ensures forall k :: 0 <= k < |rs| ==> rs[k] in s.recipes.Values && rs[k].author == author
  {
    Filter(Listing(s), (r: Recipe) => r.author == author)
  }

  /** In a valid store every recipe by `author` is listed, including each one
      named in the author's `recipes`. */
  lemma UserRecipesComplete(s: Store, author: UserId)
    requires Valid(s)
    ensures forall id :: id in s.recipes && s.recipes[id].author == author ==> s.recipes[id] in GetUserRecipes(s, author)
    ensures author in s.users ==>
              forall k :: 0 <= k < |s.users[author].recipes| ==>
                s.recipes[s.users[author].recipes[k]] in GetUserRecipes(s, author)
  {
    ListingComplete(s);
    if author in s.users {
      assert UserValid(s, author);
    }
  }

  /** Publishing keeps the store valid, and the new id was not in use. */
  lemma CreatePreservesValid(s: Store, caller: UserId, d: Draft, upload: Option<string>)
    requires Valid(s)
    requires CreateRecipe(s, caller, d, upload).Ok?
    ensures var (s', r) := CreateRecipe(s, caller, d, upload).value;
            r.id !in s.recipes && Valid(s')
  {
    var (s', r) := CreateRecipe(s, caller, d, upload).value;
    forall uid | uid in s'.users ensures UserValid(s', uid) {
      assert UserValid(s, uid);
      var u := s.users[uid];
      if uid == caller {
        assert r.id !in u.recipes by {
          forall k | 0 <= k < |u.recipes| ensures u.recipes[k] != r.id {
            assert u.recipes[k] in s.recipes;
          }
        }
        AppendNoDup(u.recipes, r.id);
      }
    }
  }

  /** The published recipe is listed among its author's recipes. */
  lemma CreatedRecipeListedForAuthor(s: Store, caller: UserId, d: Draft, upload: Option<string>)
    requires Valid(s)
    requires CreateRecipe(s, caller, d, upload).Ok?
    ensures var (s', r) := CreateRecipe(s, caller, d, upload).value;
            r in GetUserRecipes(s', caller)
  {
    CreatePreservesValid(s, caller, d, upload);
    var (s', r) := CreateRecipe(s, caller, d, upload).value;
    UserRecipesComplete(s', caller);
  }
}
