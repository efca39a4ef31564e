/** The Recipe document: its fields, the validation the schema applies when a
    recipe is saved, and the derived rating average. */
module RecipeSchema {
  import opened Results

  type UserId = nat
  type RecipeId = nat

  datatype Difficulty = Easy | Medium | Hard

  /** The stored spelling of a difficulty. */
  function DifficultyName(d: Difficulty): string {
    match d
    case Easy => "Easy"
    case Medium => "Medium"
    case Hard => "Hard"
  }

  /** The `enum` check: only the three exact spellings are accepted. */
  function ParseDifficulty(s: string): (r: Option<Difficulty>)
    ensures r.Some? ==> DifficultyName(r.value) == s
    ensures r.None? ==> forall d: Difficulty :: DifficultyName(d) != s
  {
    if s == "Easy" then Some(Easy)
    else if s == "Medium" then Some(Medium)
    else if s == "Hard" then Some(Hard)
    else None
  }

  /** Every difficulty survives printing and parsing. */
  lemma DifficultyRoundTrip(d: Difficulty)
    ensures ParseDifficulty(DifficultyName(d)) == Some(d)
  {
  }

  /** One entry of a recipe's `ratings` array. */
  datatype Rating = Rating(user: UserId, value: real)

  datatype Recipe = Recipe(
    id: RecipeId,
    title: string,
    description: string,
    image: string,
    ingredients: seq<string>,
    preparationSteps: seq<string>,
    cookingTime: int,
    calories: int,
    difficulty: Difficulty,
    cuisine: string,
    diet: string,
    author: UserId,
    ratings: seq<Rating>,
    averageRating: real)

  /** The fields of a recipe as the publish request supplies them; `None` is a
      field left out of the request. */
  datatype Draft = Draft(
    title: Option<string>,
    description: Option<string>,
    ingredients: seq<string>,
    preparationSteps: seq<string>,
    cookingTime: Option<int>,
    calories: Option<int>,
    difficulty: Option<string>,
    cuisine: Option<string>,
    diet: Option<string>)

  /** The `min: 1, max: 5` bounds on a rating value. */
  predicate InRange(v: real) {
    1.0 <= v <= 5.0
  }

  /** A `required` string is present and not empty. */
  predicate Filled(s: Option<string>) {
    s.Some? && s.value != ""
  }

  /** Every item of a string array whose items are `required`. */
  predicate AllFilled(items: seq<string>) {
    forall k :: 0 <= k < |items| ==> items[k] != ""
  }

  /** What the schema demands of a stored recipe. */
  ghost predicate SchemaValid(r: Recipe) {
    && r.title != "" && r.description != "" && r.image != ""
    && AllFilled(r.ingredients) && AllFilled(r.preparationSteps)
    && r.cuisine != "" && r.diet != ""
    && forall k :: 0 <= k < |r.ratings| ==> InRange(r.ratings[k].value)
  }

  /** Sum of the rating values, accumulated left to right as `reduce` does.
      The sum of n in-range ratings lies between n and 5n. */
  function Sum(rs: seq<Rating>): (total: real)
    ensures (forall k :: 0 <= k < |rs| ==> InRange(rs[k].value)) ==>
              |rs| as real <= total <= 5.0 * |rs| as real
  {
    if |rs| == 0 then 0.0
    else
      var init := rs[..|rs| - 1];
      assert forall k :: 0 <= k < |init| ==> init[k] == rs[k];
      Sum(init) + rs[|rs| - 1].value
  }

  /** The mean rating, 0 when there are none. */
  function Mean(rs: seq<Rating>): real {
    if |rs| == 0 then 0.0 else Sum(rs) / (|rs| as real)
  }

  /** At most one entry per user. */
  ghost predicate OnePerUser(rs: seq<Rating>) {
    forall i, j :: 0 <= i < j < |rs| ==> rs[i].user != rs[j].user
  }

  /** The invariants of a stored recipe: schema-valid, one rating per user,
      and the average equal to the mean of the ratings. */
  ghost predicate WellFormed(r: Recipe) {
    SchemaValid(r) && OnePerUser(r.ratings) && r.averageRating == Mean(r.ratings)
  }

  /** Builds the document `new Recipe({...})` describes and validates it as
      `save()` does: a missing or empty required field, an empty ingredient or
      step, or a difficulty outside the enum fails with `InvalidInput`. */
  function Publish(d: Draft, image: Option<string>, id: RecipeId, author: UserId): (r: Result<Recipe>)
    ensures r.Ok? <==>
      && Filled(d.title) && Filled(d.description) && Filled(image)
      && AllFilled(d.ingredients) && AllFilled(d.preparationSteps)
      && d.cookingTime.Some? && d.calories.Some?
      && d.difficulty.Some? && d.difficulty.value in {"Easy", "Medium", "Hard"}
      && Filled(d.cuisine) && Filled(d.diet)
    ensures r.Err? ==> r.error == InvalidInput
    ensures r.Ok? ==> WellFormed(r.value)
    ensures r.Ok? ==>
      && r.value.id == id && r.value.author == author
      && r.value.ratings == [] && r.value.averageRating == 0.0
      && r.value.title == d.title.value && r.value.description == d.description.value
      && r.value.image == image.value
      && r.value.ingredients == d.ingredients && r.value.preparationSteps == d.preparationSteps
      && r.value.cookingTime == d.cookingTime.value && r.value.calories == d.calories.value
      && DifficultyName(r.value.difficulty) == d.difficulty.value
      && r.value.cuisine == d.cuisine.value && r.value.diet == d.diet.value
  {
    if !Filled(d.title) || !Filled(d.description) || !Filled(image) then Err(InvalidInput)
    else if !AllFilled(d.ingredients) || !AllFilled(d.preparationSteps) then Err(InvalidInput)
    else if d.cookingTime.None? || d.calories.None? then Err(InvalidInput)
    else if d.difficulty.None? then Err(InvalidInput)
    else if !Filled(d.cuisine) || !Filled(d.diet) then Err(InvalidInput)
    else
      match ParseDifficulty(d.difficulty.value)
      case None => Err(InvalidInput)
      case Some(level) =>
        Ok(Recipe(id, d.title.value, d.description.value, image.value,
                  d.ingredients, d.preparationSteps, d.cookingTime.value, d.calories.value,
                  level, d.cuisine.value, d.diet.value, author, [], 0.0))
  }

  /** A publish request without an uploaded image never validates. */
  lemma NoImageRejected(d: Draft, id: RecipeId, author: UserId)
    ensures Publish(d, None, id, author) == Err(InvalidInput)
  {
  }

  /** The mean of in-range ratings is itself in range when there is at least one. */
  lemma MeanInRange(rs: seq<Rating>)
    requires |rs| > 0
    requires forall k :: 0 <= k < |rs| ==> InRange(rs[k].value)
    ensures InRange(Mean(rs))
  {
    var n := |rs| as real;
    DivBetween(Sum(rs), n, 1.0, 5.0);
  }

  lemma DivBetween(a: real, n: real, lo: real, hi: real)
    requires n > 0.0 && lo * n <= a <= hi * n
    ensures lo <= a / n <= hi
  {
    var q := a / n;
    assert q * n == a;
    assert (q - lo) * n == a - lo * n;
    assert (hi - q) * n == hi * n - a;
  }

  /** The average of a well-formed recipe is 0 with no ratings and within
      [1, 5] otherwise. */
  lemma AverageBounds(r: Recipe)
    requires WellFormed(r)
    ensures |r.ratings| == 0 ==> r.averageRating == 0.0
    ensures |r.ratings| > 0 ==> InRange(r.averageRating)
  {
    if |r.ratings| > 0 {
      MeanInRange(r.ratings);
    }
  }
}
