/** The advanced-search filter: the query string's optional criteria are
    compiled into a list of per-field clauses, and a recipe matches the query
    when it satisfies every clause. */
module FilterCompiler {
  import opened Results
  import opened RecipeSchema
  import opened Text

  /** The six optional criteria, as read from the query string. `None`
      stands for a parameter that is absent or empty, since an empty value is
      falsy and adds no clause. The numeric bounds are the values
      `Number(...)` yields. */
  datatype Criteria = Criteria(
    ingredients: Option<string>,
    time: Option<int>,
    calories: Option<int>,
    cuisine: Option<string>,
    difficulty: Option<string>,
    diet: Option<string>)

  /** No criterion at all. */
  const NoCriteria := Criteria(None, None, None, None, None, None)

  /** One field condition of the compiled query. */
  datatype Clause =
    | IngredientsIn(patterns: seq<string>)   // some ingredient matches some pattern
    | CookingTimeAtMost(bound: int)
    | CaloriesAtMost(bound: int)
    | CuisineLike(pattern: string)
    | DifficultyIs(name: string)
    | DietLike(pattern: string)

  /** A text criterion takes part only when present and non-empty (an empty
      query-string value is falsy). */
  predicate Given(t: Option<string>) {
    t.Some? && t.value != ""
  }

  /** The comma-separated ingredient terms, each trimmed. */
  function Terms(list: string): (ts: seq<string>)
    ensures |ts| == |Split(list, ',')|
    ensures forall k :: 0 <= k < |ts| ==> ts[k] == Trim(Split(list, ',')[k])
  {
    var parts := Split(list, ',');
    seq(|parts|, k requires 0 <= k < |parts| => Trim(parts[k]))
  }

  /** Builds the query object field by field, in the handler's order. */
  function Compile(c: Criteria): (q: seq<Clause>)
    ensures |q| <= 6
    ensures |q| == 0 <==>
      !Given(c.ingredients) && c.time.None? && c.calories.None?
      && !Given(c.cuisine) && !Given(c.difficulty) && !Given(c.diet)
  {
    IngredientsPart(c) + TimePart(c) + CaloriesPart(c) + CuisinePart(c) + DifficultyPart(c) + DietPart(c)
  }

  function IngredientsPart(c: Criteria): seq<Clause> {
    if Given(c.ingredients) then [IngredientsIn(Terms(c.ingredients.value))] else []
  }

  function TimePart(c: Criteria): seq<Clause> {
    if c.time.Some? then [CookingTimeAtMost(c.time.value)] else []
  }

  function CaloriesPart(c: Criteria): seq<Clause> {
    if c.calories.Some? then [CaloriesAtMost(c.calories.value)] else []
  }

  function CuisinePart(c: Criteria): seq<Clause> {
    if Given(c.cuisine) then [CuisineLike(c.cuisine.value)] else []
  }

  function DifficultyPart(c: Criteria): seq<Clause> {
    if Given(c.difficulty) then [DifficultyIs(c.difficulty.value)] else []
  }

  function DietPart(c: Criteria): seq<Clause> {
    if Given(c.diet) then [DietLike(c.diet.value)] else []
  }

  /** `$in` over an array field: some element matches some pattern. */
  function AnyMatch(items: seq<string>, patterns: seq<string>): (b: bool)
    ensures b <==> exists i, j :: 0 <= i < |items| && 0 <= j < |patterns|
                                   && IsInfix(Lower(patterns[j]), Lower(items[i]))
  {
    if |items| == 0 then false
    else
      var here := AnyPattern(items[0], patterns);
      var rest := AnyMatch(items[1..], patterns);
      assert forall i :: 1 <= i < |items| ==> items[i] == items[1..][i - 1];
      here || rest
  }

  /** Whether `item` matches one of `patterns`. */
  function AnyPattern(item: string, patterns: seq<string>): (b: bool)
    ensures b <==> exists j :: 0 <= j < |patterns| && IsInfix(Lower(patterns[j]), Lower(item))
  {
    if |patterns| == 0 then false
    else
      assert forall j :: 1 <= j < |patterns| ==> patterns[j] == patterns[1..][j - 1];
      ContainsIgnoreCase(item, patterns[0]) || AnyPattern(item, patterns[1..])
  }

  /** How the database evaluates one clause against a recipe. */
  function Holds(cl: Clause, r: Recipe): bool {
    match cl
    case IngredientsIn(ps) => AnyMatch(r.ingredients, ps)
    case CookingTimeAtMost(t) => r.cookingTime <= t
    case CaloriesAtMost(k) => r.calories <= k
    case CuisineLike(p) => ContainsIgnoreCase(r.cuisine, p)
    case DifficultyIs(name) => DifficultyName(r.difficulty) == name
    case DietLike(p) => ContainsIgnoreCase(r.diet, p)
  }

  /** A recipe matches a query when it satisfies all of its clauses. */
  predicate Matches(q: seq<Clause>, r: Recipe) {
    forall k :: 0 <= k < |q| ==> Holds(q[k], r)
  }

  /** The search semantics stated directly on the criteria: each given
      criterion constrains its own field, and absent ones constrain nothing. */
  ghost predicate Satisfies(c: Criteria, r: Recipe) {
    && IngredientsOk(c, r)
    && (c.time.Some? ==> r.cookingTime <= c.time.value)
    && (c.calories.Some? ==> r.calories <= c.calories.value)
    && (Given(c.cuisine) ==> IsInfix(Lower(c.cuisine.value), Lower(r.cuisine)))
    && (Given(c.difficulty) ==> DifficultyName(r.difficulty) == c.difficulty.value)
    && (Given(c.diet) ==> IsInfix(Lower(c.diet.value), Lower(r.diet)))
  }

  /** Some ingredient contains some trimmed term of the ingredients criterion. */
  ghost predicate IngredientsOk(c: Criteria, r: Recipe) {
    Given(c.ingredients) ==>
      var ts := Terms(c.ingredients.value);
      exists i, j :: 0 <= i < |r.ingredients| && 0 <= j < |ts|
                     && IsInfix(Lower(ts[j]), Lower(r.ingredients[i]))
  }

  /** The compiled query selects exactly the recipes satisfying the criteria. */
  lemma CompileCorrect(c: Criteria, r: Recipe)
    ensures Matches(Compile(c), r) <==> Satisfies(c, r)
  {
    var p1, p2, p3 := IngredientsPart(c), TimePart(c), CaloriesPart(c);
    var p4, p5, p6 := CuisinePart(c), DifficultyPart(c), DietPart(c);
    var q2 := p1 + p2;
    var q3 := q2 + p3;
    var q4 := q3 + p4;
    var q5 := q4 + p5;
    assert Compile(c) == q5 + p6;
    MatchesConcat(p1, p2, r);
    MatchesConcat(q2, p3, r);
    MatchesConcat(q3, p4, r);
    MatchesConcat(q4, p5, r);
    MatchesConcat(q5, p6, r);
    PartsCorrect(c, r);
  }

  /** Each criterion's clause list matches exactly the recipes its own condition admits. */
  lemma PartsCorrect(c: Criteria, r: Recipe)
    ensures Matches(IngredientsPart(c), r) <==> IngredientsOk(c, r)
    ensures Matches(TimePart(c), r) <==> (c.time.Some? ==> r.cookingTime <= c.time.value)
    ensures Matches(CaloriesPart(c), r) <==> (c.calories.Some? ==> r.calories <= c.calories.value)
    ensures Matches(CuisinePart(c), r) <==> (Given(c.cuisine) ==> IsInfix(Lower(c.cuisine.value), Lower(r.cuisine)))
    ensures Matches(DifficultyPart(c), r) <==> (Given(c.difficulty) ==> DifficultyName(r.difficulty) == c.difficulty.value)
    ensures Matches(DietPart(c), r) <==> (Given(c.diet) ==> IsInfix(Lower(c.diet.value), Lower(r.diet)))
  {
    if Given(c.ingredients) { SingleClause(IngredientsPart(c)[0], r); }
    if c.time.Some? { SingleClause(TimePart(c)[0], r); }
    if c.calories.Some? { SingleClause(CaloriesPart(c)[0], r); }
    if Given(c.cuisine) { SingleClause(CuisinePart(c)[0], r); }
    if Given(c.difficulty) { SingleClause(DifficultyPart(c)[0], r); }
    if Given(c.diet) { SingleClause(DietPart(c)[0], r); }
  }

  lemma SingleClause(cl: Clause, r: Recipe)
    ensures Matches([cl], r) <==> Holds(cl, r)
  {
    assert [cl][0] == cl;
  }

  /** A concatenated query matches when both parts do. */
  lemma MatchesConcat(a: seq<Clause>, b: seq<Clause>, r: Recipe)
    ensures Matches(a + b, r) <==> Matches(a, r) && Matches(b, r)
  {
    if Matches(a, r) && Matches(b, r) {
      forall k | 0 <= k < |a + b| ensures Holds((a + b)[k], r) {
        if k >= |a| {
          assert (a + b)[k] == b[k - |a|];
        }
      }
    }
    if Matches(a + b, r) {
      forall k | 0 <= k < |a| ensures Holds(a[k], r) {
        assert (a + b)[k] == a[k];
      }
      forall k | 0 <= k < |b| ensures Holds(b[k], r) {
        assert (a + b)[|a| + k] == b[k];
      }
    }
  }

  /** With no criteria every recipe matches. */
  lemma NoCriteriaMatchesAll(r: Recipe)
    ensures Matches(Compile(NoCriteria), r)
  {
  }

  /** A difficulty criterion alone selects exactly the recipes of that difficulty. */
  lemma DifficultyOnly(level: Difficulty, r: Recipe)
    ensures Matches(Compile(NoCriteria.(difficulty := Some(DifficultyName(level)))), r)
            <==> r.difficulty == level
  {
    CompileCorrect(NoCriteria.(difficulty := Some(DifficultyName(level))), r);
    DifficultyRoundTrip(level);
    DifficultyRoundTrip(r.difficulty);
  }

  /** Criteria on different fields combine by intersection: the merged query
      matches exactly the recipes both halves match. */
  lemma MergeIsIntersection(a: Criteria, b: Criteria, r: Recipe)
    requires Disjoint(a, b)
    ensures Matches(Compile(Merge(a, b)), r) <==> Matches(Compile(a), r) && Matches(Compile(b), r)
  {
    CompileCorrect(a, r);
    CompileCorrect(b, r);
    CompileCorrect(Merge(a, b), r);
  }

  /** No field is constrained by both. */
  predicate Disjoint(a: Criteria, b: Criteria) {
    && !(a.ingredients.Some? && b.ingredients.Some?)
    && !(a.time.Some? && b.time.Some?)
    && !(a.calories.Some? && b.calories.Some?)
    && !(a.cuisine.Some? && b.cuisine.Some?)
    && !(a.difficulty.Some? && b.difficulty.Some?)
    && !(a.diet.Some? && b.diet.Some?)
  }

  /** The criteria of both, field by field. */
  function Merge(a: Criteria, b: Criteria): Criteria {
    Criteria(
      if a.ingredients.Some? then a.ingredients else b.ingredients,
      if a.time.Some? then a.time else b.time,
      if a.calories.Some? then a.calories else b.calories,
      if a.cuisine.Some? then a.cuisine else b.cuisine,
      if a.difficulty.Some? then a.difficulty else b.difficulty,
      if a.diet.Some? then a.diet else b.diet)
  }
}
