/** The rating submission as the schema is written: `rating` carries
    `min: 1, max: 5` but no `required`, and the range validators accept
    `null`. A `null` entry is stored and counts as 0 in the average. */
module RatingsAsWritten {
  import opened Results
  import opened RecipeSchema
  import opened Ratings

  /** A stored rating entry whose value may be `null`. */
  datatype Entry = Entry(user: UserId, value: Option<real>)

  /** What `sum + r.rating` adds for one entry: `null` converts to 0. */
  function Counted(v: Option<real>): (x: real)
    ensures v.None? ==> x == 0.0
    ensures v.Some? ==> x == v.value
  {
    match v
    case None => 0.0
    case Some(x) => x
  }

  /** The left-to-right `reduce` over the entries. */
  function Total(es: seq<Entry>): real {
    if |es| == 0 then 0.0 else Total(es[..|es| - 1]) + Counted(es[|es| - 1].value)
  }

  /** The stored value of a submitted number or `null`. */
  function Stored(value: RawValue): Option<real>
    requires !value.Absent?
  {
    if value.Num? then Some(value.v) else None
  }

  /** `rateRecipe` as written. A repeat rater gets `DuplicateRating`. A
      missing value makes the average `NaN`, which fails the cast at save. A
      number outside [1, 5] fails the range validators. Anything else,
      `null` included, is appended and the average recomputed with `null`
      counted as 0. */
  function SubmitAsWritten(es: seq<Entry>, user: UserId, value: RawValue): (res: Result<(seq<Entry>, real)>)
    ensures (exists k :: 0 <= k < |es| && es[k].user == user) ==> res == Err(DuplicateRating)
    ensures (forall k :: 0 <= k < |es| ==> es[k].user != user) ==>
              (res.Ok? <==> value.Null? || (value.Num? && InRange(value.v)))
    ensures (forall k :: 0 <= k < |es| ==> es[k].user != user) && value.Absent? ==> res == Err(ServerError)
    ensures res.Ok? ==> !value.Absent? && res.value.0 == es + [Entry(user, Stored(value))]
  {
    if exists k :: 0 <= k < |es| && es[k].user == user then Err(DuplicateRating)
    else if value.Absent? then Err(ServerError)
    else if value.Num? && !InRange(value.v) then Err(InvalidInput)
    else
      var es' := es + [Entry(user, Stored(value))];
      Ok((es', Total(es') / (|es'| as real)))
  }

  /** A first `null` rating is accepted and leaves a rated recipe whose
      average, 0, lies outside [1, 5]; the same user can then never rate it
      with a real value. */
  lemma NullRatingAveragesZero(u: UserId, x: real)
    ensures SubmitAsWritten([], u, Null) == Ok(([Entry(u, None)], 0.0))
    ensures !InRange(0.0)
    ensures SubmitAsWritten([Entry(u, None)], u, Num(x)) == Err(DuplicateRating)
  {
    var es := [Entry(u, None)];
    assert es[..0] == [];
    assert Total(es) == 0.0;
    assert es[0].user == u;
  }
}
