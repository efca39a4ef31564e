/** The rating aggregator: one rating per user, appended in order, with the
    average recomputed over all ratings after each submission. */
module Ratings {
  import opened Results
  import opened RecipeSchema

  /** A rating value as the request body carries it: a number, `null` (which
      an empty string also becomes when cast to a number), or no value at all. */
  datatype RawValue = Num(v: real) | Null | Absent

  /** Whether `user` has an entry in `rs` (the `ratings.some(...)` scan). */
  function HasRated(rs: seq<Rating>, user: UserId): (b: bool)
    ensures b <==> exists k :: 0 <= k < |rs| && rs[k].user == user
  {
    if |rs| == 0 then false
    else if rs[0].user == user then true
    else
      assert forall k :: 1 <= k < |rs| ==> rs[k] == rs[1..][k - 1];
      HasRated(rs[1..], user)
  }

  /** A submission of `value` by `user`: refused when the user already rated
      the recipe, whatever the value; otherwise the entry is appended and the
      average recomputed, and the save rejects a value outside [1, 5]. */
  function SubmitRating(r: Recipe, user: UserId, value: real): (res: Result<Recipe>)
    ensures (exists k :: 0 <= k < |r.ratings| && r.ratings[k].user == user) ==> res == Err(DuplicateRating)
    ensures (forall k :: 0 <= k < |r.ratings| ==> r.ratings[k].user != user) ==>
              (res.Ok? <==> InRange(value))
    ensures (forall k :: 0 <= k < |r.ratings| ==> r.ratings[k].user != user) && !InRange(value) ==>
              res == Err(InvalidInput)
    ensures res.Err? ==> res.error in {DuplicateRating, InvalidInput}
    ensures res.Ok? ==> res.value == r.(ratings := r.ratings + [Rating(user, value)],
                                        averageRating := res.value.averageRating)
    ensures res.Ok? ==> res.value.averageRating == Mean(res.value.ratings)
  {
    if HasRated(r.ratings, user) then Err(DuplicateRating)
    else
      var rs := r.ratings + [Rating(user, value)];
      var total := Sum(rs);
      var updated := r.(ratings := rs, averageRating := total / (|rs| as real));
      if !InRange(value) then Err(InvalidInput) else Ok(updated)
  }

  /** A submission with `rating` required, as every other schema field is: a
      `null` or missing value fails validation at save like an out-of-range
      number. The duplicate check still comes first. */
  function SubmitRequired(r: Recipe, user: UserId, value: RawValue): (res: Result<Recipe>)
    ensures HasRated(r.ratings, user) ==> res == Err(DuplicateRating)
    ensures !HasRated(r.ratings, user) ==> (res.Ok? <==> value.Num? && InRange(value.v))
    ensures !HasRated(r.ratings, user) && !(value.Num? && InRange(value.v)) ==> res == Err(InvalidInput)
    ensures res.Ok? ==>
      && value.Num?
      && res.value.ratings == r.ratings + [Rating(user, value.v)]
      && res.value.averageRating == Mean(res.value.ratings)
      && res.value == r.(ratings := res.value.ratings, averageRating := res.value.averageRating)
  {
    if HasRated(r.ratings, user) then Err(DuplicateRating)
    else
      match value
      case Num(x) => SubmitRating(r, user, x)
      case _ => Err(InvalidInput)
  }

  /** With `rating` required, a rated recipe's average always lies in [1, 5]. */
  lemma RequiredKeepsAverageInRange(r: Recipe, user: UserId, value: RawValue)
    requires WellFormed(r)
    requires SubmitRequired(r, user, value).Ok?
    ensures WellFormed(SubmitRequired(r, user, value).value)
    ensures InRange(SubmitRequired(r, user, value).value.averageRating)
  {
    SubmitPreservesWellFormed(r, user, value.v);
    AverageBounds(SubmitRequired(r, user, value).value);
  }

  /** A successful submission keeps a recipe well-formed: the new average is
      the mean of all ratings, including the new one, and no user has two entries. */
  lemma SubmitPreservesWellFormed(r: Recipe, user: UserId, value: real)
    requires WellFormed(r)
    requires SubmitRating(r, user, value).Ok?
    ensures WellFormed(SubmitRating(r, user, value).value)
    ensures SubmitRating(r, user, value).value.averageRating == Mean(r.ratings + [Rating(user, value)])
  {
    var rs := r.ratings + [Rating(user, value)];
    assert forall k :: 0 <= k < |r.ratings| ==> rs[k] == r.ratings[k];
  }

  /** The new average folds the new value into the old one:
      (old average * old count + value) / new count. */
  lemma {:induction false} MeanAfterAppend(rs: seq<Rating>, x: Rating)
    ensures Mean(rs + [x]) == (Mean(rs) * (|rs| as real) + x.value) / ((|rs| + 1) as real)
  {
    var ext := rs + [x];
    assert ext[..|ext| - 1] == rs;
    assert Sum(ext) == Sum(rs) + x.value;
    MeanTimesCount(rs);
  }

  /** The mean times the count gives back the sum. */
  lemma MeanTimesCount(rs: seq<Rating>)
    ensures Mean(rs) * (|rs| as real) == Sum(rs)
  {
    if |rs| > 0 {
      DivTimes(Sum(rs), |rs| as real);
    }
  }

  lemma DivTimes(a: real, n: real)
    requires n != 0.0
    ensures (a / n) * n == a
  {
  }

  /** A second submission by the same user fails, whatever the value. */
  lemma SecondSubmissionRejected(r: Recipe, user: UserId, first: real, second: real)
    requires SubmitRating(r, user, first).Ok?
    ensures SubmitRating(SubmitRating(r, user, first).value, user, second) == Err(DuplicateRating)
  {
    var r1 := SubmitRating(r, user, first).value;
    assert r1.ratings[|r.ratings|].user == user;
  }

  /** Ratings 3 and 5 average 4; adding 4 keeps the average at exactly 4. */
  lemma ThreeFiveFour(r: Recipe, a: UserId, b: UserId, c: UserId)
    requires r.ratings == [Rating(a, 3.0), Rating(b, 5.0)] && r.averageRating == 4.0
    requires c != a && c != b
    ensures Mean(r.ratings) == 4.0
    ensures SubmitRating(r, c, 4.0).Ok?
    ensures SubmitRating(r, c, 4.0).value.ratings == [Rating(a, 3.0), Rating(b, 5.0), Rating(c, 4.0)]
    ensures SubmitRating(r, c, 4.0).value.averageRating == 4.0
  {
    var rs := [Rating(a, 3.0), Rating(b, 5.0)];
    assert rs[..1] == [Rating(a, 3.0)];
    assert [Rating(a, 3.0)][..0] == [];
    assert Sum([Rating(a, 3.0)]) == 3.0;
    assert Sum(rs) == 8.0;
    var ext := rs + [Rating(c, 4.0)];
    assert ext[..2] == rs;
  }
}
