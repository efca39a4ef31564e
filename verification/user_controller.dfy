/** The user handlers: the profile view and the favorites list, whose
    add and remove transitions keep it free of duplicates. */
module UserController {
  import opened Results
  import opened RecipeSchema
  import opened Store
  import opened Seqs

  /** The fields a profile shows of each authored or favorite recipe. */
  datatype Brief = Brief(id: RecipeId, title: string, image: string, averageRating: real)

  /** A user without credentials, with both recipe lists resolved. */
  datatype Profile = Profile(id: UserId, username: string, recipes: seq<Brief>, favorites: seq<Brief>)

  function Describe(r: Recipe): Brief {
    Brief(r.id, r.title, r.image, r.averageRating)
  }

  /** Resolves a list of recipe ids in order; ids with no document are dropped. */
  function Resolve(m: map<RecipeId, Recipe>, ids: seq<RecipeId>): (bs: seq<Brief>)
    ensures |bs| <= |ids|
    ensures (forall k :: 0 <= k < |ids| ==> ids[k] in m) ==>
              |bs| == |ids| && forall k :: 0 <= k < |ids| ==> bs[k] == Describe(m[ids[k]])
  {
    if |ids| == 0 then []
    else
      var rest := Resolve(m, ids[1..]);
      if ids[0] in m then [Describe(m[ids[0]])] + rest else rest
  }

  /** The caller's profile; an unknown user is `NotFound`. */
  function GetUserProfile(s: Store, uid: UserId): (res: Result<Profile>)
    ensures uid !in s.users ==> res == Err(NotFound)
    ensures uid in s.users ==> res.Ok?
    ensures res.Ok? ==>
      var u := s.users[uid];
      && res.value.id == uid && res.value.username == u.username
      && res.value.recipes == Resolve(s.recipes, u.recipes)
      && res.value.favorites == Resolve(s.recipes, u.favorites)
  {
    if uid !in s.users then Err(NotFound)
    else
      var u := s.users[uid];
      Ok(Profile(uid, u.username, Resolve(s.recipes, u.recipes), Resolve(s.recipes, u.favorites)))
  }

  /** In a valid store the profile lists every authored and every favorite
      recipe of the user, in the user's own order. */
  lemma ProfileComplete(s: Store, uid: UserId)
    requires Valid(s) && uid in s.users
    ensures var p := GetUserProfile(s, uid).value;
            var u := s.users[uid];
            && |p.recipes| == |u.recipes|
            && (forall k :: 0 <= k < |u.recipes| ==> p.recipes[k].id == u.recipes[k])
            && |p.favorites| == |u.favorites|
            && (forall k :: 0 <= k < |u.favorites| ==> p.favorites[k].id == u.favorites[k])
  {
    assert UserValid(s, uid);
  }

  /** Adds recipe `id` to the caller's favorites: an unknown recipe is
      `NotFound`, a missing caller document fails, and a recipe already among
      the favorites is `AlreadyFavorited`; otherwise the id is appended and
      nothing else changes. */
  function AddFavorite(s: Store, caller: UserId, id: RecipeId): (res: Result<Store>)
    ensures id !in s.recipes ==> res == Err(NotFound)
    ensures id in s.recipes && caller !in s.users ==> res == Err(ServerError)
    ensures id in s.recipes && caller in s.users && id in s.users[caller].favorites ==> res == Err(AlreadyFavorited)
    ensures id in s.recipes && caller in s.users && id !in s.users[caller].favorites ==> res.Ok?
    ensures res.Ok? ==>
      && caller in s.users
      && res.value == s.(users := s.users[caller := s.users[caller].(favorites := s.users[caller].favorites + [id])])
  {
    if id !in s.recipes then Err(NotFound)
    else if caller !in s.users then Err(ServerError)
    else
      var u := s.users[caller];
      if id in u.favorites then Err(AlreadyFavorited)
      else Ok(s.(users := s.users[caller := u.(favorites := u.favorites + [id])]))
  }

  /** `after` is `before` with its first occurrence of `x` deleted. */
  ghost predicate RemovedFirst(before: seq<RecipeId>, x: RecipeId, after: seq<RecipeId>) {
    exists i :: 0 <= i < |before| && before[i] == x && x !in before[..i]
                && after == before[..i] + before[i + 1..]
  }

  /** Removes recipe `id` from the caller's favorites: a missing caller
      document fails and an id that is not a favorite is `NotFound`; otherwise
      the first occurrence is deleted. Whether the recipe still exists is not
      consulted. */
  function RemoveFavorite(s: Store, caller: UserId, id: RecipeId): (res: Result<Store>)
    ensures caller !in s.users ==> res == Err(ServerError)
    ensures caller in s.users && id !in s.users[caller].favorites ==> res == Err(NotFound)
    ensures caller in s.users && id in s.users[caller].favorites ==> res.Ok?
    ensures res.Ok? ==>
      && caller in s.users
      && res.value.recipes == s.recipes && res.value.nextId == s.nextId
      && caller in res.value.users
      && res.value.users == s.users[caller := res.value.users[caller]]
      && res.value.users[caller] == s.users[caller].(favorites := res.value.users[caller].favorites)
      && RemovedFirst(s.users[caller].favorites, id, res.value.users[caller].favorites)
  {
    if caller !in s.users then Err(ServerError)
    else
      var u := s.users[caller];
      var i := IndexOf(u.favorites, id);
      if i == -1 then Err(NotFound)
      else
        var favorites := RemoveAt(u.favorites, i);
        assert RemovedFirst(u.favorites, id, favorites);
        Ok(s.(users := s.users[caller := u.(favorites := favorites)]))
  }

  /** Adding a favorite keeps the store valid. */
  lemma AddPreservesValid(s: Store, caller: UserId, id: RecipeId)
    requires Valid(s)
    requires AddFavorite(s, caller, id).Ok?
    ensures Valid(AddFavorite(s, caller, id).value)
  {
    var s' := AddFavorite(s, caller, id).value;
    forall uid | uid in s'.users ensures UserValid(s', uid) {
      assert UserValid(s, uid);
      if uid == caller {
        AppendNoDup(s.users[caller].favorites, id);
      }
    }
  }

  /** Removing a favorite keeps the store valid, and afterwards the recipe is
      no longer a favorite. */
  lemma RemovePreservesValid(s: Store, caller: UserId, id: RecipeId)
    requires Valid(s)
    requires RemoveFavorite(s, caller, id).Ok?
    ensures Valid(RemoveFavorite(s, caller, id).value)
    ensures id !in RemoveFavorite(s, caller, id).value.users[caller].favorites
  {
    var s' := RemoveFavorite(s, caller, id).value;
    var favs := s.users[caller].favorites;
    assert UserValid(s, caller);
    var i := IndexOf(favs, id);
    RemoveAtNoDup(favs, i);
    forall uid | uid in s'.users ensures UserValid(s', uid) {
      assert UserValid(s, uid);
      if uid == caller {
        var after := RemoveAt(favs, i);
        forall k | 0 <= k < |after| ensures after[k] in s.recipes {
          var k' := if k < i then k else k + 1;
          assert after[k] == favs[k'];
        }
      }
    }
  }

  /** Adding the same favorite twice fails the second time. */
  lemma AddTwiceFails(s: Store, caller: UserId, id: RecipeId)
    requires AddFavorite(s, caller, id).Ok?
    ensures AddFavorite(AddFavorite(s, caller, id).value, caller, id) == Err(AlreadyFavorited)
  {
    var s' := AddFavorite(s, caller, id).value;
    var f := s'.users[caller].favorites;
    assert f[|f| - 1] == id;
  }

  /** Adding a recipe that is not yet a favorite and then removing it restores
      the store exactly. */
  lemma AddThenRemove(s: Store, caller: UserId, id: RecipeId)
    requires AddFavorite(s, caller, id).Ok?
    ensures RemoveFavorite(AddFavorite(s, caller, id).value, caller, id) == Ok(s)
  {
    var u := s.users[caller];
    var s1 := AddFavorite(s, caller, id).value;
    var u1 := s1.users[caller];
    assert u1 == u.(favorites := u.favorites + [id]);
    RemoveAppendedFirst(u.favorites, id);
    assert u1.(favorites := RemoveAt(u1.favorites, |u.favorites|)) == u;
    assert s1.users[caller := u] == s.users;
    assert s1.(users := s.users) == s;
  }

  /** A favorite is removable even after its recipe is gone: only membership
      is checked. */
  lemma RemoveIgnoresRecipeExistence(s: Store, caller: UserId, id: RecipeId)
    requires caller in s.users && id in s.users[caller].favorites && id !in s.recipes
    ensures RemoveFavorite(s, caller, id).Ok?
  {
  }
}
