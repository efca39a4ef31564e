/** The document store the handlers read and write: recipes keyed by id,
    users keyed by id, and the counter that hands out fresh recipe ids. */
module Store {
  import opened RecipeSchema
  import opened Seqs

  /** The part of a user document the catalog uses. */
  datatype User = User(id: UserId, username: string, recipes: seq<RecipeId>, favorites: seq<RecipeId>)

  /** Ids are handed out in increasing order, so ascending id order is
      creation order. The model lists documents in that order; the database
      itself promises no order for a `find()` without a sort. */
  datatype Store = Store(recipes: map<RecipeId, Recipe>, users: map<UserId, User>, nextId: RecipeId)

  /** The store invariants: every recipe is well-formed and filed under its own
      id below the counter; every user is filed under their own id, authored
      every recipe they list, and has existing, duplicate-free favorites. */
  ghost predicate Valid(s: Store) {
    && (forall id :: id in s.recipes ==> id < s.nextId && s.recipes[id].id == id && WellFormed(s.recipes[id]))
    && (forall uid :: uid in s.users ==> UserValid(s, uid))
  }

  ghost predicate UserValid(s: Store, uid: UserId)
    requires uid in s.users
  {
    var u := s.users[uid];
    && u.id == uid
    && NoDup(u.recipes)
    && (forall k :: 0 <= k < |u.recipes| ==> u.recipes[k] in s.recipes && s.recipes[u.recipes[k]].author == uid)
    && NoDup(u.favorites)
    && (forall k :: 0 <= k < |u.favorites| ==> u.favorites[k] in s.recipes)
  }

  /** The empty store. */
  const Empty := Store(map[], map[], 0)

  lemma EmptyValid()
    ensures Valid(Empty)
  {
  }

  /** The ids of `m` below `n`, ascending. */
  function IdsBelow(m: map<RecipeId, Recipe>, n: nat): (ids: seq<RecipeId>)
    ensures forall k :: 0 <= k < |ids| ==> ids[k] in m && ids[k] < n
    ensures forall id :: id in m && id < n ==> id in ids
    ensures forall i, j :: 0 <= i < j < |ids| ==> ids[i] < ids[j]
  {
    if n == 0 then []
    else
      var below := IdsBelow(m, n - 1);
      if n - 1 in m then below + [n - 1] else below
  }

  /** Every recipe by ascending id, the model's stand-in for the unspecified order of `find()` without a filter. */
  function Listing(s: Store): (rs: seq<Recipe>)
    ensures forall k :: 0 <= k < |rs| ==> rs[k] in s.recipes.Values
  {
    var ids := IdsBelow(s.recipes, s.nextId);
    var rs := seq(|ids|, k requires 0 <= k < |ids| => s.recipes[ids[k]]);
    assert forall k :: 0 <= k < |rs| ==> rs[k] == s.recipes[ids[k]] && ids[k] in s.recipes;
    rs
  }

  /** In a valid store the listing holds every recipe exactly once, so its
      length is the document count. */
  lemma ListingComplete(s: Store)
    requires Valid(s)
    ensures forall id :: id in s.recipes ==> s.recipes[id] in Listing(s)
    ensures |Listing(s)| == |s.recipes|
  {
    var ids := IdsBelow(s.recipes, s.nextId);
    assert forall id :: id in s.recipes ==> id < s.nextId;
    IdsBelowCount(s.recipes, s.nextId);
    forall id | id in s.recipes ensures s.recipes[id] in Listing(s) {
      var k :| 0 <= k < |ids| && ids[k] == id;
      assert Listing(s)[k] == s.recipes[id];
    }
  }

  /** When every key is below `n`, `IdsBelow` lists each key once. */
  lemma IdsBelowCount(m: map<RecipeId, Recipe>, n: nat)
    requires forall id :: id in m ==> id < n
    ensures |IdsBelow(m, n)| == |m|
  {
    var ids := IdsBelow(m, n);
    forall i, j | 0 <= i < j < |ids| ensures ids[i] != ids[j] {
      assert ids[i] < ids[j];
    }
    NoDupCard(ids);
    var idSet := set x | x in ids;
    assert idSet <= m.Keys;
    assert m.Keys <= idSet;
    assert idSet == m.Keys;
    assert |idSet| == |ids|;
    assert |m.Keys| == |m|;
  }
}
