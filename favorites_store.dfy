/** The favourites kept in the browser's storage (js/favorites-store.js): a JSON array of book
    ids under one storage key, read back as the distinct non-blank trimmed ids in the order
    each first occurs, and changed one id at a time. */
module FavoritesStore {
  import opened Strings
  import Json
  import BooksMeta
  import opened LocalStorage

  const StorageKey := "shiaLibFavs"

  /** Every value normalised as an id. */
  function Ids(values: seq<Json.Value>): (ids: seq<string>)
    ensures |ids| == |values|
    ensures forall i :: 0 <= i < |values| ==> ids[i] == BooksMeta.NormalizeId(values[i])
  {
    seq(|values|, i requires 0 <= i < |values| => BooksMeta.NormalizeId(values[i]))
  }

  /** The distinct non-blank normalised ids among `values`, in the order each first occurs. */
  function CleanIds(values: seq<Json.Value>): seq<string> {
    KeepFirst(Ids(values))
  }

  /** An id list as the store keeps it: every id non-blank and trimmed, none twice. */
  predicate CleanList(ids: seq<string>) {
    && Distinct(ids)
    && forall i :: 0 <= i < |ids| ==> ids[i] != "" && Trim(ids[i]) == ids[i]
  }

  /** The ids as the JSON strings `JSON.stringify` writes and `JSON.parse` reads back. */
  function Strs(ids: seq<string>): (vs: seq<Json.Value>)
    ensures |vs| == |ids| && forall i :: 0 <= i < |ids| ==> vs[i] == Json.Str(ids[i])
  {
    seq(|ids|, i requires 0 <= i < |ids| => Json.Str(ids[i]))
  }

  /** The item `writeFavorites` leaves in storage. */
  function Stored(ids: seq<string>): StoredItem {
    Parsed(Json.Arr(Strs(ids)))
  }

  /** What `readFavorites` (and `getFavorites`) returns for the stored item: nothing unless
      it holds a JSON array. */
  function Favorites(item: StoredItem): seq<string> {
    if item.Parsed? && item.value.Arr? then CleanIds(item.value.items) else []
  }

  /** Cleaning always gives a clean list. */
  lemma CleanIdsClean(values: seq<Json.Value>)
    ensures CleanList(CleanIds(values))
  {
    var ids := Ids(values);
    KeepFirstDistinct(ids);
    forall i | 0 <= i < |KeepFirst(ids)|
      ensures KeepFirst(ids)[i] != "" && Trim(KeepFirst(ids)[i]) == KeepFirst(ids)[i]
    {
      KeepFirstMembers(ids, KeepFirst(ids)[i]);
    }
  }

  /** An id is kept exactly when it is non-blank and some value normalises to it. */
  lemma CleanIdsMembers(values: seq<Json.Value>, x: string)
    ensures x in CleanIds(values) <==>
      x != "" && exists j :: 0 <= j < |values| && BooksMeta.NormalizeId(values[j]) == x
  {
    KeepFirstMembers(Ids(values), x);
    if x in Ids(values) {
      var j :| 0 <= j < |values| && Ids(values)[j] == x;
    }
  }

  /** Reading ids distributes over concatenation. */
  lemma IdsAppend(a: seq<Json.Value>, b: seq<Json.Value>)
    ensures Ids(a + b) == Ids(a) + Ids(b)
  {
    var ids := Ids(a + b);
    forall i | 0 <= i < |a|
      ensures ids[i] == Ids(a)[i]
    {
      assert (a + b)[i] == a[i];
    }
    forall i | 0 <= i < |b|
      ensures ids[|a| + i] == Ids(b)[i]
    {
      assert (a + b)[|a| + i] == b[i];
    }
    SplitAt(ids, Ids(a), Ids(b));
  }

  /** A list that agrees with `x` on its first `|x|` places and with `y` on the rest is
      `x + y`. */
  lemma SplitAt(s: seq<string>, x: seq<string>, y: seq<string>)
    requires |s| == |x| + |y|
    requires forall i :: 0 <= i < |x| ==> s[i] == x[i]
    requires forall i :: 0 <= i < |y| ==> s[|x| + i] == y[i]
    ensures s == x + y
  {
    forall i | 0 <= i < |s|
      ensures s[i] == (x + y)[i]
    {
      if i >= |x| {
        assert s[|x| + (i - |x|)] == y[i - |x|];
      }
    }
  }

  /** The ids read from values that an array starts with are read first and in the same
      order, whatever follows. */
  lemma CleanIdsPrefix(a: seq<Json.Value>, b: seq<Json.Value>)
    ensures |CleanIds(a)| <= |CleanIds(a + b)|
    ensures CleanIds(a + b)[..|CleanIds(a)|] == CleanIds(a)
  {
    IdsAppend(a, b);
    KeepFirstPrefix(Ids(a), Ids(b));
  }

  /** Reading back a clean list written as JSON strings gives the same list. */
  lemma CleanIdsOfClean(ids: seq<string>)
    requires CleanList(ids)
    ensures CleanIds(Strs(ids)) == ids
  {
    assert Ids(Strs(ids)) == ids;
    KeepFirstOfDistinct(ids);
  }

  /** What `writeFavorites` stores, `readFavorites` returns. */
  lemma ReadAfterWrite(values: seq<Json.Value>)
    ensures Favorites(Stored(CleanIds(values))) == CleanIds(values)
  {
    CleanIdsClean(values);
    CleanIdsOfClean(CleanIds(values));
  }

  /** The favourites after `setFavorite(target, shouldFavorite)` for a non-blank target:
      the target appended when it is to be added and was missing, removed when it is to be
      dropped and was there, and the list as it was otherwise. */
  function AfterSet(current: seq<string>, target: string, shouldFavorite: bool): seq<string> {
    if shouldFavorite && target !in current then current + [target]
    else if !shouldFavorite && target in current then Without(current, target)
    else current
  }

  /** Removing an id keeps a list clean. */
  lemma WithoutClean(ids: seq<string>, k: string)
    requires CleanList(ids)
    ensures CleanList(Without(ids, k))
  {
    WithoutDistinct(ids, k);
    var w := Without(ids, k);
    forall i | 0 <= i < |w|
      ensures w[i] != "" && Trim(w[i]) == w[i]
    {
      WithoutMembers(ids, k, w[i]);
    }
  }

  /** The list with a new id appended is written and read back unchanged. */
  lemma AppendedReadsBack(current: seq<string>, target: string)
    requires CleanList(current) && target != "" && Trim(target) == target && target !in current
    ensures CleanIds(Strs(current + [target])) == current + [target]
  {
    assert CleanList(current + [target]);
    CleanIdsOfClean(current + [target]);
  }

  /** The list with an id removed is written and read back unchanged. */
  lemma RemovedReadsBack(current: seq<string>, target: string)
    requires CleanList(current)
    ensures CleanIds(Strs(Without(current, target))) == Without(current, target)
  {
    WithoutClean(current, target);
    CleanIdsOfClean(Without(current, target));
  }

  /** Setting keeps the list clean, makes the target a favourite exactly when asked to, and
      leaves every other id as it was. */
  lemma AfterSetEffect(current: seq<string>, target: string, shouldFavorite: bool, other: string)
    requires CleanList(current) && target != "" && Trim(target) == target
    requires other != target
    ensures CleanList(AfterSet(current, target, shouldFavorite))
    ensures target in AfterSet(current, target, shouldFavorite) <==> shouldFavorite
    ensures other in AfterSet(current, target, shouldFavorite) <==> other in current
  {
    if !shouldFavorite && target in current {
      WithoutClean(current, target);
      WithoutMembers(current, target, target);
      WithoutMembers(current, target, other);
    }
  }

  /** Toggling flips the target, and toggling a missing id twice restores the list. */
  lemma ToggleTwice(current: seq<string>, target: string)
    requires CleanList(current) && target != "" && Trim(target) == target
    ensures var once := AfterSet(current, target, target !in current);
      && (target in once <==> target !in current)
      && (target !in current ==> AfterSet(once, target, target !in once) == current)
  {
    var once := AfterSet(current, target, target !in current);
    AfterSetEffect(current, target, target !in current, "");
    if target !in current {
      WithoutSplit(current, target, []);
      assert current + [target] + [] == once;
    }
  }

  /** The storage slot the favourites live in. */
  class Store {
    var item: StoredItem

    constructor(item: StoredItem)
      ensures this.item == item
    {
      this.item := item;
    }

    /** `readFavorites()`: the ids of the stored array, cleaned. */
    method ReadFavorites() returns (ids: seq<string>)
      ensures ids == Favorites(item)
      ensures CleanList(ids)
    {
      CleanIdsClean(if item.Parsed? && item.value.Arr? then item.value.items else []);
      if !(item.Parsed? && item.value.Arr?) {
        return [];
      }
      var values := item.value.items;
      var all := Ids(values);
      ids := [];
      var i := 0;
      while i < |values|
        invariant 0 <= i <= |values|
        invariant ids == KeepFirst(all[..i])
      {
        var id := BooksMeta.NormalizeId(values[i]);
        KeepFirstStep(all, i);
        if id != "" && id !in ids {
          ids := ids + [id];
        }
        i := i + 1;
      }
      assert all[..i] == all;
    }

    /** `writeFavorites(ids)`: stores and returns the cleaned ids. */
    method WriteFavorites(ids: seq<Json.Value>) returns (clean: seq<string>)
      modifies this
      ensures clean == CleanIds(ids)
      ensures item == Stored(clean)
      ensures Favorites(item) == clean
    {
      var all := Ids(ids);
      clean := [];
      var seen: set<string> := {};
      var i := 0;
      while i < |ids|
        invariant 0 <= i <= |ids|
        invariant clean == KeepFirst(all[..i])
        invariant forall x :: x in seen <==> x in clean
      {
        var id := BooksMeta.NormalizeId(ids[i]);
        KeepFirstStep(all, i);
        if id != "" && id !in seen {
          seen := seen + {id};
          clean := clean + [id];
        }
        i := i + 1;
      }
      assert all[..i] == all;
      item := Stored(clean);
      ReadAfterWrite(ids);
    }

    /** `isFavorite(id)`: a blank id is never a favourite. */
    method IsFavorite(id: Json.Value) returns (b: bool)
      ensures b <==> BooksMeta.NormalizeId(id) != "" && BooksMeta.NormalizeId(id) in Favorites(item)
    {
      var target := BooksMeta.NormalizeId(id);
      if target == "" {
        return false;
      }
      var current := ReadFavorites();
      b := target in current;
    }

    /** `setFavorite(id, shouldFavorite)`: answers whether the id is now a favourite, and
        writes only when that changes. */
    method SetFavorite(id: Json.Value, shouldFavorite: bool) returns (b: bool)
      modifies this
      ensures b <==> BooksMeta.NormalizeId(id) != "" && shouldFavorite
      ensures BooksMeta.NormalizeId(id) != "" ==>
        Favorites(item) == AfterSet(old(Favorites(item)), BooksMeta.NormalizeId(id), shouldFavorite)
      ensures BooksMeta.NormalizeId(id) == ""
        || (shouldFavorite <==> BooksMeta.NormalizeId(id) in old(Favorites(item)))
        ==> item == old(item)
    {
      var target := BooksMeta.NormalizeId(id);
      if target == "" {
        return false;
      }
      var current := ReadFavorites();
      var hasTarget := target in current;
      if shouldFavorite && !hasTarget {
        var next := current + [target];
        AppendedReadsBack(current, target);
        var written := WriteFavorites(Strs(next));
        return true;
      }
      if !shouldFavorite && hasTarget {
        var next := Without(current, target);
        RemovedReadsBack(current, target);
        var written := WriteFavorites(Strs(next));
        return false;
      }
      return hasTarget;
    }

    /** `toggleFavorite(id)`: sets the id to the opposite of what it was. */
    method ToggleFavorite(id: Json.Value) returns (b: bool)
      modifies this
      ensures b <==> BooksMeta.NormalizeId(id) != "" && BooksMeta.NormalizeId(id) !in old(Favorites(item))
      ensures BooksMeta.NormalizeId(id) != "" ==>
        Favorites(item) == AfterSet(old(Favorites(item)), BooksMeta.NormalizeId(id),
                                    BooksMeta.NormalizeId(id) !in old(Favorites(item)))
      ensures BooksMeta.NormalizeId(id) == "" ==> item == old(item)
    {
      var isFav := IsFavorite(id);
      b := SetFavorite(id, !isFav);
    }
  }
}
