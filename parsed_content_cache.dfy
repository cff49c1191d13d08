/** The reader's cache of parsed book parts (js/reader/parsed-content-cache.js): at most ten
    entries keyed by book and part, kept in recency order, where a lookup or a store makes
    its entry the most recent, a store past ten entries evicts the oldest, and a book's
    entries can be cleared together. */
module ParsedContentCache {
  import opened Wrappers
  import opened Strings
  import Json
  import BooksMeta

  const MaxParsedCacheEntries := 10

  /** `buildCacheKey(bookId, partIndex)`: the trimmed id, `::`, and the part index (0 for a
      negative or non-integer one). The id and index are normalised as `BooksMeta` does. */
  function BuildCacheKey(bookId: Json.Value, partIndex: Json.Value): string {
    BooksMeta.NormalizeId(bookId) + "::" + NatToString(BooksMeta.NormalizePartIndex(partIndex))
  }

  /** The prefix `clearParsedBookCache` clears. */
  function BookPrefix(bookId: Json.Value): string {
    BooksMeta.NormalizeId(bookId) + "::"
  }

  /** Every part of a book is cleared with the book. */
  lemma KeyHasBookPrefix(bookId: Json.Value, partIndex: Json.Value)
    ensures StartsWith(BuildCacheKey(bookId, partIndex), BookPrefix(bookId))
  {
    var p := BookPrefix(bookId);
    assert BuildCacheKey(bookId, partIndex)[..|p|] == p;
  }

  /** Two keys are the same exactly when they name the same book id and the same part, so
      parts of different books never share an entry, and a negative or non-integer index
      shares the entry of part 0. */
  lemma KeyNamesBookAndPart(bookId: Json.Value, partIndex: Json.Value, otherId: Json.Value, otherIndex: Json.Value)
    ensures BuildCacheKey(bookId, partIndex) == BuildCacheKey(otherId, otherIndex) <==>
      BooksMeta.NormalizeId(bookId) == BooksMeta.NormalizeId(otherId)
      && BooksMeta.NormalizePartIndex(partIndex) == BooksMeta.NormalizePartIndex(otherIndex)
    ensures !(Json.IsInteger(partIndex) && partIndex.n.i >= 0) ==>
      BuildCacheKey(bookId, partIndex) == BuildCacheKey(bookId, Json.Number(Json.Int(0)))
  {
    var n := BooksMeta.NormalizePartIndex(partIndex);
    var m := BooksMeta.NormalizePartIndex(otherIndex);
    if BuildCacheKey(bookId, partIndex) == BuildCacheKey(otherId, otherIndex) {
      DigitTail(BooksMeta.NormalizeId(bookId), NatToString(n), BooksMeta.NormalizeId(otherId), NatToString(m));
      DigitsValueOfNatToString(n);
      DigitsValueOfNatToString(m);
    }
  }

  /** An id, `::` and a run of digits: the digits are the longest digit run at the end, so
      both the id and the digits can be read back. */
  lemma DigitTail(x: string, d: string, y: string, e: string)
    requires AllDigits(d) && AllDigits(e)
    requires x + "::" + d == y + "::" + e
    ensures x == y && d == e
  {
    var s := x + "::" + d;
    var t := y + "::" + e;
    if |d| < |e| {
      SeparatorBeforeDigits(x, d);
      assert false;
    } else if |e| < |d| {
      SeparatorBeforeDigits(y, e);
      assert false;
    }
    assert d == s[|s| - |d|..] == t[|t| - |e|..] == e;
    assert x == s[..|x|] == t[..|y|] == y;
  }

  /** The character before the digits of a key is the separator's colon. */
  lemma SeparatorBeforeDigits(x: string, d: string)
    ensures (x + "::" + d)[|x| + 1] == ':'
  {
  }

  /** The key order after a lookup hit or a store: the key moved (or added) to the end. */
  function Touch(ks: seq<string>, k: string): seq<string> {
    Without(ks, k) + [k]
  }

  /** A touched key is the most recent, the others keep their order, and nothing is lost or
      duplicated. */
  lemma TouchMovesToRecent(ks: seq<string>, k: string)
    requires Distinct(ks)
    ensures Distinct(Touch(ks, k))
    ensures Touch(ks, k)[|Touch(ks, k)| - 1] == k
    ensures forall x :: x in Touch(ks, k) <==> x in ks || x == k
    ensures |Touch(ks, k)| == if k in ks then |ks| else |ks| + 1
  {
    WithoutDistinct(ks, k);
    WithoutMembers(ks, k, k);
    var w := Without(ks, k);
    assert forall j :: 0 <= j < |w| ==> w[j] != k;
    forall x ensures x in Touch(ks, k) <==> x in ks || x == k {
      WithoutMembers(ks, k, x);
    }
  }

  /** The key order after `enforceCacheLimit`: the newest ten. */
  function Evict(ks: seq<string>): seq<string> {
    if |ks| > MaxParsedCacheEntries then ks[|ks| - MaxParsedCacheEntries..] else ks
  }

  /** Eviction keeps at most ten keys, drops only the oldest, and keeps the newest. */
  lemma EvictKeepsNewest(ks: seq<string>)
    ensures |Evict(ks)| <= MaxParsedCacheEntries
    ensures |Evict(ks)| == if |ks| > MaxParsedCacheEntries then MaxParsedCacheEntries else |ks|
    ensures Evict(ks) == ks[|ks| - |Evict(ks)|..]
    ensures ks != [] ==> Evict(ks)[|Evict(ks)| - 1] == ks[|ks| - 1]
  {
  }

  /** The key order after clearing the keys that start with `prefix`. */
  function KeepUnprefixed(ks: seq<string>, prefix: string): seq<string> {
    if ks == [] then []
    else KeepUnprefixed(ks[..|ks| - 1], prefix) + (if StartsWith(ks[|ks| - 1], prefix) then [] else [ks[|ks| - 1]])
  }

  /** Clearing keeps exactly the keys without the prefix. */
  lemma {:induction false} KeepUnprefixedMembers(ks: seq<string>, prefix: string, x: string)
    ensures x in KeepUnprefixed(ks, prefix) <==> x in ks && !StartsWith(x, prefix)
  {
    if ks != [] {
      var init := ks[..|ks| - 1];
      KeepUnprefixedMembers(init, prefix, x);
      assert ks == init + [ks[|ks| - 1]];
    }
  }

  /** One step of clearing: deleting the `i`th key, which starts with the prefix, or
      keeping it, extends the cleared part by one key. */
  lemma ClearStep(keys: seq<string>, i: nat, prefix: string)
    requires Distinct(keys) && i < |keys|
    ensures StartsWith(keys[i], prefix) ==>
      Without(KeepUnprefixed(keys[..i], prefix) + keys[i..], keys[i]) == KeepUnprefixed(keys[..i + 1], prefix) + keys[i + 1..]
    ensures !StartsWith(keys[i], prefix) ==>
      KeepUnprefixed(keys[..i], prefix) + keys[i..] == KeepUnprefixed(keys[..i + 1], prefix) + keys[i + 1..]
  {
    var key := keys[i];
    var kept := KeepUnprefixed(keys[..i], prefix);
    assert keys[..i + 1][..i] == keys[..i];
    assert keys[i..] == [key] + keys[i + 1..];
    if StartsWith(key, prefix) {
      assert KeepUnprefixed(keys[..i + 1], prefix) == kept;
      KeepUnprefixedMembers(keys[..i], prefix, key);
      assert key !in keys[..i];
      assert key !in keys[i + 1..];
      WithoutSplit(kept, key, keys[i + 1..]);
      assert kept + keys[i..] == kept + [key] + keys[i + 1..];
    } else {
      assert KeepUnprefixed(keys[..i + 1], prefix) == kept + [key];
    }
  }

  /** Removing the oldest of distinct keys leaves the others in order. */
  lemma DropOldest(ks: seq<string>)
    requires Distinct(ks) && ks != []
    ensures Without(ks, ks[0]) == ks[1..]
  {
    WithoutSplit([], ks[0], ks[1..]);
    assert [] + [ks[0]] + ks[1..] == ks;
  }

  /** The cache: the keys in recency order (oldest first) and the entry of each. */
  class Cache<V> {
    var order: seq<string>
    var entries: map<string, V>

    ghost predicate Valid()
      reads this
    {
      Distinct(order) && forall k :: k in entries <==> k in order
    }

    constructor ()
      ensures Valid() && order == [] && entries == map[]
    {
      order := [];
      entries := map[];
    }

    /** `map.delete(key)`. */
    method Delete(key: string)
      requires Valid()
      modifies this
      ensures Valid()
      ensures order == Without(old(order), key) && entries == old(entries) - {key}
    {
      WithoutDistinct(order, key);
      forall x ensures x in Without(order, key) <==> x in order && x != key {
        WithoutMembers(order, key, x);
      }
      order := Without(order, key);
      entries := entries - {key};
    }

    /** `enforceCacheLimit()`: drops the oldest entries while there are more than ten. */
    method EnforceCacheLimit()
      requires Valid()
      modifies this
      ensures Valid()
      ensures order == Evict(old(order))
      ensures forall k :: k in entries ==> k in old(entries) && entries[k] == old(entries)[k]
    {
      ghost var start := order;
      while |order| > MaxParsedCacheEntries
        invariant Valid()
        invariant |order| <= |start| && order == start[|start| - |order|..]
        invariant |start| > MaxParsedCacheEntries ==> |order| >= MaxParsedCacheEntries
        invariant |start| <= MaxParsedCacheEntries ==> order == start
        invariant forall k :: k in entries ==> k in old(entries) && entries[k] == old(entries)[k]
        decreases |order|
      {
        var oldestKey := order[0];
        DropOldest(order);
        ghost var before := order;
        Delete(oldestKey);
        assert order == before[1..];
      }
    }

    /** `getParsedPartCache(bookId, partIndex)`: a hit returns the entry and makes it the
        most recent; a miss returns `None` and changes nothing. */
    method Get(bookId: Json.Value, partIndex: Json.Value) returns (cached: Option<V>)
      requires Valid()
      modifies this
      ensures Valid()
      ensures entries == old(entries)
      ensures BuildCacheKey(bookId, partIndex) in old(entries) ==>
        cached == Some(old(entries)[BuildCacheKey(bookId, partIndex)])
        && order == Touch(old(order), BuildCacheKey(bookId, partIndex))
      ensures BuildCacheKey(bookId, partIndex) !in old(entries) ==> cached == None && order == old(order)
    {
      var key := BuildCacheKey(bookId, partIndex);
      if key !in entries {
        return None;
      }
      var value := entries[key];
      TouchMovesToRecent(order, key);
      order := Touch(order, key);
      cached := Some(value);
    }

    /** `setParsedPartCache(bookId, partIndex, parsedContent)`: stores the entry as the most
        recent, replacing any entry of the same key, then evicts down to ten entries. */
    method Set(bookId: Json.Value, partIndex: Json.Value, parsedContent: V)
      requires Valid()
      modifies this
      ensures Valid()
      ensures order == Evict(Touch(old(order), BuildCacheKey(bookId, partIndex)))
      ensures |order| <= MaxParsedCacheEntries
      ensures BuildCacheKey(bookId, partIndex) in entries && entries[BuildCacheKey(bookId, partIndex)] == parsedContent
      ensures forall k :: k in entries && k != BuildCacheKey(bookId, partIndex) ==>
        k in old(entries) && entries[k] == old(entries)[k]
    {
      var key := BuildCacheKey(bookId, partIndex);
      TouchMovesToRecent(order, key);
      order := Touch(order, key);
      entries := entries[key := parsedContent];
      EvictKeepsNewest(order);
      EnforceCacheLimit();
    }

    /** `clearParsedBookCache(bookId)`: deletes every entry whose key starts with the book's
        prefix, leaving the others and their order. */
    method ClearBook(bookId: Json.Value)
      requires Valid()
      modifies this
      ensures Valid()
      ensures order == KeepUnprefixed(old(order), BookPrefix(bookId))
      ensures forall k :: k in entries ==> k in old(entries) && entries[k] == old(entries)[k]
    {
      var prefix := BookPrefix(bookId);
      var keys := order;
      for i := 0 to |keys|
        invariant Valid() && keys == old(order)
        invariant order == KeepUnprefixed(keys[..i], prefix) + keys[i..]
        invariant forall k :: k in entries ==> k in old(entries) && entries[k] == old(entries)[k]
      {
        var key := keys[i];
        ClearStep(keys, i, prefix);
        if StartsWith(key, prefix) {
          Delete(key);
        }
      }
      assert keys[..|keys|] == keys;
    }
  }
}
