/** The cube cache of `ColorCubeFilter`: a five-entry least-recently-used
    cache of extracted cube buffers, keyed by the text of the LUT bitmap's
    hash code followed by the text of the dimension. */
module CubeCache {
  import opened Argb
  import opened Decimal
  import CubeExtraction

  datatype Option<T> = None | Some(value: T)

  /** `lutBitmap.hashCode().toString() + dimension`: the hash code's text
      followed by the dimension's, each of which reads back as its number when
      the key is cut where the hash code's text ends. The key alone does not
      say where that is (see `CacheKeyCollision`). */
  function CacheKey(lutHash: int, d: int): (key: string)
    ensures |key| == |IntToString(lutHash)| + |IntToString(d)| >= 2
    ensures ParseInt(key[..|IntToString(lutHash)|]) == lutHash
    ensures ParseInt(key[|IntToString(lutHash)|..]) == d
  {
    var h, t := IntToString(lutHash), IntToString(d);
    ParseIntToString(lutHash);
    ParseIntToString(d);
    assert (h + t)[..|h|] == h && (h + t)[|h|..] == t;
    h + t
  }

  /** The key is not injective: hash 12 with dimension 34 and hash 123 with
      dimension 4 share the key "1234", so the second lookup is served the
      first cube. */
  lemma CacheKeyCollision()
    ensures CacheKey(12, 34) == CacheKey(123, 4) == "1234"
  {
    CollidingTexts();
  }

  /** The texts of the numbers in `CacheKeyCollision`. */
  lemma CollidingTexts()
    ensures IntToString(12) == "12" && IntToString(34) == "34"
    ensures IntToString(123) == "123" && IntToString(4) == "4"
  {
    assert NatToString(12) == "12" by {
      assert NatToString(1) == "1";
    }
    assert NatToString(34) == "34" by {
      assert NatToString(3) == "3";
    }
  }

  /** For one dimension, distinct hash codes give distinct keys. */
  lemma CacheKeySameDimension(h1: int, h2: int, d: int)
    ensures CacheKey(h1, d) == CacheKey(h2, d) <==> h1 == h2
  {
    if CacheKey(h1, d) == CacheKey(h2, d) {
      var t := IntToString(d);
      var k := CacheKey(h1, d);
      assert IntToString(h1) == k[..|k| - |t|];
      assert IntToString(h2) == k[..|k| - |t|];
      IntToStringInjective(h1, h2);
    }
  }

  /** For one hash code, distinct dimensions give distinct keys. */
  lemma CacheKeySameHash(h: int, d1: int, d2: int)
    ensures CacheKey(h, d1) == CacheKey(h, d2) <==> d1 == d2
  {
    if CacheKey(h, d1) == CacheKey(h, d2) {
      var p := IntToString(h);
      var k := CacheKey(h, d1);
      assert IntToString(d1) == k[|p|..];
      assert IntToString(d2) == k[|p|..];
      IntToStringInjective(d1, d2);
    }
  }

  predicate Distinct(keys: seq<string>)
  {
    forall i, j :: 0 <= i < j < |keys| ==> keys[i] != keys[j]
  }

  /** `keys` with `key` taken out, the others keeping their order. */
  function Without(keys: seq<string>, key: string): (s: seq<string>)
    ensures forall k :: k in s <==> k in keys && k != key
    ensures key !in keys ==> s == keys
    ensures key in keys && Distinct(keys) ==> |s| == |keys| - 1
    ensures Distinct(keys) ==> Distinct(s)
  {
    if |keys| == 0 then []
    else
      var rest := Without(keys[1..], key);
      DistinctTail(keys);
      if keys[0] == key then rest
      else DistinctCons(keys[0], rest); [keys[0]] + rest
  }

  /** The tail of a list without repeats has none, and lacks the head. */
  lemma DistinctTail(keys: seq<string>)
    requires |keys| >= 1
    ensures Distinct(keys) ==> Distinct(keys[1..]) && keys[0] !in keys[1..]
  {
    if Distinct(keys) {
      forall j | 0 <= j < |keys| - 1
        ensures keys[1..][j] != keys[0]
      {
        assert keys[1..][j] == keys[j + 1];
      }
    }
  }

  /** A key not among the others, put in front, keeps the keys distinct. */
  lemma DistinctCons(key: string, rest: seq<string>)
    ensures key !in rest && Distinct(rest) ==> Distinct([key] + rest)
  {
    if key !in rest && Distinct(rest) {
      var s := [key] + rest;
      forall i, j | 0 <= i < j < |s|
        ensures s[i] != s[j]
      {
        assert s[j] == rest[j - 1];
        if i > 0 {
          assert s[i] == rest[i - 1];
        }
      }
    }
  }

  /** A key not among the others, put at the back, keeps the keys distinct. */
  lemma DistinctSnoc(rest: seq<string>, key: string)
    ensures key !in rest && Distinct(rest) ==> Distinct(rest + [key])
  {
    if key !in rest && Distinct(rest) {
      var s := rest + [key];
      forall i, j | 0 <= i < j < |s|
        ensures s[i] != s[j]
      {
        assert s[i] == rest[i];
      }
    }
  }

  /** Dropping the first of distinct keys loses exactly that key. */
  lemma DropFirst(keys: seq<string>)
    requires |keys| >= 1 && Distinct(keys)
    ensures forall k :: k in keys[1..] <==> k in keys && k != keys[0]
  {
    DistinctTail(keys);
    assert keys == [keys[0]] + keys[1..];
  }

  /** Distinct keys make a set of the same size. */
  lemma {:induction false} DistinctCard(keys: seq<string>)
    requires Distinct(keys)
    ensures |set k | k in keys| == |keys|
    decreases |keys|
  {
    if |keys| > 0 {
      DistinctTail(keys);
      DistinctCard(keys[1..]);
      assert (set k | k in keys) == {keys[0]} + (set k | k in keys[1..]);
    }
  }

  /** `android.util.LruCache`, counting one unit per entry: at most `maxSize`
      entries, `order` listing the keys from least to most recently used. */
  class LruCache<V> {
    const maxSize: int
    var order: seq<string>
    var entries: map<string, V>

    ghost predicate Valid()
      reads this
    {
      && maxSize >= 1
      && Distinct(order)
      && (forall k :: k in entries <==> k in order)
      && |order| <= maxSize
    }

    /** The cache never holds more than `maxSize` entries. */
    lemma SizeBound()
      requires Valid()
      ensures |entries| <= maxSize
    {
      assert entries.Keys == set k | k in order;
      DistinctCard(order);
    }

    /** `LruCache(maxSize)`: empty; a size below one is refused. */
    constructor (maxSize: int)
      requires maxSize >= 1
      ensures Valid() && this.maxSize == maxSize
      ensures order == [] && entries == map[]
    {
      this.maxSize := maxSize;
      order := [];
      entries := map[];
    }

    /** `get(key)`: on a hit the stored value, and the key becomes the most
        recently used; on a miss nothing (`null`) and nothing changes. */
    method Get(key: string) returns (v: Option<V>)
      requires Valid()
      modifies this
      ensures Valid()
      ensures key in old(entries) ==> v == Some(old(entries)[key])
      ensures key !in old(entries) ==> v == None
      ensures entries == old(entries)
      ensures key in old(entries) ==> order == Without(old(order), key) + [key]
      ensures key !in old(entries) ==> order == old(order)
    {
      if key in entries {
        v := Some(entries[key]);
        order := Without(order, key) + [key];
      } else {
        v := None;
      }
    }

    /** `put(key, value)`: the key maps to the value and becomes the most
        recently used; when that makes one entry too many, the least recently
        used key is evicted. */
    method Put(key: string, value: V)
      requires Valid()
      modifies this
      ensures Valid()
      ensures key in entries && entries[key] == value
      ensures order[|order| - 1] == key
      ensures var touched := Without(old(order), key) + [key];
        if |touched| <= maxSize then
          order == touched && entries == old(entries)[key := value]
        else
          order == touched[1..] && entries == old(entries)[key := value] - {touched[0]}
    {
      var touched := Without(order, key) + [key];
      DistinctSnoc(Without(order, key), key);
      DistinctTail(touched);
      if |touched| <= maxSize {
        order := touched;
        entries := entries[key := value];
      } else {
        DropFirst(touched);
        order := touched[1..];
        entries := entries[key := value] - {touched[0]};
      }
    }
  }

  /** The LUT part of `ColorCubeFilter`: the cube cache it owns. */
  class ColorCubeFilter {
    const cache: LruCache<CubeExtraction.ByteBuffer>

    /** The cache is the five-entry one the filter was built with. */
    ghost predicate Valid()
      reads this, cache
    {
      cache.Valid() && cache.maxSize == 5
    }

    /** A fresh filter owns an empty cache of five entries. */
    constructor ()
      ensures Valid() && fresh(cache) && cache.entries == map[]
    {
      cache := new LruCache(5);
    }

    /** `getCubeData`: look the key up; on a miss extract the cube and store
        it. A hit hands back the very buffer stored under the key, whatever
        LUT or dimension it was extracted for, and only refreshes the key's
        recency; a miss hands back a new buffer holding this LUT's cube, adds
        it as the most recently used entry and, when the cache was full,
        evicts the least recently used one, keeping every other entry. */
    method GetCubeData(lut: Image, lutHash: int, d: int) returns (cubeBuffer: CubeExtraction.ByteBuffer)
      requires lut.Valid() && 0 <= d <= CubeExtraction.MaxDimension
      requires Valid()
      modifies cache
      ensures Valid() && |cache.entries| <= 5
      ensures var key := CacheKey(lutHash, d);
        && key in cache.entries && cache.entries[key] == cubeBuffer
        && cache.order[|cache.order| - 1] == key
      ensures var key := CacheKey(lutHash, d);
        key in old(cache.entries) ==>
          && cubeBuffer == old(cache.entries)[key]
          && cache.entries == old(cache.entries)
          && cache.order == Without(old(cache.order), key) + [key]
      ensures var key := CacheKey(lutHash, d);
        key !in old(cache.entries) ==>
          && fresh(cubeBuffer) && cubeBuffer.Valid() && cubeBuffer.position == 0
          && cubeBuffer.bytes[..] == CubeExtraction.Cube(lut, d)
          && var touched := old(cache.order) + [key];
             if |touched| <= 5 then
               cache.order == touched && cache.entries == old(cache.entries)[key := cubeBuffer]
             else
               cache.order == touched[1..] && cache.entries == old(cache.entries)[key := cubeBuffer] - {touched[0]}
    {
      var cacheKey := CacheKey(lutHash, d);
      var cached := cache.Get(cacheKey);
      if cached.Some? {
        cubeBuffer := cached.value;
      } else {
        cubeBuffer := CubeExtraction.CreateCubeData(lut, d);
        cache.Put(cacheKey, cubeBuffer);
      }
      cache.SizeBound();
    }
  }
}
