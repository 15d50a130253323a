/**
 * The in-memory content cache: a JavaScript `Map` from url to page record.
 * A JS `Map` remembers the order in which keys were first inserted and
 * enumerates its values in that order, so the model keeps the map together
 * with that key order.
 */
module Store {
  import opened Types

  /** No key occurs twice. */
  ghost predicate Distinct(keys: seq<string>) {
    forall i, j :: 0 <= i < j < |keys| ==> keys[i] != keys[j]
  }

  /** `keys` without `key`, the others kept in their order (what `Map.delete` does to the key order). */
  function Without(keys: seq<string>, key: string): (r: seq<string>)
    ensures forall k :: k in r <==> k in keys && k != key
    ensures Distinct(keys) ==> Distinct(r)
    ensures key !in keys ==> r == keys
  {
    if keys == [] then []
    else if keys[0] == key then Without(keys[1..], key)
    else
      var rest := Without(keys[1..], key);
      assert Distinct(keys) ==> keys[0] !in keys[1..];
      [keys[0]] + rest
  }

  /** In a duplicate-free order, dropping the key at index `i` keeps the others in their order. */
  lemma {:induction false} WithoutKeepsOrder(keys: seq<string>, i: nat)
    requires Distinct(keys) && i < |keys|
    ensures Without(keys, keys[i]) == keys[..i] + keys[i + 1..]
  {
    var key, tail := keys[i], keys[1..];
    assert Distinct(tail) && keys[0] !in tail by {
      DistinctTail(keys);
    }
    if i == 0 {
      assert Without(keys, key) == Without(tail, key);
    } else {
      assert keys[0] != key && tail[i - 1] == key;
      WithoutKeepsOrder(tail, i - 1);
      DropInside(keys, i);
    }
  }

  /** Dropping index `i > 0` keeps the head in front of the tail with its index `i - 1` dropped. */
  lemma DropInside(keys: seq<string>, i: nat)
    requires 0 < i < |keys|
    ensures keys[..i] + keys[i + 1..] == [keys[0]] + (keys[1..][..i - 1] + keys[1..][i..])
  {
    assert keys[..i] == [keys[0]] + keys[1..][..i - 1];
    assert keys[i + 1..] == keys[1..][i..];
  }

  /** The tail of a duplicate-free sequence is duplicate-free and misses the head. */
  lemma DistinctTail(keys: seq<string>)
    requires keys != [] && Distinct(keys)
    ensures Distinct(keys[1..]) && keys[0] !in keys[1..]
    ensures forall k :: k in keys <==> k == keys[0] || k in keys[1..]
  {
    var rest := keys[1..];
    assert keys == [keys[0]] + rest;
    forall i, j | 0 <= i < j < |rest| ensures rest[i] != rest[j] {
      assert rest[i] == keys[i + 1] && rest[j] == keys[j + 1];
    }
    forall i | 0 <= i < |rest| ensures rest[i] != keys[0] {
      assert rest[i] == keys[i + 1];
    }
  }

  /** A duplicate-free enumeration of a map's keys has as many elements as the map. */
  lemma {:induction false} DistinctKeysCount(keys: seq<string>, m: map<string, URLContent>)
    requires Distinct(keys)
    requires forall k :: k in keys <==> k in m
    ensures |keys| == |m|
    decreases |keys|
  {
    if keys == [] {
      assert forall k :: k !in m;
      assert m.Keys == {};
    } else {
      var first, rest := keys[0], keys[1..];
      DistinctTail(keys);
      var m' := m - {first};
      assert forall k :: k in rest <==> k in m';
      DistinctKeysCount(rest, m');
      assert m.Keys == m'.Keys + {first};
    }
  }

  class ContentStore {
    /** The cache itself: url to record. */
    var store: map<string, URLContent>
    /** The keys of `store` in insertion order, as the JS `Map` enumerates them. */
    var order: seq<string>

    /** Every key is listed once, in `order`, and every record is filed under its own url. */
    ghost predicate Valid()
      reads this
    {
      && Distinct(order)
      && (forall k :: k in order <==> k in store)
      && (forall k :: k in store ==> store[k].url == k)
    }

    /** A new store is empty. */
    constructor ()
      ensures Valid()
      ensures store == map[] && order == []
    {
      store := map[];
      order := [];
    }

    /**
     * `save`: files the record under its url, replacing any earlier record
     * for that url in full; a new url goes to the end of the order, an
     * existing one keeps its place. No other entry changes.
     */
    method Save(content: URLContent)
      requires Valid()
      modifies this
      ensures Valid()
      ensures store == old(store)[content.url := content]
      ensures order == if content.url in old(store) then old(order) else old(order) + [content.url]
      ensures forall k :: k != content.url ==>
                (k in store <==> k in old(store)) && (k in store ==> store[k] == old(store)[k])
    {
      if content.url !in store {
        order := order + [content.url];
      }
      store := store[content.url := content];
    }

    /** `get`: the record filed under `url`, or none when there is no such key. */
    method Get(url: string) returns (r: Option<URLContent>)
      requires Valid()
      ensures r.Some? <==> url in store
      ensures r.Some? ==> r.value == store[url] && r.value.url == url
    {
      if url in store {
        r := Some(store[url]);
      } else {
        r := None;
      }
    }

    /** `delete`: removes the entry for `url` and says whether there was one; nothing else changes. */
    method Delete(url: string) returns (removed: bool)
      requires Valid()
      modifies this
      ensures Valid()
      ensures removed <==> url in old(store)
      ensures url !in store
      ensures store == old(store) - {url}
      ensures order == Without(old(order), url)
      ensures forall i :: 0 <= i < |old(order)| && old(order)[i] == url ==> order == old(order)[..i] + old(order)[i + 1..]
    {
      forall i | 0 <= i < |order| && order[i] == url
        ensures Without(order, url) == order[..i] + order[i + 1..]
      {
        WithoutKeepsOrder(order, i);
      }
      removed := url in store;
      store := store - {url};
      order := Without(order, url);
    }

    /**
     * `list`: every stored record exactly once, in insertion order of the
     * keys (`Array.from(map.values())`).
     */
    method List() returns (r: seq<URLContent>)
      requires Valid()
      ensures |r| == |order| == |store|
      ensures forall i :: 0 <= i < |r| ==> r[i] == store[order[i]]
      ensures forall k :: k in store ==> store[k] in r
      ensures forall i, j :: 0 <= i < j < |r| ==> r[i].url != r[j].url
    {
      DistinctKeysCount(order, store);
      var keys, entries := order, store;
      r := seq(|keys|, i requires 0 <= i < |keys| && keys[i] in entries => entries[keys[i]]);
      assert forall i :: 0 <= i < |r| ==> r[i].url == order[i];
      forall k | k in store
        ensures store[k] in r
      {
        var i :| 0 <= i < |order| && order[i] == k;
        assert r[i] == store[k];
      }
    }

    /** `clear`: removes every entry. */
    method Clear()
      requires Valid()
      modifies this
      ensures Valid()
      ensures store == map[] && order == []
    {
      store := map[];
      order := [];
    }
  }

  // -----------------------------------------------------------------------
  // What a caller can conclude from a sequence of calls.
  // -----------------------------------------------------------------------

  /** A record just saved is what get returns for its url, and nothing else changes. */
  method SaveThenGet(s: ContentStore, c: URLContent) returns (got: Option<URLContent>)
    requires s.Valid()
    modifies s
    ensures s.Valid()
    ensures got == Some(c)
    ensures forall k :: k != c.url ==> (k in s.store <==> k in old(s.store)) && (k in s.store ==> s.store[k] == old(s.store)[k])
  {
    s.Save(c);
    got := s.Get(c.url);
  }

  /** Two saves for one url leave a single entry, holding the second record. */
  method SaveTwiceKeepsLast(s: ContentStore, a: URLContent, b: URLContent) returns (got: Option<URLContent>)
    requires s.Valid() && a.url == b.url
    modifies s
    ensures s.Valid()
    ensures got == Some(b)
    ensures s.store == old(s.store)[b.url := b]
    ensures |s.order| == |old(s.order)| + (if b.url in old(s.store) then 0 else 1)
  {
    ghost var before, keys := s.store, s.order;
    s.Save(a);
    assert b.url in s.store && |s.order| == |keys| + (if b.url in before then 0 else 1);
    s.Save(b);
    assert s.store == before[b.url := b];
    got := s.Get(b.url);
  }

  /** A delete answers true only for a present key; a second delete of the same key answers false, and get then misses. */
  method DeleteTwice(s: ContentStore, url: string) returns (first: bool, second: bool, got: Option<URLContent>)
    requires s.Valid()
    modifies s
    ensures s.Valid()
    ensures first <==> url in old(s.store)
    ensures !second && got == None
    ensures s.store == old(s.store) - {url}
  {
    first := s.Delete(url);
    second := s.Delete(url);
    got := s.Get(url);
  }

  /** After clear, list is empty and get misses for every url. */
  method ClearThenRead(s: ContentStore, url: string) returns (all: seq<URLContent>, got: Option<URLContent>)
    requires s.Valid()
    modifies s
    ensures s.Valid()
    ensures all == [] && got == None
  {
    s.Clear();
    all := s.List();
    got := s.Get(url);
  }
}
