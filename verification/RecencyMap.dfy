/** The LRU map of `htdocs`. */
module RecencyMap {
  import opened Wrappers

  type Key = string

  // ---- The map on values: entries from the most to the least recently used --------------------

  type Entries<V> = seq<(Key, V)>

  ghost predicate Has<V>(es: Entries<V>, key: Key) {
    exists e <- es :: e.0 == key
  }

  ghost predicate UniqueKeys<V>(es: Entries<V>) {
    forall i, j | 0 <= i < j < |es| :: es[i].0 != es[j].0
  }

  ghost function Without<V>(es: Entries<V>, key: Key): Entries {
    if es == [] then []
    else if es[0].0 == key then Without(es[1..], key)
    else [es[0]] + Without(es[1..], key)
  }

  ghost function Lookup<V>(es: Entries<V>, key: Key): Option<V> {
    if es == [] then None else if es[0].0 == key then Some(es[0].1) else Lookup(es[1..], key)
  }

  lemma {:induction false} WithoutAbsent<V>(es: Entries<V>, key: Key)
    requires !Has(es, key)
    ensures Without(es, key) == es && Lookup(es, key).None?
  {
    if es != [] {
      assert es[0] in es;
      forall e <- es[1..] ensures e.0 != key { assert e in es; }
      WithoutAbsent(es[1..], key);
    }
  }

  /** With unique keys, what is taken out is the one entry of the key. */
  lemma {:induction false} WithoutAt<V>(es: Entries<V>, i: nat)
    requires UniqueKeys(es) && i < |es|
    ensures Without(es, es[i].0) == es[..i] + es[i + 1..]
    ensures Lookup(es, es[i].0) == Some(es[i].1)
    decreases |es|
  {
    var key := es[i].0;
    if i == 0 {
      forall e <- es[1..] ensures e.0 != key {
        var j :| 0 <= j < |es[1..]| && es[1..][j] == e;
        assert es[0].0 != es[j + 1].0;
      }
      WithoutAbsent(es[1..], key);
    } else {
      assert es[0].0 != es[i].0;
      WithoutAt(es[1..], i - 1);
      assert es[1..][i - 1] == es[i];
      assert es[1..][..i - 1] == es[1..i] && es[1..][i..] == es[i + 1..];
    }
  }

  lemma KeysWithout<V>(es: Entries<V>, i: nat)
    requires UniqueKeys(es) && i < |es|
    ensures UniqueKeys(es[..i] + es[i + 1..])
    ensures forall k: Key :: Has(es[..i] + es[i + 1..], k) <==> Has(es, k) && k != es[i].0
  {
    var rest := es[..i] + es[i + 1..];
    forall k: Key ensures Has(rest, k) <==> Has(es, k) && k != es[i].0 {
      if Has(es, k) && k != es[i].0 {
        var j :| 0 <= j < |es| && es[j].0 == k;
        assert es[j] in rest;
      }
      if Has(rest, k) {
        var j :| 0 <= j < |rest| && rest[j].0 == k;
        var n := if j < i then j else j + 1;
        assert rest[j] == es[n];
        assert n != i && es[n].0 != es[i].0;
      }
    }
  }

  lemma KeysInFront<V>(key: Key, value: V, rest: Entries<V>)
    requires UniqueKeys(rest) && !Has(rest, key)
    ensures UniqueKeys([(key, value)] + rest)
    ensures forall k: Key :: Has([(key, value)] + rest, k) <==> k == key || Has(rest, k)
  {
    var all := [(key, value)] + rest;
    forall k: Key ensures Has(all, k) <==> k == key || Has(rest, k) {
      if k == key { assert all[0] in all; }
      if Has(rest, k) { var e :| e in rest && e.0 == k; assert e in all; }
    }
    forall j | 0 <= j < |rest| ensures rest[j].0 != key { assert rest[j] in rest; }
  }

  /** The list of entries and the keys of the index; an index iterator is the entry of its key. */
  class Lru<V> {
    var items: Entries<V>
    var index: set<Key>

    /** The list and the index hold the same keys, each once. */
    ghost predicate Valid()
      reads this
    {
      UniqueKeys(items) && |index| == |items| && forall k: Key :: k in index <==> Has(items, k)
    }

    function Size(): (n: nat)
      reads this
      ensures Valid() ==> n == |items|
    {
      |index|
    }

    constructor ()
      ensures Valid() && items == []
    {
      items, index := [], {};
    }

    /** Where a key's entry is. */
    method Position(key: Key) returns (i: nat)
      requires Valid() && key in index
      ensures i < |items| && items[i].0 == key
    {
      i := 0;
      while items[i].0 != key
        invariant i < |items| && forall j | 0 <= j < i :: items[j].0 != key
        decreases |items| - i
      {
        ghost var e :| e in items && e.0 == key;
        i := i + 1;
      }
    }

    /** The value of a key, its entry moved to the front. */
    method Find(key: Key) returns (value: Option<V>)
      requires Valid()
      modifies this
      ensures Valid() && index == old(index) && value == Lookup(old(items), key)
      ensures value.Some? <==> Has(old(items), key)
      ensures items == if value.None? then old(items) else [(key, value.value)] + Without(old(items), key)
    {
      if key !in index {
        WithoutAbsent(items, key);
        return None;
      }
      var i := Position(key);
      WithoutAt(items, i);
      KeysWithout(items, i);
      KeysInFront(key, items[i].1, items[..i] + items[i + 1..]);
      value := Some(items[i].1);
      items := [items[i]] + (items[..i] + items[i + 1..]);
    }

    /** Store a value under a key, as the most recently used. */
    method Put(key: Key, value: V)
      requires Valid()
      modifies this
      ensures Valid() && items == [(key, value)] + Without(old(items), key)
    {
      hide Without, Lookup, UniqueKeys, Has;
      ghost var before := items;
      var existing := Find(key);
      if existing.Some? {
        KeysReplaced(items, value);
        items := items[0 := (key, value)];
        assert items == [(key, value)] + Without(before, key);
        return;
      }
      WithoutAbsent(items, key);
      KeysInFront(key, value, items);
      items := [(key, value)] + items;
      index := index + {key};
    }

    method Erase(key: Key)
      requires Valid()
      modifies this
      ensures Valid() && items == Without(old(items), key)
    {
      if key !in index {
        WithoutAbsent(items, key);
        return;
      }
      var i := Position(key);
      WithoutAt(items, i);
      KeysWithout(items, i);
      items := items[..i] + items[i + 1..];
      index := index - {key};
    }

    /** Remove and return the least recently used value. */
    method PopOldest() returns (value: V)
      requires Valid() && items != []
      modifies this
      ensures Valid() && items == old(items)[..|old(items)| - 1] && value == old(items)[|old(items)| - 1].1
    {
      var n := |items| - 1;
      KeysWithout(items, n);
      assert items[..n] + items[n + 1..] == items[..n];
      value := items[n].1;
      index := index - {items[n].0};
      items := items[..n];
    }
  }

  lemma KeysReplaced<V>(es: Entries<V>, value: V)
    requires UniqueKeys(es) && es != []
    ensures UniqueKeys(es[0 := (es[0].0, value)])
    ensures forall k: Key :: Has(es[0 := (es[0].0, value)], k) <==> Has(es, k)
  {
    var es1 := es[0 := (es[0].0, value)];
    forall k: Key ensures Has(es1, k) <==> Has(es, k) {
      if Has(es, k) { var i :| 0 <= i < |es| && es[i].0 == k; assert es1[i] in es1; }
      if Has(es1, k) { var i :| 0 <= i < |es1| && es1[i].0 == k; assert es[i] in es; }
    }
  }

  lemma WithoutFront<V>(key: Key, value: V, rest: Entries<V>)
    requires forall e <- rest :: e.0 != key
    ensures Without([(key, value)] + rest, key) == rest
    ensures Lookup([(key, value)] + rest, key) == Some(value)
  {
    assert ([(key, value)] + rest)[1..] == rest;
    WithoutAbsent(rest, key);
  }

  lemma {:induction false} SubEntries<V>(es: Entries<V>, key: Key)
    ensures forall e <- Without(es, key) :: e in es && e.0 != key
  {
    if es != [] { SubEntries(es[1..], key); }
  }

  /** A present key's entry is what is looked up. */
  lemma LookupIsEntry<V>(es: Entries<V>, key: Key)
    requires UniqueKeys(es) && Has(es, key)
    ensures Lookup(es, key).Some? && (key, Lookup(es, key).value) in es
  {
    var i :| 0 <= i < |es| && es[i].0 == key;
    WithoutAt(es, i);
  }
}
