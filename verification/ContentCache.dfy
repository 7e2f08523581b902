/** The two caches of `htdocs`: file contents under a byte account, and what paths resolve to. */
module ContentCache {
  import opened Wrappers
  import opened RecencyMap

  /** File contents with the modification time they were read under. */
  datatype Content = Content(data: string, mtime: int)

  function Bytes(es: Entries<Content>): nat {
    if es == [] then 0 else |es[0].1.data| + Bytes(es[1..])
  }

  /** The bytes of an entry leave with it. */
  lemma {:induction false} BytesWithout(es: Entries<Content>, i: nat)
    requires i < |es|
    ensures Bytes(es) == Bytes(es[..i] + es[i + 1..]) + |es[i].1.data|
    decreases |es|
  {
    if i == 0 {
      assert es[..0] + es[1..] == es[1..];
    } else {
      BytesWithout(es[1..], i - 1);
      assert es[1..][..i - 1] == es[1..i] && es[1..][i..] == es[i + 1..];
      assert (es[..i] + es[i + 1..])[1..] == es[1..i] + es[i + 1..];
    }
  }

  lemma BytesOfOne(e: (Key, Content))
    ensures Bytes([e]) == |e.1.data|
  {
  }

  lemma BytesInFront(e: (Key, Content), rest: Entries<Content>)
    ensures Bytes([e] + rest) == |e.1.data| + Bytes(rest)
  {
    assert ([e] + rest)[1..] == rest;
  }

  lemma {:induction false} BytesSnoc(es: Entries<Content>, e: (Key, Content))
    ensures Bytes(es + [e]) == Bytes(es) + |e.1.data|
  {
    if es == [] {
      assert es + [e] == [e];
    } else {
      assert (es + [e])[1..] == es[1..] + [e];
      BytesSnoc(es[1..], e);
    }
  }

  // ---- The critical sections on values -------------------------------------------------------------

  datatype Held = Held(items: Entries<Content>, account: int)

  /** A request's critical section: before it reads the file, or after. */
  datatype Section = LookUpSection(key: Key, size: nat, mtime: int) | StoreSection(key: Key, content: Content)

  ghost function LookedUp(h: Held, key: Key, size: nat, mtime: int): Held {
    match Lookup(h.items, key)
    case None => h
    case Some(c) =>
      if |c.data| == size && c.mtime == mtime then h.(items := [(key, c)] + Without(h.items, key))
      else Held(Without(h.items, key), h.account - |c.data|)
  }

  ghost function Stored(h: Held, key: Key, content: Content, maxTotal: nat): Held {
    var stale := match Lookup(h.items, key) case None => 0 case Some(c) => |c.data|;
    Evicted(Held([(key, content)] + Without(h.items, key), h.account - stale + |content.data|), maxTotal)
  }

  ghost function Evicted(h: Held, maxTotal: nat): Held
    decreases |h.items|
  {
    if h.account <= maxTotal || h.items == [] then h
    else
      var n := |h.items| - 1;
      Evicted(Held(h.items[..n], h.account - |h.items[n].1.data|), maxTotal)
  }

  ghost function After(h: Held, section: Section, maxTotal: nat): Held {
    match section
    case LookUpSection(key, size, mtime) => LookedUp(h, key, size, mtime)
    case StoreSection(key, content) => Stored(h, key, content, maxTotal)
  }

  /** The cache after sections of any requests, in any order. */
  ghost function RunSections(sections: seq<Section>, maxTotal: nat): Held {
    if sections == [] then Held([], 0)
    else After(RunSections(sections[..|sections| - 1], maxTotal), sections[|sections| - 1], maxTotal)
  }

  /** One entry a key, an exact account within the limit. */
  ghost predicate Exact(h: Held, maxTotal: nat) {
    UniqueKeys(h.items) && h.account == Bytes(h.items) <= maxTotal
  }

  /** Evicting stops in time, and never reaches the first entry when that fits. */
  lemma {:induction false} EvictedIsExact(h: Held, maxTotal: nat)
    requires UniqueKeys(h.items) && h.account == Bytes(h.items)
    ensures Exact(Evicted(h, maxTotal), maxTotal)
    ensures |Evicted(h, maxTotal).items| <= |h.items| && Evicted(h, maxTotal).items == h.items[..|Evicted(h, maxTotal).items|]
    ensures h.items != [] && |h.items[0].1.data| <= maxTotal ==> Evicted(h, maxTotal).items != []
    decreases |h.items|
  {
    if h.account > maxTotal && h.items != [] {
      var n := |h.items| - 1;
      assert h.items == h.items[..n] + [h.items[n]];
      BytesSnoc(h.items[..n], h.items[n]);
      assert n == 0 ==> h.items[..n] == [];
      EvictedIsExact(Held(h.items[..n], h.account - |h.items[n].1.data|), maxTotal);
    }
  }

  lemma LookedUpIsExact(h: Held, key: Key, size: nat, mtime: int, maxTotal: nat)
    requires Exact(h, maxTotal)
    ensures Exact(LookedUp(h, key, size, mtime), maxTotal)
    ensures forall e <- LookedUp(h, key, size, mtime).items :: e in h.items
  {
    hide Bytes, Without, Lookup, UniqueKeys, Has;
    MovedToFront(h.items, key);
    Present(h.items, key);
    if Lookup(h.items, key).Some? { OthersUnique(h.items, key); }
  }

  lemma StoredIsExact(h: Held, key: Key, content: Content, maxTotal: nat)
    requires Exact(h, maxTotal) && |content.data| <= maxTotal
    ensures Exact(Stored(h, key, content, maxTotal), maxTotal)
    ensures var items := Stored(h, key, content, maxTotal).items;
            items != [] && items[0] == (key, content) && forall e <- items :: e == (key, content) || e in h.items
  {
    hide Bytes, Without, Lookup, UniqueKeys, Has, Evicted;
    Present(h.items, key);
    OthersUnique(h.items, key);
    SubEntries(h.items, key);
    if Lookup(h.items, key).Some? { Account(h.items, key); } else { WithoutAbsent(h.items, key); }
    BytesInFront((key, content), Without(h.items, key));
    FrontIsUnique(key, content, Without(h.items, key));
    var all := [(key, content)] + Without(h.items, key);
    var stale := match Lookup(h.items, key) case None => 0 case Some(c) => |c.data|;
    EvictedIsExact(Held(all, h.account - stale + |content.data|), maxTotal);
    assert forall e <- all :: e == all[0] || e in Without(h.items, key);
  }

  /** What is looked up is there. */
  lemma {:induction false} Present(es: Entries<Content>, key: Key)
    ensures Lookup(es, key).Some? <==> Has(es, key)
  {
    if es != [] {
      Present(es[1..], key);
      assert es == [es[0]] + es[1..];
      if es[0].0 == key { assert es[0] in es; }
      if Has(es[1..], key) { var e :| e in es[1..] && e.0 == key; assert e in es; }
    }
  }

  /** The other entries keep one entry a key, and the key may come in front of them. */
  lemma OthersUnique(es: Entries<Content>, key: Key)
    requires UniqueKeys(es)
    ensures UniqueKeys(Without(es, key)) && forall c: Content :: UniqueKeys([(key, c)] + Without(es, key))
  {
    SubEntries(es, key);
    if Has(es, key) {
      var i :| 0 <= i < |es| && es[i].0 == key;
      WithoutAt(es, i);
      KeysWithout(es, i);
    } else {
      WithoutAbsent(es, key);
    }
    forall c: Content ensures UniqueKeys([(key, c)] + Without(es, key)) { FrontIsUnique(key, c, Without(es, key)); }
  }

  lemma FrontIsUnique(key: Key, c: Content, rest: Entries<Content>)
    ensures UniqueKeys(rest) && (forall e <- rest :: e.0 != key) ==> UniqueKeys([(key, c)] + rest)
  {
    var all := [(key, c)] + rest;
    if UniqueKeys(rest) && forall e <- rest :: e.0 != key {
      forall i, j | 0 <= i < j < |all| ensures all[i].0 != all[j].0 {
        assert all[j] == rest[j - 1] && rest[j - 1] in rest;
        if i > 0 { assert all[i] == rest[i - 1]; }
      }
    }
  }

  /** The sections a cache may run: only what fits is stored. */
  predicate Storable(sections: seq<Section>, maxTotal: nat) {
    forall s <- sections :: s.StoreSection? ==> |s.content.data| <= maxTotal
  }

  lemma NextIsExact(h: Held, section: Section, maxTotal: nat)
    requires Exact(h, maxTotal) && (section.StoreSection? ==> |section.content.data| <= maxTotal)
    ensures Exact(After(h, section, maxTotal), maxTotal)
    ensures forall e <- After(h, section, maxTotal).items :: e in h.items || section == StoreSection(e.0, e.1)
    ensures section.StoreSection? ==>
              var items := After(h, section, maxTotal).items;
              items != [] && items[0] == (section.key, section.content)
  {
    hide Exact, LookedUp, Stored;
    match section {
      case LookUpSection(key, size, mtime) => LookedUpIsExact(h, key, size, mtime, maxTotal);
      case StoreSection(key, content) => StoredIsExact(h, key, content, maxTotal);
    }
  }

  lemma {:induction false} LastUnlockIsExact(sections: seq<Section>, maxTotal: nat)
    requires Storable(sections, maxTotal)
    ensures Exact(RunSections(sections, maxTotal), maxTotal)
    ensures forall e <- RunSections(sections, maxTotal).items :: StoreSection(e.0, e.1) in sections
    decreases |sections|
  {
    if sections != [] {
      var n := |sections| - 1;
      var before, section := sections[..n], sections[n];
      LastUnlockIsExact(before, maxTotal);
      NextIsExact(RunSections(before, maxTotal), section, maxTotal);
      hide Exact, After;
      assert sections == before + [section];
    }
  }

  /** Over every interleaving: at each unlock there is one entry a key, the account is exact and within the
      limit, whatever is held was stored, and what has just been stored is the first entry. */
  lemma EveryUnlockIsExact(sections: seq<Section>, maxTotal: nat, k: nat)
    requires Storable(sections, maxTotal) && k <= |sections|
    ensures var h := RunSections(sections[..k], maxTotal);
            && Exact(h, maxTotal)
            && (forall e <- h.items :: StoreSection(e.0, e.1) in sections[..k])
            && (k > 0 && sections[k - 1].StoreSection? ==>
                  h.items != [] && h.items[0] == (sections[k - 1].key, sections[k - 1].content))
  {
    hide Exact, After;
    LastUnlockIsExact(sections[..k], maxTotal);
    if k > 0 {
      assert sections[..k][..k - 1] == sections[..k - 1];
      LastUnlockIsExact(sections[..k - 1], maxTotal);
      NextIsExact(RunSections(sections[..k - 1], maxTotal), sections[k - 1], maxTotal);
    }
  }

  // ---- The cache --------------------------------------------------------------------------------

  /** The two critical sections of `open_content`, run in any interleaving by the requests. */
  class Cache {
    const maxTotal: nat
    const maxFile: nat
    const content: Lru<Content>
    var contentBytes: nat
    ghost var loaded: set<(Key, Content)>     // everything ever read from a file

    /** The account is exact and within its limit, and only what was read is held. */
    ghost predicate Valid()
      reads this, content
    {
      content.Valid() && contentBytes == Bytes(content.items) && contentBytes <= maxTotal &&
      forall e <- content.items :: e in loaded
    }

    constructor (maxTotal: nat, maxFile: nat)
      ensures Valid() && fresh(content) && content.items == [] && this.maxTotal == maxTotal && this.maxFile == maxFile
    {
      this.maxTotal, this.maxFile := maxTotal, maxFile;
      content := new Lru();
      contentBytes := 0;
      loaded := {};
    }

    predicate Cacheable(size: nat) {
      size <= maxFile && size <= maxTotal
    }

    /** First section: a hit returns data read from this file under this modification time and of this
        size; a stale entry is dropped and taken off the account. */
    method LookUp(key: Key, size: nat, mtime: int) returns (hit: Option<string>)
      requires Valid()
      modifies this`contentBytes, content
      ensures Valid()
      ensures hit.Some? ==> (key, Content(hit.value, mtime)) in loaded && |hit.value| == size
      ensures Held(content.items, contentBytes) == LookedUp(old(Held(content.items, contentBytes)), key, size, mtime)
      ensures var was := Lookup(old(content.items), key);
              if was.Some? && |was.value.data| == size && was.value.mtime == mtime
              then hit == Some(was.value.data) && content.items == [(key, was.value)] + Without(old(content.items), key)
              else hit.None? && content.items == Without(old(content.items), key)
    {
      hide Without, Lookup, Bytes, UniqueKeys;
      ghost var before := content.items;
      var entry := content.Find(key);
      MovedToFront(before, key);
      if entry.None? {
        WithoutAbsent(before, key);
        return None;
      }
      if |entry.value.data| == size && entry.value.mtime == mtime { return Some(entry.value.data); }
      contentBytes := contentBytes - |entry.value.data|;
      content.Erase(key);
      return None;
    }

    /** Second section: the data just read goes to the front and survives; of the others the longest
        most recent part that fits beside it is kept. */
    method Store(key: Key, data: string, mtime: int)
      requires Valid() && Cacheable(|data|)
      modifies this, content
      ensures Valid() && loaded == old(loaded) + {(key, Content(data, mtime))}
      ensures var all := [(key, Content(data, mtime))] + Without(old(content.items), key);
              0 < |content.items| <= |all| && content.items == all[..|content.items|] &&
              (|content.items| < |all| ==> Bytes(all[..|content.items| + 1]) > maxTotal)
      ensures Held(content.items, contentBytes)
           == Stored(old(Held(content.items, contentBytes)), key, Content(data, mtime), maxTotal)
    {
      hide Bytes, Without, Lookup, UniqueKeys, Has, Evicted;
      ghost var before := content.items;
      var fresh_ := Content(data, mtime);
      ghost var held := loaded;
      assert forall e <- before :: e in held;
      loaded := loaded + {(key, fresh_)};
      var stale := content.Find(key);
      SubEntries(before, key);
      if stale.Some? {
        Account(before, key);
        WithoutFront(key, stale.value, Without(before, key));
        contentBytes := contentBytes - |stale.value.data|;
      } else {
        WithoutAbsent(before, key);
      }
      content.Put(key, fresh_);
      contentBytes := contentBytes + |data|;
      ghost var all := content.items;
      assert all == [(key, fresh_)] + Without(before, key);
      BytesOfOne(all[0]);
      BytesInFront(all[0], Without(before, key));
      assert all[..1] == [all[0]];
      Evict();
      forall e <- content.items ensures e in loaded {
        assert e in all;
        assert e == all[0] || e in Without(before, key);
        assert e == all[0] || e in held;
      }
    }

    /** Drop the least recently used entries until the account is within its limit; the most recent
        one, which fits alone, is never reached. */
    method Evict()
      requires content.Valid() && content.items != [] && contentBytes == Bytes(content.items)
      requires Bytes(content.items[..1]) <= maxTotal
      modifies `contentBytes, content
      ensures content.Valid() && contentBytes == Bytes(content.items) && contentBytes <= maxTotal
      ensures var all := old(content.items);
              0 < |content.items| <= |all| && content.items == all[..|content.items|] &&
              (|content.items| < |all| ==> Bytes(all[..|content.items| + 1]) > maxTotal)
      ensures Held(content.items, contentBytes) == Evicted(old(Held(content.items, contentBytes)), maxTotal)
    {
      hide Bytes, UniqueKeys, Has, Evicted;
      ghost var goal := Evicted(Held(content.items, contentBytes), maxTotal);
      ghost var all := content.items;
      assert all[..|all|] == all;
      while contentBytes > maxTotal
        invariant content.Valid() && 0 < |content.items| <= |all| && content.items == all[..|content.items|]
        invariant contentBytes == Bytes(content.items)
        invariant Evicted(Held(content.items, contentBytes), maxTotal) == goal
        invariant |content.items| < |all| ==> Bytes(all[..|content.items| + 1]) > maxTotal
        decreases |content.items|
      {
        ghost var n := |content.items|;
        assert n != 1;
        EvictOne(Held(content.items, contentBytes), maxTotal);
        assert all[..n] == all[..n - 1] + [all[n - 1]] && all[..n][..n - 1] == all[..n - 1];
        BytesSnoc(all[..n - 1], all[n - 1]);
        var oldest := content.PopOldest();
        contentBytes := contentBytes - |oldest.data|;
      }
      EvictNone(Held(content.items, contentBytes), maxTotal);
    }
  }

  lemma EvictOne(h: Held, maxTotal: nat)
    requires h.account > maxTotal && h.items != []
    ensures var n := |h.items| - 1;
            Evicted(h, maxTotal) == Evicted(Held(h.items[..n], h.account - |h.items[n].1.data|), maxTotal)
  {
  }

  lemma EvictNone(h: Held, maxTotal: nat)
    requires h.account <= maxTotal
    ensures Evicted(h, maxTotal) == h
  {
  }

  /** Taking a present key out takes its bytes off. */
  lemma Account(es: Entries<Content>, key: Key)
    requires UniqueKeys(es) && Has(es, key)
    ensures Lookup(es, key).Some?
    ensures Bytes(es) == Bytes(Without(es, key)) + |Lookup(es, key).value.data|
    ensures (key, Lookup(es, key).value) in es
  {
    var i :| 0 <= i < |es| && es[i].0 == key;
    WithoutAt(es, i);
    BytesWithout(es, i);
  }

  /** Moving an entry to the front keeps the account and the entries; taking it out of there leaves the
      others. */
  lemma MovedToFront(es: Entries<Content>, key: Key)
    ensures forall e <- Without(es, key) :: e in es
    ensures UniqueKeys(es) && Has(es, key) ==>
              Lookup(es, key).Some? &&
              var v := Lookup(es, key).value;
              var moved := [(key, v)] + Without(es, key);
              Bytes(moved) == Bytes(es) && Bytes(es) == Bytes(Without(es, key)) + |v.data| &&
              Without(moved, key) == Without(es, key) && forall e <- moved :: e in es
  {
    SubEntries(es, key);
    if UniqueKeys(es) && Has(es, key) {
      Account(es, key);
      var v := Lookup(es, key).value;
      WithoutFront(key, v, Without(es, key));
      assert ([(key, v)] + Without(es, key))[1..] == Without(es, key);
    }
  }

  // ---- What paths resolve to -------------------------------------------------------------------

  datatype Resolution = File(path: string) | Redirect | Forbidden | NotFound | Failed

  /** A resolution and when it was made. */
  datatype Checked = Checked(result: Resolution, at: int)

  /** The two critical sections of `cached_resolve`, with the file system consulted between them. */
  class ResolutionCache {
    const limit: nat                          // 0 means no caching at all: then neither section runs
    const revalidateAfter: int
    const metadata: Lru<Checked>
    ghost var resolved: set<(Key, Checked)>   // every resolution ever made

    /** Within the limit, and made up of resolutions that did not fail. */
    ghost predicate Valid()
      reads this, metadata
    {
      metadata.Valid() && |metadata.items| <= limit &&
      forall e <- metadata.items :: e in resolved && e.1.result != Failed
    }

    constructor (limit: nat, revalidateAfter: int)
      ensures Valid() && fresh(metadata) && metadata.items == []
      ensures this.limit == limit && this.revalidateAfter == revalidateAfter
    {
      this.limit, this.revalidateAfter := limit, revalidateAfter;
      metadata := new Lru();
      resolved := {};
    }

    /** First section: an answer was resolved for this very key, less than `revalidateAfter` ago, and is
        never a failure; an entry that was looked up is the most recent one, used or not. */
    method Recall(key: Key, now: int) returns (r: Option<Resolution>)
      requires Valid()
      modifies metadata
      ensures Valid()
      ensures r.Some? ==> r.value != Failed
      ensures r.Some? ==> exists t :: (key, Checked(r.value, t)) in resolved && now - t < revalidateAfter
      ensures var was := Lookup(old(metadata.items), key);
              && r == (if was.Some? && now - was.value.at < revalidateAfter then Some(was.value.result) else None)
              && metadata.items == if was.Some? then [(key, was.value)] + Without(old(metadata.items), key) else old(metadata.items)
    {
      ghost var before := metadata.items;
      var entry := metadata.Find(key);
      SubEntries(before, key);
      if entry.None? {
        WithoutAbsent(before, key);
        return None;
      }
      LookupIsEntry(before, key);
      SameCount(before, key);
      if now - entry.value.at < revalidateAfter { return Some(entry.value.result); }
      return None;
    }

    /** Second section: a failure is forgotten along with what was known before; anything else is the most
        recent entry, and the oldest ones make room for it. */
    method Remember(key: Key, result: Resolution, now: int)
      requires Valid() && limit > 0
      modifies this, metadata
      ensures Valid() && resolved == old(resolved) + {(key, Checked(result, now))}
      ensures var rest := Without(old(metadata.items), key);
              metadata.items == if result == Failed then rest
                                else [(key, Checked(result, now))] + rest[..if |rest| < limit then |rest| else limit - 1]
    {
      ghost var before := metadata.items;
      ghost var held := resolved;
      assert forall e <- before :: e in held;
      SubEntries(before, key);
      WithoutIsShorter(before, key);
      resolved := resolved + {(key, Checked(result, now))};
      if result == Failed {
        metadata.Erase(key);
        return;
      }
      metadata.Put(key, Checked(result, now));
      ghost var all := metadata.items;
      assert all[..|all|] == all;
      while metadata.Size() > limit
        invariant metadata.Valid() && metadata.items == all[..|metadata.items|]
        invariant limit <= |metadata.items| <= |all| || metadata.items == all
        invariant resolved == held + {(key, Checked(result, now))}
        decreases |metadata.items|
      {
        ghost var n := |metadata.items|;
        assert all[..n][..n - 1] == all[..n - 1];
        var _ := metadata.PopOldest();
      }
      forall e <- metadata.items ensures e in resolved && e.1.result != Failed { assert e in all; }
    }
  }

  lemma {:induction false} WithoutIsShorter<V>(es: Entries<V>, key: Key)
    ensures |Without(es, key)| <= |es|
  {
    if es != [] { WithoutIsShorter(es[1..], key); }
  }

  lemma SameCount<V>(es: Entries<V>, key: Key)
    requires UniqueKeys(es) && Has(es, key)
    ensures |Without(es, key)| + 1 == |es|
  {
    var i :| 0 <= i < |es| && es[i].0 == key;
    WithoutAt(es, i);
  }
}
