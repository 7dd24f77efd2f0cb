/** The LRU object-URL cache of src/hooks/useImageCache.ts. The JavaScript
    `Map` is a sequence of (key, entry) pairs in insertion order; `Date.now()`
    is a logical clock that ticks each time it is read; revocations go to the
    log kept by `ImageLoader.RevokeImageUrl`. */
module ImageCache {
  import opened Types
  import opened Sorting
  import opened ImageLoader

  const MaxCacheSize: nat := 200

  datatype Entry = Entry(url: string, lastAccessed: nat)

  type Entries = seq<(string, Entry)>

  datatype Cache = Cache(entries: Entries, clock: nat, revoked: seq<string>)

  // ---------------------------------------------------------------------
  // The JavaScript Map over a sequence of pairs.

  function Keys(es: Entries): set<string> {
    set i | 0 <= i < |es| :: es[i].0
  }

  predicate KeysUnique(es: Entries) {
    forall i, j :: 0 <= i < j < |es| ==> es[i].0 != es[j].0
  }

  /** The position of `id`, or -1. */
  function Find(es: Entries, id: string): (i: int)
    ensures -1 <= i < |es|
    ensures i == -1 <==> id !in Keys(es)
    ensures i >= 0 ==> es[i].0 == id
  {
    if |es| == 0 then -1
    else if es[0].0 == id then 0
    else
      var j := Find(es[1..], id);
      assert Keys(es) == {es[0].0} + Keys(es[1..]) by {
        forall k | k in Keys(es) ensures k in {es[0].0} + Keys(es[1..]) {
          var i :| 0 <= i < |es| && es[i].0 == k;
          if i > 0 { assert es[1..][i - 1].0 == k; }
        }
      }
      if j == -1 then -1 else j + 1
  }

  /** With unique keys, `Find` returns the one position holding the key. */
  lemma FindUnique(es: Entries, i: int)
    requires KeysUnique(es)
    requires 0 <= i < |es|
    ensures Find(es, es[i].0) == i
  {
  }

  /** `map.get(id)`. */
  function MapGet(es: Entries, id: string): (r: Option<Entry>)
    ensures r.None? <==> id !in Keys(es)
    ensures r.Some? ==> (id, r.value) in es
  {
    var i := Find(es, id);
    if i < 0 then None else Some(es[i].1)
  }

  /** With unique keys, looking up a member's key finds that member. */
  lemma MemberGet(es: Entries, x: (string, Entry))
    requires KeysUnique(es)
    requires x in es
    ensures MapGet(es, x.0) == Some(x.1)
  {
    var i :| 0 <= i < |es| && es[i] == x;
    FindUnique(es, i);
  }

  /** `map.set(id, e)`: overwrite in place, or append a new key. */
  function MapSet(es: Entries, id: string, e: Entry): (r: Entries)
    requires KeysUnique(es)
    ensures KeysUnique(r)
    ensures Keys(r) == Keys(es) + {id}
    ensures |r| == if id in Keys(es) then |es| else |es| + 1
    ensures MapGet(r, id) == Some(e)
    ensures forall k :: k != id ==> MapGet(r, k) == MapGet(es, k)
    ensures forall i :: 0 <= i < |es| && es[i].0 != id ==> r[i] == es[i]
  {
    var i := Find(es, id);
    if i < 0 then
      var r := es + [(id, e)];
      assert Keys(r) == Keys(es) + {id} by {
        assert forall j :: 0 <= j < |es| ==> r[j] == es[j];
        assert r[|es|].0 == id;
      }
      FindUnique(r, |es|);
      forall k | k != id ensures MapGet(r, k) == MapGet(es, k) {
        if k in Keys(es) {
          var j := Find(es, k);
          FindUnique(r, j);
        }
      }
      r
    else
      var r := es[i := (id, e)];
      assert Keys(r) == Keys(es) by {
        assert forall j :: 0 <= j < |es| ==> r[j].0 == es[j].0;
      }
      FindUnique(r, i);
      forall k | k != id ensures MapGet(r, k) == MapGet(es, k) {
        if k in Keys(es) {
          var j := Find(es, k);
          FindUnique(r, j);
        }
      }
      r
  }

  /** `map.delete(id)`. */
  function MapDelete(es: Entries, id: string): (r: Entries)
    requires KeysUnique(es)
    ensures KeysUnique(r)
    ensures Keys(r) == Keys(es) - {id}
    ensures |r| == if id in Keys(es) then |es| - 1 else |es|
    ensures forall k :: k != id ==> MapGet(r, k) == MapGet(es, k)
    ensures forall x :: x in r ==> x in es
  {
    var i := Find(es, id);
    if i < 0 then es
    else
      DeleteAt(es, i);
      es[..i] + es[i + 1..]
  }

  /** Removing the pair at position `i` removes exactly its key. */
  lemma DeleteAt(es: Entries, i: nat)
    requires KeysUnique(es)
    requires i < |es|
    ensures var r := es[..i] + es[i + 1..];
      && KeysUnique(r)
      && Keys(r) == Keys(es) - {es[i].0}
      && (forall k :: k != es[i].0 ==> MapGet(r, k) == MapGet(es, k))
      && (forall x :: x in r ==> x in es)
  {
    var r := es[..i] + es[i + 1..];
    DeleteAtShape(es, i);
    DeleteAtKeys(es, i);
    forall k | k != es[i].0 ensures MapGet(r, k) == MapGet(es, k) {
      if k in Keys(es) {
        var j := Find(es, k);
        if j < i { FindUnique(r, j); } else { FindUnique(r, j - 1); }
      }
    }
  }

  lemma DeleteAtShape(es: Entries, i: nat)
    requires i < |es|
    ensures var r := es[..i] + es[i + 1..];
      && |r| == |es| - 1
      && (forall j :: 0 <= j < i ==> r[j] == es[j])
      && (forall j :: i <= j < |r| ==> r[j] == es[j + 1])
  {
  }

  lemma DeleteAtKeys(es: Entries, i: nat)
    requires KeysUnique(es)
    requires i < |es|
    ensures KeysUnique(es[..i] + es[i + 1..])
    ensures Keys(es[..i] + es[i + 1..]) == Keys(es) - {es[i].0}
  {
    var r := es[..i] + es[i + 1..];
    DeleteAtShape(es, i);
    forall a, b | 0 <= a < b < |r| ensures r[a].0 != r[b].0 {
      var a', b' := if a < i then a else a + 1, if b < i then b else b + 1;
      assert r[a] == es[a'] && r[b] == es[b'];
    }
    forall k | k in Keys(es) - {es[i].0} ensures k in Keys(r) {
      var j :| 0 <= j < |es| && es[j].0 == k;
      if j < i { assert r[j].0 == k; } else { assert r[j - 1].0 == k; }
    }
    forall k | k in Keys(r) ensures k in Keys(es) - {es[i].0} {
      var j :| 0 <= j < |r| && r[j].0 == k;
      var j' := if j < i then j else j + 1;
      assert es[j'].0 == k;
    }
  }

  /** The URLs of a list of entries, in order. */
  function Urls(es: Entries): (urls: seq<string>)
    ensures |urls| == |es|
    ensures forall i :: 0 <= i < |es| ==> urls[i] == es[i].1.url
  {
    seq(|es|, i requires 0 <= i < |es| => es[i].1.url)
  }

  // ---------------------------------------------------------------------
  // The cache.

  /** The invariant every cache reachable from `EmptyCache` keeps. */
  ghost predicate Valid(c: Cache) {
    && KeysUnique(c.entries)
    && |c.entries| <= MaxCacheSize
    && forall i :: 0 <= i < |c.entries| ==> c.entries[i].1.lastAccessed < c.clock
  }

  function EmptyCache(): (c: Cache)
    ensures Valid(c)
  {
    Cache([], 0, [])
  }

  /** The comparator `(a, b) => a.lastAccessed - b.lastAccessed` as "goes before or ties". */
  function OlderOrSame(): ((string, Entry), (string, Entry)) -> bool {
    (a: (string, Entry), b: (string, Entry)) => a.1.lastAccessed - b.1.lastAccessed <= 0
  }

  /** The entries, least recently used first (ties keep map order). */
  function OldestFirst(es: Entries): (r: Entries)
    ensures |r| == |es| && multiset(r) == multiset(es)
  {
    SortBy(es, OlderOrSame())
  }

  /** Revoke each listed entry's URL and delete its key, in list order. */
  function EvictEach(c: Cache, toEvict: Entries): (r: Cache)
    requires KeysUnique(c.entries)
    ensures KeysUnique(r.entries)
    ensures r.clock == c.clock
    decreases |toEvict|
  {
    if |toEvict| == 0 then c
    else
      var c1 := c.(revoked := RevokeImageUrl(c.revoked, toEvict[0].1.url),
                   entries := MapDelete(c.entries, toEvict[0].0));
      EvictEach(c1, toEvict[1..])
  }

  /** `evictOldest()`: when over capacity, revoke and delete the
      `size - MAX_CACHE_SIZE` least recently used entries. */
  function EvictOldest(c: Cache): (r: Cache)
    requires KeysUnique(c.entries)
    ensures |c.entries| <= MaxCacheSize ==> r == c
    ensures KeysUnique(r.entries) && r.clock == c.clock
  {
    if |c.entries| <= MaxCacheSize then c
    else EvictEach(c, Victims(c.entries))
  }

  /** `getCachedUrl(id)`: a hit refreshes the entry's access time. */
  function GetCachedUrl(c: Cache, id: string): (res: (Option<string>, Cache))
    requires KeysUnique(c.entries)
    ensures res.0.None? <==> id !in Keys(c.entries)
    ensures res.0.Some? ==> MapGet(c.entries, id) == Some(Entry(res.0.value, MapGet(c.entries, id).value.lastAccessed))
    ensures res.0.None? ==> res.1 == c
    ensures res.0.Some? ==>
      && Keys(res.1.entries) == Keys(c.entries)
      && MapGet(res.1.entries, id) == Some(Entry(res.0.value, c.clock))
      && (forall k :: k != id ==> MapGet(res.1.entries, k) == MapGet(c.entries, k))
      && res.1.revoked == c.revoked
      && res.1.clock == c.clock + 1
  {
    match MapGet(c.entries, id)
    case None => (None, c)
    case Some(e) =>
      (Some(e.url), c.(entries := MapSet(c.entries, id, Entry(e.url, c.clock)), clock := c.clock + 1))
  }

  /** `setCachedUrl(id, url)`: store with a fresh access time, then evict. */
  function SetCachedUrl(c: Cache, id: string, url: string): (r: Cache)
    requires KeysUnique(c.entries)
    ensures KeysUnique(r.entries)
    ensures |r.entries| <= MaxCacheSize
    ensures r.clock == c.clock + 1
  {
    var c1 := c.(entries := MapSet(c.entries, id, Entry(url, c.clock)), clock := c.clock + 1);
    var r := EvictOldest(c1);
    EvictOldestSize(c1);
    r
  }

  /** `clearCache()`: revoke every URL in map order and empty the map. */
  function ClearCache(c: Cache): (r: Cache)
    ensures r.entries == []
    ensures r.revoked == c.revoked + Filter(Urls(c.entries), IsBlobUrl)
    ensures c.entries == [] ==> r.revoked == c.revoked
    ensures r.clock == c.clock
  {
    RevokeAllLogsBlobUrls(c.revoked, Urls(c.entries));
    c.(entries := [], revoked := RevokeAll(c.revoked, Urls(c.entries)))
  }

  /** The hook's unmount cleanup: revoke every URL in map order; the map itself
      is dropped with the component, so only the revocation log matters. */
  function UnmountCleanup(c: Cache): (revoked: seq<string>)
    ensures revoked == c.revoked + Filter(Urls(c.entries), IsBlobUrl)
    ensures forall i :: 0 <= i < |c.entries| && IsBlobUrl(c.entries[i].1.url) ==>
      c.entries[i].1.url in revoked
  {
    RevokeAllLogsBlobUrls(c.revoked, Urls(c.entries));
    FilterComplete(Urls(c.entries), IsBlobUrl);
    RevokeAll(c.revoked, Urls(c.entries))
  }

  // ---------------------------------------------------------------------
  // Eviction.

  /** The keys of a non-empty list: its head's key and the keys of its tail. */
  lemma KeysCons(es: Entries)
    requires |es| > 0
    ensures Keys(es) == {es[0].0} + Keys(es[1..])
  {
    forall k | k in Keys(es) ensures k in {es[0].0} + Keys(es[1..]) {
      var i :| 0 <= i < |es| && es[i].0 == k;
      if i > 0 { assert es[1..][i - 1].0 == k; }
    }
  }

  /** A list of distinct, present entries is evicted by deleting exactly its
      keys and keeping every other entry as it was. */
  lemma {:induction false} EvictEachEffect(c: Cache, toEvict: Entries)
    requires KeysUnique(c.entries)
    requires KeysUnique(toEvict)
    requires forall x :: x in toEvict ==> x in c.entries
    ensures Keys(EvictEach(c, toEvict).entries) == Keys(c.entries) - Keys(toEvict)
    ensures |EvictEach(c, toEvict).entries| == |c.entries| - |toEvict|
    ensures forall k :: k !in Keys(toEvict) ==> MapGet(EvictEach(c, toEvict).entries, k) == MapGet(c.entries, k)
    ensures forall x :: x in EvictEach(c, toEvict).entries ==> x in c.entries
    decreases |toEvict|
  {
    if |toEvict| > 0 {
      var x := toEvict[0];
      var c1 := c.(revoked := RevokeImageUrl(c.revoked, x.1.url),
                   entries := MapDelete(c.entries, x.0));
      EvictTailStillPresent(c, toEvict);
      EvictEachEffect(c1, toEvict[1..]);
      KeysCons(toEvict);
      assert x.0 !in Keys(toEvict[1..]);
    }
  }

  /** After deleting the head's key, the rest of the list is still present. */
  lemma EvictTailStillPresent(c: Cache, toEvict: Entries)
    requires KeysUnique(c.entries)
    requires KeysUnique(toEvict)
    requires forall x :: x in toEvict ==> x in c.entries
    requires |toEvict| > 0
    ensures toEvict[0].0 in Keys(c.entries)
    ensures forall y :: y in toEvict[1..] ==> y in MapDelete(c.entries, toEvict[0].0)
  {
    var x := toEvict[0];
    var rest := MapDelete(c.entries, x.0);
    assert toEvict[0] in toEvict;
    var i0 :| 0 <= i0 < |c.entries| && c.entries[i0] == x;
    forall y | y in toEvict[1..] ensures y in rest {
      var j :| 1 <= j < |toEvict| && toEvict[j] == y;
      assert y.0 != x.0;
      assert toEvict[j] in toEvict;
      var i :| 0 <= i < |c.entries| && c.entries[i] == y;
      FindUnique(c.entries, i);
      assert MapGet(rest, y.0) == MapGet(c.entries, y.0);
    }
  }

  /** Eviction logs the blob URLs of the evicted entries, once each, in list order. */
  lemma {:induction false} EvictEachRevokes(c: Cache, toEvict: Entries)
    requires KeysUnique(c.entries)
    ensures EvictEach(c, toEvict).revoked == c.revoked + Filter(Urls(toEvict), IsBlobUrl)
    decreases |toEvict|
  {
    if |toEvict| > 0 {
      var x := toEvict[0];
      var c1 := c.(revoked := RevokeImageUrl(c.revoked, x.1.url),
                   entries := MapDelete(c.entries, x.0));
      EvictEachRevokes(c1, toEvict[1..]);
      assert EvictEach(c, toEvict) == EvictEach(c1, toEvict[1..]);
      UrlsCons(toEvict);
      RevokeThenFilter(c.revoked, Urls(toEvict));
    }
  }

  /** Revoking the first URL, then logging the blob URLs of the rest, logs the
      blob URLs of the whole list. */
  lemma RevokeThenFilter(revoked: seq<string>, urls: seq<string>)
    requires |urls| > 0
    ensures RevokeImageUrl(revoked, urls[0]) + Filter(urls[1..], IsBlobUrl) == revoked + Filter(urls, IsBlobUrl)
  {
    var rest := Filter(urls[1..], IsBlobUrl);
    if IsBlobUrl(urls[0]) {
      assert Filter(urls, IsBlobUrl) == [urls[0]] + rest;
      assert revoked + [urls[0]] + rest == revoked + ([urls[0]] + rest);
    } else {
      assert Filter(urls, IsBlobUrl) == rest;
    }
  }

  lemma UrlsCons(es: Entries)
    requires |es| > 0
    ensures Urls(es)[0] == es[0].1.url && Urls(es)[1..] == Urls(es[1..])
  {
  }

  lemma FilterCons(s: seq<string>, p: string -> bool)
    requires |s| > 0
    ensures Filter(s, p) == (if p(s[0]) then [s[0]] else []) + Filter(s[1..], p)
  {
  }

  lemma KeysCard(es: Entries)
    requires KeysUnique(es)
    ensures |Keys(es)| == |es|
    decreases |es|
  {
    if |es| > 0 {
      KeysCard(es[1..]);
      assert Keys(es) == {es[0].0} + Keys(es[1..]) by {
        forall k | k in Keys(es) ensures k in {es[0].0} + Keys(es[1..]) {
          var i :| 0 <= i < |es| && es[i].0 == k;
          if i > 0 { assert es[1..][i - 1].0 == k; }
        }
      }
    }
  }

  lemma KeysCardBound(es: Entries)
    ensures |Keys(es)| <= |es|
    decreases |es|
  {
    if |es| > 0 {
      KeysCardBound(es[1..]);
      assert Keys(es) == {es[0].0} + Keys(es[1..]) by {
        forall k | k in Keys(es) ensures k in {es[0].0} + Keys(es[1..]) {
          var i :| 0 <= i < |es| && es[i].0 == k;
          if i > 0 { assert es[1..][i - 1].0 == k; }
        }
      }
    }
  }

  /** A rearrangement of a list with unique keys has unique keys. */
  lemma PermutationKeepsKeysUnique(s: Entries, t: Entries)
    requires KeysUnique(s)
    requires multiset(s) == multiset(t)
    ensures KeysUnique(t)
    ensures Keys(t) == Keys(s)
  {
    assert |t| == |s| by {
      assert |multiset(t)| == |multiset(s)|;
    }
    forall k | k in Keys(t) ensures k in Keys(s) {
      var i :| 0 <= i < |t| && t[i].0 == k;
      assert t[i] in multiset(s);
    }
    forall k | k in Keys(s) ensures k in Keys(t) {
      var i :| 0 <= i < |s| && s[i].0 == k;
      assert s[i] in multiset(t);
    }
    KeysCard(s);
    assert Keys(t) == Keys(s);
    CardImpliesUnique(t);
  }

  /** As many distinct keys as pairs means no key repeats. */
  lemma CardImpliesUnique(t: Entries)
    requires |Keys(t)| == |t|
    ensures KeysUnique(t)
    decreases |t|
  {
    if |t| > 0 {
      var rest := t[1..];
      assert Keys(t) == {t[0].0} + Keys(rest) by {
        forall k | k in Keys(t) ensures k in {t[0].0} + Keys(rest) {
          var i :| 0 <= i < |t| && t[i].0 == k;
          if i > 0 { assert rest[i - 1].0 == k; }
        }
      }
      KeysCardBound(rest);
      assert t[0].0 !in Keys(rest);
      CardImpliesUnique(rest);
      forall j | 0 < j < |t| ensures t[0].0 != t[j].0 {
        assert rest[j - 1].0 in Keys(rest);
      }
    }
  }

  /** Every key of a prefix is a key of the prefix. */
  lemma PrefixKeys(s: Entries, n: nat)
    requires n <= |s|
    ensures forall j :: 0 <= j < n ==> s[j].0 in Keys(s[..n])
  {
    forall j | 0 <= j < n ensures s[j].0 in Keys(s[..n]) {
      assert s[..n][j] == s[j];
    }
  }

  /** Any prefix of a list with unique keys has unique keys. */
  lemma PrefixKeysUnique(es: Entries, n: nat)
    requires KeysUnique(es) && n <= |es|
    ensures KeysUnique(es[..n])
  {
  }

  /** The entries `evictOldest` removes: the first `size - MAX_CACHE_SIZE` least recently used. */
  function Victims(es: Entries): (v: Entries)
    requires |es| >= MaxCacheSize
    ensures |v| == |es| - MaxCacheSize
  {
    OldestFirst(es)[..|es| - MaxCacheSize]
  }

  lemma VictimsFacts(es: Entries)
    requires KeysUnique(es)
    requires |es| >= MaxCacheSize
    ensures KeysUnique(Victims(es))
    ensures forall x :: x in Victims(es) ==> x in es
  {
    var sorted := OldestFirst(es);
    PermutationKeepsKeysUnique(es, sorted);
    PrefixKeysUnique(sorted, |es| - MaxCacheSize);
    forall x | x in Victims(es) ensures x in es {
      assert x in multiset(sorted);
    }
  }

  /** Over capacity, eviction deletes exactly the victims' keys, keeps every
      other entry unchanged, and logs each victim's blob URL once. */
  lemma {:induction false} EvictOldestShape(c: Cache)
    requires KeysUnique(c.entries)
    requires |c.entries| > MaxCacheSize
    ensures |EvictOldest(c).entries| == MaxCacheSize
    ensures Keys(EvictOldest(c).entries) == Keys(c.entries) - Keys(Victims(c.entries))
    ensures forall x :: x in Victims(c.entries) ==> x in c.entries
    ensures forall x :: x in EvictOldest(c).entries ==> x in c.entries
    ensures forall k :: k in Keys(EvictOldest(c).entries) ==>
      MapGet(EvictOldest(c).entries, k) == MapGet(c.entries, k)
    ensures EvictOldest(c).revoked == c.revoked + Filter(Urls(Victims(c.entries)), IsBlobUrl)
  {
    VictimsFacts(c.entries);
    EvictEachEffect(c, Victims(c.entries));
    EvictEachRevokes(c, Victims(c.entries));
  }

  /** No victim was used more recently than any entry eviction keeps. */
  lemma {:induction false} EvictOldestOrder(c: Cache)
    requires KeysUnique(c.entries)
    requires |c.entries| > MaxCacheSize
    ensures forall x, y :: x in Victims(c.entries) && y in EvictOldest(c).entries ==>
      x.1.lastAccessed <= y.1.lastAccessed
  {
    forall x, y | x in Victims(c.entries) && y in EvictOldest(c).entries
      ensures x.1.lastAccessed <= y.1.lastAccessed
    {
      VictimNoNewer(c, x, y);
    }
  }

  lemma VictimNoNewer(c: Cache, x: (string, Entry), y: (string, Entry))
    requires KeysUnique(c.entries)
    requires |c.entries| > MaxCacheSize
    requires x in Victims(c.entries) && y in EvictOldest(c).entries
    ensures x.1.lastAccessed <= y.1.lastAccessed
  {
    var sorted := OldestFirst(c.entries);
    var n := |c.entries| - MaxCacheSize;
    assert Victims(c.entries) == sorted[..n];
    OldestFirstSorted(c.entries);
    EvictOldestKept(c, y);
    assert y in multiset(sorted);
    KeptAreInSuffix(sorted, n, y);
    var j :| n <= j < |sorted| && sorted[j] == y;
    PrefixNoNewer(sorted, n, x, j);
  }

  lemma EvictOldestKept(c: Cache, y: (string, Entry))
    requires KeysUnique(c.entries)
    requires |c.entries| > MaxCacheSize
    requires y in EvictOldest(c).entries
    ensures y in c.entries && y.0 !in Keys(Victims(c.entries))
  {
    EvictOldestShape(c);
    assert y.0 in Keys(EvictOldest(c).entries);
  }

  lemma PrefixNoNewer(sorted: Entries, n: nat, x: (string, Entry), j: nat)
    requires SortedBy(sorted, OlderOrSame())
    requires n <= j < |sorted| && x in sorted[..n]
    ensures x.1.lastAccessed <= sorted[j].1.lastAccessed
  {
    var i :| 0 <= i < n && sorted[..n][i] == x;
    assert OlderOrSame()(sorted[i], sorted[j]);
  }

  /** Over capacity, eviction removes exactly `size - MAX_CACHE_SIZE` entries,
      none of them used more recently than any entry it keeps, leaves the kept
      entries unchanged, and logs the blob URL of each evicted entry once. */
  lemma {:induction false} EvictOldestEvictsLeastRecentlyUsed(c: Cache)
    requires KeysUnique(c.entries)
    requires |c.entries| > MaxCacheSize
    ensures var r := EvictOldest(c);
      var toEvict := Victims(c.entries);
      && |r.entries| == MaxCacheSize
      && |toEvict| == |c.entries| - MaxCacheSize
      && Keys(r.entries) == Keys(c.entries) - Keys(toEvict)
      && (forall x :: x in toEvict ==> x in c.entries)
      && (forall x, y :: x in toEvict && y in r.entries ==> x.1.lastAccessed <= y.1.lastAccessed)
      && (forall k :: k in Keys(r.entries) ==> MapGet(r.entries, k) == MapGet(c.entries, k))
      && r.revoked == c.revoked + Filter(Urls(toEvict), IsBlobUrl)
  {
    EvictOldestShape(c);
    EvictOldestOrder(c);
  }

  lemma OldestFirstSorted(es: Entries)
    ensures SortedBy(OldestFirst(es), OlderOrSame())
  {
    OlderOrSameIsPreorder();
    SortBySorted(es, OlderOrSame());
  }

  /** An element of `s` whose key is not among the first `n` keys sits at or after position `n`. */
  lemma KeptAreInSuffix(s: Entries, n: nat, y: (string, Entry))
    requires n <= |s|
    requires y in s
    requires y.0 !in Keys(s[..n])
    ensures exists j :: n <= j < |s| && s[j] == y
  {
    PrefixKeys(s, n);
    var j :| 0 <= j < |s| && s[j] == y;
    assert n <= j;
  }

  lemma OlderOrSameIsPreorder()
    ensures TotalPreorder(OlderOrSame())
  {
  }

  lemma EvictOldestSize(c: Cache)
    requires KeysUnique(c.entries)
    ensures |EvictOldest(c).entries| <= MaxCacheSize
  {
    if |c.entries| > MaxCacheSize {
      EvictOldestShape(c);
    }
  }

  // ---------------------------------------------------------------------
  // The operations keep the invariant and do what the hook promises.

  /** The map right after `cache.set(id, ...)`, before eviction. */
  function Stored(c: Cache, id: string, url: string): Cache
    requires KeysUnique(c.entries)
  {
    c.(entries := MapSet(c.entries, id, Entry(url, c.clock)), clock := c.clock + 1)
  }

  lemma StoredFacts(c: Cache, id: string, url: string)
    requires Valid(c)
    ensures var c1 := Stored(c, id, url);
      && KeysUnique(c1.entries)
      && |c1.entries| <= MaxCacheSize + 1
      && MapGet(c1.entries, id) == Some(Entry(url, c.clock))
      && (forall x :: x in c1.entries && x.0 != id ==> x.1.lastAccessed < c.clock)
      && (forall x :: x in c.entries && x.0 != id ==> x in c1.entries)
      && (forall x :: x in c1.entries ==> x.1.lastAccessed < c1.clock)
      && SetCachedUrl(c, id, url) == EvictOldest(c1)
  {
    var c1 := Stored(c, id, url);
    forall x | x in c1.entries && x.0 != id ensures x.1.lastAccessed < c.clock {
      var i :| 0 <= i < |c1.entries| && c1.entries[i] == x;
      assert c1.entries[i] == c.entries[i];
    }
    forall x | x in c.entries && x.0 != id ensures x in c1.entries {
      var i :| 0 <= i < |c.entries| && c.entries[i] == x;
      assert c1.entries[i] == c.entries[i];
    }
    forall x | x in c1.entries ensures x.1.lastAccessed < c1.clock {
      if x.0 == id {
        var i :| 0 <= i < |c1.entries| && c1.entries[i] == x;
        FindUnique(c1.entries, i);
      }
    }
  }

  /** When one entry is strictly newer than all others and at most one entry
      must go, eviction keeps that entry. */
  lemma {:induction false} EvictionSparesNewest(c1: Cache, id: string, e: Entry)
    requires KeysUnique(c1.entries)
    requires |c1.entries| <= MaxCacheSize + 1
    requires MapGet(c1.entries, id) == Some(e)
    requires forall x :: x in c1.entries && x.0 != id ==> x.1.lastAccessed < e.lastAccessed
    ensures MapGet(EvictOldest(c1).entries, id) == Some(e)
    ensures forall x :: x in EvictOldest(c1).entries ==> x in c1.entries
  {
    if |c1.entries| > MaxCacheSize {
      EvictOldestShape(c1);
      OldestNotNewest(c1.entries, id, e);
      assert Keys(Victims(c1.entries)) == {Victims(c1.entries)[0].0};
    }
  }

  lemma OldestNotNewest(es: Entries, id: string, e: Entry)
    requires KeysUnique(es)
    requires |es| == MaxCacheSize + 1
    requires (id, e) in es
    requires forall x :: x in es && x.0 != id ==> x.1.lastAccessed < e.lastAccessed
    ensures Victims(es)[0].0 != id
  {
    var sorted := OldestFirst(es);
    var first := sorted[0];
    assert first in multiset(es);
    var a, b := es[0], es[1];
    var z := if a.0 != id then a else b;
    assert z in es && z.0 != id;
    assert z in multiset(sorted);
    var j :| 0 <= j < |sorted| && sorted[j] == z;
    OldestFirstSorted(es);
    assert OlderOrSame()(sorted[0], sorted[j]);
    assert first.1.lastAccessed < e.lastAccessed;
    var i :| 0 <= i < |es| && es[i] == (id, e);
    var i' :| 0 <= i' < |es| && es[i'] == first;
    assert i != i';
  }

  /** Storing a URL: the cache stays valid (within capacity), and the entry just
      stored is never the one evicted, so reading it back gives the URL. */
  lemma {:induction false} SetCachedUrlKeepsEntry(c: Cache, id: string, url: string)
    requires Valid(c)
    ensures var r := SetCachedUrl(c, id, url);
      && Valid(r)
      && MapGet(r.entries, id) == Some(Entry(url, c.clock))
      && GetCachedUrl(r, id).0 == Some(url)
  {
    var c1 := Stored(c, id, url);
    StoredFacts(c, id, url);
    EvictionSparesNewest(c1, id, Entry(url, c.clock));
  }

  /** Overwriting a present id replaces its URL and access time, keeps the key
      set, evicts nothing and revokes nothing (the previous URL is not revoked). */
  lemma {:induction false} SetCachedUrlOverwrite(c: Cache, id: string, url: string)
    requires Valid(c)
    requires id in Keys(c.entries)
    ensures var r := SetCachedUrl(c, id, url);
      && Keys(r.entries) == Keys(c.entries)
      && MapGet(r.entries, id) == Some(Entry(url, c.clock))
      && (forall k :: k != id ==> MapGet(r.entries, k) == MapGet(c.entries, k))
      && r.revoked == c.revoked
  {
  }

  /** Below capacity a new id is simply added: nothing is evicted or revoked. */
  lemma {:induction false} SetCachedUrlBelowCapacity(c: Cache, id: string, url: string)
    requires Valid(c)
    requires id !in Keys(c.entries)
    requires |c.entries| < MaxCacheSize
    ensures var r := SetCachedUrl(c, id, url);
      && Keys(r.entries) == Keys(c.entries) + {id}
      && |r.entries| == |c.entries| + 1
      && (forall k :: k != id ==> MapGet(r.entries, k) == MapGet(c.entries, k))
      && r.revoked == c.revoked
  {
  }

  /** At capacity a new id evicts exactly one entry, one used no more recently
      than any other, and revokes its URL if it is a blob URL. */
  lemma {:induction false} SetCachedUrlAtCapacity(c: Cache, id: string, url: string)
    requires Valid(c)
    requires id !in Keys(c.entries)
    requires |c.entries| == MaxCacheSize
    ensures var r := SetCachedUrl(c, id, url);
      exists victim :: victim in c.entries
        && Keys(r.entries) == Keys(c.entries) - {victim.0} + {id}
        && |r.entries| == MaxCacheSize
        && (forall y :: y in c.entries ==> victim.1.lastAccessed <= y.1.lastAccessed)
        && r.revoked == RevokeImageUrl(c.revoked, victim.1.url)
  {
    var victim := AtCapacityVictim(c, id, url);
    AtCapacityKeys(c, id, url, victim);
  }

  /** The one entry evicted when a new id is stored at capacity. */
  lemma {:induction false} AtCapacityVictim(c: Cache, id: string, url: string) returns (victim: (string, Entry))
    requires Valid(c)
    requires id !in Keys(c.entries)
    requires |c.entries| == MaxCacheSize
    ensures Victims(Stored(c, id, url).entries) == [victim]
    ensures victim in c.entries && victim.0 != id
    ensures forall y :: y in c.entries ==> victim.1.lastAccessed <= y.1.lastAccessed
    ensures SetCachedUrl(c, id, url).revoked == RevokeImageUrl(c.revoked, victim.1.url)
  {
    victim := AtCapacityVictimIn(c, id, url);
    AtCapacityRevokes(c, id, url, victim);
    AtCapacityVictimOldest(c, id, url, victim);
  }

  lemma AtCapacityVictimOldest(c: Cache, id: string, url: string, victim: (string, Entry))
    requires Valid(c)
    requires |c.entries| == MaxCacheSize
    requires Victims(Stored(c, id, url).entries) == [victim]
    requires victim in c.entries && victim.0 != id
    ensures forall y :: y in c.entries ==> victim.1.lastAccessed <= y.1.lastAccessed
  {
    var c1 := Stored(c, id, url);
    var r := SetCachedUrl(c, id, url);
    StoredFacts(c, id, url);
    EvictOldestOrder(c1);
    assert victim in Victims(c1.entries);
    AtCapacityKeepsOthers(c, id, url, victim);
    AtCapacityVictimIsOldest(c, c1, r, victim);
  }

  lemma AtCapacityKeepsOthers(c: Cache, id: string, url: string, victim: (string, Entry))
    requires Valid(c)
    requires id !in Keys(c.entries)
    requires |c.entries| == MaxCacheSize
    requires Victims(Stored(c, id, url).entries) == [victim]
    requires victim in c.entries && victim.0 != id
    ensures forall x :: x in c.entries && x.0 != victim.0 ==> x in SetCachedUrl(c, id, url).entries
  {
    forall x | x in c.entries && x.0 != victim.0 ensures x in SetCachedUrl(c, id, url).entries {
      AtCapacityKeepsOne(c, id, url, victim, x);
    }
  }

  lemma AtCapacityKeepsOne(c: Cache, id: string, url: string, victim: (string, Entry), x: (string, Entry))
    requires Valid(c)
    requires id !in Keys(c.entries)
    requires |c.entries| == MaxCacheSize
    requires Victims(Stored(c, id, url).entries) == [victim]
    requires x in c.entries && x.0 != victim.0
    ensures x in SetCachedUrl(c, id, url).entries
  {
    var c1 := Stored(c, id, url);
    assert SetCachedUrl(c, id, url) == EvictOldest(c1);
    StoredKeeps(c, id, url, x);
    assert Keys([victim]) == {victim.0};
    NonVictimKept(c1, x);
  }

  /** Eviction keeps every entry whose key is not a victim's. */
  lemma NonVictimKept(c: Cache, x: (string, Entry))
    requires KeysUnique(c.entries)
    requires |c.entries| > MaxCacheSize
    requires x in c.entries && x.0 !in Keys(Victims(c.entries))
    ensures x in EvictOldest(c).entries
  {
    EvictOldestShape(c);
    MemberGet(c.entries, x);
    assert x.0 in Keys(EvictOldest(c).entries);
  }

  lemma StoredKeeps(c: Cache, id: string, url: string, x: (string, Entry))
    requires KeysUnique(c.entries) && id !in Keys(c.entries)
    requires x in c.entries
    ensures x in Stored(c, id, url).entries
    ensures x.0 != id
  {
    var i :| 0 <= i < |c.entries| && c.entries[i] == x;
    assert Stored(c, id, url).entries[i] == x;
  }

  lemma {:induction false} AtCapacityVictimIn(c: Cache, id: string, url: string) returns (victim: (string, Entry))
    requires Valid(c)
    requires id !in Keys(c.entries)
    requires |c.entries| == MaxCacheSize
    ensures Victims(Stored(c, id, url).entries) == [victim]
    ensures victim in c.entries && victim.0 != id
  {
    var c1 := Stored(c, id, url);
    StoredFacts(c, id, url);
    VictimsFacts(c1.entries);
    OldestNotNewest(c1.entries, id, Entry(url, c.clock));
    var toEvict := Victims(c1.entries);
    victim := toEvict[0];
    assert toEvict == [victim];
    assert victim in toEvict;
    assert victim in c1.entries;
    var i :| 0 <= i < |c1.entries| && c1.entries[i] == victim;
    assert c1.entries[i] == c.entries[i];
  }

  lemma AtCapacityRevokes(c: Cache, id: string, url: string, victim: (string, Entry))
    requires Valid(c)
    requires id !in Keys(c.entries)
    requires |c.entries| == MaxCacheSize
    requires Victims(Stored(c, id, url).entries) == [victim]
    ensures SetCachedUrl(c, id, url).revoked == RevokeImageUrl(c.revoked, victim.1.url)
  {
    var c1 := Stored(c, id, url);
    assert SetCachedUrl(c, id, url) == EvictOldest(c1);
    EvictOldestShape(c1);
    assert Urls([victim]) == [victim.1.url];
  }

  lemma AtCapacityKeys(c: Cache, id: string, url: string, victim: (string, Entry))
    requires Valid(c)
    requires id !in Keys(c.entries)
    requires |c.entries| == MaxCacheSize
    requires Victims(Stored(c, id, url).entries) == [victim]
    requires victim.0 != id
    ensures Keys(SetCachedUrl(c, id, url).entries) == Keys(c.entries) - {victim.0} + {id}
    ensures |SetCachedUrl(c, id, url).entries| == MaxCacheSize
  {
    var c1 := Stored(c, id, url);
    assert SetCachedUrl(c, id, url) == EvictOldest(c1);
    EvictOldestShape(c1);
    assert Keys([victim]) == {victim.0};
  }

  lemma AtCapacityVictimIsOldest(c: Cache, c1: Cache, r: Cache, victim: (string, Entry))
    requires KeysUnique(c.entries)
    requires victim in c.entries
    requires forall x :: x in c.entries && x.0 != victim.0 ==> x in r.entries
    requires forall y :: y in r.entries ==> victim.1.lastAccessed <= y.1.lastAccessed
    ensures forall y :: y in c.entries ==> victim.1.lastAccessed <= y.1.lastAccessed
  {
    forall y | y in c.entries ensures victim.1.lastAccessed <= y.1.lastAccessed {
      if y.0 == victim.0 {
        var i :| 0 <= i < |c.entries| && c.entries[i] == y;
        var i' :| 0 <= i' < |c.entries| && c.entries[i'] == victim;
        FindUnique(c.entries, i);
        FindUnique(c.entries, i');
      }
    }
  }

  /** A hit refreshes only the entry read; a miss leaves the cache as it was. */
  lemma {:induction false} GetCachedUrlKeepsValid(c: Cache, id: string)
    requires Valid(c)
    ensures Valid(GetCachedUrl(c, id).1)
  {
    var res := GetCachedUrl(c, id);
    if res.0.Some? {
      var r := res.1;
      forall i | 0 <= i < |r.entries| ensures r.entries[i].1.lastAccessed < r.clock {
        if r.entries[i].0 != id {
          assert r.entries[i] == c.entries[i];
        } else {
          FindUnique(r.entries, i);
        }
      }
    }
  }

  /** Clearing leaves a valid, empty cache. */
  lemma ClearCacheKeepsValid(c: Cache)
    requires Valid(c)
    ensures Valid(ClearCache(c))
    ensures Keys(ClearCache(c).entries) == {}
  {
  }
}
