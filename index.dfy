/**
 * The `TameSearch` topic index of lib/index.js: a store mapping each topic
 * or pattern to the ordered list of records subscribed under it, a search
 * cache memoising what each candidate key yields, and a permutation cache
 * memoising the candidate keys of each query topic.
 *
 * JavaScript shares arrays by reference. A search-cache entry is therefore
 * either the very array the store holds under the key (`SharedList`: what
 * a reader sees is the store's current list, since `subscribe` pushes into
 * and filtered `unsubscribe` splices that same array) or the fresh `[]`
 * made for a key the store did not hold (`DetachedEmpty`: it stays empty
 * whatever is subscribed later).
 */
module Index {
  import opened Wrappers
  import Generator
  import opened Lists

  /** The capacity given to a cache whose option is missing or falsy. */
  const DefaultCapacity := 5000

  /** The options object; a missing property is `None`. */
  datatype RawOptions = RawOptions(searchCache: Option<int>, permutationCache: Option<int>)

  /** JavaScript truthiness of a numeric option: present and not 0. */
  predicate Truthy(v: Option<int>)
  {
    v.Some? && v.value != 0
  }

  /** `defaults(options)`: a missing object becomes `{}`, and each falsy capacity becomes 5000. */
  function Defaults(options: Option<RawOptions>): (c: RawOptions)
    ensures Truthy(c.searchCache) && Truthy(c.permutationCache)
    ensures options.Some? && Truthy(options.value.searchCache) ==> c.searchCache == options.value.searchCache
    ensures options.Some? && Truthy(options.value.permutationCache) ==> c.permutationCache == options.value.permutationCache
    ensures (options.None? || !Truthy(options.value.searchCache)) ==> c.searchCache == Some(DefaultCapacity)
    ensures (options.None? || !Truthy(options.value.permutationCache)) ==> c.permutationCache == Some(DefaultCapacity)
  {
    var given := if options.None? then RawOptions(None, None) else options.value;
    var withSearch := if Truthy(given.searchCache) then given else given.(searchCache := Some(DefaultCapacity));
    if Truthy(withSearch.permutationCache) then withSearch else withSearch.(permutationCache := Some(DefaultCapacity))
  }

  /** Applying the defaults a second time changes nothing. */
  lemma DefaultsIdempotent(options: Option<RawOptions>)
    ensures Defaults(Some(Defaults(options))) == Defaults(options)
  {
  }

  /** What the search cache holds for a key. */
  datatype SearchEntry = SharedList | DetachedEmpty

  /** `subscriptions[t] || []`. */
  function StoreList<R>(subs: map<string, seq<R>>, t: string): seq<R>
  {
    if t in subs then subs[t] else []
  }

  /** What `getValue(t)` returns: the cached entry on a hit, the store's list (or `[]`) on a miss. */
  function View<R>(subs: map<string, seq<R>>, cache: map<string, SearchEntry>, t: string): (v: seq<R>)
    ensures t in cache && cache[t] == DetachedEmpty ==> v == []
    ensures !(t in cache && cache[t] == DetachedEmpty) ==> v == StoreList(subs, t)
  {
    if t in cache then
      match cache[t]
      case SharedList => StoreList(subs, t)
      case DetachedEmpty => []
    else StoreList(subs, t)
  }

  /** `results.concat(getValue(p))` over the candidates `ts`, in order. */
  function Gather<R>(subs: map<string, seq<R>>, cache: map<string, SearchEntry>, ts: seq<string>): seq<R>
  {
    if ts == [] then []
    else Gather(subs, cache, ts[..|ts| - 1]) + View(subs, cache, ts[|ts| - 1])
  }

  /** The store's lists under the candidates `ts`, in order: what a coherent search would return. */
  function Collected<R>(subs: map<string, seq<R>>, ts: seq<string>): seq<R>
  {
    if ts == [] then []
    else Collected(subs, ts[..|ts| - 1]) + StoreList(subs, ts[|ts| - 1])
  }

  /** The search cache after `getValue(t)`: unchanged on a hit; on a miss `t` is cached as the store's list or a fresh `[]`. */
  function Remember<R>(subs: map<string, seq<R>>, cache: map<string, SearchEntry>, t: string): map<string, SearchEntry>
  {
    if t in cache then cache else cache[t := if t in subs then SharedList else DetachedEmpty]
  }

  /** The search cache after `getValue` on each of the candidates `ts` in turn. */
  function RememberAll<R>(subs: map<string, seq<R>>, cache: map<string, SearchEntry>, ts: seq<string>): map<string, SearchEntry>
  {
    if ts == [] then cache
    else Remember(subs, RememberAll(subs, cache, ts[..|ts| - 1]), ts[|ts| - 1])
  }

  /** Every shared entry names a list the store holds. */
  predicate SharedStored<R>(subs: map<string, seq<R>>, cache: map<string, SearchEntry>)
  {
    forall t :: t in cache && cache[t] == SharedList ==> t in subs
  }

  /** No cached `[]` hides records the store now holds under its key. */
  predicate NoStale<R>(subs: map<string, seq<R>>, cache: map<string, SearchEntry>)
  {
    forall t :: t in cache && cache[t] == DetachedEmpty ==> StoreList(subs, t) == []
  }

  /** With no stale entry, what a key yields through the cache is what the store holds. */
  lemma NoStaleView<R>(subs: map<string, seq<R>>, cache: map<string, SearchEntry>, t: string)
    requires NoStale(subs, cache)
    ensures View(subs, cache, t) == StoreList(subs, t)
  {
  }

  /** With no stale entry, the search cache is transparent: gathering through it collects the store's lists. */
  lemma {:induction false} GatherCoherent<R>(subs: map<string, seq<R>>, cache: map<string, SearchEntry>, ts: seq<string>)
    requires NoStale(subs, cache)
    ensures Gather(subs, cache, ts) == Collected(subs, ts)
  {
    if ts != [] {
      GatherCoherent(subs, cache, ts[..|ts| - 1]);
      NoStaleView(subs, cache, ts[|ts| - 1]);
    }
  }

  /** Every record stored under one of the candidates is collected, and nothing else is. */
  lemma {:induction false} CollectedMembers<R>(subs: map<string, seq<R>>, ts: seq<string>, r: R)
    ensures r in Collected(subs, ts) <==> exists j :: 0 <= j < |ts| && r in StoreList(subs, ts[j])
  {
    if ts != [] {
      var init := ts[..|ts| - 1];
      CollectedMembers(subs, init, r);
      if r in Collected(subs, ts) && r !in StoreList(subs, ts[|ts| - 1]) {
        var j :| 0 <= j < |init| && r in StoreList(subs, init[j]);
        assert ts[j] == init[j];
      }
      if exists j :: 0 <= j < |ts| && r in StoreList(subs, ts[j]) {
        var j :| 0 <= j < |ts| && r in StoreList(subs, ts[j]);
        if j < |init| {
          assert init[j] == ts[j];
        }
      }
    }
  }

  /** Caching on a miss changes what no key yields, keeps earlier entries and covers the key read. */
  lemma RememberKeeps<R>(subs: map<string, seq<R>>, cache: map<string, SearchEntry>, t: string, u: string)
    ensures View(subs, Remember(subs, cache, t), u) == View(subs, cache, u)
    ensures t in Remember(subs, cache, t)
    ensures u in cache ==> u in Remember(subs, cache, t) && Remember(subs, cache, t)[u] == cache[u]
  {
  }

  /** Reading candidates through the cache never changes what any key yields afterwards. */
  lemma {:induction false} RememberAllKeepsView<R>(subs: map<string, seq<R>>, cache: map<string, SearchEntry>, ts: seq<string>, u: string)
    ensures View(subs, RememberAll(subs, cache, ts), u) == View(subs, cache, u)
  {
    if ts != [] {
      RememberAllKeepsView(subs, cache, ts[..|ts| - 1], u);
      RememberKeeps(subs, RememberAll(subs, cache, ts[..|ts| - 1]), ts[|ts| - 1], u);
    }
  }

  /** After reading the candidates every one of them is cached, and earlier entries are kept. */
  lemma {:induction false} RememberAllCovers<R>(subs: map<string, seq<R>>, cache: map<string, SearchEntry>, ts: seq<string>, u: string)
    ensures u in ts ==> u in RememberAll(subs, cache, ts)
    ensures u in cache ==> u in RememberAll(subs, cache, ts) && RememberAll(subs, cache, ts)[u] == cache[u]
  {
    if ts != [] {
      var init := ts[..|ts| - 1];
      RememberAllCovers(subs, cache, init, u);
      RememberKeeps(subs, RememberAll(subs, cache, init), ts[|ts| - 1], u);
      assert u in ts ==> u in init || u == ts[|ts| - 1] by {
        if u in ts {
          var j :| 0 <= j < |ts| && ts[j] == u;
          if j < |init| {
            assert init[j] == u;
          }
        }
      }
    }
  }

  /** Caching never introduces a stale entry or a shared entry for a key the store lacks. */
  lemma {:induction false} RememberAllSound<R>(subs: map<string, seq<R>>, cache: map<string, SearchEntry>, ts: seq<string>)
    ensures NoStale(subs, cache) ==> NoStale(subs, RememberAll(subs, cache, ts))
    ensures SharedStored(subs, cache) ==> SharedStored(subs, RememberAll(subs, cache, ts))
  {
    if ts != [] {
      RememberAllSound(subs, cache, ts[..|ts| - 1]);
    }
  }

  /**
   * While no cached `[]` is stale, a search returns a record exactly when
   * the record is stored under one of the query's candidate keys.
   */
  lemma CoherentSearch<R>(subs: map<string, seq<R>>, cache: map<string, SearchEntry>, topic: string, r: R)
    requires NoStale(subs, cache)
    ensures var ts := Generator.Permutations(topic);
            r in Gather(subs, cache, ts) <==> exists j :: 0 <= j < |ts| && r in StoreList(subs, ts[j])
  {
    var ts := Generator.Permutations(topic);
    GatherCoherent(subs, cache, ts);
    CollectedMembers(subs, ts, r);
  }

  /** What the store sees through the cache after `subscribe(topic, data)`: the list grows unless a stale `[]` is cached. */
  lemma SubscribeView<R>(subs: map<string, seq<R>>, cache: map<string, SearchEntry>, topic: string, data: R, t: string)
    ensures var after := subs[topic := StoreList(subs, topic) + [data]];
            View(after, cache, t) ==
              if t == topic && !(t in cache && cache[t] == DetachedEmpty) then View(subs, cache, t) + [data]
              else View(subs, cache, t)
  {
  }

  /** `subscribe` keeps every cached entry current unless it is the first subscription under a key cached as `[]`. */
  lemma SubscribeNoStale<R>(subs: map<string, seq<R>>, cache: map<string, SearchEntry>, topic: string, data: R)
    requires NoStale(subs, cache)
    ensures NoStale(subs[topic := StoreList(subs, topic) + [data]], cache) <==> !(topic in cache && cache[topic] == DetachedEmpty)
  {
    var after := subs[topic := StoreList(subs, topic) + [data]];
    if topic in cache && cache[topic] == DetachedEmpty {
      assert StoreList(after, topic) != [];
    }
  }

  /** Gathering one more candidate appends what it yields. */
  lemma GatherSnoc<R>(subs: map<string, seq<R>>, cache: map<string, SearchEntry>, ts: seq<string>, t: string)
    ensures Gather(subs, cache, ts + [t]) == Gather(subs, cache, ts) + View(subs, cache, t)
  {
    assert (ts + [t])[..|ts|] == ts;
  }

  /** Reading one more candidate caches it on top of the earlier reads. */
  lemma RememberAllSnoc<R>(subs: map<string, seq<R>>, cache: map<string, SearchEntry>, ts: seq<string>, t: string)
    ensures RememberAll(subs, cache, ts + [t]) == Remember(subs, RememberAll(subs, cache, ts), t)
  {
    assert (ts + [t])[..|ts|] == ts;
  }

  /** A query ending in a wildcard returns what is stored under it twice. */
  lemma DuplicateResults<R>(subs: map<string, seq<R>>, cache: map<string, SearchEntry>)
    ensures Gather(subs, cache, Generator.Permutations("/*")) == View(subs, cache, "/*") + View(subs, cache, "/*")
  {
    Generator.DuplicateCandidates();
    GatherSnoc(subs, cache, [], "/*");
    GatherSnoc(subs, cache, ["/*"], "/*");
    assert [] + ["/*"] == ["/*"] && ["/*"] + ["/*"] == ["/*", "/*"];
  }

  // The query `/a/x` reads only `/a/x`, `/*/*` and `/a/*`: records under `/*/x` are never returned.
  lemma SuffixOnlySearch<R>(subs: map<string, seq<R>>, cache: map<string, SearchEntry>)
    ensures Gather(subs, cache, Generator.Permutations("/a/x")) ==
            View(subs, cache, "/a/x") + View(subs, cache, "/*/*") + View(subs, cache, "/a/*")
  {
    var one, two, three := ["/a/x"], ["/a/x", "/*/*"], ["/a/x", "/*/*", "/a/*"];
    assert [] + ["/a/x"] == one && one + ["/*/*"] == two && two + ["/a/*"] == three;
    GatherSnoc(subs, cache, [], "/a/x");
    GatherSnoc(subs, cache, one, "/*/*");
    GatherSnoc(subs, cache, two, "/a/*");
    Generator.OnlySuffixWildcards();
  }

  class TameSearch<R(==)> {
    const options: RawOptions
    var subscriptions: map<string, seq<R>>
    var searchCache: map<string, SearchEntry>
    var permutationCache: map<string, seq<string>>

    /** A shared entry names a list the store holds; a cached candidate list is the generator's. */
    ghost predicate Valid()
      reads this
    {
      && SharedStored(subscriptions, searchCache)
      && (forall t :: t in permutationCache ==> permutationCache[t] == Generator.Permutations(t))
    }

    /** `new TameSearch(options)`: defaulted options, an empty store and empty caches. */
    constructor(options: Option<RawOptions>)
      ensures this.options == Defaults(options)
      ensures subscriptions == map[] && searchCache == map[] && permutationCache == map[]
      ensures Valid()
    {
      this.options := Defaults(options);
      subscriptions := map[];
      searchCache := map[];
      permutationCache := map[];
    }

    /** `subscribe(topic, data)`: appends the record under the topic, creating the list if needed. */
    method Subscribe(topic: string, data: R)
      requires Valid()
      modifies this
      ensures Valid()
      ensures subscriptions == old(subscriptions)[topic := StoreList(old(subscriptions), topic) + [data]]
      ensures searchCache == old(searchCache) && permutationCache == old(permutationCache)
    {
      if topic !in subscriptions {
        subscriptions := subscriptions[topic := []];
      }
      subscriptions := subscriptions[topic := subscriptions[topic] + [data]];
    }

    /**
     * `unsubscribe(topic, options)`: evicts the topic from the search cache,
     * then returns 0 for a missing or empty list, deletes the whole list when
     * there is no filter, or splices out the records the filter selects.
     */
    method Unsubscribe(topic: string, filter: Option<R -> bool>) returns (removed: nat)
      requires Valid()
      modifies this
      ensures Valid()
      ensures searchCache == old(searchCache) - {topic}
      ensures permutationCache == old(permutationCache)
      ensures var list := StoreList(old(subscriptions), topic);
              if list == [] then
                removed == 0 && subscriptions == old(subscriptions)
              else if filter.None? then
                removed == |list| && subscriptions == old(subscriptions) - {topic}
              else
                removed == |Select(list, filter.value)| &&
                subscriptions == old(subscriptions)[topic := Reject(list, filter.value)]
      ensures NoStale(old(subscriptions), old(searchCache)) ==> NoStale(subscriptions, searchCache)
    {
      searchCache := searchCache - {topic};
      if topic !in subscriptions || |subscriptions[topic]| == 0 {
        return 0;
      }
      var list := subscriptions[topic];
      if filter.None? {
        subscriptions := subscriptions - {topic};
        return |list|;
      }
      removed := RemoveSelected(topic, filter.value);
    }

    /** The filtered branch of `unsubscribe`: `sift` the list, then splice each selected record out at its `indexOf`. */
    method RemoveSelected(topic: string, p: R -> bool) returns (removed: nat)
      requires topic in subscriptions
      modifies this
      ensures var list := old(subscriptions)[topic];
              && removed == |Select(list, p)|
              && subscriptions == old(subscriptions)[topic := Reject(list, p)]
      ensures searchCache == old(searchCache) && permutationCache == old(permutationCache)
    {
      var list := subscriptions[topic];
      var filtered := Select(list, p);
      DropNone(list, p);
      assert old(subscriptions)[topic := DropMatches(list, p, 0)] == subscriptions;
      var k := 0;
      while k < |filtered|
        invariant 0 <= k <= |filtered|
        invariant subscriptions == old(subscriptions)[topic := DropMatches(list, p, k)]
        invariant searchCache == old(searchCache) && permutationCache == old(permutationCache)
      {
        var current := subscriptions[topic];
        assert current == DropMatches(list, p, k);
        var at := IndexOf(current, filtered[k]);
        DropStep(list, p, k);
        var next := SpliceOne(current, at);
        assert next == DropMatches(list, p, k + 1);
        subscriptions := subscriptions[topic := next];
        k := k + 1;
      }
      DropAll(list, p);
      removed := |filtered|;
    }

    /** `getValue(topic)`: the cached entry on a hit; on a miss the store's list or a fresh `[]`, which is then cached. */
    method GetValue(topic: string) returns (data: seq<R>)
      requires Valid()
      modifies this
      ensures Valid()
      ensures data == View(old(subscriptions), old(searchCache), topic)
      ensures subscriptions == old(subscriptions) && permutationCache == old(permutationCache)
      ensures searchCache == Remember(old(subscriptions), old(searchCache), topic)
    {
      if topic in searchCache {
        match searchCache[topic]
        case SharedList => data := subscriptions[topic];
        case DetachedEmpty => data := [];
        return;
      }
      if topic in subscriptions {
        data := subscriptions[topic];
        searchCache := searchCache[topic := SharedList];
      } else {
        data := [];
        searchCache := searchCache[topic := DetachedEmpty];
      }
    }

    /**
     * `search(topic, options)`: the values of the candidate keys concatenated
     * in candidate order, then narrowed to the records the filter selects.
     */
    method Search(topic: string, filter: Option<R -> bool>) returns (results: seq<R>)
      requires Valid()
      modifies this
      ensures Valid()
      ensures var found := Gather(old(subscriptions), old(searchCache), Generator.Permutations(topic));
              results == if filter.Some? then Select(found, filter.value) else found
      ensures subscriptions == old(subscriptions)
      ensures permutationCache == old(permutationCache)[topic := Generator.Permutations(topic)]
      ensures searchCache == RememberAll(old(subscriptions), old(searchCache), Generator.Permutations(topic))
    {
      var candidates := GetWildcardPermutations(topic);
      results := GatherValues(candidates);
      if filter.Some? {
        results := Select(results, filter.value);
      }
    }

    /** The `forEach` of `search`: concatenates `getValue(p)` over the candidates in order. */
    method GatherValues(candidates: seq<string>) returns (results: seq<R>)
      requires Valid()
      modifies this
      ensures Valid()
      ensures results == Gather(old(subscriptions), old(searchCache), candidates)
      ensures searchCache == RememberAll(old(subscriptions), old(searchCache), candidates)
      ensures subscriptions == old(subscriptions) && permutationCache == old(permutationCache)
    {
      results := [];
      var j := 0;
      while j < |candidates|
        invariant 0 <= j <= |candidates|
        invariant Valid()
        invariant results == Gather(old(subscriptions), old(searchCache), candidates[..j])
        invariant searchCache == RememberAll(old(subscriptions), old(searchCache), candidates[..j])
        invariant subscriptions == old(subscriptions) && permutationCache == old(permutationCache)
      {
        RememberAllKeepsView(subscriptions, old(searchCache), candidates[..j], candidates[j]);
        var value := GetValue(candidates[j]);
        assert candidates[..j + 1][..j] == candidates[..j];
        results := results + value;
        j := j + 1;
      }
      assert candidates[..j] == candidates;
    }

    /** `getWildcardPermutations(topic)`: the cached candidate list on a hit; on a miss the generator's list, then cached. */
    method GetWildcardPermutations(topic: string) returns (possible: seq<string>)
      requires Valid()
      modifies this
      ensures Valid()
      ensures possible == Generator.Permutations(topic)
      ensures permutationCache == old(permutationCache)[topic := possible]
      ensures subscriptions == old(subscriptions) && searchCache == old(searchCache)
    {
      if topic in permutationCache {
        return permutationCache[topic];
      }
      possible := Generator.WildcardPermutations(topic);
      permutationCache := permutationCache[topic := possible];
    }
  }

  /**
   * The cached `[]` goes stale: on a fresh index, searching `/a` caches
   * `[]` for `/a`, so after the first subscription under `/a` the same
   * search still returns nothing while the store holds the record.
   */
  method StaleAfterFirstSubscribe<R(==)>(r: R) returns (before: seq<R>, after: seq<R>, stored: seq<R>)
    ensures before == [] && after == [] && stored == [r]
  {
    var index := new TameSearch<R>(None);
    FirstSearchOfA<R>();
    before := index.Search("/a", None);
    index.Subscribe("/a", r);
    assert StoreList(map[], "/a") + [r] == [r];
    SecondSearchOfA(r);
    after := index.Search("/a", None);
    stored := index.subscriptions["/a"];
  }

  /** On an empty index the first search for `/a` finds nothing and caches `[]` for both of its candidates. */
  lemma FirstSearchOfA<R>()
    ensures Gather<R>(map[], map[], Generator.Permutations("/a")) == []
    ensures RememberAll<R>(map[], map[], Generator.Permutations("/a")) == map["/a" := DetachedEmpty, "/*" := DetachedEmpty]
  {
    var empty: map<string, seq<R>> := map[];
    var none: map<string, SearchEntry> := map[];
    Generator.OneSegment("a");
    assert "/" + "a" == "/a";
    assert Generator.Permutations("/a") == [] + ["/a"] + ["/*"];
    GatherSnoc(empty, none, [], "/a");
    GatherSnoc(empty, none, ["/a"], "/*");
    RememberAllSnoc(empty, none, [], "/a");
    RememberAllSnoc(empty, none, ["/a"], "/*");
  }

  /** With `[]` cached for both candidates, the search for `/a` finds nothing even though `/a` holds a record. */
  lemma SecondSearchOfA<R>(r: R)
    ensures Gather(map["/a" := [r]], map["/a" := DetachedEmpty, "/*" := DetachedEmpty], Generator.Permutations("/a")) == []
  {
    var subs := map["/a" := [r]];
    var cached := map["/a" := DetachedEmpty, "/*" := DetachedEmpty];
    Generator.OneSegment("a");
    assert "/" + "a" == "/a";
    assert Generator.Permutations("/a") == [] + ["/a"] + ["/*"];
    GatherSnoc(subs, cached, [], "/a");
    GatherSnoc(subs, cached, ["/a"], "/*");
  }
}
