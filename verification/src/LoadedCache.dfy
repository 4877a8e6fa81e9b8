/** What RequestCache.SetMap of clients/datasource/cache.go does to the calls of Get that follow it. */
module LoadedCache {
  import opened Wrappers
  import opened RequestCache
  import opened RequestCacheRuns

  /** The event may change what is cached for `k`: it replaces the map, or a creator of a call for `k`
      has announced its value and stores it. */
  predicate Touches(s: State, e: Event, k: Key) {
    e.SetMap? || (e.Step? && e.t < |s.threads| && s.threads[e.t].Announced? && s.threads[e.t].key == k)
  }

  predicate Undisturbed(s: State, es: seq<Event>, k: Key) {
    es == [] || (Undisturbed(s, es[..|es| - 1], k) && !Touches(Run(s, es[..|es| - 1]), es[|es| - 1], k))
  }

  function AfterSetMap(es: seq<Event>, m: map<Key, Val>): State {
    Run(Init, es + [SetMap(m)])
  }

  ghost predicate Loaded(s: State, m: map<Key, Val>, k: Key) {
    (k in s.cache <==> k in m) && (k in m ==> s.cache[k] == m[k])
  }

  lemma LoadedNow(es: seq<Event>, m: map<Key, Val>)
    requires Legal(Init, es + [SetMap(m)])
    ensures Legal(Init, es) && AfterSetMap(es, m).cache == m && AfterSetMap(es, m).threads == Run(Init, es).threads
  {
    assert (es + [SetMap(m)])[..|es|] == es;
  }

  lemma LoadedStep(s: State, e: Event, m: map<Key, Val>, k: Key)
    requires Loaded(s, m, k) && Enabled(s, e) && !Touches(s, e, k)
    ensures Loaded(Next(s, e), m, k)
  {
  }

  /** SetMap replaces all that is cached; afterwards a key keeps what was loaded for it until the next
      SetMap or the next store for that key. */
  lemma {:induction false} LoadedStays(es: seq<Event>, m: map<Key, Val>, later: seq<Event>, k: Key)
    requires Legal(Init, es + [SetMap(m)]) && Legal(AfterSetMap(es, m), later)
    requires Undisturbed(AfterSetMap(es, m), later, k)
    ensures Loaded(Run(AfterSetMap(es, m), later), m, k)
  {
    hide Next, Enabled, AfterSetMap;
    LoadedNow(es, m);
    if later != [] {
      var front := later[..|later| - 1];
      LoadedStays(es, m, front, k);
      LoadedStep(Run(AfterSetMap(es, m), front), later[|later| - 1], m, k);
    }
  }

  /** A Get of `k` that has met nothing but `v` in the cache. */
  predicate Served(th: Thread, k: Key, v: Val) {
    || th == Start(k)
    || th == Locked(k)
    || th == Hit(k, v)
    || th == Returned(k, FromCache, Some(Outcome(v, None)))
  }

  ghost predicate AllServed(s: State, waiting: set<nat>, first: nat, k: Key, v: Val) {
    forall t: nat :: t < |s.threads| && (t in waiting || t >= first) && s.threads[t].key == k ==> Served(s.threads[t], k, v)
  }

  lemma ServedStep(s: State, e: Event, waiting: set<nat>, first: nat, k: Key, v: Val)
    requires Enabled(s, e) && k in s.cache && s.cache[k] == v && AllServed(s, waiting, first, k, v)
    requires first <= |s.threads| && forall t :: t in waiting ==> t < |s.threads|
    ensures |s.threads| <= |Next(s, e).threads| && AllServed(Next(s, e), waiting, first, k, v)
  {
  }

  lemma {:induction false} ServedStays(s: State, es: seq<Event>, m: map<Key, Val>, waiting: set<nat>, first: nat, k: Key)
    requires Legal(s, es) && Undisturbed(s, es, k) && k in m && Loaded(s, m, k) && AllServed(s, waiting, first, k, m[k])
    requires first <= |s.threads| && forall t :: t in waiting ==> t < |s.threads|
    ensures |s.threads| <= |Run(s, es).threads| && Loaded(Run(s, es), m, k)
    ensures AllServed(Run(s, es), waiting, first, k, m[k])
  {
    hide Next, Enabled;
    if es != [] {
      var front, e := es[..|es| - 1], es[|es| - 1];
      ServedStays(s, front, m, waiting, first, k);
      LoadedStep(Run(s, front), e, m, k);
      ServedStep(Run(s, front), e, waiting, first, k, m[k]);
    }
  }

  /** A Get of a loaded key that had not taken the lock before SetMap calls no fn, and returns the loaded
      value if it returns. */
  lemma LoadedIsReturned(es: seq<Event>, m: map<Key, Val>, later: seq<Event>, t: nat)
    requires Legal(Init, es + [SetMap(m)]) && Legal(AfterSetMap(es, m), later)
    requires t < |Run(AfterSetMap(es, m), later).threads|
    requires t < |Run(Init, es).threads| ==> Run(Init, es).threads[t].Start?
    requires var k := Run(AfterSetMap(es, m), later).threads[t].key;
             k in m && Undisturbed(AfterSetMap(es, m), later, k)
             && (t < |Run(Init, es).threads| ==> Run(Init, es).threads[t].key == k)
    ensures var th := Run(AfterSetMap(es, m), later).threads[t];
            !th.Ran() && !th.Waiting? && (th.Returned? ==> th.result == Some(Outcome(m[th.key], None)))
  {
    hide Next, Enabled, AfterSetMap;
    LoadedNow(es, m);
    var s := AfterSetMap(es, m);
    var k, first := Run(s, later).threads[t].key, |s.threads|;
    var waiting := if t < first then {t} else {};
    ServedStays(s, later, m, waiting, first, k);
  }

  /** A Get that has the lock and meets no pending call runs fn exactly if its key is not cached. */
  lemma RunsFnIffAbsent(s: State, es: seq<Event>, k: Key) returns (more: seq<Event>)
    requires Legal(s, es) && Run(s, es).mu.None? && k !in Run(s, es).calls
    ensures var n := |Run(s, es).threads|;
            && more == es + [Begin(k)] + [Step(n)] + [Step(n)] + [Step(n)]
            && Legal(s, more) && |Run(s, more).threads| == n + 1
            && (Run(s, more).threads[n].Running? <==> k !in Run(s, es).cache)
  {
    hide Legal, Run;
    var n := |Run(s, es).threads|;
    RunMore(s, es, Begin(k));
    more := es + [Begin(k)];
    RunMore(s, more, Step(n));
    more := more + [Step(n)];
    RunMore(s, more, Step(n));
    more := more + [Step(n)];
    RunMore(s, more, Step(n));
    more := more + [Step(n)];
  }

  /** A Get of a key that was not loaded runs fn, whatever was cached before SetMap. */
  lemma NotLoadedIsFetched(es: seq<Event>, m: map<Key, Val>, later: seq<Event>, k: Key) returns (more: seq<Event>)
    requires Legal(Init, es + [SetMap(m)]) && Legal(AfterSetMap(es, m), later)
    requires k !in m && Undisturbed(AfterSetMap(es, m), later, k)
    requires Run(AfterSetMap(es, m), later).mu.None? && k !in Run(AfterSetMap(es, m), later).calls
    ensures var n := |Run(AfterSetMap(es, m), later).threads|;
            && more == later + [Begin(k)] + [Step(n)] + [Step(n)] + [Step(n)]
            && Legal(AfterSetMap(es, m), more) && |Run(AfterSetMap(es, m), more).threads| == n + 1
            && Run(AfterSetMap(es, m), more).threads[n].Running?
  {
    hide Legal, Run, AfterSetMap, Undisturbed;
    LoadedStays(es, m, later, k);
    more := RunsFnIffAbsent(AfterSetMap(es, m), later, k);
  }
}
