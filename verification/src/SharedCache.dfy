/** The RequestCache object of clients/datasource/cache.go together with the goroutines that use it: what
    its state guarantees after any number of their steps. */
module SharedCache {
  import opened Wrappers
  import opened RequestCache
  import opened RequestCacheRuns

  class Cache {
    var cache: map<Key, Val>
    var calls: map<Key, nat>
    var records: seq<Call>
    var mu: Option<nat>
    var threads: seq<Thread>
    /** All that has happened to the object. */
    ghost var trace: seq<Event>

    function Abs(): State
      reads this
    {
      State(cache, calls, records, mu, threads)
    }

    /** The state is the one that the steps taken so far lead to, each of which was possible. */
    ghost predicate Valid()
      reads this
    {
      Legal(Init, trace) && Abs() == Run(Init, trace)
    }

    constructor ()
      ensures Valid() && trace == []
    {
      cache, calls, records, mu, threads, trace := map[], map[], [], None, [], [];
    }

    /** Lets a goroutine call Get, take its next step, return from fn, or call SetMap. */
    method Fire(e: Event)
      requires Valid() && Enabled(Abs(), e)
      modifies this
      ensures Valid() && trace == old(trace) + [e]
    {
      RunMore(Init, trace, e);
      match e {
        case Begin(k) => threads := threads + [Start(k)];
        case SetMap(m) => cache := m;
        case FnReturns(t, out) =>
          var c := threads[t].call;
          records := records[c := records[c].(out := Some(out))];
          threads := threads[t := Finished(threads[t].key, c)];
        case Step(t) => Advance(t);
      }
      trace := trace + [e];
    }

    /** The code between two switches of goroutines, line by line. */
    method Advance(t: nat)
      requires Enabled(Abs(), Step(t))
      modifies `cache, `calls, `records, `mu, `threads
      ensures Abs() == Next(old(Abs()), Step(t))
    {
      var next: Thread := threads[t];
      match threads[t] {
        case Start(k) => mu, next := Some(t), Locked(k);
        case Locked(k) =>
          if k in cache {
            next := Hit(k, cache[k]);
          } else if k in calls {
            next := Joined(k, calls[k]);
          } else {
            var c := |records|;
            records := records + [Call(k, t, None, false)];
            calls := calls[k := c];
            next := Created(k, c);
          }
        case Hit(k, v) => mu, next := None, Returned(k, FromCache, Some(Outcome(v, None)));
        case Joined(k, c) => mu, next := None, Waiting(k, c);
        case Created(k, c) => mu, next := None, Running(k, c);
        case Waiting(k, c) => next := Released(k, c);
        case Released(k, c) => next := Returned(k, FromWait(c), records[c].out);
        case Finished(k, c) => mu, next := Some(t), Relocked(k, c);
        case Relocked(k, c) =>
          records := records[c := records[c].(done := true)];
          next := Announced(k, c);
        case Announced(k, c) =>
          if records[c].out.Some? && records[c].out.value.Ok() {
            cache := cache[k := records[c].out.value.val];
          }
          next := Stored(k, c);
        case Stored(k, c) =>
          if k in calls && calls[k] == c {
            calls := calls - {k};
          }
          next := Removed(k, c);
        case Removed(k, c) => mu, next := None, Returned(k, FromFn(c), records[c].out);
        case _ =>
      }
      threads := threads[t := next];
    }

    /** A copy of the cache, taken while no goroutine holds the lock: right after SetMap, what was
        loaded. Without SetMap it holds exactly the keys for which fn has succeeded and been announced, with the value that every successful Get of
        that key has returned. */
    method GetMap() returns (m: map<Key, Val>)
      requires Valid() && mu.None?
      ensures forall loaded :: trace != [] && trace[|trace| - 1] == SetMap(loaded) ==> m == loaded
      ensures NoSetMap(trace) ==> forall k :: k in m <==> Settled(Abs(), k)
      ensures NoSetMap(trace) ==>
                forall t :: 0 <= t < |threads| && threads[t].Succeeded() ==>
                  threads[t].key in m && m[threads[t].key] == threads[t].result.value.val
    {
      if NoSetMap(trace) {
        RunValues(trace);
        forall k ensures k in cache <==> Settled(Abs(), k) {
          SettledIsCached(Abs(), k);
        }
        forall t | 0 <= t < |threads| && threads[t].Succeeded()
          ensures threads[t].key in cache && cache[threads[t].key] == threads[t].result.value.val
        {
          SucceededIsCached(Abs(), t);
        }
      }
      m := cache;
    }

    /** What the object guarantees its users at any time. */
    lemma Guarantees(t: nat, u: nat)
      requires Valid() && t < |threads| && u < |threads| && threads[t].key == threads[u].key
      ensures threads[t].Running? && threads[u].Running? ==> t == u
      ensures NoSetMap(trace) && threads[t].Succeeded() && threads[u].Succeeded() ==>
                threads[t].result == threads[u].result
      ensures NoSetMap(trace) && threads[t].Succeeded() ==> !threads[u].Created? && !threads[u].Running?
    {
      if threads[t].Running? && threads[u].Running? {
        OneFnAtATime(trace, t, u);
      }
      if NoSetMap(trace) && threads[t].Succeeded() {
        RunValues(trace);
        var c := SuccessIsSettled(Abs(), t);
        if threads[u].Succeeded() {
          SuccessesAgree(trace, t, u);
        }
        if threads[u].Created? || threads[u].Running? {
          PendingMeansNoSuccess(Abs(), u, c);
        }
      }
    }
  }

  /** While nobody holds the lock, no announced value is on its way into the cache. */
  lemma SettledIsCached(s: State, k: Key)
    requires Inv(s) && ValueInv(s) && s.mu.None?
    ensures k in s.cache <==> Settled(s, k)
  {
    if k in s.cache {
      assert EntryInv(s, k);
    }
    if Settled(s, k) {
      var c: nat :| c < |s.records| && s.records[c].key == k && s.records[c].done && Success(s.records[c]);
      assert RecordInv(s, c) && CachedInv(s, c);
      assert !s.threads[s.records[c].creator].HoldsLock();
    }
  }

  lemma SucceededIsCached(s: State, t: nat)
    requires Inv(s) && ValueInv(s) && s.mu.None? && t < |s.threads| && s.threads[t].Succeeded()
    ensures s.threads[t].key in s.cache && s.cache[s.threads[t].key] == s.threads[t].result.value.val
  {
    var c := SuccessIsSettled(s, t);
    assert RecordInv(s, c) && CachedInv(s, c);
    assert !s.threads[s.records[c].creator].HoldsLock();
  }
}
