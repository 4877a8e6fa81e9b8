/** clients/datasource/cache.go: any number of concurrent RequestCache.Get calls, as atomic steps.
    A thread is one call of Get. Only the holder of `mu` touches `cache` and `calls`; a thread that
    waits for another one's call reads that call's record without holding `mu`. */
module RequestCache {
  import opened Wrappers

  type Key(==, !new)
  type Val(!new)
  type Err(!new)

  /** What fn returns. */
  datatype Outcome = Outcome(val: Val, err: Option<Err>)
  {
    predicate Ok() { err.None? }
  }

  /** A requestCacheCall: `out` is None until val and err are written, `done` is set by wg.Done. */
  datatype Call = Call(key: Key, creator: nat, out: Option<Outcome>, done: bool)

  datatype Via = FromCache | FromWait(call: nat) | FromFn(call: nat)

  /** Where a thread stands in Get; the line is the one it executes next. */
  datatype Thread =
    | Start(key: Key)                  // 69
    | Locked(key: Key)                 // 70
    | Hit(key: Key, val: Val)          // 71
    | Joined(key: Key, call: nat)      // 77
    | Created(key: Key, call: nat)     // 87
    | Waiting(key: Key, call: nat)     // 78
    | Released(key: Key, call: nat)    // 80
    | Running(key: Key, call: nat)     // 89
    | Finished(key: Key, call: nat)    // 90
    | Relocked(key: Key, call: nat)    // 94
    | Announced(key: Key, call: nat)   // 97
    | Stored(key: Key, call: nat)      // 102
    | Removed(key: Key, call: nat)     // 106
    | Returned(key: Key, via: Via, result: Option<Outcome>)
  {
    predicate HoldsLock() {
      Locked? || Hit? || Joined? || Created? || Relocked? || Announced? || Stored? || Removed?
    }

    /** The call this thread created, from line 86 on. */
    function Own(): Option<nat> {
      if Created? || Running? || Finished? || Relocked? || Announced? || Stored? || Removed? then Some(call)
      else if Returned? && via.FromFn? then Some(via.call)
      else None
    }

    /** The call of another thread that this thread joined. */
    function Other(): Option<nat> {
      if Joined? || Waiting? || Released? then Some(call)
      else if Returned? && via.FromWait? then Some(via.call)
      else None
    }

    /** Its call is registered in `calls`. */
    predicate Live() { Created? || Running? || Finished? || Relocked? || Announced? || Stored? }

    /** It has written the values of its call; it has released the wait group, too. */
    predicate Wrote() { Own().Some? && !Created? && !Running? }

    predicate ReleasedWaiters() { Announced? || Stored? || Removed? || (Returned? && via.FromFn?) }

    /** It has started executing fn. */
    predicate Ran() { Own().Some? && !Created? }

    predicate Succeeded() { Returned? && result.Some? && result.value.Ok() }
  }

  datatype State = State(cache: map<Key, Val>, calls: map<Key, nat>, records: seq<Call>, mu: Option<nat>,
                         threads: seq<Thread>)

  const Init := State(map[], map[], [], None, [])

  /** A new Get, one step of a thread, the return of a thread's fn, or SetMap as a whole. */
  datatype Event = Begin(key: Key) | Step(t: nat) | FnReturns(t: nat, out: Outcome) | SetMap(m: map<Key, Val>)

  predicate Enabled(s: State, e: Event) {
    match e
    case Begin(_) => true
    case SetMap(_) => s.mu.None?
    case FnReturns(t, _) => t < |s.threads| && s.threads[t].Running? && s.threads[t].call < |s.records|
    case Step(t) =>
      && t < |s.threads|
      && match s.threads[t]
         case Start(_) => s.mu.None?
         case Locked(_) => true
         case Hit(_, _) => true
         case Running(_, _) => false
         case Returned(_, _, _) => false
         case Waiting(_, c) => c < |s.records| && s.records[c].done
         case Finished(_, c) => c < |s.records| && s.mu.None?
         case th => th.call < |s.records|
  }

  function Move(s: State, t: nat, th: Thread): State
    requires t < |s.threads|
  {
    s.(threads := s.threads[t := th])
  }

  function Next(s: State, e: Event): State
    requires Enabled(s, e)
  {
    match e
    case Begin(k) => s.(threads := s.threads + [Start(k)])
    case SetMap(m) => s.(cache := m)
    case FnReturns(t, out) =>
      var Running(k, c) := s.threads[t];
      Move(s, t, Finished(k, c)).(records := s.records[c := s.records[c].(out := Some(out))])
    case Step(t) =>
      match s.threads[t]
      case Start(k) => Move(s, t, Locked(k)).(mu := Some(t))
      case Locked(k) =>
        if k in s.cache then Move(s, t, Hit(k, s.cache[k]))
        else if k in s.calls then Move(s, t, Joined(k, s.calls[k]))
        else
          var c := |s.records|;
          Move(s, t, Created(k, c)).(records := s.records + [Call(k, t, None, false)], calls := s.calls[k := c])
      case Hit(k, v) => Move(s, t, Returned(k, FromCache, Some(Outcome(v, None)))).(mu := None)
      case Joined(k, c) => Move(s, t, Waiting(k, c)).(mu := None)
      case Created(k, c) => Move(s, t, Running(k, c)).(mu := None)
      case Waiting(k, c) => Move(s, t, Released(k, c))
      case Released(k, c) => Move(s, t, Returned(k, FromWait(c), s.records[c].out))
      case Finished(k, c) => Move(s, t, Relocked(k, c)).(mu := Some(t))
      case Relocked(k, c) =>
        Move(s, t, Announced(k, c)).(records := s.records[c := s.records[c].(done := true)])
      case Announced(k, c) =>
        var out := s.records[c].out;
        Move(s, t, Stored(k, c)).(cache := if out.Some? && out.value.Ok() then s.cache[k := out.value.val] else s.cache)
      case Stored(k, c) =>
        Move(s, t, Removed(k, c)).(calls := if k in s.calls && s.calls[k] == c then s.calls - {k} else s.calls)
      case Removed(k, c) => Move(s, t, Returned(k, FromFn(c), s.records[c].out)).(mu := None)
      case _ => s
  }

  // Invariants of every run.

  ghost predicate LockInv(s: State) {
    && (s.mu.Some? ==> s.mu.value < |s.threads|)
    && forall t :: 0 <= t < |s.threads| ==> (s.threads[t].HoldsLock() <==> s.mu == Some(t))
  }

  /** A record and the thread that created it agree. */
  ghost predicate RecordInv(s: State, c: nat)
    requires c < |s.records|
  {
    var r := s.records[c];
    && r.creator < |s.threads|
    && var th := s.threads[r.creator];
       && th.Own() == Some(c) && th.key == r.key
       && (r.out.Some? <==> th.Wrote())
       && (r.done <==> th.ReleasedWaiters())
  }

  ghost predicate ThreadInv(s: State, t: nat)
    requires t < |s.threads|
  {
    var th := s.threads[t];
    && (th.Own().Some? ==> th.Own().value < |s.records| && s.records[th.Own().value].creator == t)
    && (th.Live() ==> th.key in s.calls && s.calls[th.key] == th.call)
    && (th.Other().Some? ==> th.Other().value < |s.records| && s.records[th.Other().value].key == th.key)
    && (th.Released? ==> s.records[th.call].done)
    && (th.Returned? ==> match th.via
                         case FromCache => th.result.Some? && th.result.value.Ok()
                         case FromWait(c) => s.records[c].done && th.result == s.records[c].out
                         case FromFn(c) => th.result == s.records[c].out)
  }

  /** Every entry of `calls` belongs to a thread that is still going to remove it. */
  ghost predicate CallsInv(s: State) {
    forall k :: k in s.calls ==>
      var c := s.calls[k];
      c < |s.records| && s.records[c].key == k && s.records[c].creator < |s.threads|
      && s.threads[s.records[c].creator].Live()
  }

  ghost predicate Inv(s: State) {
    && LockInv(s)
    && (forall c :: 0 <= c < |s.records| ==> RecordInv(s, c))
    && (forall t :: 0 <= t < |s.threads| ==> ThreadInv(s, t))
    && CallsInv(s)
  }

  lemma InvInit()
    ensures Inv(Init)
  {
  }

  /** The thread an event moves, if it was there before. */
  function Mover(e: Event): Option<nat> {
    match e
    case Step(t) => Some(t)
    case FnReturns(t, _) => Some(t)
    case _ => None
  }

  /** What an event leaves alone: other threads, their records, and their entries in `calls`. */
  ghost predicate Frame(s: State, s': State, m: Option<nat>) {
    && |s.threads| <= |s'.threads|
    && (forall t :: 0 <= t < |s.threads| && m != Some(t) ==> s'.threads[t] == s.threads[t])
    && (forall t :: |s.threads| <= t < |s'.threads| ==> s'.threads[t].Start?)
    && |s.records| <= |s'.records|
    && (forall c :: 0 <= c < |s.records| ==>
          && s'.records[c].key == s.records[c].key && s'.records[c].creator == s.records[c].creator
          && (s.records[c].done || m != Some(s.records[c].creator) ==> s'.records[c] == s.records[c]))
    && (forall k :: k in s.calls ==>
          (k in s'.calls && s'.calls[k] == s.calls[k])
          || (s.calls[k] < |s.records| && m == Some(s.records[s.calls[k]].creator)))
  }

  lemma FrameStep(s: State, e: Event)
    requires Inv(s) && Enabled(s, e)
    ensures Frame(s, Next(s, e), Mover(e))
  {
    if Mover(e).Some? {
      var m := Mover(e).value;
      assert ThreadInv(s, m);
      if s.threads[m].Own().Some? {
        assert RecordInv(s, s.threads[m].Own().value);
      }
      FrameMove(s, e, m);
    }
  }

  lemma FrameMove(s: State, e: Event, m: nat)
    requires Enabled(s, e) && Mover(e) == Some(m) && ThreadInv(s, m)
    requires s.threads[m].Own().Some? ==> RecordInv(s, s.threads[m].Own().value)
    ensures Frame(s, Next(s, e), Some(m))
  {
  }

  lemma RecordStep(s: State, e: Event, c: nat)
    requires Inv(s) && Enabled(s, e) && c < |Next(s, e).records|
    ensures RecordInv(Next(s, e), c)
  {
    FrameStep(s, e);
    var s' := Next(s, e);
    if Mover(e).Some? {
      assert ThreadInv(s, Mover(e).value);
    }
    if c < |s.records| {
      assert RecordInv(s, c);
      if Mover(e) == Some(s.records[c].creator) {
        OwnRecordStep(s, e, c);
      }
    }
  }

  lemma OwnRecordStep(s: State, e: Event, c: nat)
    requires Inv(s) && Enabled(s, e) && c < |s.records| && Mover(e) == Some(s.records[c].creator)
    ensures c < |Next(s, e).records| && RecordInv(Next(s, e), c)
  {
    assert RecordInv(s, c);
    assert ThreadInv(s, Mover(e).value);
  }

  /** A thread that does not move keeps its invariant. */
  lemma OtherThreadStep(s: State, s': State, m: Option<nat>, t: nat)
    requires Inv(s) && Frame(s, s', m) && t < |s.threads| && m != Some(t)
    ensures ThreadInv(s', t)
  {
    hide LockInv, CallsInv;
    assert ThreadInv(s, t);
    var th := s.threads[t];
    if th.Own().Some? {
      assert RecordInv(s, th.Own().value);
    }
  }

  lemma MovingThreadStep(s: State, e: Event, t: nat)
    requires Enabled(s, e) && Mover(e) == Some(t) && ThreadInv(s, t) && CallsInv(s)
    requires s.threads[t].Own().Some? ==> RecordInv(s, s.threads[t].Own().value)
    ensures t < |Next(s, e).threads| && ThreadInv(Next(s, e), t)
  {
    var s' := Next(s, e);
    match s.threads[t]
    case Locked(k) => LockedThreadStep(s, t);
    case Running(k, c) => assert s'.threads[t] == Finished(k, c);
    case Stored(k, c) => assert s'.threads[t] == Removed(k, c);
    case _ => OwnThreadStep(s, t);
  }

  lemma LockedThreadStep(s: State, t: nat)
    requires Enabled(s, Step(t)) && s.threads[t].Locked? && CallsInv(s)
    ensures t < |Next(s, Step(t)).threads| && ThreadInv(Next(s, Step(t)), t)
  {
    var s', k := Next(s, Step(t)), s.threads[t].key;
    if k in s.cache {
      assert s'.threads[t] == Hit(k, s.cache[k]);
    } else if k in s.calls {
      assert s'.threads[t] == Joined(k, s.calls[k]);
    } else {
      assert s'.threads[t] == Created(k, |s.records|);
    }
  }

  /** What a step that leaves `calls` alone does to its thread. */
  lemma QuietStep(s: State, t: nat)
    requires Enabled(s, Step(t)) && !s.threads[t].Locked? && !s.threads[t].Stored?
    ensures var s' := Next(s, Step(t));
            && |s'.threads| == |s.threads|
            && var th, th' := s.threads[t], s'.threads[t];
               && th'.key == th.key && th'.Own() == th.Own() && th'.Other() == th.Other()
               && (th'.Live() ==> th.Live() && th'.call == th.call)
               && (th'.Released? ==> th'.call < |s.records| && s.records[th'.call].done)
  {
  }

  lemma QuietReturn(s: State, t: nat)
    requires Enabled(s, Step(t)) && !s.threads[t].Locked? && !s.threads[t].Stored?
    ensures var s' := Next(s, Step(t));
            && |s'.threads| == |s.threads|
            && var th, th' := s.threads[t], s'.threads[t];
               th'.Returned? ==> match th'.via
                                 case FromCache => th'.result.Some? && th'.result.value.Ok()
                                 case FromWait(c) => th == Released(th.key, c) && c < |s.records| && th'.result == s.records[c].out
                                 case FromFn(c) => c < |s.records| && th'.result == s.records[c].out
  {
  }

  lemma QuietRecords(s: State, t: nat)
    requires Enabled(s, Step(t)) && !s.threads[t].Locked? && !s.threads[t].Stored?
    ensures var s' := Next(s, Step(t));
            && s'.calls == s.calls && |s'.records| == |s.records|
            && forall c :: 0 <= c < |s.records| ==>
                 s'.records[c].key == s.records[c].key && s'.records[c].creator == s.records[c].creator
                 && s'.records[c].out == s.records[c].out && (s.records[c].done ==> s'.records[c].done)
  {
  }

  lemma OwnThreadStep(s: State, t: nat)
    requires t < |s.threads| && Enabled(s, Step(t)) && ThreadInv(s, t) && !s.threads[t].Locked? && !s.threads[t].Stored?
    ensures t < |Next(s, Step(t)).threads| && ThreadInv(Next(s, Step(t)), t)
  {
    hide Next, Enabled, Thread.Own, Thread.Other, Thread.Live;
    QuietStep(s, t);
    QuietReturn(s, t);
    QuietRecords(s, t);
    var s' := Next(s, Step(t));
    var th' := s'.threads[t];
    assert th'.Released? ==> s'.records[th'.call].done;
  }

  lemma CallsStep(s: State, e: Event)
    requires Inv(s) && Enabled(s, e)
    ensures CallsInv(Next(s, e))
  {
    FrameStep(s, e);
    var s' := Next(s, e);
    if Mover(e).Some? {
      assert ThreadInv(s, Mover(e).value);
    }
    forall k | k in s'.calls
      ensures s'.calls[k] < |s'.records| && s'.records[s'.calls[k]].key == k
              && s'.records[s'.calls[k]].creator < |s'.threads|
              && s'.threads[s'.records[s'.calls[k]].creator].Live()
    {
      if k in s.calls {
        assert RecordInv(s, s.calls[k]);
      }
    }
  }

  lemma InvStep(s: State, e: Event)
    requires Inv(s) && Enabled(s, e)
    ensures Inv(Next(s, e))
  {
    var s' := Next(s, e);
    FrameStep(s, e);
    CallsStep(s, e);
    forall c | 0 <= c < |s'.records| ensures RecordInv(s', c) {
      RecordStep(s, e, c);
    }
    forall t | 0 <= t < |s'.threads| ensures ThreadInv(s', t) {
      if Mover(e) == Some(t) {
        assert ThreadInv(s, t);
        if s.threads[t].Own().Some? {
          assert RecordInv(s, s.threads[t].Own().value);
        }
        MovingThreadStep(s, e, t);
      } else if t < |s.threads| {
        OtherThreadStep(s, s', Mover(e), t);
      }
    }
    LockStep(s, e);
  }

  lemma LockStep(s: State, e: Event)
    requires Inv(s) && Enabled(s, e)
    ensures LockInv(Next(s, e))
  {
  }
}
