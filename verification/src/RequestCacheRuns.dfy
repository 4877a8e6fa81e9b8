/** What every run of the request cache guarantees, however its threads interleave. */
module RequestCacheRuns {
  import opened Wrappers
  import opened RequestCache

  // Runs.

  predicate Legal(s: State, es: seq<Event>) {
    es == [] || (Legal(s, es[..|es| - 1]) && Enabled(Run(s, es[..|es| - 1]), es[|es| - 1]))
  }

  function Run(s: State, es: seq<Event>): State {
    if es == [] then s
    else
      var before := Run(s, es[..|es| - 1]);
      if Enabled(before, es[|es| - 1]) then Next(before, es[|es| - 1]) else before
  }

  ghost predicate NoSetMap(es: seq<Event>) {
    forall i :: 0 <= i < |es| ==> !es[i].SetMap?
  }

  lemma {:induction false} RunInv(s: State, es: seq<Event>)
    requires Inv(s) && Legal(s, es)
    ensures Inv(Run(s, es))
  {
    if es != [] {
      RunInv(s, es[..|es| - 1]);
      InvStep(Run(s, es[..|es| - 1]), es[|es| - 1]);
    }
  }

  lemma RunMore(s: State, es: seq<Event>, e: Event)
    requires Legal(s, es) && Enabled(Run(s, es), e)
    ensures Legal(s, es + [e]) && Run(s, es + [e]) == Next(Run(s, es), e)
    ensures NoSetMap(es) && !e.SetMap? ==> NoSetMap(es + [e])
  {
    assert (es + [e])[..|es|] == es;
  }

  // Safety in all runs.

  /** At most one thread executes fn for a key at a time. */
  lemma OneFnAtATime(es: seq<Event>, t: nat, u: nat)
    requires Legal(Init, es)
    requires var s := Run(Init, es);
             && t < |s.threads| && u < |s.threads| && s.threads[t].Running? && s.threads[u].Running?
             && s.threads[t].key == s.threads[u].key
    ensures t == u
  {
    InvInit();
    RunInv(Init, es);
    var s := Run(Init, es);
    assert ThreadInv(s, t) && ThreadInv(s, u);
  }

  /** A thread that waited for another one's call returns values that have been written: those the
      creator of the call got from fn, which it returns itself, too. */
  lemma WaiterGetsOutcome(es: seq<Event>, t: nat)
    requires Legal(Init, es)
    requires var s := Run(Init, es); t < |s.threads| && s.threads[t].Returned? && !s.threads[t].via.FromCache?
    ensures var s := Run(Init, es);
            var th := s.threads[t];
            var c := th.via.call;
            && c < |s.records| && s.records[c].key == th.key
            && th.result.Some? && th.result == s.records[c].out
            && var creator := s.records[c].creator;
               creator < |s.threads| && s.threads[creator].Own() == Some(c) && s.threads[creator].key == th.key
               && (s.threads[creator].Returned? ==> s.threads[creator].result == th.result)
  {
    InvInit();
    RunInv(Init, es);
    var s := Run(Init, es);
    assert ThreadInv(s, t);
    var c := s.threads[t].via.call;
    assert RecordInv(s, c);
    assert ThreadInv(s, s.records[c].creator);
  }

  /** What fn returned is never overwritten. */
  lemma OutcomeIsFinal(s: State, e: Event, c: nat)
    requires Inv(s) && Enabled(s, e) && c < |s.records| && s.records[c].out.Some?
    ensures c < |Next(s, e).records| && Next(s, e).records[c].out == s.records[c].out
  {
    assert RecordInv(s, c);
    FrameStep(s, e);
    if Mover(e).Some? {
      assert ThreadInv(s, Mover(e).value);
    }
  }

  /** The event with which fn returned `out` to the creator of call `c`. */
  ghost predicate Gave(s: State, es: seq<Event>, i: int, c: nat, out: Outcome)
    requires c < |s.records|
  {
    0 <= i < |es| && es[i] == FnReturns(s.records[c].creator, out)
  }

  lemma OutcomeStep(s: State, e: Event, c: nat, out: Outcome)
    requires Inv(s) && Enabled(s, e) && c < |Next(s, e).records| && Next(s, e).records[c].out == Some(out)
    ensures (c < |s.records| && s.records[c].out == Some(out) && s.records[c].creator == Next(s, e).records[c].creator)
            || e == FnReturns(Next(s, e).records[c].creator, out)
  {
    FrameStep(s, e);
    if Mover(e).Some? {
      assert ThreadInv(s, Mover(e).value);
    }
    if c < |s.records| {
      assert RecordInv(s, c);
    }
  }

  /** What a call has recorded is what its creator's fn returned, value and error alike; with
      WaiterGetsOutcome, so is what every Get returns that did not find its key in the cache. */
  lemma {:induction false} OutcomeIsFromFn(es: seq<Event>, c: nat) returns (i: int)
    requires Legal(Init, es) && c < |Run(Init, es).records| && Run(Init, es).records[c].out.Some?
    ensures Gave(Run(Init, es), es, i, c, Run(Init, es).records[c].out.value)
  {
    hide Next, Enabled;
    if es != [] {
      var front, e := es[..|es| - 1], es[|es| - 1];
      InvInit();
      RunInv(Init, front);
      var s, out := Run(Init, front), Run(Init, es).records[c].out.value;
      OutcomeStep(s, e, c, out);
      if e == FnReturns(Run(Init, es).records[c].creator, out) {
        i := |es| - 1;
      } else {
        i := OutcomeIsFromFn(front, c);
      }
    }
  }

  // Progress in all runs, given that fn returns.

  ghost predicate CanMove(s: State, t: nat) {
    Enabled(s, Step(t)) || (forall out :: Enabled(s, FnReturns(t, out)))
  }

  /** While some Get has not returned, some thread that has not returned can take a step. */
  lemma SomeoneCanMove(es: seq<Event>, t: nat) returns (u: nat)
    requires Legal(Init, es)
    requires t < |Run(Init, es).threads| && !Run(Init, es).threads[t].Returned?
    ensures u < |Run(Init, es).threads| && !Run(Init, es).threads[u].Returned? && CanMove(Run(Init, es), u)
  {
    InvInit();
    RunInv(Init, es);
    u := Unblocked(Run(Init, es), t);
  }

  lemma Unblocked(s: State, t: nat) returns (u: nat)
    requires Inv(s) && t < |s.threads| && !s.threads[t].Returned?
    ensures u < |s.threads| && !s.threads[u].Returned? && CanMove(s, u)
  {
    if s.mu.Some? {
      u := s.mu.value;
      assert ThreadInv(s, u);
      assert Enabled(s, Step(u));
      return;
    }
    assert ThreadInv(s, t);
    if s.threads[t].Waiting? && !s.records[s.threads[t].call].done {
      var c := s.threads[t].call;
      assert RecordInv(s, c);
      u := s.records[c].creator;
      assert ThreadInv(s, u);
      assert !s.threads[u].HoldsLock();
      assert s.threads[u].Running? || s.threads[u].Finished?;
    } else {
      u := t;
    }
  }

  /** How many steps a thread still takes at most. */
  function Rank(th: Thread): nat {
    match th
    case Start(_) => 10
    case Locked(_) => 9
    case Hit(_, _) => 1
    case Joined(_, _) => 3
    case Waiting(_, _) => 2
    case Released(_, _) => 1
    case Created(_, _) => 8
    case Running(_, _) => 7
    case Finished(_, _) => 6
    case Relocked(_, _) => 5
    case Announced(_, _) => 4
    case Stored(_, _) => 3
    case Removed(_, _) => 2
    case Returned(_, _, _) => 0
  }

  function Work(threads: seq<Thread>): nat {
    if threads == [] then 0 else Work(threads[..|threads| - 1]) + Rank(threads[|threads| - 1])
  }

  lemma {:induction false} WorkDecreases(threads: seq<Thread>, t: nat, th: Thread)
    requires t < |threads| && Rank(th) < Rank(threads[t])
    ensures Work(threads[t := th]) < Work(threads)
  {
    var n := |threads| - 1;
    if t < n {
      WorkDecreases(threads[..n], t, th);
      assert threads[t := th][..n] == threads[..n][t := th];
    } else {
      assert threads[t := th][..n] == threads[..n];
    }
  }

  /** Every step of a thread uses up work, and only a new Get adds some: a run takes at most ten steps
      for each Get, so with SomeoneCanMove every Get returns. */
  lemma {:induction false} StepsAreBounded(s: State, es: seq<Event>)
    requires Legal(s, es)
    ensures Moves(es) + Work(Run(s, es).threads) <= Work(s.threads) + 10 * Begins(es)
  {
    hide Next, Work;
    if es != [] {
      var front, e := es[..|es| - 1], es[|es| - 1];
      StepsAreBounded(s, front);
      OneStepOfWork(Run(s, front), e);
    }
  }

  lemma OneStepOfWork(s: State, e: Event)
    requires Enabled(s, e)
    ensures Work(Next(s, e).threads) + (if e.Step? || e.FnReturns? then 1 else 0)
         <= Work(s.threads) + (if e.Begin? then 10 else 0)
  {
    match e
    case Step(t) => WorkDecreases(s.threads, t, Next(s, e).threads[t]);
    case FnReturns(t, _) => WorkDecreases(s.threads, t, Next(s, e).threads[t]);
    case Begin(k) => assert (s.threads + [Start(k)])[..|s.threads|] == s.threads;
    case SetMap(_) =>
  }

  function Moves(es: seq<Event>): nat {
    if es == [] then 0
    else Moves(es[..|es| - 1]) + (if es[|es| - 1].Step? || es[|es| - 1].FnReturns? then 1 else 0)
  }

  function Begins(es: seq<Event>): nat {
    if es == [] then 0 else Begins(es[..|es| - 1]) + (if es[|es| - 1].Begin? then 1 else 0)
  }

  // Runs without SetMap.

  ghost predicate Success(r: Call) {
    r.out.Some? && r.out.value.Ok()
  }

  /** A call of fn for `k` has succeeded and been announced. */
  ghost predicate Settled(s: State, k: Key) {
    exists c :: 0 <= c < |s.records| && s.records[c].key == k && s.records[c].done && Success(s.records[c])
  }

  /** A successful, announced call is in the cache, or its creator is about to store it. */
  ghost predicate CachedInv(s: State, c: nat)
    requires c < |s.records| && s.records[c].creator < |s.threads|
  {
    var r := s.records[c];
    r.done && Success(r) ==>
      (r.key in s.cache && s.cache[r.key] == r.out.value.val) || s.threads[r.creator].Announced?
  }

  /** Whatever is in the cache comes from a successful call, and no other call is under way. */
  ghost predicate EntryInv(s: State, k: Key)
    requires k in s.cache
  {
    && (exists c :: 0 <= c < |s.records| && s.records[c].key == k && s.records[c].done && Success(s.records[c])
                    && s.records[c].out.value.val == s.cache[k])
    && (forall t :: 0 <= t < |s.threads| && s.threads[t].Live() && s.threads[t].key == k ==> s.threads[t].Stored?)
  }

  ghost predicate FromCacheInv(s: State, t: nat)
    requires t < |s.threads|
  {
    var th := s.threads[t];
    && (th.Hit? ==> th.key in s.cache && s.cache[th.key] == th.val)
    && (th.Returned? && th.via.FromCache? && th.result.Some? ==>
          th.key in s.cache && s.cache[th.key] == th.result.value.val)
  }

  /** At most one call of fn succeeds per key. */
  ghost predicate OneSuccess(s: State) {
    forall c, d | 0 <= c < |s.records| && 0 <= d < |s.records| && Success(s.records[c]) && Success(s.records[d]) ::
      s.records[c].key == s.records[d].key ==> c == d
  }

  ghost predicate ValueInv(s: State) {
    && (forall c :: 0 <= c < |s.records| ==> s.records[c].creator < |s.threads| && CachedInv(s, c))
    && (forall k :: k in s.cache ==> EntryInv(s, k))
    && (forall t :: 0 <= t < |s.threads| ==> FromCacheInv(s, t))
    && OneSuccess(s)
  }

  lemma ValueStep(s: State, e: Event)
    requires Inv(s) && ValueInv(s) && Enabled(s, e) && !e.SetMap?
    ensures ValueInv(Next(s, e))
  {
    InvStep(s, e);
    FrameStep(s, e);
    var s' := Next(s, e);
    forall c | 0 <= c < |s'.records| ensures s'.records[c].creator < |s'.threads| && CachedInv(s', c) {
      assert RecordInv(s', c);
      CachedStep(s, e, c);
    }
    forall k | k in s'.cache ensures EntryInv(s', k) {
      EntryStep(s, e, k);
    }
    forall t | 0 <= t < |s'.threads| ensures FromCacheInv(s', t) {
      FromCacheStep(s, e, t);
    }
    OneSuccessStep(s, e);
  }

  lemma NotYetCached(s: State, t: nat)
    requires ValueInv(s) && t < |s.threads| && s.threads[t].Live() && !s.threads[t].Stored?
    ensures s.threads[t].key !in s.cache
  {
  }

  /** The cache only grows, and only by what a successful call returned. */
  lemma CacheGrows(s: State, e: Event)
    requires Inv(s) && ValueInv(s) && Enabled(s, e) && !e.SetMap?
    ensures var s' := Next(s, e);
            && (forall k :: k in s.cache ==> k in s'.cache && s'.cache[k] == s.cache[k])
            && (forall k :: k in s'.cache && k !in s.cache ==>
                  && Mover(e).Some? && s.threads[Mover(e).value].Announced? && s.threads[Mover(e).value].key == k
                  && s'.threads[Mover(e).value].Stored?
                  && var r := s.records[s.threads[Mover(e).value].call];
                     r.key == k && r.done && Success(r) && s'.cache[k] == r.out.value.val)
  {
    if Mover(e).Some? {
      var m := Mover(e).value;
      assert ThreadInv(s, m);
      if s.threads[m].Announced? {
        assert RecordInv(s, s.threads[m].call);
        NotYetCached(s, m);
      }
    }
  }

  lemma CachedStep(s: State, e: Event, c: nat)
    requires Inv(s) && ValueInv(s) && Enabled(s, e) && !e.SetMap? && c < |Next(s, e).records|
    requires RecordInv(Next(s, e), c)
    ensures CachedInv(Next(s, e), c)
  {
    hide Next;
    FrameStep(s, e);
    CacheGrows(s, e);
    OutcomesStep(s, e, c);
    if c < |s.records| {
      assert RecordInv(s, c) && CachedInv(s, c);
      if Mover(e) == Some(s.records[c].creator) {
        assert ThreadInv(s, s.records[c].creator);
        OwnCachedStep(s, e, c);
      }
    }
  }

  /** The creator of a call stores its value in the step after it announced it. */
  lemma OwnCachedStep(s: State, e: Event, c: nat)
    requires Enabled(s, e) && c < |s.records| && RecordInv(s, c) && Mover(e) == Some(s.records[c].creator)
    requires ThreadInv(s, s.records[c].creator)
    requires var s' := Next(s, e);
             c < |s'.records| && RecordInv(s', c) && forall k :: k in s.cache ==> k in s'.cache && s'.cache[k] == s.cache[k]
    requires CachedInv(s, c)
    ensures CachedInv(Next(s, e), c)
  {
  }

  lemma EntryStep(s: State, e: Event, k: Key)
    requires Inv(s) && ValueInv(s) && Enabled(s, e) && !e.SetMap? && k in Next(s, e).cache
    ensures EntryInv(Next(s, e), k)
  {
    FrameStep(s, e);
    CacheGrows(s, e);
    var s' := Next(s, e);
    var c: nat;
    if k in s.cache {
      assert EntryInv(s, k);
      c :| c < |s.records| && s.records[c].key == k && s.records[c].done && Success(s.records[c])
           && s.records[c].out.value.val == s.cache[k];
    } else {
      var m := Mover(e).value;
      assert ThreadInv(s, m);
      c := s.threads[m].call;
    }
    assert s'.records[c] == s.records[c];
    forall t | 0 <= t < |s'.threads| && s'.threads[t].Live() && s'.threads[t].key == k ensures s'.threads[t].Stored? {
      LiveStep(s, e, k, t);
    }
  }

  lemma LiveStep(s: State, e: Event, k: Key, t: nat)
    requires Inv(s) && ValueInv(s) && Enabled(s, e) && !e.SetMap? && k in Next(s, e).cache
    requires t < |Next(s, e).threads| && Next(s, e).threads[t].Live() && Next(s, e).threads[t].key == k
    ensures Next(s, e).threads[t].Stored?
  {
    hide Next;
    FrameStep(s, e);
    CacheGrows(s, e);
    assert t < |s.threads| ==> ThreadInv(s, t);
    assert k in s.cache ==> EntryInv(s, k);
    if Mover(e).Some? {
      assert ThreadInv(s, Mover(e).value);
      if Mover(e).value == t {
        OwnLiveStep(s, e, k, t);
      }
    }
  }

  lemma OwnLiveStep(s: State, e: Event, k: Key, t: nat)
    requires Enabled(s, e) && Mover(e) == Some(t)
    requires t < |Next(s, e).threads| && Next(s, e).threads[t].Live() && Next(s, e).threads[t].key == k
    requires k in s.cache ==> s.threads[t].Live() && s.threads[t].key == k ==> s.threads[t].Stored?
    requires k !in s.cache ==> Next(s, e).threads[t].Stored?
    ensures Next(s, e).threads[t].Stored?
  {
  }

  lemma FromCacheStep(s: State, e: Event, t: nat)
    requires Inv(s) && ValueInv(s) && Enabled(s, e) && !e.SetMap? && t < |Next(s, e).threads|
    ensures FromCacheInv(Next(s, e), t)
  {
    FrameStep(s, e);
    CacheGrows(s, e);
    if t < |s.threads| {
      assert FromCacheInv(s, t);
      if Mover(e) == Some(t) {
        assert ThreadInv(s, t);
        OwnFromCacheStep(s, e, t);
      }
    }
  }

  lemma OwnFromCacheStep(s: State, e: Event, t: nat)
    requires Enabled(s, e) && Mover(e) == Some(t) && ThreadInv(s, t) && FromCacheInv(s, t)
    requires forall k :: k in s.cache ==> k in Next(s, e).cache && Next(s, e).cache[k] == s.cache[k]
    ensures t < |Next(s, e).threads| && FromCacheInv(Next(s, e), t)
  {
  }

  /** From registering a call until fn returns, no call for that key has succeeded. */
  lemma PendingMeansNoSuccess(s: State, t: nat, d: nat)
    requires Inv(s) && ValueInv(s) && t < |s.threads| && (s.threads[t].Created? || s.threads[t].Running?)
    requires d < |s.records| && s.records[d].key == s.threads[t].key
    ensures !Success(s.records[d])
  {
    NotYetCached(s, t);
    assert ThreadInv(s, t) && RecordInv(s, d) && CachedInv(s, d);
    assert ThreadInv(s, s.records[d].creator);
  }

  /** Only the return of fn writes an outcome, that of the returning thread's call. */
  lemma OutcomesStep(s: State, e: Event, c: nat)
    requires Enabled(s, e) && c < |Next(s, e).records|
    ensures c < |s.records| && !(e.FnReturns? && s.threads[e.t].call == c) ==>
              Next(s, e).records[c].out == s.records[c].out && Next(s, e).records[c].key == s.records[c].key
    ensures c >= |s.records| ==> Next(s, e).records[c].out.None?
    ensures e.FnReturns? ==> e.t < |s.threads| && s.threads[e.t].Running? && |Next(s, e).records| == |s.records|
  {
  }

  lemma OneSuccessStep(s: State, e: Event)
    requires Inv(s) && ValueInv(s) && Enabled(s, e) && !e.SetMap?
    ensures OneSuccess(Next(s, e))
  {
    hide Next, Enabled;
    FrameStep(s, e);
    var s' := Next(s, e);
    forall c, d | 0 <= c < d < |s'.records| && s'.records[c].key == s'.records[d].key
      ensures !Success(s'.records[c]) || !Success(s'.records[d])
    {
      OutcomesStep(s, e, c);
      OutcomesStep(s, e, d);
      if e.FnReturns? {
        var own := s.threads[e.t].call;
        assert ThreadInv(s, e.t) && RecordInv(s, own);
        if c == own {
          PendingMeansNoSuccess(s, e.t, d);
        } else if d == own {
          PendingMeansNoSuccess(s, e.t, c);
        }
      }
    }
  }

  lemma {:induction false} RunValues(es: seq<Event>)
    requires Legal(Init, es) && NoSetMap(es)
    ensures Inv(Run(Init, es)) && ValueInv(Run(Init, es))
  {
    if es == [] {
      InvInit();
    } else {
      var front := es[..|es| - 1];
      RunValues(front);
      InvStep(Run(Init, front), es[|es| - 1]);
      ValueStep(Run(Init, front), es[|es| - 1]);
    }
  }

  /** A Get that returned successfully returned the value of the one successful call for its key. */
  lemma SuccessIsSettled(s: State, t: nat) returns (c: nat)
    requires Inv(s) && ValueInv(s) && t < |s.threads| && s.threads[t].Succeeded()
    ensures c < |s.records| && s.records[c].key == s.threads[t].key && s.records[c].done && Success(s.records[c])
    ensures s.records[c].out.value.val == s.threads[t].result.value.val
  {
    var th := s.threads[t];
    assert ThreadInv(s, t);
    match th.via
    case FromCache =>
      assert FromCacheInv(s, t) && EntryInv(s, th.key);
      c :| c < |s.records| && s.records[c].key == th.key && s.records[c].done && Success(s.records[c])
           && s.records[c].out.value.val == s.cache[th.key];
    case FromWait(call) => c := call;
    case FromFn(call) =>
      c := call;
      assert RecordInv(s, c);
  }

  /** All Gets of one key that return successfully return the same value. */
  lemma SuccessesAgree(es: seq<Event>, t: nat, u: nat)
    requires Legal(Init, es) && NoSetMap(es)
    requires var s := Run(Init, es);
             && t < |s.threads| && u < |s.threads| && s.threads[t].key == s.threads[u].key
             && s.threads[t].Succeeded() && s.threads[u].Succeeded()
    ensures Run(Init, es).threads[t].result.value.val == Run(Init, es).threads[u].result.value.val
  {
    RunValues(es);
    var c := SuccessIsSettled(Run(Init, es), t);
    var d := SuccessIsSettled(Run(Init, es), u);
  }

  /** At most one call of fn ever succeeds per key. */
  lemma OneCallSucceeds(es: seq<Event>, c: nat, d: nat)
    requires Legal(Init, es) && NoSetMap(es)
    requires var s := Run(Init, es);
             && c < |s.records| && d < |s.records| && s.records[c].key == s.records[d].key
             && Success(s.records[c]) && Success(s.records[d])
    ensures c == d
  {
    RunValues(es);
  }

  /** Of two calls for one key the earlier one has failed and is over. */
  ghost predicate EarlierFailed(s: State) {
    forall c, d | 0 <= c < d < |s.records| && s.records[c].key == s.records[d].key ::
      s.records[c].done && s.records[c].out.Some? && !Success(s.records[c])
  }

  /** When a call is registered, all calls for its key are over and have failed. */
  lemma NewCallStep(s: State, t: nat, c: nat)
    requires Inv(s) && ValueInv(s) && Enabled(s, Step(t)) && s.threads[t].Locked?
    requires s.threads[t].key !in s.cache && s.threads[t].key !in s.calls
    requires c < |s.records| && s.records[c].key == s.threads[t].key
    ensures s.records[c].done && s.records[c].out.Some? && !Success(s.records[c])
  {
    assert RecordInv(s, c) && CachedInv(s, c);
    assert ThreadInv(s, s.records[c].creator);
  }

  lemma EarlierFailedStep(s: State, e: Event)
    requires Inv(s) && ValueInv(s) && EarlierFailed(s) && Enabled(s, e) && !e.SetMap?
    ensures EarlierFailed(Next(s, e))
  {
    FrameStep(s, e);
    var s' := Next(s, e);
    forall c, d | 0 <= c < d < |s'.records| && s'.records[c].key == s'.records[d].key
      ensures s'.records[c].done && s'.records[c].out.Some? && !Success(s'.records[c])
    {
      if d == |s.records| {
        NewCallStep(s, e.t, c);
      }
      assert s'.records[c] == s.records[c];
    }
  }

  lemma {:induction false} RunEarlierFailed(es: seq<Event>)
    requires Legal(Init, es) && NoSetMap(es)
    ensures EarlierFailed(Run(Init, es))
  {
    if es != [] {
      var front := es[..|es| - 1];
      RunEarlierFailed(front);
      RunValues(front);
      EarlierFailedStep(Run(Init, front), es[|es| - 1]);
    }
  }

  /** fn is called again for a key only after every earlier call of it has returned an error. */
  lemma AgainOnlyAfterFailure(es: seq<Event>, c: nat, d: nat)
    requires Legal(Init, es) && NoSetMap(es)
    requires c < d < |Run(Init, es).records| && Run(Init, es).records[c].key == Run(Init, es).records[d].key
    ensures Run(Init, es).records[c].out.Some? && !Run(Init, es).records[c].out.value.Ok()
  {
    RunEarlierFailed(es);
  }

  // When fn is called again.

  /** Without a pending call, a key is cached exactly if fn has succeeded for it. */
  lemma CachedIffSucceeded(s: State, k: Key)
    requires Inv(s) && ValueInv(s) && k !in s.calls
    ensures k in s.cache <==> exists d :: 0 <= d < |s.records| && s.records[d].key == k && Success(s.records[d])
  {
    if k in s.cache {
      assert EntryInv(s, k);
    }
    forall d | 0 <= d < |s.records| && s.records[d].key == k && Success(s.records[d]) ensures k in s.cache {
      assert RecordInv(s, d) && CachedInv(s, d);
      assert ThreadInv(s, s.records[d].creator);
    }
  }

  /** A Get that meets neither a pending call nor another holder of the lock runs fn if and only if no
      call of fn for its key has succeeded before: every failure makes the next Get call fn again. */
  lemma CallsFnIff(es: seq<Event>, k: Key) returns (more: seq<Event>)
    requires Legal(Init, es) && NoSetMap(es) && Run(Init, es).mu.None? && k !in Run(Init, es).calls
    ensures var s, n := Run(Init, es), |Run(Init, es).threads|;
            && more == es + [Begin(k)] + [Step(n)] + [Step(n)] + [Step(n)]
            && Legal(Init, more) && NoSetMap(more) && |Run(Init, more).threads| == n + 1
            && (Run(Init, more).threads[n].Running? <==>
                  forall d :: 0 <= d < |s.records| && s.records[d].key == k ==> !Success(s.records[d]))
            && (!Run(Init, more).threads[n].Running? ==> Run(Init, more).threads[n].Succeeded())
  {
    hide Legal, Run, NoSetMap;
    RunValues(es);
    var s := Run(Init, es);
    CachedIffSucceeded(s, k);
    var n := |s.threads|;
    more := es + [Begin(k)];
    RunMore(Init, es, Begin(k));
    RunMore(Init, more, Step(n));
    more := more + [Step(n)];
    RunMore(Init, more, Step(n));
    more := more + [Step(n)];
    RunMore(Init, more, Step(n));
    more := more + [Step(n)];
  }

  /** A Get that has the cache to itself is under way, with its call registered. */
  function During(s: State, k: Key, th: Thread, out: Option<Outcome>, done: bool, mu: Option<nat>): State {
    s.(mu := mu, records := s.records + [Call(k, |s.threads|, out, done)], calls := s.calls[k := |s.records|],
       threads := s.threads + [th])
  }

  /** What it leaves behind when its fn fails. */
  function AfterFailure(s: State, k: Key, out: Outcome): State {
    s.(records := s.records + [Call(k, |s.threads|, Some(out), true)],
       threads := s.threads + [Returned(k, FromFn(|s.records|), Some(out))])
  }

  ghost predicate Free(es: seq<Event>, k: Key) {
    && Legal(Init, es) && NoSetMap(es)
    && Run(Init, es).mu.None? && k !in Run(Init, es).calls && k !in Run(Init, es).cache
  }

  lemma StartFn(es: seq<Event>, k: Key) returns (more: seq<Event>)
    requires Free(es, k)
    ensures Legal(Init, more) && NoSetMap(more)
    ensures var s := Run(Init, es); Run(Init, more) == During(s, k, Running(k, |s.records|), None, false, None)
  {
    hide Legal, Run, NoSetMap;
    var n := |Run(Init, es).threads|;
    RunMore(Init, es, Begin(k));
    more := es + [Begin(k)];
    RunMore(Init, more, Step(n));
    more := more + [Step(n)];
    RunMore(Init, more, Step(n));
    more := more + [Step(n)];
    RunMore(Init, more, Step(n));
    more := more + [Step(n)];
  }

  lemma AnnounceFailure(es: seq<Event>, k: Key, out: Outcome) returns (more: seq<Event>)
    requires Free(es, k)
    ensures Legal(Init, more) && NoSetMap(more)
    ensures var s := Run(Init, es);
            Run(Init, more) == During(s, k, Announced(k, |s.records|), Some(out), true, Some(|s.threads|))
  {
    hide Legal, Run, NoSetMap;
    var n := |Run(Init, es).threads|;
    more := StartFn(es, k);
    RunMore(Init, more, FnReturns(n, out));
    more := more + [FnReturns(n, out)];
    RunMore(Init, more, Step(n));
    more := more + [Step(n)];
    RunMore(Init, more, Step(n));
    more := more + [Step(n)];
  }

  lemma FailingGet(es: seq<Event>, k: Key, out: Outcome) returns (more: seq<Event>)
    requires Free(es, k) && !out.Ok()
    ensures Legal(Init, more) && NoSetMap(more) && Run(Init, more) == AfterFailure(Run(Init, es), k, out)
  {
    hide Legal, Run, NoSetMap;
    var s, n := Run(Init, es), |Run(Init, es).threads|;
    more := AnnounceFailure(es, k, out);
    RunMore(Init, more, Step(n));
    more := more + [Step(n)];
    RunMore(Init, more, Step(n));
    more := more + [Step(n)];
    RunMore(Init, more, Step(n));
    more := more + [Step(n)];
    assert s.calls[k := |s.records|] - {k} == s.calls;
  }

  /** For every number there is a run in which that many Gets of one key have each called fn, all having
      failed: fn is not called only once. */
  lemma {:induction false} CalledAnyNumberOfTimes(k: Key, out: Outcome, times: nat) returns (es: seq<Event>)
    requires !out.Ok()
    ensures Legal(Init, es) && NoSetMap(es) && |Run(Init, es).threads| == times
    ensures Run(Init, es).mu.None? && Run(Init, es).calls == map[] && Run(Init, es).cache == map[]
    ensures forall t :: 0 <= t < times ==> Run(Init, es).threads[t].Ran() && Run(Init, es).threads[t].key == k
  {
    if times == 0 {
      es := [];
    } else {
      es := CalledAnyNumberOfTimes(k, out, times - 1);
      es := FailingGet(es, k, out);
    }
  }

  /** Once a Get of `k` has returned successfully - from the cache, from its own fn, or released
      before the value was stored - no thread starts fn for `k` any more. */
  lemma {:induction false} NoFnAfterSuccess(es: seq<Event>, t: nat, later: seq<Event>, u: nat)
    requires Legal(Init, es) && NoSetMap(es) && Legal(Run(Init, es), later) && NoSetMap(later)
    requires t < |Run(Init, es).threads| && Run(Init, es).threads[t].Succeeded()
    requires var s' := Run(Run(Init, es), later);
             u < |s'.threads| && s'.threads[u].Ran() && s'.threads[u].key == Run(Init, es).threads[t].key
    ensures u < |Run(Init, es).threads| && Run(Init, es).threads[u].Ran()
    ensures Run(Init, es).threads[u].key == Run(Init, es).threads[t].key
  {
    RunValues(es);
    var s := Run(Init, es);
    var c := SuccessIsSettled(s, t);
    StaysSettled(s, later, s.threads[t].key, u);
  }

  lemma {:induction false} StaysSettled(s: State, es: seq<Event>, k: Key, u: nat)
    requires Inv(s) && ValueInv(s) && Settled(s, k) && Legal(s, es) && NoSetMap(es)
    ensures Inv(Run(s, es)) && ValueInv(Run(s, es)) && Settled(Run(s, es), k)
    ensures u < |Run(s, es).threads| && Run(s, es).threads[u].Ran() && Run(s, es).threads[u].key == k ==>
              u < |s.threads| && s.threads[u].Ran() && s.threads[u].key == k
  {
    if es != [] {
      var front, e := es[..|es| - 1], es[|es| - 1];
      StaysSettled(s, front, k, u);
      InvStep(Run(s, front), e);
      ValueStep(Run(s, front), e);
      SettledStep(Run(s, front), e, k, u);
    }
  }

  lemma SettledStep(s: State, e: Event, k: Key, u: nat)
    requires Inv(s) && ValueInv(s) && Settled(s, k) && Enabled(s, e) && !e.SetMap?
    ensures Settled(Next(s, e), k)
    ensures u < |Next(s, e).threads| && Next(s, e).threads[u].Ran() && Next(s, e).threads[u].key == k ==>
              u < |s.threads| && s.threads[u].Ran() && s.threads[u].key == k
  {
    hide Next;
    FrameStep(s, e);
    var s' := Next(s, e);
    var c: nat :| c < |s.records| && s.records[c].key == k && s.records[c].done && Success(s.records[c]);
    assert s'.records[c] == s.records[c];
    if u < |s.threads| && s.threads[u].Created? && s.threads[u].key == k {
      PendingMeansNoSuccess(s, u, c);
    }
    if Mover(e).Some? {
      assert ThreadInv(s, Mover(e).value);
      if Mover(e) == Some(u) {
        OwnRanStep(s, e, u);
      }
    }
  }

  /** A thread starts fn only from Created. */
  lemma OwnRanStep(s: State, e: Event, t: nat)
    requires Enabled(s, e) && Mover(e) == Some(t) && ThreadInv(s, t)
    ensures t < |s.threads| && t < |Next(s, e).threads| && Next(s, e).threads[t].key == s.threads[t].key
    ensures Next(s, e).threads[t].Ran() ==> s.threads[t].Ran() || s.threads[t].Created?
  {
  }
}
