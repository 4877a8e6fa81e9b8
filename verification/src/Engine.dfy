/** veles/detect.go: the detection engine, which reads a stream through one reused buffer. */
module Engine {
  import opened Detection
  import opened Wrappers
  import Uint32

  datatype ReadError = NoError | EndOfStream | Broken

  /** A stream with `content`; after its last byte it reports either its end or a failure. */
  class Reader {
    const content: seq<byte>
    const failing: bool
    var pos: nat

    constructor (content: seq<byte>, failing: bool)
      ensures this.content == content && this.failing == failing && pos == 0
    {
      this.content, this.failing := content, failing;
      pos := 0;
    }

    /** io.ReadFull into buf[lo..hi]. */
    method ReadFull(buf: array<byte>, lo: nat, hi: nat) returns (n: nat, err: ReadError)
      requires lo <= hi <= buf.Length && pos <= |content|
      modifies this, buf
      ensures n == if hi - lo <= |content| - old(pos) then hi - lo else |content| - old(pos)
      ensures pos == old(pos) + n && pos <= |content|
      ensures buf[lo..lo + n] == content[old(pos)..pos]
      ensures buf[..lo] == old(buf[..lo])
      ensures err == if n == hi - lo then NoError else if failing then Broken else EndOfStream
    {
      n := if hi - lo <= |content| - pos then hi - lo else |content| - pos;
      forall i | 0 <= i < n {
        buf[lo + i] := content[pos + i];
      }
      pos := pos + n;
      err := if n == hi - lo then NoError else if failing then Broken else EndOfStream;
    }
  }

  /** A cancellation signal: set from the `limit`-th time on that somebody asks, or never. */
  class Context {
    const limit: Option<nat>
    var polls: nat

    constructor (limit: Option<nat>)
      ensures this.limit == limit && polls == 0
    {
      this.limit := limit;
      polls := 0;
    }

    predicate Done(poll: int) {
      limit.Some? && limit.value <= poll
    }

    method Err() returns (cancelled: bool)
      modifies this
      ensures cancelled == Done(old(polls)) && polls == old(polls) + 1
    {
      cancelled := Done(polls);
      polls := polls + 1;
    }
  }

  datatype EngineOption = WithReadLen(len: nat) | WithRetainLen(len: nat)

  /** The last option that sets the read length is at `i`. */
  predicate LastRead(opts: seq<EngineOption>, i: int) {
    0 <= i < |opts| && opts[i].WithReadLen? && forall j :: i < j < |opts| ==> !opts[j].WithReadLen?
  }

  predicate LastRetain(opts: seq<EngineOption>, i: int) {
    0 <= i < |opts| && opts[i].WithRetainLen? && forall j :: i < j < |opts| ==> !opts[j].WithRetainLen?
  }

  /** `len` is what the last option for the read length says, or the default if there is none. */
  ghost predicate ReadLenIs(opts: seq<EngineOption>, standard: nat, len: nat) {
    || (exists i :: LastRead(opts, i) && len == opts[i].len)
    || (len == standard && forall i :: 0 <= i < |opts| ==> !opts[i].WithReadLen?)
  }

  ghost predicate RetainLenIs(opts: seq<EngineOption>, standard: nat, len: nat) {
    || (exists i :: LastRetain(opts, i) && len == opts[i].len)
    || (len == standard && forall i :: 0 <= i < |opts| ==> !opts[i].WithRetainLen?)
  }

  /** One more option overrides the ones before it of its own kind, and no others. */
  lemma OneMoreOption(opts: seq<EngineOption>, opt: EngineOption, standard: nat, len: nat)
    ensures opt.WithReadLen? ==>
              ReadLenIs(opts + [opt], standard, opt.len)
              && (RetainLenIs(opts, standard, len) ==> RetainLenIs(opts + [opt], standard, len))
    ensures opt.WithRetainLen? ==>
              RetainLenIs(opts + [opt], standard, opt.len)
              && (ReadLenIs(opts, standard, len) ==> ReadLenIs(opts + [opt], standard, len))
  {
    var more := opts + [opt];
    assert more[|opts|] == opt;
    if opt.WithReadLen? {
      assert LastRead(more, |opts|);
      if i :| LastRetain(opts, i) && len == opts[i].len {
        assert LastRetain(more, i);
      }
    } else {
      assert LastRetain(more, |opts|);
      if i :| LastRead(opts, i) && len == opts[i].len {
        assert LastRead(more, i);
      }
    }
  }

  lemma OneRetainLen(opts: seq<EngineOption>, standard: nat, len: nat, len': nat)
    requires RetainLenIs(opts, standard, len) && RetainLenIs(opts, standard, len')
    ensures len == len'
  {
    if i :| LastRetain(opts, i) && len == opts[i].len {
      var j :| LastRetain(opts, j) && len' == opts[j].len;
    }
  }

  const MIN_READ_LEN := 64 * 1024
  const MIN_RETAIN_LEN := 1024

  function Max(a: nat, b: nat): nat {
    if a >= b then a else b
  }

  function Longest<S>(ds: seq<Detector<S>>): nat {
    if ds == [] then 0 else Max(Longest(ds[..|ds| - 1]), ds[|ds| - 1].maxSecretLen)
  }

  lemma {:induction false} LongestIsLeast<S>(ds: seq<Detector<S>>, len: nat)
    ensures AllFit(ds, len) <==> Longest(ds) <= len
  {
    if ds != [] {
      var front := ds[..|ds| - 1];
      LongestIsLeast(front, len);
      assert ds == front + [ds[|ds| - 1]];
    }
  }

  /** veles/detect.go NewDetectionEngine; None stands for its two errors. The default lengths are at
      least the rounded-up length of the longest secret; the engine is refused exactly for an empty
      list of detectors or when the options leave too few retained bytes. */
  method NewDetectionEngine<S(!new)>(ds: seq<Detector<S>>, opts: seq<EngineOption>)
    returns (engine: Option<DetectionEngine<S>>)
    requires AllFit(ds, Uint32.WORD - 1)
    ensures engine.Some? ==> ds != [] && engine.value.Valid() && engine.value.ds == ds
    ensures engine.Some? ==> forall d: nat :: Uint32.RoundsUp(Longest(ds), d) ==>
              && ReadLenIs(opts, Max(64 * 1024, d), engine.value.readLen)
              && RetainLenIs(opts, Max(1024, d), engine.value.retainLen)
    ensures ds != [] ==> forall d: nat, retain: nat ::
              Uint32.RoundsUp(Longest(ds), d) && RetainLenIs(opts, Max(1024, d), retain) ==>
                (engine.Some? <==> AllFit(ds, retain))
  {
    hide AllFit, Uint32.RoundsUp;
    if |ds| == 0 {
      return None;
    }
    var longest := 0;
    for i := 0 to |ds|
      invariant longest == Longest(ds[..i])
    {
      assert ds[..i + 1][..i] == ds[..i];
      var m := ds[i].maxSecretLen;
      if m > longest {
        longest := m;
      }
    }
    assert ds[..|ds|] == ds;
    LongestIsLeast(ds, Uint32.WORD - 1);
    var defaultLen := Uint32.NextPowerOf2(longest);
    var readLen, retainLen := Max(MIN_READ_LEN, defaultLen), Max(MIN_RETAIN_LEN, defaultLen);
    for i := 0 to |opts|
      invariant ReadLenIs(opts[..i], Max(MIN_READ_LEN, defaultLen), readLen)
      invariant RetainLenIs(opts[..i], Max(MIN_RETAIN_LEN, defaultLen), retainLen)
    {
      assert opts[..i + 1] == opts[..i] + [opts[i]];
      OneMoreOption(opts[..i], opts[i], Max(MIN_READ_LEN, defaultLen), readLen);
      OneMoreOption(opts[..i], opts[i], Max(MIN_RETAIN_LEN, defaultLen), retainLen);
      match opts[i]
      case WithReadLen(len) => readLen := len;
      case WithRetainLen(len) => retainLen := len;
    }
    assert opts[..|opts|] == opts;
    LongestIsLeast(ds, retainLen);
    forall retain: nat | RetainLenIs(opts, Max(MIN_RETAIN_LEN, defaultLen), retain) ensures retain == retainLen {
      OneRetainLen(opts, Max(MIN_RETAIN_LEN, defaultLen), retain, retainLen);
    }
    forall d: nat | Uint32.RoundsUp(longest, d) ensures d == defaultLen {
      Uint32.RoundsUpToOne(longest, d, defaultLen);
    }
    if retainLen < longest {
      return None;
    }
    var e := new DetectionEngine(ds, readLen, retainLen);
    engine := Some(e);
  }

  /** Without options an engine is refused, given detectors, exactly for secrets of more than 2^31 bytes. */
  lemma DefaultsSuffice<S>(ds: seq<Detector<S>>, d: nat)
    requires AllFit(ds, Uint32.WORD - 1) && Uint32.RoundsUp(Longest(ds), d)
    ensures AllFit(ds, Max(MIN_RETAIN_LEN, d)) <==> AllFit(ds, Uint32.HALF)
  {
    hide Uint32.Pow2, AllFit;
    LongestIsLeast(ds, Max(MIN_RETAIN_LEN, d));
    LongestIsLeast(ds, Uint32.HALF);
  }

  datatype Status = Completed | Cancelled | ReadFailed

  class DetectionEngine<S(!new)> {
    const ds: seq<Detector<S>>
    const readLen: nat
    const retainLen: nat

    /** What NewDetectionEngine guarantees. */
    ghost predicate Valid() {
      AllFit(ds, retainLen)
    }

    constructor (ds: seq<Detector<S>>, readLen: nat, retainLen: nat)
      requires AllFit(ds, retainLen)
      ensures Valid() && this.ds == ds && this.readLen == readLen && this.retainLen == retainLen
    {
      this.ds, this.readLen, this.retainLen := ds, readLen, retainLen;
    }

    method DetectAll(data: seq<byte>) returns (secrets: seq<S>)
      ensures secrets == Gather(ds, Whole(data))
    {
      hide Secrets, StartingBelow;
      secrets := [];
      for i := 0 to |ds|
        invariant secrets == Gather(ds[..i], Whole(data))
      {
        assert ds[..i + 1][..i] == ds[..i];
        secrets := secrets + Secrets(ds[i].find(data));
      }
      assert ds[..|ds|] == ds;
    }

    method DetectLeft(data: seq<byte>) returns (secrets: seq<S>)
      ensures secrets == Gather(ds, Left(data))
    {
      hide Secrets, StartingBelow;
      secrets := [];
      for i := 0 to |ds|
        invariant secrets == Gather(ds[..i], Left(data))
      {
        assert ds[..i + 1][..i] == ds[..i];
        var right := |data| - ds[i].maxSecretLen;
        var found := SkipFrom(ds[i].find(data), right);
        secrets := secrets + found;
      }
      assert ds[..|ds|] == ds;
    }

    method DetectRight(data: seq<byte>) returns (secrets: seq<S>)
      requires Valid() && retainLen <= |data|
      ensures secrets == Gather(ds, Right(data, retainLen))
    {
      hide Secrets, StartingBelow;
      secrets := [];
      for i := 0 to |ds|
        invariant secrets == Gather(ds[..i], Right(data, retainLen))
      {
        assert ds[..i + 1][..i] == ds[..i];
        var left := retainLen - ds[i].maxSecretLen;
        secrets := secrets + Secrets(ds[i].find(data[left..]));
      }
      assert ds[..|ds|] == ds;
    }

    method DetectMiddle(data: seq<byte>) returns (secrets: seq<S>)
      requires Valid() && retainLen <= |data|
      ensures secrets == Gather(ds, Middle(data, retainLen))
    {
      hide Secrets, StartingBelow;
      secrets := [];
      for i := 0 to |ds|
        invariant secrets == Gather(ds[..i], Middle(data, retainLen))
      {
        assert ds[..i + 1][..i] == ds[..i];
        var left := retainLen - ds[i].maxSecretLen;
        var right := |data| - left - ds[i].maxSecretLen;
        var found := SkipFrom(ds[i].find(data[left..]), right);
        secrets := secrets + found;
      }
      assert ds[..|ds|] == ds;
    }

    /** Moves the last `retainLen` bytes of the full buffer to its front and reads behind them.
        `got` bytes of `stream` have been read before. */
    method Refill(buf: array<byte>, r: Reader, ghost stream: seq<byte>, ghost got: nat)
      returns (n: nat, err: ReadError)
      requires buf.Length == readLen + retainLen && retainLen <= got <= |stream| <= |r.content|
      requires stream == r.content[|r.content| - |stream|..] && r.pos == |r.content| - |stream| + got
      requires buf[readLen..] == stream[got - retainLen..got]
      modifies buf, r
      ensures n == if readLen <= |stream| - got then readLen else |stream| - got
      ensures r.pos == old(r.pos) + n
      ensures buf[..retainLen + n] == stream[got - retainLen..got + n]
      ensures err == if n == readLen then NoError else if r.failing then Broken else EndOfStream
    {
      forall i | 0 <= i < retainLen {
        buf[i] := buf[readLen + i];
      }
      assert buf[..retainLen] == stream[got - retainLen..got];
      n, err := r.ReadFull(buf, retainLen, readLen + retainLen);
      Spliced(buf[..], retainLen, n, r.content, stream, got);
    }

    /** Chunked detection reports what detection over the whole stream at once reports; cancelled
        at the head of the loop, it reports what starts early enough in the part read so far. With a
        read length of 0 it only returns, by cancellation, if it is ever cancelled, unless the stream
        does not fill the retained bytes. */
    method Detect(ctx: Context, r: Reader) returns (secrets: seq<S>, status: Status)
      requires r.pos <= |r.content|
      requires Valid() && (readLen > 0 || ctx.limit.Some? || |r.content| - r.pos < retainLen)
      modifies ctx, r
      ensures old(ctx.polls) < ctx.polls
      ensures forall i :: old(ctx.polls) <= i < ctx.polls - 1 ==> !ctx.Done(i)
      ensures status == Cancelled <==> ctx.Done(ctx.polls - 1)
      ensures var stream, heads := r.content[old(r.pos)..], ctx.polls - old(ctx.polls) - 1;
              && (status != Cancelled ==> LoopEntries(readLen, retainLen, |stream|, heads))
              && (readLen == 0 && retainLen <= |stream| ==> status == Cancelled)
              && (status == Completed ==> !r.failing)
              && (status == ReadFailed ==> r.failing && secrets == [])
              && (status == Cancelled && heads == 0 ==> secrets == [])
              && (status == Cancelled && heads > 0 ==> BytesRead(readLen, retainLen, heads) <= |stream|)
              && (AllLocal(ds) && status == Completed ==>
                    multiset(secrets) == multiset(Gather(ds, Whole(stream))))
              && (AllLocal(ds) && status == Cancelled && heads > 0 ==>
                    multiset(secrets) == multiset(Gather(ds, Early(stream, BytesRead(readLen, retainLen, heads)))))
    {
      hide Gather, AllLocal, Taken, BytesRead;
      ghost var start, stream := r.pos, r.content[r.pos..];
      LoopEndsIff(readLen, retainLen, |stream|);
      var cancelled := ctx.Err();
      if cancelled {
        return [], Cancelled;
      }
      var cap := readLen + retainLen;
      FirstRead(readLen, retainLen);
      var buf := new byte[cap];
      var n, err := r.ReadFull(buf, 0, cap);
      if err != NoError {
        if err == Broken {
          return [], ReadFailed;
        }
        assert buf[0..0 + n] == r.content[start..start + n] == stream;
        assert buf[..n] == buf[0..0 + n];
        secrets := DetectAll(buf[..n]);
        return secrets, Completed;
      }
      assert buf[0..0 + cap] == r.content[start..start + cap] == stream[..cap];
      assert buf[..cap] == buf[0..0 + cap];
      secrets := DetectLeft(buf[..cap]);
      TakenFirst(ds, readLen, retainLen, stream);
      secrets, status := DetectRest(ctx, r, buf, secrets, stream);
      if AllLocal(ds) && status != ReadFailed {
        ghost var heads := ctx.polls - old(ctx.polls) - 1;
        if status == Completed {
          TakenAndRightIsWhole(ds, readLen, retainLen, stream, heads - 1);
        } else {
          TakenIsEarly(ds, readLen, retainLen, stream, heads - 1);
        }
      }
    }

    /** Refills the buffer and searches it: all of it if it is full again, the rest of the stream if that
        ends. */
    method ReadOn(buf: array<byte>, r: Reader, ghost stream: seq<byte>, ghost got: nat)
      returns (found: seq<S>, err: ReadError)
      requires Valid() && buf.Length == readLen + retainLen && retainLen <= got <= |stream| <= |r.content|
      requires stream == r.content[|r.content| - |stream|..] && r.pos == |r.content| - |stream| + got
      requires buf[readLen..] == stream[got - retainLen..got]
      modifies buf, r
      ensures err == NoError <==> got + readLen <= |stream|
      ensures err == NoError ==>
                && r.pos == old(r.pos) + readLen && buf[readLen..] == stream[got + readLen - retainLen..got + readLen]
                && found == Gather(ds, Middle(stream[got - retainLen..got + readLen], retainLen))
      ensures err != NoError ==> (err == Broken <==> r.failing)
      ensures err == EndOfStream ==> found == Gather(ds, Right(stream[got - retainLen..], retainLen))
    {
      hide Gather;
      var n;
      n, err := Refill(buf, r, stream, got);
      if err == Broken {
        return [], err;
      }
      if err == EndOfStream {
        assert buf[..retainLen + n] == stream[got - retainLen..];
        found := DetectRight(buf[..retainLen + n]);
        return;
      }
      ghost var window := stream[got - retainLen..got + readLen];
      assert buf[..] == buf[..retainLen + n] == window;
      assert buf[readLen..] == buf[..][readLen..readLen + retainLen];
      SliceOfSlice(stream, got - retainLen, got + readLen, readLen, readLen + retainLen);
      found := DetectMiddle(buf[..]);
    }

    /** The loop of Detect, entered with a full buffer. */
    method DetectRest(ctx: Context, r: Reader, buf: array<byte>, first: seq<S>, ghost stream: seq<byte>)
      returns (secrets: seq<S>, status: Status)
      requires Valid() && (readLen > 0 || ctx.limit.Some?)
      requires |stream| <= |r.content| && stream == r.content[|r.content| - |stream|..]
      requires BytesRead(readLen, retainLen, 1) == readLen + retainLen <= |stream|
      requires r.pos == |r.content| - |stream| + readLen + retainLen
      requires buf.Length == readLen + retainLen && buf[..] == stream[..readLen + retainLen]
      requires first == Taken(ds, readLen, retainLen, stream, 0)
      modifies ctx, r, buf
      ensures old(ctx.polls) < ctx.polls
      ensures forall i :: old(ctx.polls) <= i < ctx.polls - 1 ==> !ctx.Done(i)
      ensures status == Cancelled <==> ctx.Done(ctx.polls - 1)
      ensures var heads := ctx.polls - old(ctx.polls);
              && retainLen <= BytesRead(readLen, retainLen, heads) <= |stream|
              && (status != Cancelled ==> LoopEntries(readLen, retainLen, |stream|, heads))
              && (status == Completed ==> !r.failing)
              && (status == ReadFailed ==> r.failing && secrets == [])
              && (status == Cancelled ==> secrets == Taken(ds, readLen, retainLen, stream, heads - 1))
              && (status == Completed ==>
                    secrets == Taken(ds, readLen, retainLen, stream, heads - 1)
                      + Gather(ds, Right(stream[BytesRead(readLen, retainLen, heads) - retainLen..], retainLen)))
    {
      hide Gather, AllLocal, BytesRead, Taken;
      secrets := first;
      ghost var from := |r.content| - |stream|;
      ghost var heads, got := 0, readLen + retainLen;
      while true
        invariant 0 <= heads && ctx.polls == old(ctx.polls) + heads
        invariant forall i :: old(ctx.polls) <= i < ctx.polls ==> !ctx.Done(i)
        invariant got == BytesRead(readLen, retainLen, heads + 1)
        invariant retainLen + readLen <= got <= |stream| && r.pos == from + got
        invariant buf[readLen..] == stream[got - retainLen..got]
        invariant secrets == Taken(ds, readLen, retainLen, stream, heads)
        decreases |r.content| - r.pos, if ctx.limit.Some? then ctx.limit.value - ctx.polls else 0
      {
        var cancelled := ctx.Err();
        heads := heads + 1;
        if cancelled {
          return secrets, Cancelled;
        }
        Grows(readLen, retainLen, heads);
        var found, err := ReadOn(buf, r, stream, got);
        if err != NoError {
          if err == Broken {
            return [], ReadFailed;
          }
          return secrets + found, Completed;
        }
        TakenNext(ds, readLen, retainLen, stream, heads);
        secrets, got := secrets + found, got + readLen;
      }
    }
  }

  /** Retained bytes and bytes read behind them are neighbours in the stream. */
  lemma Spliced(buf: seq<byte>, retain: nat, n: nat, content: seq<byte>, stream: seq<byte>, got: nat)
    requires retain + n <= |buf| && retain <= got && got + n <= |stream| <= |content|
    requires stream == content[|content| - |stream|..]
    requires buf[..retain] == stream[got - retain..got]
    requires buf[retain..retain + n] == content[|content| - |stream| + got..|content| - |stream| + got + n]
    ensures buf[..retain + n] == stream[got - retain..got + n]
  {
    assert buf[..retain + n] == buf[..retain] + buf[retain..retain + n];
    assert buf[retain..retain + n] == stream[got..got + n];
    assert stream[got - retain..got] + stream[got..got + n] == stream[got - retain..got + n];
  }

  /** The secrets of the matches that start before `right`. */
  method SkipFrom<S>(ms: seq<Match<S>>, right: int) returns (secrets: seq<S>)
    ensures secrets == StartingBelow(ms, right)
  {
    secrets := [];
    for i := 0 to |ms|
      invariant secrets == StartingBelow(ms[..i], right)
    {
      assert ms[..i + 1][..i] == ms[..i];
      if ms[i].pos >= right {
        continue;
      }
      secrets := secrets + [ms[i].secret];
    }
    assert ms[..|ms|] == ms;
  }
}
