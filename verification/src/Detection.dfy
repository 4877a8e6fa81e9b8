/** What detectors report about a stream, independently of how the stream is read. */
module Detection {
  newtype byte = x: int | 0 <= x < 256

  datatype Match<+S> = Match(secret: S, pos: int)

  /** `find` answers the secrets in its argument and where each starts. */
  datatype Detector<!S> = Detector(maxSecretLen: nat, find: seq<byte> -> seq<Match<S>>)

  function Secrets<S>(ms: seq<Match<S>>): (secrets: seq<S>)
    ensures |secrets| == |ms|
  {
    if ms == [] then [] else Secrets(ms[..|ms| - 1]) + [ms[|ms| - 1].secret]
  }

  /** The secrets of the matches that start before `right`, in order. */
  function StartingBelow<S>(ms: seq<Match<S>>, right: int): seq<S> {
    if ms == [] then []
    else
      var front, last := StartingBelow(ms[..|ms| - 1], right), ms[|ms| - 1];
      if last.pos >= right then front else front + [last.secret]
  }

  /** What the engine takes from one detector: all it finds; at the first read, what starts
      `maxSecretLen` or more before the right edge; at a later full read, the same of the part that
      reaches `maxSecretLen` back into the `retain` bytes kept; at the end, all of that part. */
  datatype Part =
    | Whole(data: seq<byte>)
    | Early(data: seq<byte>, cut: int)  // what starts at least `maxSecretLen` before `cut`
    | Left(data: seq<byte>)
    | Middle(data: seq<byte>, retain: nat)
    | Right(data: seq<byte>, retain: nat)

  predicate Fits<S>(part: Part, d: Detector<S>) {
    part.Middle? || part.Right? ==> d.maxSecretLen <= part.retain <= |part.data|
  }

  function Report<S>(part: Part, d: Detector<S>): seq<S>
    requires Fits(part, d)
  {
    match part
    case Whole(data) => Secrets(d.find(data))
    case Early(data, cut) => StartingBelow(d.find(data), cut - d.maxSecretLen)
    case Left(data) => StartingBelow(d.find(data), |data| - d.maxSecretLen)
    case Middle(data, retain) =>
      var left := retain - d.maxSecretLen;
      StartingBelow(d.find(data[left..]), |data| - left - d.maxSecretLen)
    case Right(data, retain) => Secrets(d.find(data[retain - d.maxSecretLen..]))
  }

  /** The reports of all detectors, in order. */
  function Gather<S>(ds: seq<Detector<S>>, part: Part): seq<S>
    requires forall i :: 0 <= i < |ds| ==> Fits(part, ds[i])
  {
    if ds == [] then [] else Gather(ds[..|ds| - 1], part) + Report(part, ds[|ds| - 1])
  }

  // Chunks.

  /** How many bytes have been read when the engine's loop is entered for the `heads`-th time. */
  function BytesRead(readLen: nat, retainLen: nat, heads: nat): nat {
    if heads == 0 then retainLen else BytesRead(readLen, retainLen, heads - 1) + readLen
  }

  /** Whether a stream of `len` bytes takes exactly `heads` entries into the loop. */
  predicate LoopEntries(readLen: nat, retainLen: nat, len: nat, heads: nat) {
    && (heads > 0 ==> BytesRead(readLen, retainLen, heads) <= len)
    && len < BytesRead(readLen, retainLen, heads + 1)
  }

  lemma {:induction false} Grows(readLen: nat, retainLen: nat, heads: nat)
    ensures retainLen <= BytesRead(readLen, retainLen, heads)
    ensures BytesRead(readLen, retainLen, heads + 1) == BytesRead(readLen, retainLen, heads) + readLen
  {
    if heads > 0 {
      Grows(readLen, retainLen, heads - 1);
    }
  }

  lemma FirstRead(readLen: nat, retainLen: nat)
    ensures BytesRead(readLen, retainLen, 0) == retainLen
    ensures BytesRead(readLen, retainLen, 1) == readLen + retainLen
  {
  }

  /** The loop is left after finitely many entries if and only if reads make progress or the stream
      does not even fill the retained bytes. */
  lemma LoopEndsIff(readLen: nat, retainLen: nat, len: nat)
    ensures (exists heads :: LoopEntries(readLen, retainLen, len, heads)) <==> readLen > 0 || len < retainLen
  {
    if readLen > 0 {
      var heads := EntriesFrom(readLen, retainLen, len, 0);
    } else if len < retainLen {
      NoProgress(retainLen, 1);
      assert LoopEntries(readLen, retainLen, len, 0);
    } else {
      forall heads: nat ensures !LoopEntries(readLen, retainLen, len, heads) {
        NoProgress(retainLen, heads + 1);
      }
    }
  }

  lemma {:induction false} NoProgress(retainLen: nat, heads: nat)
    ensures BytesRead(0, retainLen, heads) == retainLen
  {
    if heads > 0 {
      NoProgress(retainLen, heads - 1);
    }
  }

  lemma {:induction false} EntriesFrom(readLen: nat, retainLen: nat, len: nat, start: nat) returns (heads: nat)
    requires readLen > 0
    requires start > 0 ==> BytesRead(readLen, retainLen, start) <= len
    ensures LoopEntries(readLen, retainLen, len, heads)
    decreases len - BytesRead(readLen, retainLen, start)
  {
    if len < BytesRead(readLen, retainLen, start + 1) {
      heads := start;
    } else {
      heads := EntriesFrom(readLen, retainLen, len, start + 1);
    }
  }

  /** The bytes that are in the buffer after the `full`-th full read in the loop. */
  function Chunk(readLen: nat, retainLen: nat, stream: seq<byte>, full: nat): (chunk: seq<byte>)
    requires BytesRead(readLen, retainLen, full + 1) <= |stream|
    ensures |chunk| == retainLen + readLen
  {
    Grows(readLen, retainLen, full);
    stream[BytesRead(readLen, retainLen, full) - retainLen..BytesRead(readLen, retainLen, full + 1)]
  }

  predicate AllFit<S>(ds: seq<Detector<S>>, retainLen: nat) {
    forall i :: 0 <= i < |ds| ==> ds[i].maxSecretLen <= retainLen
  }

  /** What the first read and the `full` full reads after it contribute. */
  function Taken<S>(ds: seq<Detector<S>>, readLen: nat, retainLen: nat, stream: seq<byte>, full: nat): seq<S>
    requires AllFit(ds, retainLen) && BytesRead(readLen, retainLen, full + 1) <= |stream|
  {
    if full == 0 then Gather(ds, Left(stream[..BytesRead(readLen, retainLen, 1)]))
    else
      Grows(readLen, retainLen, full);
      Taken(ds, readLen, retainLen, stream, full - 1)
        + Gather(ds, Middle(Chunk(readLen, retainLen, stream, full), retainLen))
  }

  lemma TakenFirst<S>(ds: seq<Detector<S>>, readLen: nat, retainLen: nat, stream: seq<byte>)
    requires AllFit(ds, retainLen) && BytesRead(readLen, retainLen, 1) <= |stream|
    ensures Taken(ds, readLen, retainLen, stream, 0) == Gather(ds, Left(stream[..BytesRead(readLen, retainLen, 1)]))
  {
  }

  lemma TakenNext<S>(ds: seq<Detector<S>>, readLen: nat, retainLen: nat, stream: seq<byte>, full: nat)
    requires AllFit(ds, retainLen) && full > 0 && BytesRead(readLen, retainLen, full + 1) <= |stream|
    ensures var got := BytesRead(readLen, retainLen, full);
            && retainLen <= got <= got + readLen <= |stream|
            && Taken(ds, readLen, retainLen, stream, full)
                == Taken(ds, readLen, retainLen, stream, full - 1)
                   + Gather(ds, Middle(stream[got - retainLen..got + readLen], retainLen))
  {
    hide Gather, AllFit;
    Grows(readLen, retainLen, full);
  }

  // Locality.

  /** How often `s` is reported at a start in [lo, hi). */
  ghost function Count<S>(ms: seq<Match<S>>, s: S, lo: int, hi: int): nat {
    if ms == [] then 0
    else
      var last := ms[|ms| - 1];
      Count(ms[..|ms| - 1], s, lo, hi) + (if last.secret == s && lo <= last.pos < hi then 1 else 0)
  }

  ghost function StartingAt<S>(ms: seq<Match<S>>, s: S, p: int): nat {
    Count(ms, s, p, p + 1)
  }

  /** The at most `len` bytes that follow position `p`. */
  function Window(data: seq<byte>, p: nat, len: nat): seq<byte>
    requires p <= |data|
  {
    if p + len <= |data| then data[p..p + len] else data[p..]
  }

  /** Matches start inside the data. */
  ghost predicate InRange<S>(ms: seq<Match<S>>, len: nat) {
    forall i :: 0 <= i < |ms| ==> 0 <= ms[i].pos <= len
  }

  /** Which secrets start at `p` depends only on the `maxSecretLen` bytes that follow `p`. */
  ghost predicate Local<S(!new)>(d: Detector<S>) {
    && (forall data {:trigger d.find(data)} :: InRange(d.find(data), |data|))
    && (forall s, data, p: nat, data', p': nat
          {:trigger StartingAt(d.find(data), s, p), StartingAt(d.find(data'), s, p')} ::
          p <= |data| && p' <= |data'| && Window(data, p, d.maxSecretLen) == Window(data', p', d.maxSecretLen) ==>
          StartingAt(d.find(data), s, p) == StartingAt(d.find(data'), s, p'))
  }

  ghost predicate AllLocal<S(!new)>(ds: seq<Detector<S>>) {
    forall i :: 0 <= i < |ds| ==> Local(ds[i])
  }

  lemma {:induction false} Splits<S>(ms: seq<Match<S>>, s: S, lo: int, mid: int, hi: int)
    requires lo <= mid <= hi
    ensures Count(ms, s, lo, mid) + Count(ms, s, mid, hi) == Count(ms, s, lo, hi)
  {
    if ms != [] {
      Splits(ms[..|ms| - 1], s, lo, mid, hi);
    }
  }

  lemma {:induction false} CountAll<S>(ms: seq<Match<S>>, s: S, len: nat)
    requires InRange(ms, len)
    ensures multiset(Secrets(ms))[s] == Count(ms, s, 0, len + 1)
  {
    if ms != [] {
      CountAll(ms[..|ms| - 1], s, len);
    }
  }

  lemma {:induction false} CountBelow<S>(ms: seq<Match<S>>, s: S, hi: int, len: nat)
    requires InRange(ms, len)
    ensures multiset(StartingBelow(ms, hi))[s] == Count(ms, s, 0, hi)
  {
    if ms != [] {
      var front := ms[..|ms| - 1];
      CountBelow(front, s, hi, len);
    }
  }

  lemma {:induction false} CountNone<S>(ms: seq<Match<S>>, s: S, lo: int)
    ensures Count(ms, s, lo, lo) == 0
  {
    if ms != [] {
      CountNone(ms[..|ms| - 1], s, lo);
    }
  }

  lemma SliceOfSlice<T>(s: seq<T>, a: nat, b: nat, c: nat, d: nat)
    requires a <= b <= |s| && c <= d <= b - a
    ensures s[a..b][c..d] == s[a + c..a + d]
  {
    var l, r := s[a..b][c..d], s[a + c..a + d];
    assert forall i :: 0 <= i < d - c ==> l[i] == r[i];
  }

  lemma SameWindow(stream: seq<byte>, a: nat, b: nat, p: nat, len: nat)
    requires a <= b <= |stream| && p <= b - a
    requires b == |stream| || p + len <= b - a
    ensures Window(stream[a..b], p, len) == Window(stream, a + p, len)
  {
    if p + len <= b - a {
      SliceOfSlice(stream, a, b, p, p + len);
    } else {
      SliceOfSlice(stream, a, b, p, b - a);
    }
  }

  /** A slice of the stream shows a local detector the same secrets as the stream itself, at every
      start whose window lies in the slice, and everywhere when the slice reaches the end. */
  lemma {:induction false} Slice<S(!new)>(d: Detector<S>, s: S, stream: seq<byte>, a: nat, b: nat, n: nat)
    requires Local(d)
    requires a <= b <= |stream|
    requires if b == |stream| then n <= b - a + 1 else n == 0 || n - 1 + d.maxSecretLen <= b - a
    ensures Count(d.find(stream[a..b]), s, 0, n) == Count(d.find(stream), s, a, a + n)
  {
    var here, there := d.find(stream[a..b]), d.find(stream);
    if n == 0 {
      CountNone(here, s, 0);
      CountNone(there, s, a);
    } else {
      var p := n - 1;
      Slice(d, s, stream, a, b, p);
      SameWindow(stream, a, b, p, d.maxSecretLen);
      assert StartingAt(here, s, p) == StartingAt(there, s, a + p);
      Splits(here, s, 0, p, n);
      Splits(there, s, a, a + p, a + n);
    }
  }

  // Each read contributes exactly the secrets that start in its window of the stream.

  lemma LeftReport<S(!new)>(d: Detector<S>, s: S, stream: seq<byte>, cap: nat)
    requires Local(d) && d.maxSecretLen <= cap <= |stream|
    ensures multiset(Report(Left(stream[..cap]), d))[s] == multiset(Report(Early(stream, cap), d))[s]
  {
    hide Count, StartingBelow, Secrets;
    var n := cap - d.maxSecretLen;
    assert stream[0..cap] == stream[..cap];
    CountBelow(d.find(stream[..cap]), s, n, cap);
    CountBelow(d.find(stream), s, n, |stream|);
    Slice(d, s, stream, 0, cap, n);
  }

  lemma BelowSplits<S>(all: seq<Match<S>>, len: nat, tail: seq<Match<S>>, tailLen: nat, s: S, a: nat, n: nat)
    requires InRange(all, len) && InRange(tail, tailLen)
    requires Count(tail, s, 0, n) == Count(all, s, a, a + n)
    ensures multiset(StartingBelow(all, a))[s] + multiset(StartingBelow(tail, n))[s]
         == multiset(StartingBelow(all, a + n))[s]
  {
    hide StartingBelow, Count;
    CountBelow(tail, s, n, tailLen);
    CountBelow(all, s, a, len);
    CountBelow(all, s, a + n, len);
    Splits(all, s, 0, a, a + n);
  }

  lemma SecretsSplit<S>(all: seq<Match<S>>, len: nat, tail: seq<Match<S>>, tailLen: nat, s: S, a: nat)
    requires InRange(all, len) && InRange(tail, tailLen) && len == a + tailLen
    requires Count(tail, s, 0, tailLen + 1) == Count(all, s, a, len + 1)
    ensures multiset(StartingBelow(all, a))[s] + multiset(Secrets(tail))[s] == multiset(Secrets(all))[s]
  {
    hide StartingBelow, Count, Secrets;
    CountAll(tail, s, tailLen);
    CountBelow(all, s, a, len);
    CountAll(all, s, len);
    Splits(all, s, 0, a, len + 1);
  }

  lemma MiddleReport<S(!new)>(d: Detector<S>, s: S, stream: seq<byte>, got: nat, next: nat, retain: nat)
    requires Local(d) && d.maxSecretLen <= retain <= got <= next <= |stream|
    ensures multiset(Report(Early(stream, got), d))[s]
          + multiset(Report(Middle(stream[got - retain..next], retain), d))[s]
         == multiset(Report(Early(stream, next), d))[s]
  {
    hide Count, StartingBelow, Secrets;
    var data, a, left := stream[got - retain..next], got - d.maxSecretLen, retain - d.maxSecretLen;
    SliceOfSlice(stream, got - retain, next, left, |data|);
    var tail, n := data[left..], next - got;
    assert tail == stream[a..next];
    assert Report(Middle(data, retain), d) == StartingBelow(d.find(tail), n);
    Slice(d, s, stream, a, next, n);
    BelowSplits(d.find(stream), |stream|, d.find(tail), |tail|, s, a, n);
    assert a + n == next - d.maxSecretLen;
  }

  lemma RightReport<S(!new)>(d: Detector<S>, s: S, stream: seq<byte>, got: nat, retain: nat)
    requires Local(d) && d.maxSecretLen <= retain <= got <= |stream|
    ensures multiset(Report(Early(stream, got), d))[s]
          + multiset(Report(Right(stream[got - retain..], retain), d))[s]
         == multiset(Report(Whole(stream), d))[s]
  {
    hide Count, StartingBelow, Secrets;
    var data, a, left := stream[got - retain..], got - d.maxSecretLen, retain - d.maxSecretLen;
    assert data == stream[got - retain..|stream|];
    SliceOfSlice(stream, got - retain, |stream|, left, |data|);
    var tail := data[left..];
    assert tail == stream[a..|stream|] && a + |tail| == |stream|;
    assert Report(Right(data, retain), d) == Secrets(d.find(tail));
    Slice(d, s, stream, a, |stream|, |tail| + 1);
    SecretsSplit(d.find(stream), |stream|, d.find(tail), |tail|, s, a);
  }

  lemma {:induction false} LeftPart<S(!new)>(ds: seq<Detector<S>>, s: S, stream: seq<byte>, cap: nat)
    requires AllLocal(ds) && AllFit(ds, cap) && cap <= |stream|
    ensures multiset(Gather(ds, Left(stream[..cap])))[s] == multiset(Gather(ds, Early(stream, cap)))[s]
  {
    hide Report, Local;
    if ds != [] {
      var front, d := ds[..|ds| - 1], ds[|ds| - 1];
      LeftPart(front, s, stream, cap);
      LeftReport(d, s, stream, cap);
      GatherLast(ds, s, Left(stream[..cap]));
      GatherLast(ds, s, Early(stream, cap));
    }
  }

  lemma GatherLast<S>(ds: seq<Detector<S>>, s: S, part: Part)
    requires ds != [] && forall i :: 0 <= i < |ds| ==> Fits(part, ds[i])
    ensures multiset(Gather(ds, part))[s]
         == multiset(Gather(ds[..|ds| - 1], part))[s] + multiset(Report(part, ds[|ds| - 1]))[s]
  {
  }

  lemma {:induction false} MiddlePart<S(!new)>(ds: seq<Detector<S>>, s: S, stream: seq<byte>, got: nat, next: nat, retain: nat)
    requires AllLocal(ds) && AllFit(ds, retain) && retain <= got <= next <= |stream|
    ensures multiset(Gather(ds, Early(stream, got)))[s]
          + multiset(Gather(ds, Middle(stream[got - retain..next], retain)))[s]
         == multiset(Gather(ds, Early(stream, next)))[s]
  {
    hide Report, Local;
    if ds != [] {
      MiddlePart(ds[..|ds| - 1], s, stream, got, next, retain);
      MiddleReport(ds[|ds| - 1], s, stream, got, next, retain);
      GatherLast(ds, s, Early(stream, got));
      GatherLast(ds, s, Middle(stream[got - retain..next], retain));
      GatherLast(ds, s, Early(stream, next));
    }
  }

  lemma {:induction false} RightPart<S(!new)>(ds: seq<Detector<S>>, s: S, stream: seq<byte>, got: nat, retain: nat)
    requires AllLocal(ds) && AllFit(ds, retain) && retain <= got <= |stream|
    ensures multiset(Gather(ds, Early(stream, got)))[s]
          + multiset(Gather(ds, Right(stream[got - retain..], retain)))[s]
         == multiset(Gather(ds, Whole(stream)))[s]
  {
    hide Report, Local;
    if ds != [] {
      RightPart(ds[..|ds| - 1], s, stream, got, retain);
      RightReport(ds[|ds| - 1], s, stream, got, retain);
      GatherLast(ds, s, Early(stream, got));
      GatherLast(ds, s, Right(stream[got - retain..], retain));
      GatherLast(ds, s, Whole(stream));
    }
  }

  lemma {:induction false} TakenCount<S(!new)>(ds: seq<Detector<S>>, s: S, readLen: nat, retainLen: nat, stream: seq<byte>, full: nat)
    requires AllLocal(ds) && AllFit(ds, retainLen)
    requires BytesRead(readLen, retainLen, full + 1) <= |stream|
    ensures multiset(Taken(ds, readLen, retainLen, stream, full))[s]
         == multiset(Gather(ds, Early(stream, BytesRead(readLen, retainLen, full + 1))))[s]
  {
    hide Gather, AllLocal;
    if full == 0 {
      LeftPart(ds, s, stream, BytesRead(readLen, retainLen, 1));
    } else {
      Grows(readLen, retainLen, full);
      TakenCount(ds, s, readLen, retainLen, stream, full - 1);
      var got, next := BytesRead(readLen, retainLen, full), BytesRead(readLen, retainLen, full + 1);
      var taken := Taken(ds, readLen, retainLen, stream, full - 1);
      var middle := Gather(ds, Middle(stream[got - retainLen..next], retainLen));
      assert Taken(ds, readLen, retainLen, stream, full) == taken + middle;
      assert multiset(taken + middle)[s] == multiset(taken)[s] + multiset(middle)[s];
      MiddlePart(ds, s, stream, got, next, retainLen);
    }
  }

  /** For local detectors the reads so far report what starts early enough in them. */
  lemma TakenIsEarly<S(!new)>(ds: seq<Detector<S>>, readLen: nat, retainLen: nat, stream: seq<byte>, full: nat)
    requires AllLocal(ds) && AllFit(ds, retainLen)
    requires BytesRead(readLen, retainLen, full + 1) <= |stream|
    ensures multiset(Taken(ds, readLen, retainLen, stream, full))
         == multiset(Gather(ds, Early(stream, BytesRead(readLen, retainLen, full + 1))))
  {
    forall s ensures multiset(Taken(ds, readLen, retainLen, stream, full))[s]
                  == multiset(Gather(ds, Early(stream, BytesRead(readLen, retainLen, full + 1))))[s] {
      TakenCount(ds, s, readLen, retainLen, stream, full);
    }
  }

  /** For local detectors all reads together report what one pass over the whole stream reports. */
  lemma TakenAndRightIsWhole<S(!new)>(ds: seq<Detector<S>>, readLen: nat, retainLen: nat, stream: seq<byte>, full: nat)
    requires AllLocal(ds) && AllFit(ds, retainLen)
    requires retainLen <= BytesRead(readLen, retainLen, full + 1) <= |stream|
    ensures multiset(Taken(ds, readLen, retainLen, stream, full)
                     + Gather(ds, Right(stream[BytesRead(readLen, retainLen, full + 1) - retainLen..], retainLen)))
         == multiset(Gather(ds, Whole(stream)))
  {
    hide Taken, Gather, AllLocal;
    var got := BytesRead(readLen, retainLen, full + 1);
    var taken, right := Taken(ds, readLen, retainLen, stream, full), Gather(ds, Right(stream[got - retainLen..], retainLen));
    forall s ensures multiset(taken + right)[s] == multiset(Gather(ds, Whole(stream)))[s] {
      TakenCount(ds, s, readLen, retainLen, stream, full);
      RightPart(ds, s, stream, got, retainLen);
      assert multiset(taken + right)[s] == multiset(taken)[s] + multiset(right)[s];
    }
  }
}
