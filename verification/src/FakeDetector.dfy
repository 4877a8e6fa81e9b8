/** veles/velestest/fakedetector.go: a detector that reports the occurrences of one word. */
module FakeDetector {
  import opened Detection
  import opened Wrappers

  type bytes = seq<byte>

  predicate OccursAt(data: bytes, word: bytes, p: int) {
    0 <= p && p + |word| <= |data| && data[p..p + |word|] == word
  }

  /** bytes.Index(data[from:], word), as a position in `data`. */
  function Next(data: bytes, word: bytes, from: nat): (p: Option<nat>)
    requires from <= |data|
    ensures p.Some? ==> from <= p.value && OccursAt(data, word, p.value)
    ensures forall q :: from <= q < (if p.Some? then p.value else |data| + 1) ==> !OccursAt(data, word, q)
    decreases |data| - from
  {
    if OccursAt(data, word, from) then Some(from)
    else if from == |data| then None
    else Next(data, word, from + 1)
  }

  /** The occurrences found by searching on behind each one. */
  function Scan(data: bytes, word: bytes, from: nat): seq<Match<bytes>>
    requires word != [] && from <= |data|
    decreases |data| - from
  {
    match Next(data, word, from)
    case None => []
    case Some(p) => [Match(word, p)] + Scan(data, word, p + |word|)
  }

  /** FakeDetector.Detect. The source does not return for an empty word. */
  method Detect(data: bytes, word: bytes) returns (secrets: seq<bytes>, positions: seq<nat>)
    requires word != []
    ensures |secrets| == |positions| == |Scan(data, word, 0)|
    ensures forall i :: 0 <= i < |secrets| ==> Scan(data, word, 0)[i] == Match(secrets[i], positions[i])
  {
    hide Scan, Next, OccursAt, Matches;
    secrets, positions := [], [];
    MatchesAll([], []);
    var offset := 0;
    var p := Next(data, word, 0);
    while p.Some?
      invariant 0 <= offset <= |data| && p == Next(data, word, offset)
      invariant |secrets| == |positions|
      invariant Scan(data, word, 0) == Matches(secrets, positions) + Scan(data, word, offset)
      decreases |data| - offset
    {
      ScanStep(data, word, offset);
      MatchesStep(secrets, positions, word, p.value, Scan(data, word, p.value + |word|));
      secrets, positions := secrets + [word], positions + [p.value];
      offset := p.value + |word|;
      p := Next(data, word, offset);
    }
    ScanStep(data, word, offset);
    MatchesAll(secrets, positions);
    assert Matches(secrets, positions) + [] == Matches(secrets, positions);
  }

  lemma MatchesAll(secrets: seq<bytes>, positions: seq<nat>)
    requires |secrets| == |positions|
    ensures Matches([], []) == [] && |Matches(secrets, positions)| == |secrets|
    ensures forall i :: 0 <= i < |secrets| ==> Matches(secrets, positions)[i] == Match(secrets[i], positions[i])
  {
  }

  lemma MatchesStep(secrets: seq<bytes>, positions: seq<nat>, s: bytes, p: nat, rest: seq<Match<bytes>>)
    requires |secrets| == |positions|
    ensures Matches(secrets, positions) + ([Match(s, p)] + rest) == Matches(secrets + [s], positions + [p]) + rest
  {
    assert Matches(secrets + [s], positions + [p]) == Matches(secrets, positions) + [Match(s, p)];
  }

  lemma ScanStep(data: bytes, word: bytes, from: nat)
    requires word != [] && from <= |data|
    ensures var p := Next(data, word, from);
            && (p.Some? ==> p.value + |word| <= |data|)
            && Scan(data, word, from) ==
                 if p.Some? then [Match(word, p.value)] + Scan(data, word, p.value + |word|) else []
  {
  }

  ghost function Matches(secrets: seq<bytes>, positions: seq<nat>): seq<Match<bytes>>
    requires |secrets| == |positions|
  {
    seq(|secrets|, i requires 0 <= i < |secrets| => Match(secrets[i], positions[i]))
  }

  function FakeDetector(word: bytes): Detector<bytes>
    requires word != []
  {
    Detector(|word|, data => Scan(data, word, 0))
  }

  /** No proper non-empty prefix of the word is also a suffix of it. */
  ghost predicate Borderless(word: bytes) {
    forall k {:trigger word[..k]} :: 0 < k < |word| ==> word[..k] != word[|word| - k..]
  }

  /** The part shared by two overlapping occurrences is a border of the word. */
  lemma OverlapIsBorder(data: bytes, word: bytes, p: nat, q: nat)
    requires OccursAt(data, word, p) && OccursAt(data, word, q) && p < q < p + |word|
    ensures !Borderless(word)
  {
    var k := p + |word| - q;
    SliceOfSlice(data, p, p + |word|, |word| - k, |word|);
    SliceOfSlice(data, q, q + |word|, 0, k);
    assert word[|word| - k..] == word[|word| - k..|word|] == data[q..q + k] == word[0..k] == word[..k];
  }

  lemma CountOne<S>(m: Match<S>, s: S, lo: int, hi: int)
    ensures Count([m], s, lo, hi) == if m.secret == s && lo <= m.pos < hi then 1 else 0
  {
    assert [m][..0] == [];
  }

  lemma {:induction false} CountFirst<S>(m: Match<S>, ms: seq<Match<S>>, s: S, lo: int, hi: int)
    ensures Count([m] + ms, s, lo, hi) == Count([m], s, lo, hi) + Count(ms, s, lo, hi)
  {
    if ms == [] {
      assert [m] + ms == [m];
    } else {
      assert ([m] + ms)[..|ms|] == [m] + ms[..|ms| - 1];
      CountFirst(m, ms[..|ms| - 1], s, lo, hi);
    }
  }

  lemma {:induction false} ScanInRange(data: bytes, word: bytes, from: nat)
    requires word != [] && from <= |data|
    ensures InRange(Scan(data, word, from), |data|)
    decreases |data| - from
  {
    var p := Next(data, word, from);
    if p.Some? {
      ScanInRange(data, word, p.value + |word|);
    }
  }

  /** The scan reports a borderless word once at each of its occurrences, and nothing else. */
  lemma {:induction false} ScanFindsAll(data: bytes, word: bytes, from: nat, s: bytes, p: nat)
    requires word != [] && from <= |data| && Borderless(word)
    ensures StartingAt(Scan(data, word, from), s, p) == if s == word && from <= p && OccursAt(data, word, p) then 1 else 0
    decreases |data| - from
  {
    hide Borderless;
    var next := Next(data, word, from);
    if next.Some? {
      var q := next.value;
      CountFirst(Match(word, q), Scan(data, word, q + |word|), s, p, p + 1);
      ScanFindsAll(data, word, q + |word|, s, p);
      if OccursAt(data, word, p) && q < p {
        if p < q + |word| {
          OverlapIsBorder(data, word, q, p);
        }
      }
    }
  }

  /** What a detector must satisfy for the engine to be exact holds of a fake detector if and only if
      its word is borderless. */
  lemma LocalIffBorderless(word: bytes)
    requires word != []
    ensures Local(FakeDetector(word)) <==> Borderless(word)
  {
    if Borderless(word) {
      BorderlessIsLocal(word);
    } else {
      var k :| 0 < k < |word| && word[..k] == word[|word| - k..];
      BorderIsNotLocal(word, k);
    }
  }

  lemma BorderlessIsLocal(word: bytes)
    requires word != [] && Borderless(word)
    ensures Local(FakeDetector(word))
  {
    hide Borderless;
    var d := FakeDetector(word);
    forall data ensures InRange(d.find(data), |data|) {
      ScanInRange(data, word, 0);
    }
    forall s, data, p: nat, data', p': nat
      | p <= |data| && p' <= |data'| && Window(data, p, |word|) == Window(data', p', |word|)
      ensures StartingAt(d.find(data), s, p) == StartingAt(d.find(data'), s, p')
    {
      ScanFindsAll(data, word, 0, s, p);
      ScanFindsAll(data', word, 0, s, p');
      WindowOccurs(data, word, p);
      WindowOccurs(data', word, p');
    }
  }

  lemma WindowOccurs(data: bytes, word: bytes, p: nat)
    requires p <= |data|
    ensures OccursAt(data, word, p) <==> Window(data, p, |word|) == word
  {
  }

  /** With a border of length k, the second of two words that overlap by k bytes is missed, although
      the same bytes on their own are reported. */
  lemma BorderIsNotLocal(word: bytes, k: nat)
    requires 0 < k < |word| && word[..k] == word[|word| - k..]
    ensures !Local(FakeDetector(word))
  {
    var d := FakeDetector(word);
    var p := |word| - k;
    var data := word + word[k..];
    assert data[0..|word|] == word;
    assert data[p..p + |word|] == word by {
      assert data[p..|word|] == word[..k];
      assert data[p..p + |word|] == data[p..|word|] + data[|word|..p + |word|] == word[..k] + word[k..];
    }
    assert OccursAt(data, word, 0) && |data| == p + |word|;
    assert Next(data, word, 0) == Some(0);
    assert Next(data, word, |word|) == None;
    assert Scan(data, word, |word|) == [];
    assert d.find(data) == [Match(word, 0)];
    assert OccursAt(word, word, 0);
    assert Next(word, word, 0) == Some(0) && Next(word, word, |word|) == None;
    assert Scan(word, word, |word|) == [];
    assert d.find(word) == [Match(word, 0)];
    CountOne(Match(word, 0), word, p, p + 1);
    CountOne(Match(word, 0), word, 0, 1);
    assert StartingAt(d.find(data), word, p) == 0 && StartingAt(d.find(word), word, 0) == 1;
    assert Window(data, p, |word|) == word == Window(word, 0, |word|);
  }
}
