/** semantic/version-pypi.go: comparison of parsed PyPI versions. */
module PyPI {
  import opened Orders
  import opened Text
  import opened Wrappers
  import opened Components

  /** A letterAndNumber; Absent has neither. */
  datatype Segment = Absent | Segment(letter: string, number: int)

  /** `legacy` holds the parts of a version that is not a PEP 440 version, and is empty otherwise. */
  datatype Version = Version(epoch: int, release: seq<int>, pre: Segment, post: Segment, dev: Segment,
                             local: seq<string>, legacy: seq<string>)

  // parseLetterVersion.

  function NormalLetter(letter: string): string {
    if letter == "alpha" then "a"
    else if letter == "beta" then "b"
    else if letter in {"c", "pre", "preview"} then "rc"
    else if letter in {"rev", "r"} then "post"
    else letter
  }

  /** The outer None is the source's conversion error. */
  function ParseLetterVersion(letter: string, number: string): (r: Option<Segment>)
    ensures AllDigits(number) ==> r.Some?
    ensures r == Some(Absent) <==> letter == "" && number == ""
    ensures r.Some? && r.value.Segment? ==>
              r.value.letter == (if letter == "" then "post" else NormalLetter(Lower(letter)))
              && ToInt(if number == "" then "0" else number) == Some(r.value.number)
  {
    if letter == "" && number == "" then Some(Absent)
    else
      match ToInt(if number == "" then "0" else number)
      case None => None
      case Some(n) => Some(Segment(if letter == "" then "post" else NormalLetter(Lower(letter)), n))
  }

  /** What each spelling, in any case, is read as. */
  lemma Spellings(letter: string, number: string)
    requires AllDigits(number)
    ensures var spelling, r := Lower(letter), ParseLetterVersion(letter, number);
            && r.Some?
            && (letter == "" && number == "" ==> r.value == Absent)
            && (letter == "" && number != "" ==> r.value.Segment? && r.value.letter == "post")
            && (letter != "" ==>
                  && r.value.Segment?
                  && (spelling in {"a", "alpha"} ==> r.value.letter == "a")
                  && (spelling in {"b", "beta"} ==> r.value.letter == "b")
                  && (spelling in {"rc", "c", "pre", "preview"} ==> r.value.letter == "rc")
                  && (spelling in {"post", "rev", "r"} ==> r.value.letter == "post")
                  && (spelling == "dev" ==> r.value.letter == "dev"))
  {
  }

  /** Numbers are read by value, with leading zeros or not; no number is 0. */
  lemma NumbersRead(letter: string, zeros: string, n: nat)
    requires letter != "" && Zeros(zeros)
    ensures ParseLetterVersion(letter, zeros + Decimal(n)).Some?
            && ParseLetterVersion(letter, zeros + Decimal(n)).value.number == n
    ensures ParseLetterVersion(letter, "").Some? && ParseLetterVersion(letter, "").value.number == 0
  {
    hide ToInt, Decimal;
    ToIntReadsDecimal(n, zeros);
    ToIntReadsDecimal(0, "");
    assert Decimal(0) == "0" && "" + Decimal(0) == "0" by { DecimalZero(); }
  }

  lemma DecimalZero()
    ensures Decimal(0) == "0"
  {
  }

  // The comparison, part by part, as the source has it.

  function CompareLegacy(v: Version, w: Version): int {
    if v.legacy == [] && w.legacy == [] then 0
    else if v.legacy == [] then 1
    else if w.legacy == [] then -1
    else StrCmp(Concat(v.legacy), Concat(w.legacy))
  }

  function Concat(parts: seq<string>): string {
    if parts == [] then "" else parts[0] + Concat(parts[1..])
  }

  predicate PreTrick(v: Version) {
    v.pre.Absent? && v.post.Absent? && v.dev.Segment?
  }

  /** The first byte of a letter; parsing never yields an empty one. */
  function FirstLetter(letter: string): int {
    if letter == "" then 0 else letter[0] as int
  }

  function ComparePre(v: Version, w: Version): int {
    if PreTrick(v) && PreTrick(w) then 0
    else if PreTrick(v) then -1
    else if PreTrick(w) then 1
    else if v.pre.Absent? && w.pre.Absent? then 0
    else if v.pre.Absent? then 1
    else if w.pre.Absent? then -1
    else
      var a, b := FirstLetter(v.pre.letter), FirstLetter(w.pre.letter);
      if a > b then 1 else if a < b then -1 else IntCmp(v.pre.number, w.pre.number)
  }

  function ComparePost(v: Version, w: Version): int {
    if v.post.Absent? && w.post.Absent? then 0
    else if v.post.Absent? then -1
    else if w.post.Absent? then 1
    else IntCmp(v.post.number, w.post.number)
  }

  function CompareDev(v: Version, w: Version): int {
    if v.dev.Absent? && w.dev.Absent? then 0
    else if v.dev.Absent? then 1
    else if w.dev.Absent? then -1
    else IntCmp(v.dev.number, w.dev.number)
  }

  method CompareLocal(a: seq<string>, b: seq<string>) returns (r: int)
    ensures r == Lex(NumbersLast, a, b)
  {
    var n := if |a| <= |b| then |a| else |b|;
    for i := 0 to n
      invariant Lex(NumbersLast, a[i..], b[i..]) == Lex(NumbersLast, a, b)
    {
      assert a[i..][1..] == a[i + 1..] && b[i..][1..] == b[i + 1..];
      var compare := NumbersLast(a[i], b[i]);
      if compare != 0 {
        PartCmpOrder(1, a[i], b[i], b[i]);
        return if compare > 0 then 1 else -1;
      }
    }
    return IntCmp(|a|, |b|);
  }

  method Compare(v: Version, w: Version) returns (r: int)
    ensures r == KeyCmp(KeyOf(v), KeyOf(w))
  {
    r := CompareLegacy(v, w);
    if r != 0 { return; }
    r := IntCmp(v.epoch, w.epoch);
    if r != 0 { return; }
    r := Components.Cmp(v.release, w.release);
    if r != 0 { return; }
    r := ComparePre(v, w);
    if r != 0 { return; }
    r := ComparePost(v, w);
    if r != 0 { return; }
    r := CompareDev(v, w);
    if r != 0 { return; }
    r := CompareLocal(v.local, w.local);
  }

  // One key per version, compared component by component.

  /** Before everything, a proper value, or after everything. */
  datatype Bound = Least | At(letter: int, number: int) | Greatest

  function BoundCmp(x: Bound, y: Bound): int {
    match (x, y)
    case (At(a, m), At(b, n)) => Then(IntCmp(a, b), IntCmp(m, n))
    case _ => IntCmp(BoundRank(x), BoundRank(y))
  }

  function BoundRank(x: Bound): int {
    if x.Least? then 0 else if x.At? then 1 else 2
  }

  /** `legacy` is None for PEP 440 versions, which sort above all others. */
  datatype Key = Key(legacy: Option<string>, epoch: int, release: seq<int>, pre: Bound, post: Bound, dev: Bound,
                     local: seq<string>)

  function KeyOf(v: Version): Key {
    Key(if v.legacy == [] then None else Some(Concat(v.legacy)),
        v.epoch,
        v.release,
        if PreTrick(v) then Least else if v.pre.Absent? then Greatest else At(FirstLetter(v.pre.letter), v.pre.number),
        if v.post.Absent? then Least else At(0, v.post.number),
        if v.dev.Absent? then Greatest else At(0, v.dev.number),
        v.local)
  }

  function LegacyCmp(x: Option<string>, y: Option<string>): int {
    match (x, y)
    case (None, None) => 0
    case (None, Some(_)) => 1
    case (Some(_), None) => -1
    case (Some(s), Some(t)) => StrCmp(s, t)
  }

  function KeyCmp(k: Key, l: Key): int {
    Then(LegacyCmp(k.legacy, l.legacy),
      Then(IntCmp(k.epoch, l.epoch),
        Then(PadLex(IntCmp, 0, k.release, l.release),
          Then(BoundCmp(k.pre, l.pre),
            Then(BoundCmp(k.post, l.post),
              Then(BoundCmp(k.dev, l.dev), Lex(NumbersLast, k.local, l.local)))))))
  }

  lemma LegacyCmpPreorder()
    ensures IsPreorder(LegacyCmp)
  {
    StrCmpPreorder();
    forall x, y ensures -1 <= LegacyCmp(x, y) <= 1 && LegacyCmp(x, y) == -LegacyCmp(y, x) {
      if x.Some? && y.Some? {
        assert StrCmp(x.value, y.value) == -StrCmp(y.value, x.value);
      }
    }
    forall x, y, z | LegacyCmp(x, y) <= 0 && LegacyCmp(y, z) <= 0 ensures LegacyCmp(x, z) <= 0 {
      if x.Some? && y.Some? && z.Some? {
        Chain(StrCmp, x.value, y.value, z.value);
      }
    }
  }

  lemma BoundCmpPreorder()
    ensures IsPreorder(BoundCmp)
  {
  }

  /** pypiCompareVersion is a total preorder. */
  lemma KeyCmpPreorder()
    ensures IsPreorder(KeyCmp)
    ensures IsPreorder((v, w) => KeyCmp(KeyOf(v), KeyOf(w)))
  {
    IntCmpPreorder();
    BoundCmpPreorder();
    LegacyCmpPreorder();
    PartCmpPreorder();
    PadLexPreorder(IntCmp, 0);
    LexPreorder(NumbersLast);
    var legacy := (k: Key, l: Key) => LegacyCmp(k.legacy, l.legacy);
    var epoch := (k: Key, l: Key) => IntCmp(k.epoch, l.epoch);
    var release := (k: Key, l: Key) => PadLex(IntCmp, 0, k.release, l.release);
    var pre := (k: Key, l: Key) => BoundCmp(k.pre, l.pre);
    var post := (k: Key, l: Key) => BoundCmp(k.post, l.post);
    var dev := (k: Key, l: Key) => BoundCmp(k.dev, l.dev);
    var local := (k: Key, l: Key) => Lex(NumbersLast, k.local, l.local);
    KeyPreorder((k: Key) => k.legacy, LegacyCmp, legacy);
    KeyPreorder((k: Key) => k.epoch, IntCmp, epoch);
    KeyPreorder((k: Key) => k.release, (a, b) => PadLex(IntCmp, 0, a, b), release);
    KeyPreorder((k: Key) => k.pre, BoundCmp, pre);
    KeyPreorder((k: Key) => k.post, BoundCmp, post);
    KeyPreorder((k: Key) => k.dev, BoundCmp, dev);
    KeyPreorder((k: Key) => k.local, (a, b) => Lex(NumbersLast, a, b), local);
    var fromDev := (k, l) => Then(dev(k, l), local(k, l));
    var fromPost := (k, l) => Then(post(k, l), fromDev(k, l));
    var fromPre := (k, l) => Then(pre(k, l), fromPost(k, l));
    var fromRelease := (k, l) => Then(release(k, l), fromPre(k, l));
    var fromEpoch := (k, l) => Then(epoch(k, l), fromRelease(k, l));
    ThenPreorder(dev, local, fromDev);
    ThenPreorder(post, fromDev, fromPost);
    ThenPreorder(pre, fromPost, fromPre);
    ThenPreorder(release, fromPre, fromRelease);
    ThenPreorder(epoch, fromRelease, fromEpoch);
    ThenPreorder(legacy, fromEpoch, KeyCmp);
    KeyPreorder(KeyOf, KeyCmp, (v, w) => KeyCmp(KeyOf(v), KeyOf(w)));
  }

  // PEP 440, section "Summary of permitted suffixes and relative ordering".

  predicate Pep440(v: Version) {
    v.legacy == [] && (v.pre.Segment? ==> v.pre.letter in {"a", "b", "rc"})
  }

  /** Where the suffixes put a version within its release: a developmental release without any other
      suffix first, then the pre-release phases, then the rest. */
  function Phase(v: Version): int {
    if v.pre.Segment? then if v.pre.letter == "a" then 1 else if v.pre.letter == "b" then 2 else 3
    else if v.dev.Segment? && v.post.Absent? then 0
    else 4
  }

  function PreNumber(v: Version): int {
    if v.pre.Segment? then v.pre.number else 0
  }

  /** No post-release comes before the first one. */
  predicate PostBefore(v: Version, w: Version) {
    w.post.Segment? && (v.post.Segment? ==> v.post.number < w.post.number)
  }

  /** Developmental releases come before the version they lead to. */
  predicate DevBefore(v: Version, w: Version) {
    v.dev.Segment? && (w.dev.Segment? ==> v.dev.number < w.dev.number)
  }

  /** Versions that PEP 440 does not cover come first, then the epoch decides, then the release. */
  lemma ReleaseDecides(v: Version, w: Version)
    ensures var c := KeyCmp(KeyOf(v), KeyOf(w));
            && (v.legacy != [] && w.legacy == [] ==> c == -1)
            && (Pep440(v) && Pep440(w) ==>
                  && (v.epoch < w.epoch ==> c == -1)
                  && (v.epoch == w.epoch && PadLex(IntCmp, 0, v.release, w.release) != 0 ==>
                        c == PadLex(IntCmp, 0, v.release, w.release)))
            && (v.legacy != [] && w.legacy != [] && Concat(v.legacy) != Concat(w.legacy) ==>
                  c == StrCmp(Concat(v.legacy), Concat(w.legacy)))
  {
    hide PadLex, Lex;
    StrCmpZero(Concat(v.legacy), Concat(w.legacy));
  }

  /** The parts of a version that PEP 440 does not cover are compared as one text. */
  lemma {:induction false} ConcatParts(part: string, parts: seq<string>)
    ensures Concat([part]) == part && Concat([part] + parts) == part + Concat(parts)
  {
    assert ([part] + parts)[1..] == parts && part + Concat([]) == part;
  }

  /** Within one epoch and release the suffixes decide in this order, whatever the later ones are: the
      phase, the number of the pre-release, the post-release, the developmental release, the local
      version. */
  lemma SuffixesDecide(v: Version, w: Version)
    requires Pep440(v) && Pep440(w) && v.epoch == w.epoch && PadLex(IntCmp, 0, v.release, w.release) == 0
    ensures var c := KeyCmp(KeyOf(v), KeyOf(w));
            && (Phase(v) < Phase(w) ==> c == -1)
            && (Phase(v) == Phase(w) ==>
                  && (PreNumber(v) < PreNumber(w) ==> c == -1)
                  && (PreNumber(v) == PreNumber(w) ==>
                        && (PostBefore(v, w) ==> c == -1)
                        && (!PostBefore(v, w) && !PostBefore(w, v) ==>
                              && (DevBefore(v, w) ==> c == -1)
                              && (!DevBefore(v, w) && !DevBefore(w, v) ==> c == Lex(NumbersLast, v.local, w.local)))))
  {
    hide PadLex, Lex, NumbersLast;
    assert KeyCmp(KeyOf(v), KeyOf(w)) ==
             Then(BoundCmp(KeyOf(v).pre, KeyOf(w).pre),
               Then(BoundCmp(KeyOf(v).post, KeyOf(w).post),
                 Then(BoundCmp(KeyOf(v).dev, KeyOf(w).dev), Lex(NumbersLast, v.local, w.local))));
    assert "a"[0] < "b"[0] < "rc"[0];
  }

  /** A version without local part, which parses as one empty segment, comes before all with one. */
  lemma NoLocalFirst(local: seq<string>)
    requires local != [] && local != [""]
    ensures Lex(NumbersLast, [""], local) == -1
  {
    assert ToInt("").None?;
    assert [""][1..] == [];
    StrCmpZero("", local[0]);
    if local[0] == "" {
      assert local == [local[0]] + local[1..];
    }
  }

  function WithoutZeros(release: seq<int>): seq<int> {
    if release != [] && release[|release| - 1] == 0 then WithoutZeros(release[..|release| - 1]) else release
  }

  lemma {:induction false} TieMeansSame(a: seq<int>, b: seq<int>)
    ensures PadLex(IntCmp, 0, a, b) == 0 <==> forall i: nat :: Orders.At(0, a, i) == Orders.At(0, b, i)
    decreases |a| + |b|
  {
    if a != [] || b != [] {
      TieMeansSame(Tail(a), Tail(b));
      assert Orders.At(0, a, 0) == Head(0, a) && Orders.At(0, b, 0) == Head(0, b);
      assert forall i: nat :: Orders.At(0, Tail(a), i) == Orders.At(0, a, i + 1) && Orders.At(0, Tail(b), i) == Orders.At(0, b, i + 1);
      if PadLex(IntCmp, 0, a, b) == 0 {
        forall i: nat ensures Orders.At(0, a, i) == Orders.At(0, b, i) {
          if i > 0 {
            assert Orders.At(0, Tail(a), i - 1) == Orders.At(0, Tail(b), i - 1);
          }
        }
      }
    }
  }

  lemma {:induction false} WithoutZerosAt(release: seq<int>, i: nat)
    ensures Orders.At(0, WithoutZeros(release), i) == Orders.At(0, release, i)
    ensures var t := WithoutZeros(release); t != [] ==> t[|t| - 1] != 0
  {
    if release != [] && release[|release| - 1] == 0 {
      WithoutZerosAt(release[..|release| - 1], i);
    }
  }

  /** Releases tie exactly if they are the same but for zeros at the end. */
  lemma ReleasesTieIff(a: seq<int>, b: seq<int>)
    ensures PadLex(IntCmp, 0, a, b) == 0 <==> WithoutZeros(a) == WithoutZeros(b)
  {
    hide WithoutZeros;
    var x, y := WithoutZeros(a), WithoutZeros(b);
    TieMeansSame(a, b);
    forall i: nat ensures Orders.At(0, x, i) == Orders.At(0, a, i) && Orders.At(0, y, i) == Orders.At(0, b, i) {
      WithoutZerosAt(a, i);
      WithoutZerosAt(b, i);
    }
    WithoutZerosAt(a, 0);
    WithoutZerosAt(b, 0);
    if PadLex(IntCmp, 0, a, b) == 0 {
      assert forall i: nat :: Orders.At(0, x, i) == Orders.At(0, y, i);
      assert x != [] ==> Orders.At(0, x, |x| - 1) == Orders.At(0, y, |x| - 1);
      assert y != [] ==> Orders.At(0, x, |y| - 1) == Orders.At(0, y, |y| - 1);
      assert |x| == |y|;
      forall i | 0 <= i < |x| ensures x[i] == y[i] {
        assert Orders.At(0, x, i) == Orders.At(0, y, i);
      }
    }
  }
}
