/** semantic/version-debian.go: the Debian version order. */
module Debian {
  import opened Orders
  import opened Text
  import opened Wrappers

  predicate NotDigit(c: char) { !IsDigit(c) }

  /** A run of non-digits and the number after it. */
  datatype Part = Part(text: string, number: nat)

  /** A version string as alternating text and numbers; it goes on with Nothing for ever. */
  function Parts(s: string): seq<Part>
    decreases |s|
  {
    if s == "" then []
    else
      var text := s[..Run(NotDigit, s)];
      var rest := s[|text|..];
      var digits := rest[..Run(IsDigit, rest)];
      [Part(text, Value(digits))] + Parts(rest[|digits|..])
  }

  const Nothing := Part("", 0)

  const END := 2

  /** weighDebianChar for a character; the end of a text weighs END. */
  function Weigh(c: char): int {
    if c == '~' then 1 else if IsLetter(c) then c as int else c as int + 122
  }

  function Weights(text: string): (ws: seq<int>)
    ensures |ws| == |text|
    ensures forall i :: 0 <= i < |text| ==> ws[i] == Weigh(text[i])
  {
    seq(|text|, i requires 0 <= i < |text| => Weigh(text[i]))
  }

  function TextCmp(a: string, b: string): int {
    PadLex(IntCmp, END, Weights(a), Weights(b))
  }

  function PartCmp(x: Part, y: Part): int {
    Then(TextCmp(x.text, y.text), IntCmp(x.number, y.number))
  }

  /** The order: part by part, both sides padded for ever. */
  function StringCmp(a: string, b: string): int {
    PadLex(PartCmp, Nothing, Parts(a), Parts(b))
  }

  method SplitNonDigitPrefix(s: string) returns (prefix: string, rest: string)
    ensures prefix == s[..Run(NotDigit, s)] && rest == s[Run(NotDigit, s)..]
  {
    var i := Run(NotDigit, s);
    return s[..i], s[i..];
  }

  /** None stands for the source's conversion error. */
  method SplitDigitPrefix(s: string) returns (number: Option<nat>, rest: string)
    ensures number == Some(Value(s[..Run(IsDigit, s)])) && rest == s[Run(IsDigit, s)..]
  {
    var i := Run(IsDigit, s);
    if i == 0 {
      return Some(0), s;
    }
    var n := ToInt(s[..i]);
    if n.None? {
      return None, "";
    }
    return Some(n.value), s[i..];
  }

  function Rest<T>(s: seq<T>, i: nat): seq<T> {
    if i <= |s| then s[i..] else []
  }

  /** The character loop: 0 when it runs to the end. */
  method CompareTexts(a: string, b: string) returns (r: int)
    ensures r == TextCmp(a, b)
  {
    ghost var x, y := Weights(a), Weights(b);
    var n := if |a| >= |b| then |a| else |b|;
    for i := 0 to n
      invariant PadLex(IntCmp, END, Rest(x, i), Rest(y, i)) == TextCmp(a, b)
    {
      assert Tail(Rest(x, i)) == Rest(x, i + 1) && Tail(Rest(y, i)) == Rest(y, i + 1);
      var aw := if i < |a| then Weigh(a[i]) else END;
      var bw := if i < |b| then Weigh(b[i]) else END;
      if aw < bw {
        return -1;
      }
      if aw > bw {
        return 1;
      }
    }
    return 0;
  }

  /** compareDebianVersions; it never fails. */
  method CompareStrings(a0: string, b0: string) returns (r: int, failed: bool)
    ensures !failed && r == StringCmp(a0, b0)
  {
    var a, b := a0, b0;
    while a != "" || b != ""
      invariant StringCmp(a, b) == StringCmp(a0, b0)
      decreases |a| + |b|
    {
      FirstPart(a);
      FirstPart(b);
      ghost var x, y := Head(Nothing, Parts(a)), Head(Nothing, Parts(b));
      ghost var ta, tb := Tail(Parts(a)), Tail(Parts(b));
      var ap, bp;
      ap, a := SplitNonDigitPrefix(a);
      bp, b := SplitNonDigitPrefix(b);
      if ap != bp {
        var diff := CompareTexts(ap, bp);
        if diff != 0 {
          return diff, false;
        }
      } else {
        SameText(ap);
      }
      var adp, bdp;
      adp, a := SplitDigitPrefix(a);
      if adp.None? {
        return 0, true;
      }
      bdp, b := SplitDigitPrefix(b);
      if bdp.None? {
        return 0, true;
      }
      var diff := IntCmp(adp.value, bdp.value);
      if diff != 0 {
        return diff, false;
      }
    }
    return 0, false;
  }

  lemma FirstPart(s: string)
    ensures var text := s[..Run(NotDigit, s)];
            var rest := s[|text|..];
            var digits := rest[..Run(IsDigit, rest)];
            && Head(Nothing, Parts(s)) == Part(text, Value(digits))
            && Tail(Parts(s)) == Parts(rest[|digits|..])
            && (s != "" ==> |rest[|digits|..]| < |s|)
  {
  }

  lemma SameText(text: string)
    ensures TextCmp(text, text) == 0
  {
    IntCmpPreorder();
    PadLexFlips(IntCmp, END, Weights(text), Weights(text));
  }

  lemma PartCmpPreorder()
    ensures IsPreorder(PartCmp)
  {
    IntCmpPreorder();
    PadLexPreorder(IntCmp, END);
    var byText := (x: Part, y: Part) => TextCmp(x.text, y.text);
    var byNumber := (x: Part, y: Part) => IntCmp(x.number, y.number);
    KeyPreorder((x: Part) => Weights(x.text), (v, w) => PadLex(IntCmp, END, v, w), byText);
    KeyPreorder((x: Part) => x.number as int, IntCmp, byNumber);
    ThenPreorder(byText, byNumber, PartCmp);
  }

  /** compareDebianVersions is a total preorder on all strings. */
  lemma StringCmpPreorder()
    ensures IsPreorder(StringCmp)
  {
    PartCmpPreorder();
    PadLexPreorder(PartCmp, Nothing);
    KeyPreorder(Parts, (v, w) => PadLex(PartCmp, Nothing, v, w), StringCmp);
  }

  datatype Version = Version(epoch: int, upstream: string, revision: string)

  function VersionCmp(v: Version, w: Version): int {
    Then(IntCmp(v.epoch, w.epoch), Then(StringCmp(v.upstream, w.upstream), StringCmp(v.revision, w.revision)))
  }

  method Compare(v: Version, w: Version) returns (r: int, failed: bool)
    ensures !failed && r == VersionCmp(v, w)
  {
    r, failed := IntCmp(v.epoch, w.epoch), false;
    if r != 0 {
      return;
    }
    r, failed := CompareStrings(v.upstream, w.upstream);
    if r != 0 || failed {
      return;
    }
    r, failed := CompareStrings(v.revision, w.revision);
  }

  /** DebianVersion.compare is a total preorder. */
  lemma VersionCmpPreorder()
    ensures IsPreorder(VersionCmp)
  {
    IntCmpPreorder();
    StringCmpPreorder();
    var byEpoch := (v: Version, w: Version) => IntCmp(v.epoch, w.epoch);
    var byUpstream := (v: Version, w: Version) => StringCmp(v.upstream, w.upstream);
    var byRevision := (v: Version, w: Version) => StringCmp(v.revision, w.revision);
    var byRest := (v, w) => Then(byUpstream(v, w), byRevision(v, w));
    KeyPreorder((v: Version) => v.epoch, IntCmp, byEpoch);
    KeyPreorder((v: Version) => v.upstream, StringCmp, byUpstream);
    KeyPreorder((v: Version) => v.revision, StringCmp, byRevision);
    ThenPreorder(byUpstream, byRevision, byRest);
    ThenPreorder(byEpoch, byRest, VersionCmp);
  }

  /** The epoch decides, then the upstream version, then the revision. */
  lemma PartsDecide(v: Version, w: Version)
    ensures v.epoch != w.epoch ==> VersionCmp(v, w) == if v.epoch < w.epoch then -1 else 1
    ensures v.epoch == w.epoch && StringCmp(v.upstream, w.upstream) != 0 ==>
              VersionCmp(v, w) == StringCmp(v.upstream, w.upstream)
    ensures v.epoch == w.epoch && v.upstream == w.upstream ==> VersionCmp(v, w) == StringCmp(v.revision, w.revision)
  {
    hide StringCmp;
    StringCmpPreorder();
    Chain(StringCmp, v.upstream, v.upstream, v.upstream);
  }

  /** A string is read as a text without digits and the digits after it, by value, in turn. */
  lemma PartsRead(text: string, digits: string, rest: string)
    requires (forall i :: 0 <= i < |text| ==> !IsDigit(text[i])) && AllDigits(digits) && text + digits != ""
    requires rest != "" ==> digits != "" && !IsDigit(rest[0])
    ensures Parts("") == [] && Parts(text + (digits + rest)) == [Part(text, Value(digits))] + Parts(rest)
  {
    hide Run, Value;
    var s, after := text + (digits + rest), digits + rest;
    assert after != "" ==> IsDigit(after[0]);
    RunIs(NotDigit, text, after);
    RunIs(IsDigit, digits, rest);
    assert s[..|text|] == text && s[|text|..] == after;
    assert after[..|digits|] == digits && after[|digits|..] == rest;
  }

  // Section 5.6.12 of the Debian Policy Manual: in a text, a tilde sorts before everything, even the
  // end, and all letters sort earlier than all non-letters; otherwise by ASCII value.

  function PolicyClass(c: Option<char>): int {
    if c == Some('~') then 0 else if c == None then 1 else if IsLetter(c.value) then 2 else 3
  }

  function PolicyCmp(c: Option<char>, d: Option<char>): int {
    Then(IntCmp(PolicyClass(c), PolicyClass(d)),
         if c == None || d == None then 0 else CharCmp(c.value, d.value))
  }

  function WeighOrEnd(c: Option<char>): int {
    if c == None then END else Weigh(c.value)
  }

  /** The weights order any two of the ASCII characters and the end as the policy does, except NUL and
      the letter z, which weigh the same. */
  lemma WeightsFollowPolicy(c: Option<char>, d: Option<char>)
    requires c.Some? ==> c.value as int < 128
    requires d.Some? ==> d.value as int < 128
    ensures IntCmp(WeighOrEnd(c), WeighOrEnd(d)) == PolicyCmp(c, d)
            <==> !((c == Some('\0') && d == Some('z')) || (c == Some('z') && d == Some('\0')))
  {
  }

  function Chars(text: string): (cs: seq<Option<char>>)
    ensures |cs| == |text|
    ensures forall i :: 0 <= i < |text| ==> cs[i] == Some(text[i])
  {
    seq(|text|, i requires 0 <= i < |text| => Some(text[i]))
  }

  function PolicyPartCmp(x: Part, y: Part): int {
    Then(PadLex(PolicyCmp, None, Chars(x.text), Chars(y.text)), IntCmp(x.number, y.number))
  }

  function PolicyStringCmp(a: string, b: string): int {
    PadLex(PolicyPartCmp, Nothing, Parts(a), Parts(b))
  }

  ghost predicate Ascii(alphabet: iset<char>) {
    forall c :: c in alphabet ==> c as int < 128
  }

  ghost predicate Over(alphabet: iset<char>, s: string) {
    forall i :: 0 <= i < |s| ==> s[i] in alphabet
  }

  /** NUL and the letter z do not both occur. */
  ghost predicate NoClash(alphabet: iset<char>) {
    !('\0' in alphabet && 'z' in alphabet)
  }

  lemma {:induction false} TextFollowsPolicy(alphabet: iset<char>, a: string, b: string)
    requires Ascii(alphabet) && NoClash(alphabet) && Over(alphabet, a) && Over(alphabet, b)
    ensures TextCmp(a, b) == PadLex(PolicyCmp, None, Chars(a), Chars(b))
    decreases |a| + |b|
  {
    if a != "" || b != "" {
      var c, d := Head(None, Chars(a)), Head(None, Chars(b));
      WeightsFollowPolicy(c, d);
      assert WeighOrEnd(c) == Head(END, Weights(a)) && WeighOrEnd(d) == Head(END, Weights(b));
      assert Tail(Weights(a)) == Weights(Tail(a)) && Tail(Chars(a)) == Chars(Tail(a));
      assert Tail(Weights(b)) == Weights(Tail(b)) && Tail(Chars(b)) == Chars(Tail(b));
      TextFollowsPolicy(alphabet, Tail(a), Tail(b));
    }
  }

  ghost predicate PartsOver(alphabet: iset<char>, ps: seq<Part>) {
    forall i :: 0 <= i < |ps| ==> Over(alphabet, ps[i].text)
  }

  lemma {:induction false} PartsAreOver(alphabet: iset<char>, s: string)
    requires Over(alphabet, s)
    ensures PartsOver(alphabet, Parts(s))
    decreases |s|
  {
    hide Parts, Value, Run;
    FirstPart(s);
    NoParts();
    if s != "" {
      var text := s[..Run(NotDigit, s)];
      var rest := s[|text|..];
      var digits := rest[..Run(IsDigit, rest)];
      var after := rest[|digits|..];
      assert Over(alphabet, text) && Over(alphabet, rest) && Over(alphabet, after);
      PartsAreOver(alphabet, after);
      var ps := Parts(s);
      if ps != [] {
        assert ps[0] == Part(text, Value(digits)) && ps[1..] == Parts(after);
        assert forall i :: 0 < i < |ps| ==> ps[i] == ps[1..][i - 1];
      }
    }
  }

  lemma NoParts()
    ensures Parts("") == []
  {
  }

  lemma {:induction false} PartsFollowPolicy(alphabet: iset<char>, xs: seq<Part>, ys: seq<Part>)
    requires Ascii(alphabet) && NoClash(alphabet) && PartsOver(alphabet, xs) && PartsOver(alphabet, ys)
    ensures PadLex(PartCmp, Nothing, xs, ys) == PadLex(PolicyPartCmp, Nothing, xs, ys)
    decreases |xs| + |ys|
  {
    if xs != [] || ys != [] {
      TextFollowsPolicy(alphabet, Head(Nothing, xs).text, Head(Nothing, ys).text);
      PartsFollowPolicy(alphabet, Tail(xs), Tail(ys));
    }
  }

  ghost predicate FollowsPolicy(alphabet: iset<char>) {
    forall a, b | Over(alphabet, a) && Over(alphabet, b) :: StringCmp(a, b) == PolicyStringCmp(a, b)
  }

  /** The comparison is the policy's, texts and numbers in turn, for all strings over ASCII characters of
      which not both NUL and the letter z occur, and for no larger alphabet. */
  lemma FollowsPolicyIff(alphabet: iset<char>)
    requires Ascii(alphabet)
    ensures FollowsPolicy(alphabet) <==> NoClash(alphabet)
  {
    hide Parts;
    if NoClash(alphabet) {
      forall a, b | Over(alphabet, a) && Over(alphabet, b) ensures StringCmp(a, b) == PolicyStringCmp(a, b) {
        PartsAreOver(alphabet, a);
        PartsAreOver(alphabet, b);
        PartsFollowPolicy(alphabet, Parts(a), Parts(b));
      }
    } else {
      assert Over(alphabet, "\0") && Over(alphabet, "z");
      Clash();
    }
  }

  lemma OnePart(c: char)
    requires !IsDigit(c)
    ensures Parts([c]) == [Part([c], 0)]
  {
    assert [c][..1] == [c] && [c][1..] == "";
  }

  lemma Clash()
    ensures StringCmp("\0", "z") == 0 && PolicyStringCmp("\0", "z") == 1
  {
    hide Parts, Weights, Chars;
    OnePart('\0');
    OnePart('z');
    assert Weights("\0") == [122] == Weights("z");
    assert Chars("\0") == [Some('\0')] && Chars("z") == [Some('z')];
    assert TextCmp("\0", "z") == 0;
  }
}
