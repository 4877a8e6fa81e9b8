/** semantic/version-redhat.go: the rpmvercmp order. */
module RedHat {
  import opened Orders
  import opened Text

  /** What a component is made of. `End` marks where it stops. */
  datatype Token = Tilde | End | Caret | Letters(text: string) | Number(value: nat)

  function Rank(t: Token): int {
    match t
    case Tilde => 0
    case End => 1
    case Caret => 2
    case Letters(_) => 3
    case Number(_) => 4
  }

  function TokenCmp(x: Token, y: Token): int {
    match (x, y)
    case (Letters(s), Letters(t)) => StrCmp(s, t)
    case (Number(m), Number(n)) => IntCmp(m, n)
    case _ => IntCmp(Rank(x), Rank(y))
  }

  predicate ShouldBeTrimmed(c: char) {
    !IsLetter(c) && !IsDigit(c) && c != '~' && c != '^'
  }

  /** Maximal runs of digits and of letters, each tilde and each caret; all else only separates. */
  function Tokens(s: string): seq<Token>
    decreases |s|
  {
    if s == [] then [End]
    else if s[0] == '~' then [Tilde] + Tokens(s[1..])
    else if s[0] == '^' then [Caret] + Tokens(s[1..])
    else if IsDigit(s[0]) then
      var n := Run(IsDigit, s);
      [Number(Value(s[..n]))] + Tokens(s[n..])
    else if IsLetter(s[0]) then
      var n := Run(IsLetter, s);
      [Letters(s[..n])] + Tokens(s[n..])
    else Tokens(s[1..])
  }

  predicate StartsRun(s: string) {
    s != [] && (IsDigit(s[0]) || IsLetter(s[0]))
  }

  function FirstRun(s: string): nat
    requires StartsRun(s)
  {
    Run(if IsDigit(s[0]) then IsDigit else IsLetter, s)
  }

  function FirstToken(s: string): Token
    requires StartsRun(s)
  {
    if IsDigit(s[0]) then Number(Value(s[..FirstRun(s)])) else Letters(s[..FirstRun(s)])
  }

  lemma RunToken(s: string)
    requires StartsRun(s)
    ensures FirstRun(s) > 0 && Tokens(s) == [FirstToken(s)] + Tokens(s[FirstRun(s)..])
  {
  }

  /** The rank of the first token, read off the first character. */
  function LeadRank(s: string): int {
    if s == [] then 1
    else if s[0] == '~' then 0
    else if s[0] == '^' then 2
    else if IsDigit(s[0]) then 4 else 3
  }

  lemma LeadToken(s: string)
    requires s != [] ==> !ShouldBeTrimmed(s[0])
    ensures Tokens(s) != [] && Rank(Tokens(s)[0]) == LeadRank(s)
    ensures LeadRank(s) in {0, 2} ==> Tokens(s)[1..] == Tokens(s[1..])
  {
  }

  /** Steps 2 to 6 of the loop: first tokens of different kinds decide, two equal marks cancel. */
  lemma Marks(u: string, v: string)
    requires u != [] ==> !ShouldBeTrimmed(u[0])
    requires v != [] ==> !ShouldBeTrimmed(v[0])
    ensures LeadRank(u) != LeadRank(v) ==>
              Lex(TokenCmp, Tokens(u), Tokens(v)) == IntCmp(LeadRank(u), LeadRank(v))
    ensures LeadRank(u) == LeadRank(v) && LeadRank(u) in {0, 2} ==>
              Lex(TokenCmp, Tokens(u), Tokens(v)) == Lex(TokenCmp, Tokens(u[1..]), Tokens(v[1..]))
    ensures u == [] && v == [] ==> Lex(TokenCmp, Tokens(u), Tokens(v)) == 0
  {
    LeadToken(u);
    LeadToken(v);
    if u == [] && v == [] {
      LexCons(TokenCmp, End, [], End, []);
    }
  }

  /** The order on components: the empty one first, the others by their tokens. */
  function ComponentCmp(a: string, b: string): int {
    if a == "" && b != "" then -1
    else if a != "" && b == "" then 1
    else Lex(TokenCmp, Tokens(a), Tokens(b))
  }

  /** Pops the leading run of `p` from `s[from..]`. */
  method PopRun(p: char -> bool, s: string, from: nat) returns (segment: string, next: nat)
    requires from <= |s|
    ensures next == from + Run(p, s[from..])
    ensures next <= |s| && segment == s[from..next]
  {
    next, segment := from, [];
    while next < |s| && p(s[next])
      invariant from <= next <= |s| && segment == s[from..next]
      invariant next + Run(p, s[next..]) == from + Run(p, s[from..])
    {
      assert s[next..][1..] == s[next + 1..];
      segment := segment + [s[next]];
      next := next + 1;
    }
  }

  /** Steps 7 to 10 of the loop: pops one run from each side and compares the two. */
  method CompareRuns(a: string, ai: nat, b: string, bi: nat) returns (diff: int, aNext: nat, bNext: nat)
    requires ai < |a| && bi < |b|
    requires IsDigit(a[ai]) || IsLetter(a[ai])
    requires IsDigit(b[bi]) || IsLetter(b[bi])
    ensures ai < aNext <= |a| && bi <= bNext <= |b|
    ensures Lex(TokenCmp, Tokens(a[ai..]), Tokens(b[bi..]))
         == Then(diff, Lex(TokenCmp, Tokens(a[aNext..]), Tokens(b[bNext..])))
  {
    hide Tokens, Lex, Run, TrimZeros, Value, StrCmp;
    ghost var u, v := a[ai..], b[bi..];
    RunToken(u);
    RunToken(v);
    LexCons(TokenCmp, FirstToken(u), Tokens(u[FirstRun(u)..]), FirstToken(v), Tokens(v[FirstRun(v)..]));
    var isDigit := IsDigit(a[ai]);
    var expected := if isDigit then IsDigit else IsLetter;
    var sa, sb;
    sa, aNext := PopRun(expected, a, ai);
    sb, bNext := PopRun(expected, b, bi);
    if |sb| == 0 {
      return if isDigit then 1 else -1, aNext, bNext;
    }
    assert u[FirstRun(u)..] == a[aNext..] && u[..FirstRun(u)] == sa;
    assert v[FirstRun(v)..] == b[bNext..] && v[..FirstRun(v)] == sb;
    if isDigit {
      DigitRunsOrder(sa, sb);
      sa, sb := TrimZeros(sa), TrimZeros(sb);
      if |sa| > |sb| {
        return 1, aNext, bNext;
      }
      if |sa| < |sb| {
        return -1, aNext, bNext;
      }
    }
    diff := StrCmp(sa, sb);
  }

  method CompareComponents(a: string, b: string) returns (r: int)
    ensures r == ComponentCmp(a, b)
  {
    if a == "" && b != "" {
      return -1;
    }
    if a != "" && b == "" {
      return 1;
    }
    r := CompareTokens(a, b);
  }

  method CompareTokens(a: string, b: string) returns (r: int)
    ensures r == Lex(TokenCmp, Tokens(a), Tokens(b))
  {
    hide Tokens, Lex, Run, StrCmp, TrimZeros, TokenCmp;
    var ai, bi := 0, 0;
    assert a[ai..] == a && b[bi..] == b;
    while true
      invariant 0 <= ai <= |a| && 0 <= bi <= |b|
      invariant Lex(TokenCmp, Tokens(a[ai..]), Tokens(b[bi..])) == Lex(TokenCmp, Tokens(a), Tokens(b))
      decreases |a| - ai + |b| - bi
    {
      ai := SkipSeparators(a, ai);
      bi := SkipSeparators(b, bi);
      ghost var u, v := a[ai..], b[bi..];
      Marks(u, v);
      var aTilde, bTilde := ai < |a| && a[ai] == '~', bi < |b| && b[bi] == '~';
      if aTilde && bTilde {
        assert u[1..] == a[ai + 1..] && v[1..] == b[bi + 1..];
        ai, bi := ai + 1, bi + 1;
        continue;
      }
      if aTilde {
        return -1;
      }
      if bTilde {
        return 1;
      }
      var aCaret, bCaret := ai < |a| && a[ai] == '^', bi < |b| && b[bi] == '^';
      if aCaret && bCaret {
        assert u[1..] == a[ai + 1..] && v[1..] == b[bi + 1..];
        ai, bi := ai + 1, bi + 1;
        continue;
      }
      if aCaret {
        if bi == |b| {
          return 1;
        }
        return -1;
      }
      if bCaret {
        if ai == |a| {
          return -1;
        }
        return 1;
      }
      if ai == |a| || bi == |b| {
        break;
      }
      var diff;
      diff, ai, bi := CompareRuns(a, ai, b, bi);
      if diff != 0 {
        return diff;
      }
    }
    var al, bl := |a| - ai, |b| - bi;
    if al > bl {
      return 1;
    }
    if al < bl {
      return -1;
    }
    return 0;
  }

  /** Advances past the characters that only separate tokens. */
  method SkipSeparators(s: string, from: nat) returns (i: nat)
    requires from <= |s|
    ensures from <= i <= |s| && Tokens(s[i..]) == Tokens(s[from..])
    ensures i < |s| ==> !ShouldBeTrimmed(s[i])
  {
    i := from;
    while i < |s| && ShouldBeTrimmed(s[i])
      invariant from <= i <= |s| && Tokens(s[i..]) == Tokens(s[from..])
    {
      assert s[i..][1..] == s[i + 1..];
      i := i + 1;
    }
  }

  /** Stripping zeros, then comparing lengths, then text, compares the numbers. */
  lemma DigitRunsOrder(a: string, b: string)
    requires AllDigits(a) && AllDigits(b)
    ensures IntCmp(Value(a), Value(b))
         == Then(IntCmp(|TrimZeros(a)|, |TrimZeros(b)|), StrCmp(TrimZeros(a), TrimZeros(b)))
  {
    TrimZerosValue(a);
    TrimZerosValue(b);
    var x, y := TrimZeros(a), TrimZeros(b);
    if |x| < |y| {
      ShorterIsSmaller(x, y);
    } else if |x| > |y| {
      ShorterIsSmaller(y, x);
    } else {
      SameLengthOrder(x, y);
    }
  }

  // What the order means.

  predicate Plain(c: char) { IsDigit(c) || IsLetter(c) }

  /** What the strings begin with, separators aside, decides if it is of different kinds: a tilde comes
      before the end, the end before a caret, a caret before letters, letters before digits. */
  lemma KindsDecide(u: string, v: string)
    requires u != [] ==> !ShouldBeTrimmed(u[0])
    requires v != [] ==> !ShouldBeTrimmed(v[0])
    ensures u != [] && u[0] == '~' && (v == [] || v[0] != '~') ==> Lex(TokenCmp, Tokens(u), Tokens(v)) == -1
    ensures u == [] && v != [] && v[0] != '~' ==> Lex(TokenCmp, Tokens(u), Tokens(v)) == -1
    ensures u != [] && u[0] == '^' && v != [] && Plain(v[0]) ==> Lex(TokenCmp, Tokens(u), Tokens(v)) == -1
    ensures u != [] && IsLetter(u[0]) && v != [] && IsDigit(v[0]) ==> Lex(TokenCmp, Tokens(u), Tokens(v)) == -1
  {
    hide Tokens, Lex, TokenCmp;
    Marks(u, v);
  }

  /** Tokens are maximal runs of digits, by value, maximal runs of letters, tildes and carets; all other
      characters only separate. */
  lemma TokensRead(run: string, rest: string)
    ensures Tokens("") == [End] && Tokens("~" + rest) == [Tilde] + Tokens(rest) && Tokens("^" + rest) == [Caret] + Tokens(rest)
    ensures run != "" && ShouldBeTrimmed(run[0]) ==> Tokens([run[0]] + rest) == Tokens(rest)
    ensures run != "" && AllDigits(run) && (rest == "" || !IsDigit(rest[0])) ==>
              Tokens(run + rest) == [Number(Value(run))] + Tokens(rest)
    ensures run != "" && (forall i :: 0 <= i < |run| ==> IsLetter(run[i])) && (rest == "" || !IsLetter(rest[0])) ==>
              Tokens(run + rest) == [Letters(run)] + Tokens(rest)
  {
    hide Value, Run;
    assert ("~" + rest)[1..] == rest && ("^" + rest)[1..] == rest;
    var s := run + rest;
    if run != "" {
      assert ([run[0]] + rest)[1..] == rest;
      assert s[..|run|] == run && s[|run|..] == rest;
      if AllDigits(run) && (rest == "" || !IsDigit(rest[0])) {
        RunIs(IsDigit, run, rest);
      }
      if (forall i :: 0 <= i < |run| ==> IsLetter(run[i])) && (rest == "" || !IsLetter(rest[0])) {
        RunIs(IsLetter, run, rest);
      }
    }
  }

  /** The first run of a string and what follows it, or nothing if a separator or mark comes first. */
  lemma FirstRunSplits(s: string) returns (run: string, rest: string)
    requires s != "" && Plain(s[0])
    ensures run != "" && s == run + rest
    ensures rest == "" || IsDigit(rest[0]) != IsDigit(run[0]) || !Plain(rest[0])
    ensures if IsDigit(s[0]) then AllDigits(run) else forall i :: 0 <= i < |run| ==> IsLetter(run[i])
    ensures rest != "" ==> if IsDigit(s[0]) then !IsDigit(rest[0]) else !IsLetter(rest[0])
  {
    var p := if IsDigit(s[0]) then IsDigit else IsLetter;
    var n := Run(p, s);
    run, rest := s[..n], s[n..];
  }

  ghost function MarkToken(mark: char): Token {
    if mark == '~' then Tilde else Caret
  }

  /** What has been read comes first. */
  predicate EndsWithEnd(ts: seq<Token>) {
    ts != [] && ts[|ts| - 1] == End
  }

  function Front(ts: seq<Token>): seq<Token> {
    if ts == [] then [] else ts[..|ts| - 1]
  }

  lemma FrontCons(x: Token, ts: seq<Token>)
    requires EndsWithEnd(ts)
    ensures EndsWithEnd([x] + ts) && Front([x] + ts) == [x] + Front(ts)
  {
  }

  lemma EmptyTokens()
    ensures EndsWithEnd(Tokens("")) && Front(Tokens("")) == []
  {
  }

  /** A tilde or caret ends whatever token stands before it. */
  lemma {:induction false} TokensMark(s: string, mark: char, t: string)
    requires mark in {'~', '^'}
    ensures EndsWithEnd(Tokens(s))
    ensures Tokens(s + ([mark] + t)) == Front(Tokens(s)) + ([MarkToken(mark)] + Tokens(t))
    decreases |s|
  {
    hide Tokens, Run, Value, EndsWithEnd, Front;
    var tail := [mark] + t;
    TokensRead("", t);
    EmptyTokens();
    if s == "" {
      assert s + tail == tail && [] + ([MarkToken(mark)] + Tokens(t)) == [MarkToken(mark)] + Tokens(t);
      assert "~" + t == ['~'] + t && "^" + t == ['^'] + t;
    } else if Plain(s[0]) {
      var run, rest := FirstRunSplits(s);
      TokensMark(rest, mark, t);
      TokensRead(run, rest);
      TokensRead(run, rest + tail);
      assert s + tail == run + (rest + tail);
      var x := if IsDigit(s[0]) then Number(Value(run)) else Letters(run);
      FrontCons(x, Tokens(rest));
      assert ([x] + Front(Tokens(rest))) + ([MarkToken(mark)] + Tokens(t))
          == [x] + (Front(Tokens(rest)) + ([MarkToken(mark)] + Tokens(t)));
    } else {
      TokensMark(s[1..], mark, t);
      TokensMarkOther(s, mark, t);
    }
  }

  lemma TokensMarkOther(s: string, mark: char, t: string)
    requires s != "" && !Plain(s[0])
    requires EndsWithEnd(Tokens(s[1..]))
    requires Tokens(s[1..] + ([mark] + t)) == Front(Tokens(s[1..])) + ([MarkToken(mark)] + Tokens(t))
    ensures EndsWithEnd(Tokens(s))
    ensures Tokens(s + ([mark] + t)) == Front(Tokens(s)) + ([MarkToken(mark)] + Tokens(t))
  {
    hide Tokens, Run, Value, EndsWithEnd, Front;
    var rest, tail := s[1..], [mark] + t;
    assert s + tail == [s[0]] + (rest + tail) && s == [s[0]] + rest;
    TokensRead([s[0]], rest);
    TokensRead([s[0]], rest + tail);
    assert s[0] == '~' ==> [s[0]] == "~";
    assert s[0] == '^' ==> [s[0]] == "^";
    if s[0] in {'~', '^'} {
      var x := MarkToken(s[0]);
      FrontCons(x, Tokens(rest));
      assert ([x] + Front(Tokens(rest))) + ([MarkToken(mark)] + Tokens(t))
          == [x] + (Front(Tokens(rest)) + ([MarkToken(mark)] + Tokens(t)));
    }
  }

  lemma {:induction false} LexCommon(a: seq<Token>, b: seq<Token>, c: seq<Token>)
    ensures Lex(TokenCmp, a + b, a + c) == Lex(TokenCmp, b, c)
  {
    if a == [] {
      assert a + b == b && a + c == c;
    } else {
      TokenCmpPreorder();
      Chain(TokenCmp, a[0], a[0], a[0]);
      assert (a + b)[1..] == a[1..] + b && (a + c)[1..] == a[1..] + c;
      LexCommon(a[1..], b, c);
    }
  }

  /** Whatever follows, a tilde makes a version older, and a caret newer, than the version before it. */
  lemma SuffixesOrdered(s: string, t: string)
    requires s != ""
    ensures ComponentCmp(s + ("~" + t), s) == -1 && ComponentCmp(s, s + ("^" + t)) == -1
  {
    hide Tokens, Lex;
    TokensMark(s, '~', t);
    TokensMark(s, '^', t);
    var front := Front(Tokens(s));
    assert "~" + t == ['~'] + t && "^" + t == ['^'] + t;
    assert Tokens(s) == front + [End];
    LexCommon(front, [Tilde] + Tokens(t), [End]);
    LexCommon(front, [End], [Caret] + Tokens(t));
    LexCons(TokenCmp, Tilde, Tokens(t), End, []);
    LexCons(TokenCmp, End, [], Caret, Tokens(t));
    assert [End] + [] == [End];
  }

  lemma TokenCmpPreorder()
    ensures IsPreorder(TokenCmp)
  {
    StrCmpPreorder();
    forall x, y ensures -1 <= TokenCmp(x, y) <= 1 && TokenCmp(x, y) == -TokenCmp(y, x) {
      if x.Letters? && y.Letters? {
        assert StrCmp(x.text, y.text) == -StrCmp(y.text, x.text);
      }
    }
    forall x, y, z | TokenCmp(x, y) <= 0 && TokenCmp(y, z) <= 0 ensures TokenCmp(x, z) <= 0 {
      if x.Letters? && y.Letters? && z.Letters? {
        Chain(StrCmp, x.text, y.text, z.text);
      }
    }
  }

  /** rpmvercmp is a total preorder on all strings. */
  lemma ComponentCmpPreorder()
    ensures IsPreorder(ComponentCmp)
  {
    TokenCmpPreorder();
    forall a, b ensures -1 <= ComponentCmp(a, b) <= 1 && ComponentCmp(a, b) == -ComponentCmp(b, a) {
      LexFlips(TokenCmp, Tokens(a), Tokens(b));
    }
    forall a, b, c | ComponentCmp(a, b) <= 0 && ComponentCmp(b, c) <= 0 ensures ComponentCmp(a, c) <= 0 {
      if a != "" && b != "" && c != "" {
        LexTransitive(TokenCmp, Tokens(a), Tokens(b), Tokens(c));
      }
    }
  }

  datatype Version = Version(epoch: string, version: string, release: string)

  function VersionCmp(v: Version, w: Version): int {
    Then(ComponentCmp(v.epoch, w.epoch),
         Then(ComponentCmp(v.version, w.version), ComponentCmp(v.release, w.release)))
  }

  method Compare(v: Version, w: Version) returns (r: int)
    ensures r == VersionCmp(v, w)
  {
    r := CompareComponents(v.epoch, w.epoch);
    if r != 0 {
      return;
    }
    r := CompareComponents(v.version, w.version);
    if r != 0 {
      return;
    }
    r := CompareComponents(v.release, w.release);
  }

  /** The epoch decides, then the version, then the release. */
  lemma PartsDecide(v: Version, w: Version)
    ensures ComponentCmp(v.epoch, w.epoch) != 0 ==> VersionCmp(v, w) == ComponentCmp(v.epoch, w.epoch)
    ensures v.epoch == w.epoch && ComponentCmp(v.version, w.version) != 0 ==>
              VersionCmp(v, w) == ComponentCmp(v.version, w.version)
    ensures v.epoch == w.epoch && v.version == w.version ==> VersionCmp(v, w) == ComponentCmp(v.release, w.release)
  {
    hide ComponentCmp;
    ComponentCmpPreorder();
    Chain(ComponentCmp, v.epoch, v.epoch, v.epoch);
    Chain(ComponentCmp, v.version, v.version, v.version);
  }

  function Parse(s: string): Version {
    var colon := Find(s, ':');
    var hasEpoch := colon < |s| && AllDigits(s[..colon]);
    var epoch := if hasEpoch then s[..colon] else "";
    var vr := if hasEpoch then s[colon + 1..] else s;
    var dash := Find(vr, '-');
    Version(if epoch == "" then "0" else epoch, vr[..dash], vr[dash..])
  }

  /** The comparator of two parsed strings is a total preorder. */
  lemma VersionCmpPreorder()
    ensures IsPreorder(VersionCmp)
    ensures IsPreorder((s, t) => VersionCmp(Parse(s), Parse(t)))
  {
    ComponentCmpPreorder();
    var byEpoch := (v: Version, w: Version) => ComponentCmp(v.epoch, w.epoch);
    var byVersion := (v: Version, w: Version) => ComponentCmp(v.version, w.version);
    var byRelease := (v: Version, w: Version) => ComponentCmp(v.release, w.release);
    var byRest := (v, w) => Then(byVersion(v, w), byRelease(v, w));
    KeyPreorder((v: Version) => v.epoch, ComponentCmp, byEpoch);
    KeyPreorder((v: Version) => v.version, ComponentCmp, byVersion);
    KeyPreorder((v: Version) => v.release, ComponentCmp, byRelease);
    ThenPreorder(byVersion, byRelease, byRest);
    ThenPreorder(byEpoch, byRest, VersionCmp);
    KeyPreorder(Parse, VersionCmp, (s, t) => VersionCmp(Parse(s), Parse(t)));
  }

  lemma ParseEpoch(epoch: string, rest: string)
    requires AllDigits(epoch)
    ensures var dash := Find(rest, '-');
            Parse(epoch + ":" + rest) == Version(if epoch == "" then "0" else epoch, rest[..dash], rest[dash..])
  {
    hide Find;
    var s := epoch + [':'] + rest;
    FindAt(epoch, ':', rest);
    assert epoch + ":" + rest == s && s[..|epoch|] == epoch && s[|epoch| + 1..] == rest;
  }

  /** Parsing takes "epoch:version-release" apart again, whatever the three parts hold; no epoch is 0. */
  lemma ParsePrinted(epoch: string, version: string, release: string)
    requires AllDigits(epoch) && '-' !in version
    ensures var epoch' := if epoch == "" then "0" else epoch;
            && Parse(epoch + ":" + (version + "-" + release)) == Version(epoch', version, "-" + release)
            && Parse(epoch + ":" + version) == Version(epoch', version, "")
  {
    hide Find, Parse;
    var vr := version + ['-'] + release;
    ParseEpoch(epoch, vr);
    ParseEpoch(epoch, version);
    FindAt(version, '-', release);
    FindNone(version, '-');
    assert version + "-" + release == vr;
    assert vr[..|version|] == version && vr[|version|..] == "-" + release;
  }

  /** Without a colon, or with anything but digits before the first one, the epoch is 0 and the whole
      string is version and release, cut before the first hyphen. */
  lemma ParseNoEpoch(text: string, rest: string)
    requires ':' !in text
    ensures NoEpoch(text)
    ensures !AllDigits(text) ==> NoEpoch(text + ":" + rest)
  {
    FindNone(text, ':');
    FindAt(text, ':', rest);
    var s := text + [':'] + rest;
    assert s[..|text|] == text && s == text + ":" + rest;
    CutAtHyphen(text);
    CutAtHyphen(s);
  }

  predicate NoEpoch(s: string) {
    var v := Parse(s);
    v.epoch == "0" && v.version + v.release == s && '-' !in v.version && (v.release == "" || v.release[0] == '-')
  }

  lemma CutAtHyphen(s: string)
    ensures var n := Find(s, '-');
            s[..n] + s[n..] == s && '-' !in s[..n] && (s[n..] == "" || s[n..][0] == '-')
  {
  }
}
