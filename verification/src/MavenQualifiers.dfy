/** What the tokens of semantic/version-maven.go mean: how they are spelled, how they are ordered, and how
    they compare with the end of a shorter version. */
module MavenQualifiers {
  import opened Orders
  import opened Text
  import opened Wrappers
  import opened Maven
  import opened MavenOrder
  import opened MavenTransitivity

  // Spellings.

  /** What a lower-case piece stands for: an empty one for 0; cr for rc; ga, final and release for nothing;
      a, b and m, if a digit follows, for alpha, beta and milestone; other words for themselves. */
  lemma WordSpellings(word: string, followed: bool)
    requires forall i :: 0 <= i < |word| ==> !IsDigit(word[i])
    ensures var value := Normalise(word, followed);
            && (word == "" ==> value == "0")
            && (word == "cr" ==> value == "rc")
            && (word in {"ga", "final", "release"} ==> value == "")
            && (word == "a" ==> value == if followed then "alpha" else "a")
            && (word == "b" ==> value == if followed then "beta" else "b")
            && (word == "m" ==> value == if followed then "milestone" else "m")
            && (word !in {"", "cr", "ga", "final", "release", "a", "b", "m"} ==> value == word)
  {
    assert word != "" ==> !IsDigit(word[0]);
    assert !AllDigits("rc") by { assert !IsDigit("rc"[0]); }
    assert !AllDigits("alpha") by { assert !IsDigit("alpha"[0]); }
    assert !AllDigits("beta") by { assert !IsDigit("beta"[0]); }
    assert !AllDigits("milestone") by { assert !IsDigit("milestone"[0]); }
    assert !AllDigits("a") by { assert !IsDigit("a"[0]); }
    assert !AllDigits("b") by { assert !IsDigit("b"[0]); }
    assert !AllDigits("m") by { assert !IsDigit("m"[0]); }
    assert TrimZeros("0") == "";
  }

  lemma {:induction false} DecimalLead(n: nat)
    ensures Decimal(n)[0] == '0' <==> n == 0
  {
    if n >= 10 {
      DecimalLead(n / 10);
      assert Decimal(n)[0] == Decimal(n / 10)[0];
    }
  }

  lemma {:induction false} ZerosTrimmed(zeros: string, digits: string)
    requires Zeros(zeros)
    ensures TrimZeros(zeros + digits) == TrimZeros(digits)
  {
    if zeros == "" {
      assert zeros + digits == digits;
    } else {
      assert (zeros + digits)[1..] == zeros[1..] + digits;
      ZerosTrimmed(zeros[1..], digits);
    }
  }

  /** Numbers lose their leading zeros. */
  lemma NumberSpellings(zeros: string, n: nat, followed: bool)
    requires Zeros(zeros)
    ensures Normalise(zeros + Decimal(n), followed) == Decimal(n)
  {
    hide Decimal;
    var piece := zeros + Decimal(n);
    DecimalLead(n);
    ZerosTrimmed(zeros, Decimal(n));
    assert AllDigits(piece) && piece != "" && IsDigit(piece[0]);
    assert Normalise(piece, followed) == StripNumber(piece);
    DecimalZero(n);
  }

  lemma DecimalZero(n: nat)
    ensures n == 0 ==> Decimal(n) == "0" && TrimZeros(Decimal(n)) == ""
    ensures n > 0 ==> TrimZeros(Decimal(n)) == Decimal(n)
  {
    DecimalLead(n);
    if n == 0 {
      assert Decimal(0) == "0";
    }
  }

  lemma {:induction false} OneTransition(s: string, from: nat, k: nat)
    requires 0 < from <= k < |s| && IsDigit(s[k - 1]) != IsDigit(s[k])
    requires forall i :: 0 < i < |s| && i != k ==> IsDigit(s[i - 1]) == IsDigit(s[i])
    ensures Transitions(s, from) == [k]
    decreases k - from
  {
    if from < k {
      OneTransition(s, from + 1, k);
    } else {
      NoTransitions(s, k + 1);
      assert [k] + [] == [k];
    }
  }

  /** A piece of a word and a number, in either order, makes two tokens, the second behind a hyphen; the
      first one is spelled as followed. */
  lemma TwoRuns(a: string, b: string, prefix: string)
    requires a != "" && b != "" && IsDigit(a[0]) != IsDigit(b[0])
    requires forall i :: 0 <= i < |a| ==> IsDigit(a[i]) == IsDigit(a[0])
    requires forall i :: 0 <= i < |b| ==> IsDigit(b[i]) == IsDigit(b[0])
    ensures PieceTokens(a + b, prefix, 0, Cuts(a + b))
         == [Token(prefix, Normalise(Lower(a), true), false), Token("-", Normalise(Lower(b), false), false)]
  {
    hide Normalise, Transitions, PieceTokens;
    var s := a + b;
    OneTransition(s, 1, |a|);
    assert Cuts(s) == [|a|, |s|] && s[0..|a|] == a && s[|a|..|s|] == b;
    PieceStep([], s, prefix, 0, [|a|, |s|]);
    assert [|a|, |s|][1..] == [|s|] && [|s|][1..] == [];
    var first := Token(prefix, Normalise(Lower(a), true), false);
    assert [] + [first] == [first];
    PieceStep([first], s, "-", |a|, [|s|]);
    PieceEnd([first] + [Token("-", Normalise(Lower(b), false), false)], s, "-", |s|);
    assert [] + PieceTokens(s, prefix, 0, [|a|, |s|]) == PieceTokens(s, prefix, 0, [|a|, |s|]);
  }

  // The order of tokens at one place.

  predicate Number(t: Token) { ToInt(t.value).Some? }

  /** Between prefixes: a word behind a dot, a word behind a hyphen, a number behind a hyphen, a number
      behind a dot, in this order. */
  lemma PrefixChain(t: Token, u: Token)
    requires GoodToken(t) && GoodToken(u)
    ensures t.prefix == "." && !Number(t) && (u.prefix == "-" || Number(u)) ==> Less(t, u) && !Less(u, t)
    ensures t.prefix == "-" && !Number(t) && Number(u) ==> Less(t, u) && !Less(u, t)
    ensures t.prefix == "-" && Number(t) && u.prefix == "." && Number(u) ==> Less(t, u) && !Less(u, t)
  {
    hide ToInt, Shortest;
  }

  /** Behind the same prefix, or without one, words come before numbers, and numbers are ordered by value. */
  lemma NumbersLast(t: Token, u: Token)
    requires SameKind(t, u) && t.prefix == u.prefix && Number(u)
    ensures !Number(t) ==> Less(t, u) && !Less(u, t)
    ensures Number(t) ==> (Less(t, u) <==> ToInt(t.value).value < ToInt(u.value).value)
  {
    hide ToInt, Shortest;
  }

  predicate Known(word: string) {
    word in {"alpha", "beta", "milestone", "rc", "snapshot", "", "sp"}
  }

  /** Words come in the order alpha, beta, milestone, rc, snapshot, nothing, sp, and then all others as
      text. */
  lemma WordChain(t: Token, u: Token)
    requires SameKind(t, u) && t.prefix == u.prefix && !Number(t) && !Number(u)
    ensures t.value == "alpha" && u.value != "alpha" ==> Less(t, u) && !Less(u, t)
    ensures t.value == "beta" && u.value !in {"alpha", "beta"} ==> Less(t, u) && !Less(u, t)
    ensures t.value == "milestone" && u.value in {"rc", "snapshot", "", "sp"} ==> Less(t, u) && !Less(u, t)
    ensures t.value == "rc" && u.value in {"snapshot", "", "sp"} ==> Less(t, u) && !Less(u, t)
    ensures t.value == "snapshot" && u.value in {"", "sp"} ==> Less(t, u) && !Less(u, t)
    ensures t.value == "" && u.value == "sp" ==> Less(t, u) && !Less(u, t)
    ensures Known(t.value) && !Known(u.value) ==> Less(t, u) && !Less(u, t)
    ensures !Known(t.value) && !Known(u.value) ==> (Less(t, u) <==> StrCmp(t.value, u.value) < 0)
  {
    hide ToInt, Shortest;
  }

  /** Against the end of a shorter version: a number behind a hyphen comes after it, and so does one behind
      a dot unless it is 0, which ties; the pre-release words come before it; sp comes after it; nothing
      ties behind a hyphen and comes before it behind a dot; other words come after it behind a hyphen,
      and as their text compares with "0" behind a dot. */
  lemma EndVerdict(t: Token)
    requires GoodToken(t)
    ensures Number(t) ==> Sign(t) == if t.prefix == "." && t.value == "0" then 0 else 1
    ensures t.value in {"alpha", "beta", "milestone", "rc", "snapshot"} ==> Sign(t) == -1
    ensures t.value == "sp" ==> Sign(t) == 1
    ensures t.value == "" ==> Sign(t) == if t.prefix == "-" then 0 else -1
    ensures !Number(t) && !Known(t.value) ==> Sign(t) == if t.prefix == "-" then 1 else StrCmp(t.value, "0")
  {
    hide ToInt;
    NullNumbers();
    ShortestZero(t.value);
    NoNumber("alpha");
    NoNumber("beta");
    NoNumber("milestone");
    NoNumber("rc");
    NoNumber("snapshot");
    NoNumber("sp");
    CharCmpPreorder();
    LexFlips(CharCmp, t.value, "0");
    StrCmpZero(t.value, "0");
  }

  lemma ShortestZero(value: string)
    requires Shortest(value)
    ensures ToInt(value).Some? ==> ToInt(value).value >= 0 && (ToInt(value).value == 0 <==> value == "0")
  {
    if ToInt(value) == Some(0) {
      ShortestUnique(value, "0");
    }
  }

  // Versions.

  /** Two version strings with a place where their tokens differ for the first time compare as these. */
  lemma FirstDifferenceDecides(s: string, t: string, i: nat)
    requires SameBefore(Parse(s), Parse(t), i) && i < |Parse(s)| && i < |Parse(t)| && Parse(s)[i] != Parse(t)[i]
    ensures SameKind(Parse(s)[i], Parse(t)[i])
    ensures Cmp(Parse(s), Parse(t)) == Some(if Less(Parse(s)[i], Parse(t)[i]) then -1 else 1)
  {
    hide Parse, LessFrom, TokenLess, Trimmed, Shortest;
    ParseGood(s);
    ParseGood(t);
    var v, w, all := Parse(s), Parse(t), iset x: Token | GoodToken(x);
    assert Version(all, v) && Version(all, w);
    LessStep(all, v, w, i);
    LessDecides(v[i], w[i]);
    SameUpTo(all, v, w, i);
    SameMeansEqual(v, w);
  }

  lemma {:induction false} SameUpTo(later: iset<Token>, v: seq<Token>, w: seq<Token>, i: nat)
    requires Version(later, v) && Version(later, w) && SameBefore(v, w, i)
    ensures LessFrom(v, w, 0) == LessFrom(v, w, i)
  {
    hide LessFrom, TokenLess, Good, Trimmed;
    if i > 0 {
      SameUpTo(later, v, w, i - 1);
      LessStep(later, v, w, i - 1);
    }
  }

  /** A version string whose tokens go on where those of another one end compares with it as the first
      token behind that does not tie with the end. */
  lemma EndDecides(s: string, t: string)
    requires SameBefore(Parse(s), Parse(t), |Parse(t)|) && |Parse(t)| < |Parse(s)|
    ensures GoodFrom(Parse(s), |Parse(t)|) && SignFrom(Parse(s), |Parse(t)|) != 0
    ensures Cmp(Parse(s), Parse(t)) == Some(SignFrom(Parse(s), |Parse(t)|))
  {
    hide Parse, LessFrom, TokenLess, Trimmed, Sign, Shortest;
    ParseGood(s);
    ParseGood(t);
    var v, w, all := Parse(s), Parse(t), iset x: Token | GoodToken(x);
    assert Version(all, v) && Version(all, w);
    SameUpTo(all, v, w, |w|);
    SignNotZero(v, |w|);
    AgainstEnd(v, w, |w|);
  }

  // Transitivity on strings.

  ghost predicate ReadableSet(later: iset<Token>) {
    forall t :: t in later ==> GoodToken(t) && Readable(t.value)
  }

  /** The tokens of the version string after the first are from `later`. */
  ghost predicate StringOver(later: iset<Token>, s: string) {
    forall i :: 0 < i < |Parse(s)| ==> Parse(s)[i] in later
  }

  ghost predicate StringsTransitive(later: iset<Token>) {
    forall s, t, u | StringOver(later, s) && StringOver(later, t) && StringOver(later, u) ::
      AtMost(Parse(s), Parse(t)) && AtMost(Parse(t), Parse(u)) ==> AtMost(Parse(s), Parse(u))
  }

  lemma VersionPrints(later: iset<Token>, v: seq<Token>)
    requires ReadableSet(later) && Version(later, v) && v[0] == ONE
    ensures v != [] && Printable(v) && Parse(Print(v)) == v && StringOver(later, Print(v))
  {
    hide Parse, Print, Shortest;
    assert forall i :: 0 < i < |v| ==> v[i] in later;
    assert Readable("1");
    PrintedParses(v);
  }

  /** Among all version strings whose tokens after the first are from a given set of readable tokens, the
      comparison is transitive if and only if the set is layered. */
  lemma StringsTransitiveIff(later: iset<Token>)
    requires ReadableSet(later)
    ensures GoodSet(later) && (StringsTransitive(later) <==> Layered(later))
  {
    hide Parse, Print, AtMost, Version, MayBe, Readable, Less;
    if Layered(later) {
      forall s, t, u | StringOver(later, s) && StringOver(later, t) && StringOver(later, u)
                       && AtMost(Parse(s), Parse(t)) && AtMost(Parse(t), Parse(u))
        ensures AtMost(Parse(s), Parse(u))
      {
        ParsedVersion(later, s);
        ParsedVersion(later, t);
        ParsedVersion(later, u);
        LayeredIsTransitive(later, Parse(s), Parse(t), Parse(u));
      }
    } else {
      var a, b :| a in later && b in later && Less(a, b) && MayBe(later, a, 1) && MayBe(later, b, -1);
      var v, w := Circle(later, a, b);
      VersionPrints(later, [ONE]);
      VersionPrints(later, v);
      VersionPrints(later, w);
    }
  }

  lemma ParsedVersion(later: iset<Token>, s: string)
    requires StringOver(later, s)
    ensures Version(later, Parse(s))
  {
    hide Parse, Good, Trimmed;
    ParseGood(s);
  }
}
