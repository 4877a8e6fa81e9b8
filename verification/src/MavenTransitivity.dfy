/** When the comparison of semantic/version-maven.go is transitive: exactly which tokens may occur
    behind the first one. */
module MavenTransitivity {
  import opened Orders
  import opened Text
  import opened Wrappers
  import opened Maven
  import opened MavenOrder

  // Tokens.

  predicate FirstToken(t: Token) {
    t.prefix == "" && Shortest(t.value) && !t.isNull
  }

  /** The tokens can stand at the same place. */
  predicate SameKind(t: Token, u: Token) {
    (GoodToken(t) && GoodToken(u)) || (FirstToken(t) && FirstToken(u))
  }

  predicate Less(t: Token, u: Token) {
    TokenLess(t, u) == Some(true)
  }

  lemma LessDecides(t: Token, u: Token)
    requires SameKind(t, u)
    ensures t != u ==> TokenLess(t, u).Some? && TokenLess(u, t).Some? && (Less(t, u) <==> !Less(u, t))
    ensures !Less(t, t)
  {
    hide ToInt, Shortest;
    CharCmpPreorder();
    LexFlips(CharCmp, t.value, t.value);
    if t != u {
      if t.prefix == u.prefix {
        SamePrefixDecides(t, u);
      } else {
        PrefixDecides(t, u);
      }
    }
  }

  lemma LessTransitive(t: Token, u: Token, w: Token)
    requires SameKind(t, u) && SameKind(u, w) && Less(t, u) && Less(u, w)
    ensures Less(t, w)
  {
    hide ToInt, Shortest;
    StrCmpPreorder();
    Chain(StrCmp, t.value, u.value, w.value);
  }

  /** The verdict on a token against the null token a shorter version is padded with: 0 if it does not
      decide. */
  function Sign(t: Token): (sign: int)
    requires GoodToken(t)
    ensures -1 <= sign <= 1
  {
    var end := NullToken(t).value;
    if t.Equal(end) then 0 else if Less(t, end) then -1 else 1
  }

  lemma SignDecides(t: Token)
    requires GoodToken(t)
    ensures NullToken(t).Some?
    ensures Sign(t) == 0 <==> t.Equal(NullToken(t).value)
    ensures Sign(t) == 0 ==> t.ShouldTrim()
    ensures Sign(t) != 0 ==> TokenLess(t, NullToken(t).value) == Some(Sign(t) < 0)
                             && TokenLess(NullToken(t).value, t) == Some(Sign(t) > 0)
  {
    hide ToInt, Shortest;
    NullValues();
    if Sign(t) != 0 {
      SamePrefixDecides(t, NullToken(t).value);
    }
  }

  // Versions against a shorter one.

  predicate GoodFrom(v: seq<Token>, i: nat) {
    forall j :: i <= j < |v| ==> GoodToken(v[j])
  }

  /** The first sign that decides from position `i` on. */
  function SignFrom(v: seq<Token>, i: nat): (sign: int)
    requires GoodFrom(v, i)
    ensures -1 <= sign <= 1
    decreases |v| - i
  {
    if i >= |v| then 0 else if Sign(v[i]) != 0 then Sign(v[i]) else SignFrom(v, i + 1)
  }

  lemma {:induction false} AgainstEnd(v: seq<Token>, w: seq<Token>, i: nat)
    requires |w| <= i && GoodFrom(v, i)
    ensures LessFrom(v, w, i) == Some(SignFrom(v, i) < 0) && LessFrom(w, v, i) == Some(SignFrom(v, i) > 0)
    decreases |v| - i
  {
    hide TokenLess, NullToken, Sign;
    if i < |v| {
      SignDecides(v[i]);
      AgainstEnd(v, w, i + 1);
    }
  }

  lemma {:induction false} SignNotZero(v: seq<Token>, i: nat)
    requires Good(v) && 1 <= i < |v|
    ensures GoodFrom(v, i) && SignFrom(v, i) != 0
    decreases |v| - i
  {
    hide Sign, Shortest;
    SignDecides(v[i]);
    if Sign(v[i]) == 0 {
      SignNotZero(v, i + 1);
    }
  }

  // What may follow the first token.

  ghost predicate GoodSet(later: iset<Token>) {
    forall t :: t in later ==> GoodToken(t)
  }

  /** A version whose tokens after the first are from `later`, as parsing leaves it. */
  ghost predicate Version(later: iset<Token>, v: seq<Token>) {
    Good(v) && Trimmed(v, 1) && forall i :: 0 < i < |v| ==> v[i] in later
  }

  predicate Closes(t: Token) {
    t.prefix == "." && !t.ShouldTrim()
  }

  /** What is left of a version can start with `t`: a null token must be followed, in the end, by a "."
      token that is not null. */
  ghost predicate Starts(later: iset<Token>, t: Token) {
    t.ShouldTrim() ==> exists d :: d in later && Closes(d)
  }

  /** What starts with `t` may come after (1) or before (-1) a version that ends there: `t` decides, or
      it does not and some "." token behind it does. */
  ghost predicate MayBe(later: iset<Token>, t: Token, sign: int)
    requires GoodSet(later) && t in later
  {
    && Starts(later, t)
    && (Sign(t) == sign
        || (Sign(t) == 0 && exists x :: x in later && x.prefix == "." && Starts(later, x) && Sign(x) == sign))
  }

  /** Whatever may come before an end is below whatever may come after it. */
  ghost predicate Layered(later: iset<Token>)
    requires GoodSet(later)
  {
    forall a, b | a in later && b in later :: Less(a, b) ==> !(MayBe(later, a, 1) && MayBe(later, b, -1))
  }

  predicate AtMost(v: seq<Token>, w: seq<Token>) {
    Cmp(v, w).Some? && Cmp(v, w).value <= 0
  }

  ghost predicate Transitive(later: iset<Token>) {
    forall u, v, w | Version(later, u) && Version(later, v) && Version(later, w) ::
      AtMost(u, v) && AtMost(v, w) ==> AtMost(u, w)
  }

  /** A null token is followed by one that is not, behind a dot. */
  lemma {:induction false} ClosedBehind(later: iset<Token>, v: seq<Token>, i: nat)
    requires Version(later, v) && 1 <= i < |v|
    ensures Starts(later, v[i])
    decreases |v| - i
  {
    hide Shortest;
    if v[i].ShouldTrim() {
      assert i + 1 < |v| && v[i + 1].prefix == ".";
      if v[i + 1].ShouldTrim() {
        ClosedBehind(later, v, i + 1);
      } else {
        assert v[i + 1] in later && Closes(v[i + 1]);
      }
    }
  }

  lemma {:induction false} StartSign(later: iset<Token>, v: seq<Token>, i: nat)
    requires GoodSet(later) && Version(later, v) && 1 <= i < |v|
    ensures GoodFrom(v, i) && MayBe(later, v[i], SignFrom(v, i))
    decreases |v| - i
  {
    hide Sign, Shortest, Starts;
    ClosedBehind(later, v, i);
    SignDecides(v[i]);
    if Sign(v[i]) == 0 {
      assert i + 1 < |v| && v[i + 1].prefix == ".";
      StartSign(later, v, i + 1);
      ClosedBehind(later, v, i + 1);
    }
  }

  predicate SameBefore(v: seq<Token>, w: seq<Token>, i: nat) {
    i <= |v| && i <= |w| && forall j :: 0 <= j < i ==> v[j] == w[j]
  }

  lemma LessStep(later: iset<Token>, v: seq<Token>, w: seq<Token>, i: nat)
    requires Version(later, v) && Version(later, w) && i < |v| && i < |w|
    ensures SameKind(v[i], w[i])
    ensures LessFrom(v, w, i) == if v[i] == w[i] then LessFrom(v, w, i + 1) else TokenLess(v[i], w[i])
  {
    hide TokenLess, Shortest;
  }

  lemma {:induction false} Monotone(later: iset<Token>, v: seq<Token>, w: seq<Token>, i: nat)
    requires GoodSet(later) && Layered(later) && Version(later, v) && Version(later, w)
    requires 1 <= i && SameBefore(v, w, i) && LessFrom(v, w, i) == Some(true)
    ensures GoodFrom(v, i) && GoodFrom(w, i) && SignFrom(v, i) <= SignFrom(w, i)
    decreases |v| - i
  {
    hide LessFrom, TokenLess, Sign, MayBe, Shortest, Trimmed;
    if i == |v| {
      AgainstEnd(w, v, i);
    } else if i == |w| {
      AgainstEnd(v, w, i);
    } else {
      LessStep(later, v, w, i);
      if v[i] == w[i] {
        if Sign(v[i]) == 0 {
          Monotone(later, v, w, i + 1);
        }
      } else {
        SignNotZero(v, i);
        SignNotZero(w, i);
        StartSign(later, v, i);
        StartSign(later, w, i);
        assert Less(v[i], w[i]);
      }
    }
  }

  lemma {:induction false} TransitiveFrom(later: iset<Token>, u: seq<Token>, v: seq<Token>, w: seq<Token>, i: nat)
    requires GoodSet(later) && Layered(later) && Version(later, u) && Version(later, v) && Version(later, w)
    requires SameBefore(u, v, i) && SameBefore(v, w, i)
    requires LessFrom(u, v, i) == Some(true) && LessFrom(v, w, i) == Some(true)
    ensures LessFrom(u, w, i) == Some(true)
    decreases |u| - i
  {
    hide LessFrom, TokenLess, Layered, Shortest, Trimmed, GoodSet;
    if i < |u| && i < |v| && i < |w| {
      LessStep(later, u, v, i);
      LessStep(later, v, w, i);
      LessStep(later, u, w, i);
      if u[i] == v[i] == w[i] {
        TransitiveFrom(later, u, v, w, i + 1);
      } else if u[i] != v[i] && v[i] != w[i] {
        LessTransitive(u[i], v[i], w[i]);
        LessDecides(u[i], w[i]);
      }
    } else if i < |v| {
      Monotone(later, u, v, i);
      Monotone(later, v, w, i);
      EndsDecide(later, u, v, w, i);
    } else {
      AgainstEnd(u, v, i);
      AgainstEnd(w, v, i);
      SignsDecide(later, u, w, i);
    }
  }

  /** One of the outer two versions ends at `i`. */
  lemma EndsDecide(later: iset<Token>, u: seq<Token>, v: seq<Token>, w: seq<Token>, i: nat)
    requires GoodFrom(u, i) && GoodFrom(v, i) && GoodFrom(w, i) && (|u| == i || |w| == i)
    requires SignFrom(u, i) <= SignFrom(v, i) <= SignFrom(w, i)
    requires LessFrom(u, v, i) == Some(true) && LessFrom(v, w, i) == Some(true)
    ensures LessFrom(u, w, i) == Some(true)
  {
    hide LessFrom, TokenLess, Sign;
    if |u| == i {
      AgainstEnd(v, u, i);
      AgainstEnd(w, u, i);
    } else {
      AgainstEnd(v, w, i);
      AgainstEnd(u, w, i);
    }
  }

  /** What comes before an end is less than what comes after it. */
  lemma SignsDecide(later: iset<Token>, u: seq<Token>, w: seq<Token>, i: nat)
    requires GoodSet(later) && 1 <= i && GoodFrom(u, i) && GoodFrom(w, i)
    ensures Layered(later) && Version(later, u) && Version(later, w) && SameBefore(u, w, i) ==>
              SignFrom(u, i) < 0 < SignFrom(w, i) ==> LessFrom(u, w, i) == Some(true)
  {
    hide LessFrom, TokenLess, Layered, Sign, Shortest;
    if Layered(later) && Version(later, u) && Version(later, w) && SameBefore(u, w, i) {
      if SignFrom(u, i) < 0 < SignFrom(w, i) {
        assert u != w;
        DecidedFrom(u, w, i);
        if LessFrom(w, u, i) == Some(true) {
          Monotone(later, w, u, i);
        }
      }
    }
  }

  lemma SameMeansEqual(v: seq<Token>, w: seq<Token>)
    requires Good(v) && Good(w)
    ensures Same(v, w) <==> v == w
  {
    hide Shortest;
    if Same(v, w) {
      assert forall i :: 0 <= i < |v| ==> v[i] == w[i];
    }
  }

  lemma AtMostIff(v: seq<Token>, w: seq<Token>)
    requires Good(v) && Good(w)
    ensures AtMost(v, w) <==> v == w || LessFrom(v, w, 0) == Some(true)
    ensures v != w ==> (AtMost(v, w) <==> !AtMost(w, v))
  {
    hide LessFrom, Good;
    SameMeansEqual(v, w);
    SameMeansEqual(w, v);
    if v != w {
      GoodHasFirst(v);
      DecidedFrom(v, w, 0);
    }
  }

  lemma GoodHasFirst(v: seq<Token>)
    requires Good(v)
    ensures v != []
  {
  }

  lemma LayeredIsTransitive(later: iset<Token>, u: seq<Token>, v: seq<Token>, w: seq<Token>)
    requires GoodSet(later) && Layered(later) && Version(later, u) && Version(later, v) && Version(later, w)
    requires AtMost(u, v) && AtMost(v, w)
    ensures AtMost(u, w)
  {
    hide LessFrom, AtMost, Layered, Good;
    AtMostIff(u, v);
    AtMostIff(v, w);
    AtMostIff(u, w);
    if u != v && v != w {
      TransitiveFrom(later, u, v, w, 0);
    }
  }

  // Where it fails.

  const ONE := Token("", "1", false)

  /** A shortest version with `t` behind the first token, and with that sign. */
  lemma Witness(later: iset<Token>, t: Token, sign: int) returns (v: seq<Token>)
    requires GoodSet(later) && t in later && sign != 0 && MayBe(later, t, sign)
    ensures Version(later, v) && |v| > 1 && v[0] == ONE && v[1] == t
    ensures GoodFrom(v, 1) && SignFrom(v, 1) == sign
  {
    hide Sign, Shortest;
    OneIsShortest();
    SignDecides(t);
    if Sign(t) == sign {
      var tail := Tail(later, t);
      v := [ONE] + tail;
      assert forall j :: 0 < j < |v| ==> v[j] == tail[j - 1];
    } else {
      var x :| x in later && x.prefix == "." && Starts(later, x) && Sign(x) == sign;
      var tail := Tail(later, x);
      v := [ONE, t] + tail;
      assert forall j :: 1 < j < |v| ==> v[j] == tail[j - 2];
      assert SignFrom(v, 1) == SignFrom(v, 2) == sign;
    }
  }

  lemma OneIsShortest()
    ensures Shortest("1")
  {
  }

  lemma Tail(later: iset<Token>, t: Token) returns (tail: seq<Token>)
    requires t in later && Starts(later, t)
    ensures tail != [] && tail[0] == t && Trimmed(tail, 0) && !tail[|tail| - 1].ShouldTrim()
    ensures forall i :: 0 <= i < |tail| ==> tail[i] in later
  {
    if t.ShouldTrim() {
      var d :| d in later && Closes(d);
      tail := [t, d];
    } else {
      tail := [t];
    }
  }

  ghost predicate InCircle(later: iset<Token>, v: seq<Token>, w: seq<Token>) {
    && Version(later, [ONE]) && Version(later, v) && Version(later, w) && v[0] == w[0] == ONE
    && AtMost([ONE], v) && AtMost(v, w) && AtMost(w, [ONE]) && !AtMost([ONE], w)
  }

  /** If something that may come after an end is below something that may come before it, they and the
      end itself are in a circle. */
  lemma Circle(later: iset<Token>, a: Token, b: Token) returns (v: seq<Token>, w: seq<Token>)
    requires GoodSet(later) && a in later && b in later
    ensures Less(a, b) && MayBe(later, a, 1) && MayBe(later, b, -1) ==> InCircle(later, v, w)
  {
    hide LessFrom, TokenLess, Shortest, MayBe, AtMost;
    v, w := [ONE], [ONE];
    if Less(a, b) && MayBe(later, a, 1) && MayBe(later, b, -1) {
      v := Witness(later, a, 1);
      w := Witness(later, b, -1);
      OneIsShortest();
      AtMostIff([ONE], v);
      AtMostIff(v, w);
      AtMostIff(w, [ONE]);
      LessDecides(a, b);
      LessStep(later, v, w, 0);
      LessStep(later, v, w, 1);
      LessStep(later, [ONE], v, 0);
      LessStep(later, w, [ONE], 0);
      AgainstEnd(v, [ONE], 1);
      AgainstEnd(w, [ONE], 1);
    }
  }

  /** Among the versions whose tokens after the first are from a given set, the comparison is transitive
      if and only if the set is layered. */
  lemma TransitiveIff(later: iset<Token>)
    requires GoodSet(later)
    ensures Transitive(later) <==> Layered(later)
  {
    hide AtMost, MayBe, Version;
    if Layered(later) {
      forall u, v, w | Version(later, u) && Version(later, v) && Version(later, w) && AtMost(u, v) && AtMost(v, w)
        ensures AtMost(u, w)
      {
        LayeredIsTransitive(later, u, v, w);
      }
    } else {
      var a, b :| a in later && b in later && Less(a, b) && MayBe(later, a, 1) && MayBe(later, b, -1);
      var v, w := Circle(later, a, b);
    }
  }

  // Version strings.

  /** Only numbers stand behind dots; behind hyphens, and where digits meet letters, anything. */
  ghost predicate Hyphenated(v: seq<Token>) {
    forall i :: 0 < i < |v| && v[i].prefix == "." ==> ToInt(v[i].value).Some?
  }

  ghost function Plain(): iset<Token> {
    iset t: Token | GoodToken(t) && (t.prefix == "." ==> ToInt(t.value).Some?)
  }

  lemma PlainSign(t: Token)
    requires t in Plain()
    ensures t.prefix == "." ==> Sign(t) >= 0
    ensures t.prefix == "-" ==> Sign(t) == if ToInt(t.value).Some? then 1 else IntCmp(KeywordOrder(t.value), 5)
  {
    hide ToInt;
    NullNumbers();
    StrCmpZero(t.value, "");
    if t.prefix == "." {
      PlainDot(t);
    }
  }

  lemma NullNumbers()
    ensures ToInt("") == None && ToInt("0") == Some(0)
  {
  }

  lemma PlainDot(t: Token)
    requires t in Plain() && t.prefix == "."
    ensures ToInt(t.value).Some? && ToInt(t.value).value >= 0 && t.value != "sp"
  {
    NoNumber("sp");
  }

  lemma PlainIsLayered()
    ensures GoodSet(Plain()) && Layered(Plain())
  {
    hide Sign, ToInt, Starts;
    var later := Plain();
    forall a, b | a in later && b in later && Less(a, b) ensures !(MayBe(later, a, 1) && MayBe(later, b, -1)) {
      PlainSign(a);
      PlainSign(b);
      forall x | x in later && x.prefix == "." ensures Sign(x) >= 0 {
        PlainSign(x);
      }
    }
  }

  /** Version strings with nothing but numbers behind dots are compared transitively. */
  lemma HyphenatedAreOrdered(s: string, t: string, u: string)
    ensures Hyphenated(Parse(s)) && Hyphenated(Parse(t)) && Hyphenated(Parse(u)) ==>
              AtMost(Parse(s), Parse(t)) && AtMost(Parse(t), Parse(u)) ==> AtMost(Parse(s), Parse(u))
  {
    hide Parse, AtMost, Layered;
    if Hyphenated(Parse(s)) && Hyphenated(Parse(t)) && Hyphenated(Parse(u)) {
      if AtMost(Parse(s), Parse(t)) && AtMost(Parse(t), Parse(u)) {
        ParseGood(s);
        ParseGood(t);
        ParseGood(u);
        PlainIsLayered();
        LayeredIsTransitive(Plain(), Parse(s), Parse(t), Parse(u));
      }
    }
  }
}
