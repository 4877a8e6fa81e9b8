/** semantic/version-packagist.go: comparison of the components of a Packagist version. */
module Packagist {
  import opened Orders
  import opened Text
  import opened Wrappers

  predicate HasPrefix(s: string, prefix: string) {
    prefix <= s
  }

  function Weigh(s: string): int {
    if HasPrefix(s, "RC") then 3
    else if HasPrefix(s, "dev") then 0
    else if HasPrefix(s, "a") then 1
    else if HasPrefix(s, "b") then 2
    else if HasPrefix(s, "rc") then 3
    else if HasPrefix(s, "#") then 4
    else if HasPrefix(s, "p") then 5
    else 0
  }

  function SpecialCmp(a: string, b: string): int {
    IntCmp(Weigh(a), Weigh(b))
  }

  /** strconv.Atoi succeeds: a number that fits in 64 bits. */
  predicate IsInt64(s: string) {
    ToInt(s).Some? && -0x8000_0000_0000_0000 <= ToInt(s).value < 0x8000_0000_0000_0000
  }

  function PairCmp(x: string, y: string): int {
    match (ToInt(x), ToInt(y))
    case (Some(m), Some(n)) => IntCmp(m, n)
    case (None, None) => SpecialCmp(x, y)
    case (Some(_), None) => SpecialCmp("#", y)
    case (None, Some(_)) => SpecialCmp(x, "#")
  }

  /** comparePackagistComponents: pairs first; then the first extra component decides, if need be
      against "#", by comparing again. Splitting never yields an empty list. */
  function ComponentsCmp(a: seq<string>, b: seq<string>): int
    requires a != [] && b != []
    decreases |a| + |b|
  {
    var pairs := PairsFrom(a, b, 0);
    if pairs != 0 then pairs
    else if |a| > |b| then
      if IsInt64(a[|b|]) then 1 else ComponentsCmp(a[|b|..], ["#"])
    else if |a| < |b| then
      if IsInt64(b[|a|]) then -1 else ComponentsCmp(["#"], b[|a|..])
    else 0
  }

  function PairsFrom(a: seq<string>, b: seq<string>, i: nat): int
    decreases |a| - i
  {
    if i >= |a| || i >= |b| then 0 else Then(PairCmp(a[i], b[i]), PairsFrom(a, b, i + 1))
  }

  method Compare(a: seq<string>, b: seq<string>) returns (r: int)
    requires a != [] && b != []
    ensures r == ComponentsCmp(a, b)
    decreases |a| + |b|
  {
    var n := if |a| <= |b| then |a| else |b|;
    for i := 0 to n
      invariant PairsFrom(a, b, i) == PairsFrom(a, b, 0)
    {
      var compare := PairCmp(a[i], b[i]);
      if compare != 0 {
        return if compare > 0 then 1 else -1;
      }
    }
    if |a| > |b| {
      if IsInt64(a[|b|]) {
        return 1;
      }
      r := Compare(a[|b|..], ["#"]);
      return;
    }
    if |a| < |b| {
      if IsInt64(b[|a|]) {
        return -1;
      }
      r := Compare(["#"], b[|a|..]);
      return;
    }
    return 0;
  }

  /** The kinds of words, from the lowest to the highest: dev and words of no other kind, a, b, rc in
      capitals or not, and p; numbers and the end stand between rc and p. */
  predicate IsKind(word: string, kind: nat) {
    match kind
    case 0 => HasPrefix(word, "dev") || !(exists p :: p in {"a", "b", "rc", "RC", "#", "p"} && HasPrefix(word, p))
    case 1 => HasPrefix(word, "a")
    case 2 => HasPrefix(word, "b")
    case 3 => HasPrefix(word, "rc") || HasPrefix(word, "RC")
    case 4 => HasPrefix(word, "#")
    case 5 => HasPrefix(word, "p")
    case _ => false
  }

  /** Words are compared by their kinds alone; a number comes after the first four kinds and before p. */
  lemma WordVerdict(x: string, y: string, i: nat, j: nat, number: string)
    requires IsKind(x, i) && IsKind(y, j) && ToInt(x) == None && ToInt(y) == None && ToInt(number).Some?
    ensures PairCmp(x, y) == IntCmp(i, j)
    ensures PairCmp(number, x) == (if i < 4 then 1 else if i == 4 then 0 else -1)
    ensures PairCmp(x, number) == -PairCmp(number, x)
  {
    hide ToInt;
    KindWeight(x, i);
    KindWeight(y, j);
    assert HasPrefix("#", "#");
    KindWeight("#", 4);
  }

  lemma KindWeight(word: string, kind: nat)
    requires IsKind(word, kind)
    ensures Weigh(word) == kind
  {
    assert HasPrefix(word, "dev") ==> word[0] == 'd';
    assert HasPrefix(word, "a") ==> word[0] == 'a';
    assert HasPrefix(word, "b") ==> word[0] == 'b';
    assert HasPrefix(word, "rc") ==> word[0] == 'r';
    assert HasPrefix(word, "RC") ==> word[0] == 'R';
    assert HasPrefix(word, "#") ==> word[0] == '#';
    assert HasPrefix(word, "p") ==> word[0] == 'p';
    if kind == 0 && !HasPrefix(word, "dev") {
      assert forall p :: p in {"a", "b", "rc", "RC", "#", "p"} ==> !HasPrefix(word, p);
    }
  }

  /** Numbers are compared by value. */
  lemma NumberVerdict(x: string, y: string)
    requires ToInt(x).Some? && ToInt(y).Some?
    ensures PairCmp(x, y) == IntCmp(ToInt(x).value, ToInt(y).value)
  {
    hide ToInt;
  }

  // The order the recursion amounts to.

  /** A component, or the end of the list. */
  datatype Token = Special(weight: int) | End | Number(value: int)

  /** dev and unknown words < a < b < rc < end < numbers < p. */
  function Rank(t: Token): int {
    match t
    case Special(w) => if w < 4 then w else w + 2
    case End => 4
    case Number(_) => 5
  }

  function TokenCmp(x: Token, y: Token): int {
    if x.Number? && y.Number? then IntCmp(x.value, y.value) else IntCmp(Rank(x), Rank(y))
  }

  function TokenOf(s: string): Token {
    match ToInt(s)
    case Some(n) => Number(n)
    case None => Special(Weigh(s))
  }

  function Tokens(a: seq<string>): seq<Token> {
    if a == [] then [End] else [TokenOf(a[0])] + Tokens(a[1..])
  }

  /** Numbers fit in 64 bits, and no component starts with the sign the source uses for the end. */
  predicate Ordinary(a: seq<string>) {
    forall i :: 0 <= i < |a| ==> if ToInt(a[i]).Some? then IsInt64(a[i]) else Weigh(a[i]) != 4
  }

  lemma WeighRange(s: string)
    ensures 0 <= Weigh(s) <= 5
  {
  }

  /** One extra component against the end: the source's comparison with "#" finds the order. */
  lemma AgainstEnd(a: seq<string>)
    requires a != [] && Ordinary(a)
    ensures TokenCmp(TokenOf(a[0]), End) != 0
    ensures TokenCmp(End, TokenOf(a[0])) == -TokenCmp(TokenOf(a[0]), End)
    ensures if IsInt64(a[0]) then TokenCmp(TokenOf(a[0]), End) == 1
            else ComponentsCmp(a, ["#"]) == TokenCmp(TokenOf(a[0]), End)
                 && ComponentsCmp(["#"], a) == -TokenCmp(TokenOf(a[0]), End)
  {
    WeighRange(a[0]);
    assert ToInt("#").None? && Weigh("#") == 4;
    assert PairsFrom(a, ["#"], 0) == PairCmp(a[0], "#") || PairCmp(a[0], "#") == 0;
    assert PairsFrom(["#"], a, 0) == PairCmp("#", a[0]) || PairCmp("#", a[0]) == 0;
  }

  lemma PairIsToken(x: string, y: string)
    requires Ordinary([x]) && Ordinary([y])
    ensures PairCmp(x, y) == TokenCmp(TokenOf(x), TokenOf(y))
  {
    assert [x][0] == x && [y][0] == y;
    assert Weigh("#") == 4;
  }

  lemma {:induction false} FromPairs(a: seq<string>, b: seq<string>, i: nat)
    requires a != [] && b != [] && Ordinary(a) && Ordinary(b)
    requires i <= |a| && i <= |b| && PairsFrom(a, b, 0) == PairsFrom(a, b, i)
    ensures ComponentsCmp(a, b) == Lex(TokenCmp, Tokens(a[i..]), Tokens(b[i..]))
    decreases |a| - i
  {
    hide Ordinary, ToInt, Weigh;
    if i < |a| && i < |b| {
      OrdinaryParts(a, i);
      OrdinaryParts(b, i);
      PairIsToken(a[i], b[i]);
      assert a[i..][1..] == a[i + 1..] && b[i..][1..] == b[i + 1..];
      LexCons(TokenCmp, TokenOf(a[i]), Tokens(a[i + 1..]), TokenOf(b[i]), Tokens(b[i + 1..]));
      if PairCmp(a[i], b[i]) == 0 {
        FromPairs(a, b, i + 1);
      }
    } else if i < |a| {
      OrdinaryParts(a, i);
      AgainstEnd(a[i..]);
      LexCons(TokenCmp, TokenOf(a[i]), Tokens(a[i..][1..]), End, []);
    } else if i < |b| {
      OrdinaryParts(b, i);
      AgainstEnd(b[i..]);
      LexCons(TokenCmp, End, [], TokenOf(b[i]), Tokens(b[i..][1..]));
    } else {
      LexCons(TokenCmp, End, [], End, []);
    }
  }

  lemma OrdinaryParts(a: seq<string>, i: nat)
    requires Ordinary(a) && i < |a|
    ensures Ordinary([a[i]]) && Ordinary(a[i..])
  {
  }

  /** For ordinary components the recursive comparison is lexicographic comparison of tokens. */
  lemma ComponentsAreTokens(a: seq<string>, b: seq<string>)
    requires a != [] && b != [] && Ordinary(a) && Ordinary(b)
    ensures ComponentsCmp(a, b) == Lex(TokenCmp, Tokens(a), Tokens(b))
  {
    FromPairs(a, b, 0);
    assert a[0..] == a && b[0..] == b;
  }

  lemma {:induction false} PairsSame(a: seq<string>, b: seq<string>, i: nat, k: nat)
    requires Ordinary(a) && i <= k <= |a| && k <= |b| && forall j :: i <= j < k ==> a[j] == b[j]
    ensures PairsFrom(a, b, i) == PairsFrom(a, b, k)
    decreases k - i
  {
    hide Ordinary, ToInt, Weigh;
    if i < k {
      assert a[i] == b[i];
      PairsSame(a, b, i + 1, k);
    }
  }

  /** A list that goes on after the components of another one: with a number or a word of kind p it is
      greater, with a word of any other kind it is less. */
  lemma LongerVerdict(a: seq<string>, x: string, more: seq<string>, kind: nat)
    requires a != [] && Ordinary(a + ([x] + more))
    ensures ToInt(x).Some? ==> ComponentsCmp(a + ([x] + more), a) == 1
    ensures ToInt(x).None? && IsKind(x, kind) ==> ComponentsCmp(a + ([x] + more), a) == if kind == 5 then 1 else -1
  {
    hide ToInt, IsInt64, Weigh, ComponentsCmp;
    var longer := a + ([x] + more);
    assert longer[|a|] == x && longer[|a|..] == [x] + more && longer[..|a|] == a;
    assert forall i :: 0 <= i < |a| ==> longer[i] == a[i];
    assert Ordinary(a);
    PairsSame(longer, a, 0, |a|);
    FromPairs(longer, a, |a|);
    assert a[|a|..] == [] && ([x] + more)[1..] == more;
    LexCons(TokenCmp, TokenOf(x), Tokens(more), End, []);
    if ToInt(x).None? && IsKind(x, kind) {
      KindWeight(x, kind);
    }
  }

  lemma TokenCmpPreorder()
    ensures IsPreorder(TokenCmp)
  {
  }

  /** So on ordinary components it is a total preorder. */
  lemma ComponentsCmpPreorder(a: seq<string>, b: seq<string>, c: seq<string>)
    requires a != [] && b != [] && c != [] && Ordinary(a) && Ordinary(b) && Ordinary(c)
    ensures -1 <= ComponentsCmp(a, b) <= 1 && ComponentsCmp(a, b) == -ComponentsCmp(b, a)
    ensures ComponentsCmp(a, b) <= 0 && ComponentsCmp(b, c) <= 0 ==> ComponentsCmp(a, c) <= 0
  {
    hide ComponentsCmp, Tokens, Ordinary;
    ComponentsAreTokens(a, b);
    ComponentsAreTokens(b, a);
    ComponentsAreTokens(b, c);
    ComponentsAreTokens(a, c);
    TokenCmpPreorder();
    LexFlips(TokenCmp, Tokens(a), Tokens(b));
    if ComponentsCmp(a, b) <= 0 && ComponentsCmp(b, c) <= 0 {
      LexTransitive(TokenCmp, Tokens(a), Tokens(b), Tokens(c));
    }
  }

  /** All components are ordinary, or `x`. */
  predicate Over(x: string, a: seq<string>) {
    a != [] && forall i :: 0 <= i < |a| ==> a[i] == x || Ordinary([a[i]])
  }

  ghost predicate OrderedWith(x: string) {
    forall a, b, c | Over(x, a) && Over(x, b) && Over(x, c) ::
      ComponentsCmp(a, b) <= 0 && ComponentsCmp(b, c) <= 0 ==> ComponentsCmp(a, c) <= 0
  }

  /** The order needs all components to be ordinary: admitting any other one breaks it. Canonical
      components have no sign. */
  lemma OrderedIffOrdinary(x: string)
    requires x == "" || x[0] !in {'+', '-'}
    ensures OrderedWith(x) <==> Ordinary([x])
  {
    if Ordinary([x]) {
      forall a, b, c | Over(x, a) && Over(x, b) && Over(x, c)
        ensures ComponentsCmp(a, b) <= 0 && ComponentsCmp(b, c) <= 0 ==> ComponentsCmp(a, c) <= 0
      {
        OverOrdinary(x, a);
        OverOrdinary(x, b);
        OverOrdinary(x, c);
        ComponentsCmpPreorder(a, b, c);
      }
    } else {
      assert [x][0] == x;
      OddTiesWithEnd(x);
      SmallNumbers();
      assert Over(x, ["1", x]) && Over(x, ["1"]) && Over(x, ["1", "5"]);
    }
  }

  lemma OverOrdinary(x: string, a: seq<string>)
    requires Over(x, a) && Ordinary([x])
    ensures Ordinary(a)
  {
    forall i | 0 <= i < |a| ensures if ToInt(a[i]).Some? then IsInt64(a[i]) else Weigh(a[i]) != 4 {
      var one := [a[i]];
      assert Ordinary(one) && one[0] == a[i];
    }
  }

  lemma SmallNumbers()
    ensures ToInt("1") == Some(1) && ToInt("5") == Some(5) && ToInt("#").None? && Weigh("#") == 4
    ensures Ordinary(["1"]) && Ordinary(["5"])
  {
  }

  /** A number beyond 64 bits, and a word that starts with #, tie with the end although they are not
      less than small numbers, which are greater than the end: 1.5 <= 1.x and 1.x <= 1 < 1.5. */
  lemma OddTiesWithEnd(x: string)
    requires (x == "" || x[0] !in {'+', '-'}) && if ToInt(x).Some? then !IsInt64(x) else Weigh(x) == 4
    ensures ComponentsCmp(["1", "5"], ["1", x]) <= 0
    ensures ComponentsCmp(["1", x], ["1"]) == 0
    ensures ComponentsCmp(["1", "5"], ["1"]) == 1
  {
    hide ToInt;
    SmallNumbers();
    assert ToInt(x).Some? ==> ToInt(x).value >= 0x8000_0000_0000_0000 by { NoSign(x); }
    var a, b, c := ["1", x], ["1"], ["1", "5"];
    assert PairsFrom(a, b, 1) == 0 && PairsFrom(c, b, 1) == 0 && PairsFrom(c, a, 2) == 0;
    assert PairsFrom(a, b, 0) == 0 && PairsFrom(c, b, 0) == 0;
    assert PairsFrom(c, a, 1) == PairCmp("5", x) <= 0;
    assert PairsFrom(c, a, 0) <= 0;
    assert a[1..] == [x] && c[1..] == ["5"];
    assert PairsFrom([x], ["#"], 1) == 0 && PairsFrom([x], ["#"], 0) == PairCmp(x, "#") == 0;
    assert ComponentsCmp([x], ["#"]) == 0;
  }

  lemma NoSign(x: string)
    requires x == "" || x[0] !in {'+', '-'}
    ensures ToInt(x).Some? ==> ToInt(x).value >= 0
  {
  }
}
