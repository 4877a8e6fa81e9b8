/** semantic/version-maven.go: the comparison of two parsed Maven versions. */
module MavenOrder {
  import opened Orders
  import opened Text
  import opened Wrappers
  import opened Maven

  const KEYWORDS: seq<string> := ["alpha", "beta", "milestone", "rc", "snapshot", "", "sp"]

  function KeywordOrder(keyword: string): (i: nat)
    ensures i <= 7
    ensures i < 7 ==> KEYWORDS[i] == keyword
  {
    if keyword == "alpha" then 0 else if keyword == "beta" then 1 else if keyword == "milestone" then 2
    else if keyword == "rc" then 3 else if keyword == "snapshot" then 4 else if keyword == "" then 5
    else if keyword == "sp" then 6 else 7
  }

  /** None is the source's error for an unknown prefix. */
  function QualifierOrder(t: Token): Option<int> {
    if t.prefix == "-" then Some(if ToInt(t.value).Some? then 2 else 1)
    else if t.prefix == "." then Some(if ToInt(t.value).Some? then 3 else 0)
    else None
  }

  function TokenLess(t: Token, u: Token): Option<bool> {
    if t.prefix == u.prefix then
      var tv, uv := ToInt(t.value), ToInt(u.value);
      if tv.Some? && uv.Some? then Some(tv.value < uv.value)
      else if tv.Some? && !t.isNull then Some(false)
      else if uv.Some? && !u.isNull then Some(true)
      else
        var left, right := KeywordOrder(t.value), KeywordOrder(u.value);
        Some(if left == 7 && right == 7 then StrCmp(t.value, u.value) < 0 else left < right)
    else
      match (QualifierOrder(t), QualifierOrder(u))
      case (Some(m), Some(n)) => Some(m < n)
      case _ => None
  }

  /** The null token a shorter version is padded with against `t`. */
  function NullToken(t: Token): Option<Token> {
    if t.prefix == "." then Some(Token(".", if t.value == "sp" then "" else "0", true))
    else if t.prefix == "-" then Some(Token("-", "", true))
    else None
  }

  /** The i-th token of `v`, padded against `w`. */
  function Padded(v: seq<Token>, w: seq<Token>, i: nat): Option<Token>
    requires i < |v| || i < |w|
  {
    if i < |v| then Some(v[i]) else NullToken(w[i])
  }

  /** From position `i` on, the first pair of tokens that differ decides. */
  function LessFrom(v: seq<Token>, w: seq<Token>, i: nat): Option<bool>
    decreases |v| + |w| - i
  {
    if i >= |v| && i >= |w| then Some(false)
    else
      match (Padded(v, w, i), Padded(w, v, i))
      case (Some(left), Some(right)) => if left.Equal(right) then LessFrom(v, w, i + 1) else TokenLess(left, right)
      case _ => None
  }

  predicate Same(v: seq<Token>, w: seq<Token>) {
    |v| == |w| && forall i :: 0 <= i < |v| ==> v[i].Equal(w[i])
  }

  /** MavenVersion.compare; None is an error. */
  function Cmp(v: seq<Token>, w: seq<Token>): Option<int> {
    if Same(v, w) then Some(0)
    else
      match LessFrom(v, w, 0)
      case None => None
      case Some(less) => Some(if less then -1 else 1)
  }

  method Compare(v: seq<Token>, w: seq<Token>) returns (r: Option<int>)
    ensures r == Cmp(v, w)
  {
    if Same(v, w) {
      return Some(0);
    }
    var i := 0;
    while i < |v| || i < |w|
      invariant LessFrom(v, w, i) == LessFrom(v, w, 0)
      decreases |v| + |w| - i
    {
      var left, right := Padded(v, w, i), Padded(w, v, i);
      if left.None? || right.None? {
        return None;
      }
      if !left.value.Equal(right.value) {
        var less := TokenLess(left.value, right.value);
        if less.None? {
          return None;
        }
        return Some(if less.value then -1 else 1);
      }
      i := i + 1;
    }
    return Some(1);
  }

  // What parsing guarantees.

  /** A value that reads as a number is its shortest decimal form, without sign. */
  predicate Shortest(value: string) {
    ToInt(value).Some? ==> AllDigits(value) && (value == "0" || value[0] != '0')
  }

  predicate GoodToken(t: Token) {
    (t.prefix == "-" || t.prefix == ".") && Shortest(t.value) && !t.isNull
  }

  /** The first token has no prefix, the others have one, and the last is null only if it is the first. */
  predicate Good(v: seq<Token>) {
    && v != [] && v[0].prefix == "" && Shortest(v[0].value) && !v[0].isNull
    && (forall i :: 0 < i < |v| ==> GoodToken(v[i]))
    && (|v| > 1 ==> !v[|v| - 1].ShouldTrim())
  }

  /** All digits or no digits, and no sign that could make it a number. */
  predicate Uniform(s: string) {
    AllDigits(s) || forall i :: 0 <= i < |s| ==> !IsDigit(s[i])
  }

  lemma NormaliseShortest(piece: string, followed: bool)
    requires Uniform(piece)
    ensures Shortest(Normalise(piece, followed))
  {
    if piece == "" {
      StripShortest("0");
    } else if AllDigits(piece) {
      StripShortest(piece);
      assert IsDigit(piece[0]);
      assert Normalise(piece, followed) == StripNumber(piece);
    } else {
      var n := Normalise(piece, followed);
      assert n != "" ==> !IsDigit(n[0]);
      NoNumber(n);
    }
  }

  lemma StripShortest(s: string)
    requires AllDigits(s)
    ensures Shortest(StripNumber(s))
  {
    TrimZerosValue(s);
  }

  lemma NoNumber(s: string)
    requires forall i :: 0 <= i < |s| ==> !IsDigit(s[i])
    ensures ToInt(s) == None
  {
    if |s| > 1 {
      assert !IsDigit(s[1..][0]);
    }
  }

  /** Every place where digits meet non-digits is cut. */
  lemma {:induction false} TransitionsComplete(s: string, from: nat, k: nat)
    requires 0 < from <= k < |s| && IsDigit(s[k - 1]) != IsDigit(s[k])
    ensures k in Transitions(s, from)
    decreases |s| - from
  {
    if from < k {
      TransitionsComplete(s, from + 1, k);
    }
  }

  lemma {:induction false} UniformBetween(s: string, prev: nat, cut: nat, k: nat)
    requires prev <= k < cut <= |s|
    requires forall i :: prev < i < cut ==> IsDigit(s[i - 1]) == IsDigit(s[i])
    ensures IsDigit(s[k]) == IsDigit(s[prev])
  {
    if prev < k {
      UniformBetween(s, prev, cut, k - 1);
    }
  }

  lemma CutIsUniform(s: string, prev: nat, cut: nat)
    requires prev <= cut <= |s|
    requires forall i :: prev < i < cut ==> IsDigit(s[i - 1]) == IsDigit(s[i])
    ensures Uniform(Lower(s[prev..cut]))
  {
    forall k | prev <= k < cut ensures IsDigit(s[k]) == IsDigit(s[prev]) {
      UniformBetween(s, prev, cut, k);
    }
  }

  lemma {:induction false} PieceTokensGood(piece: string, prefix: string, prev: nat, cuts: seq<nat>)
    requires forall i :: 0 <= i < |cuts| ==> prev <= cuts[i] <= |piece|
    requires forall i, j :: 0 <= i < j < |cuts| ==> cuts[i] < cuts[j]
    requires forall k :: prev < k < |piece| && IsDigit(piece[k - 1]) != IsDigit(piece[k]) ==> k in cuts
    ensures var ts := PieceTokens(piece, prefix, prev, cuts);
            && |ts| == |cuts|
            && forall i :: 0 <= i < |ts| ==> Shortest(ts[i].value) && !ts[i].isNull
                                             && ts[i].prefix == if i == 0 then prefix else "-"
    decreases |cuts|
  {
    hide Normalise, Shortest, Uniform;
    if cuts != [] {
      var cut := cuts[0];
      assert prev <= cut <= |piece|;
      assert forall i :: prev < i < cut ==> i !in cuts;
      CutIsUniform(piece, prev, cut);
      NormaliseShortest(Lower(piece[prev..cut]), cut != |piece|);
      PieceTokensGood(piece, "-", cut, cuts[1..]);
    }
  }

  predicate GoodTokens(ts: seq<Token>, from: nat) {
    forall j :: from <= j < |ts| ==> GoodToken(ts[j])
  }

  lemma CutsComplete(piece: string)
    ensures forall k :: 0 < k < |piece| && IsDigit(piece[k - 1]) != IsDigit(piece[k]) ==> k in Cuts(piece)
  {
    forall k | 0 < k < |piece| && IsDigit(piece[k - 1]) != IsDigit(piece[k]) ensures k in Cuts(piece) {
      TransitionsComplete(piece, 1, k);
    }
  }

  lemma {:induction false} TokensFromGood(raw: seq<string>, i: nat)
    requires i % 2 == 0 && |raw| % 2 == 1
    requires forall i :: 0 <= i < |raw| && i % 2 == 1 ==> raw[i] == "-" || raw[i] == "."
    ensures var ts := TokensFrom(raw, i);
            && GoodTokens(ts, if i == 0 then 1 else 0)
            && (i == 0 ==> ts != [] && ts[0].prefix == "" && Shortest(ts[0].value) && !ts[0].isNull)
    decreases |raw| - i
  {
    hide Shortest, PieceTokens, Cuts;
    if i < |raw| {
      var piece := raw[i];
      CutsComplete(piece);
      var prefix := if i == 0 then "" else raw[i - 1];
      PieceTokensGood(piece, prefix, 0, Cuts(piece));
      TokensFromGood(raw, i + 2);
      var ts, rest := PieceTokens(piece, prefix, 0, Cuts(piece)), TokensFrom(raw, i + 2);
      assert GoodTokens(ts, if i == 0 then 1 else 0) && GoodTokens(rest, 0);
      assert TokensFrom(raw, i) == ts + rest;
    }
  }

  /** After the first token, no null token is last or directly before a hyphen. */
  predicate Trimmed(v: seq<Token>, from: nat) {
    forall j :: from <= j < |v| && v[j].ShouldTrim() ==> j + 1 < |v| && v[j + 1].prefix != "-"
  }

  lemma {:induction false} TrimGood(front: seq<Token>, kept: seq<Token>)
    requires front != [] && front[0].prefix == "" && Shortest(front[0].value) && !front[0].isNull
    requires forall i :: 0 < i < |front| ==> GoodToken(front[i])
    requires forall i :: 0 <= i < |kept| ==> GoodToken(kept[i])
    requires Trimmed(kept, 0)
    ensures Good(Trim(front, kept)) && Trimmed(Trim(front, kept), 1)
  {
    hide Shortest;
    var rest, last := front[..|front| - 1], front[|front| - 1];
    if rest == [] {
      assert front == [last] && Trim(front, kept) == [last] + kept;
    } else if last.ShouldTrim() && (kept == [] || kept[0].prefix == "-") {
      TrimGood(rest, kept);
    } else {
      var more := [last] + kept;
      assert forall i :: 0 < i < |more| ==> more[i] == kept[i - 1];
      TrimGood(rest, more);
    }
  }

  /** What holds of every parsed version. */
  lemma ParseGood(s: string)
    ensures Good(Parse(s)) && Trimmed(Parse(s), 1)
  {
    SplitShape(s);
    TokensFromGood(SplitInclusive(s), 0);
    TrimGood(TokensFrom(SplitInclusive(s), 0), []);
  }

  // The order on parsed versions.

  /** Two shortest forms of one number are one string. */
  lemma ShortestUnique(a: string, b: string)
    ensures Shortest(a) && Shortest(b) && ToInt(a).Some? && ToInt(a) == ToInt(b) ==> a == b
  {
    if Shortest(a) && Shortest(b) && ToInt(a).Some? && ToInt(a) == ToInt(b) {
      if |a| < |b| {
        ShorterIsSmaller(a, b);
      } else if |b| < |a| {
        ShorterIsSmaller(b, a);
      } else {
        SameLengthOrder(a, b);
        StrCmpZero(a, b);
      }
    }
  }

  /** Of two different tokens with the same prefix exactly one is less; a null token has the value of a
      padding token. */
  lemma SamePrefixDecides(t: Token, u: Token)
    requires t.prefix == u.prefix && t.value != u.value
    requires Shortest(t.value) && Shortest(u.value)
    requires t.isNull ==> !u.isNull && t.value in {"", "0"}
    requires u.isNull ==> t.value != u.value && u.value in {"", "0"}
    ensures TokenLess(t, u).Some? && TokenLess(u, t).Some?
    ensures TokenLess(t, u).value != TokenLess(u, t).value
  {
    hide Shortest, ToInt;
    var tv, uv := ToInt(t.value), ToInt(u.value);
    if tv.Some? && uv.Some? && tv == uv {
      ShortestUnique(t.value, u.value);
    }
    CharCmpPreorder();
    LexFlips(CharCmp, t.value, u.value);
    StrCmpZero(t.value, u.value);
    assert KeywordOrder(t.value) == KeywordOrder(u.value) ==> KeywordOrder(t.value) == 7;
  }

  /** Tokens with the prefixes "-" and "." never tie. */
  lemma PrefixDecides(t: Token, u: Token)
    requires t.prefix in {"-", "."} && u.prefix in {"-", "."} && t.prefix != u.prefix
    ensures TokenLess(t, u).Some? && TokenLess(u, t).Some?
    ensures TokenLess(t, u).value != TokenLess(u, t).value
  {
    hide ToInt;
  }

  predicate Decided(v: seq<Token>, w: seq<Token>, i: nat) {
    && LessFrom(v, w, i).Some? && LessFrom(w, v, i).Some?
    && LessFrom(v, w, i).value != LessFrom(w, v, i).value
  }

  lemma {:induction false} DecidedFrom(v: seq<Token>, w: seq<Token>, i: nat)
    requires Good(v) && Good(w) && !Same(v, w)
    requires forall j :: 0 <= j < i && j < |v| && j < |w| ==> v[j].Equal(w[j])
    requires i < |v| || i < |w|
    ensures Decided(v, w, i)
    decreases |v| + |w| - i
  {
    hide Shortest;
    var left, right := Padded(v, w, i), Padded(w, v, i);
    assert left.Some? && right.Some?;
    var l, r := left.value, right.value;
    assert (l.prefix == "" && r.prefix == "" && i == 0) || (i > 0 && l.prefix in {"-", "."} && r.prefix in {"-", "."});
    if l.Equal(r) {
      if i + 1 >= |v| && i + 1 >= |w| {
        LastDiffers(v, w, i);
      } else {
        DecidedFrom(v, w, i + 1);
      }
    } else if l.prefix == r.prefix {
      NullValues();
      SamePrefixDecides(l, r);
    } else {
      PrefixDecides(l, r);
    }
  }

  lemma NullValues()
    ensures Shortest("") && Shortest("0")
  {
  }

  /** If all pairs up to the last are equal, so is the last, and the versions are the same: the last
      token of the longer one is not null. */
  lemma LastDiffers(v: seq<Token>, w: seq<Token>, i: nat)
    requires Good(v) && Good(w) && !Same(v, w)
    requires forall j :: 0 <= j < i && j < |v| && j < |w| ==> v[j].Equal(w[j])
    requires (i < |v| || i < |w|) && i + 1 >= |v| && i + 1 >= |w|
    ensures var left, right := Padded(v, w, i), Padded(w, v, i);
            left.Some? && right.Some? && !left.value.Equal(right.value)
  {
  }

  /** Comparing two Maven version strings never fails, answers 0 exactly for equal token lists, and
      flips when the arguments are swapped. */
  lemma CompareParsed(s: string, t: string)
    ensures var v, w := Parse(s), Parse(t);
            && Cmp(v, w).Some? && -1 <= Cmp(v, w).value <= 1
            && (Cmp(v, w) == Some(0) <==> v == w)
            && Cmp(w, v) == Some(-Cmp(v, w).value)
  {
    hide Parse;
    ParseGood(s);
    ParseGood(t);
    var v, w := Parse(s), Parse(t);
    if !Same(v, w) {
      DecidedFrom(v, w, 0);
    } else {
      assert forall i :: 0 <= i < |v| ==> v[i] == w[i];
    }
  }

  /** A piece of one kind of character is one token. */
  lemma OneToken(piece: string, prefix: string)
    requires Transitions(piece, 1) == []
    ensures PieceTokens(piece, prefix, 0, Cuts(piece)) == [Token(prefix, Normalise(Lower(piece), false), false)]
  {
    assert piece[0..|piece|] == piece;
    PieceStep([], piece, prefix, 0, [|piece|]);
    PieceEnd([], piece, "-", |piece|);
  }

  lemma {:induction false} NoTransitions(s: string, from: nat)
    requires 0 < from && forall i :: from <= i < |s| ==> IsDigit(s[i - 1]) == IsDigit(s[i])
    ensures Transitions(s, from) == []
    decreases |s| - from
  {
    if from < |s| {
      NoTransitions(s, from + 1);
    }
  }

  /** A value that is read as it is written: a word without digits, delimiters and capitals that is not
      one of the spellings that are replaced, or a number in shortest form. */
  predicate Readable(value: string) {
    && value != ""
    && (forall i :: 0 <= i < |value| ==> !IsDelimiter(value[i]))
    && if IsDigit(value[0]) then AllDigits(value) && (value == "0" || value[0] != '0')
       else value !in {"cr", "ga", "final", "release"}
            && forall i :: 0 <= i < |value| ==> !IsDigit(value[i]) && !('A' <= value[i] <= 'Z')
  }

  lemma ReadAsWritten(value: string)
    requires Readable(value)
    ensures Normalise(Lower(value), false) == value && Transitions(value, 1) == []
  {
    NoTransitions(value, 1);
    assert Lower(value) == value;
    if IsDigit(value[0]) {
      assert value == "0" ==> TrimZeros(value) == "";
      assert value[0] != '0' ==> TrimZeros(value) == value;
    } else {
      assert !AllDigits(value);
    }
  }

  /** The token of the first of the remaining pieces, which is not cut. */
  lemma NextToken(raw: seq<string>, i: nat)
    requires i < |raw| && Transitions(raw[i], 1) == [] && Normalise(Lower(raw[i]), false) == raw[i]
    ensures TokensFrom(raw, i) == [Token(if i == 0 then "" else raw[i - 1], raw[i], false)] + TokensFrom(raw, i + 2)
  {
    hide Normalise, Transitions, Cuts, PieceTokens, Lower;
    OneToken(raw[i], if i == 0 then "" else raw[i - 1]);
  }

  /** Splitting at a delimiter that is not part of the first piece. */
  lemma SplitAt(piece: string, delimiter: string, rest: string)
    requires forall i :: 0 <= i < |piece| ==> !IsDelimiter(piece[i])
    requires |delimiter| == 1 && IsDelimiter(delimiter[0])
    ensures SplitInclusive(piece) == [piece]
    ensures SplitInclusive(piece + delimiter + rest) == [piece, delimiter] + SplitInclusive(rest)
  {
    var s := piece + delimiter + rest;
    assert forall i :: 0 <= i < |piece| ==> s[i] == piece[i];
    assert s[|piece|] == delimiter[0];
    assert s[..|piece|] == piece && s[|piece|..|piece| + 1] == delimiter && s[|piece| + 1..] == rest;
  }

  // Printing.

  /** A version as text: each token behind its prefix. */
  function Print(v: seq<Token>): string
    requires v != []
  {
    v[0].value + (if |v| == 1 then "" else v[1].prefix + Print(v[1..]))
  }

  function Pieces(v: seq<Token>): (raw: seq<string>)
    requires v != []
    ensures |raw| == 2 * |v| - 1
  {
    if |v| == 1 then [v[0].value] else [v[0].value, v[1].prefix] + Pieces(v[1..])
  }

  predicate Printable(v: seq<Token>) {
    && v != [] && v[0].prefix == ""
    && (forall i :: 0 <= i < |v| ==> Readable(v[i].value) && !v[i].isNull)
    && (forall i :: 0 < i < |v| ==> v[i].prefix == "-" || v[i].prefix == ".")
  }

  lemma {:induction false} SplitPrinted(v: seq<Token>)
    requires v != [] && forall i :: 0 <= i < |v| ==> Readable(v[i].value)
    requires forall i :: 0 < i < |v| ==> v[i].prefix == "-" || v[i].prefix == "."
    ensures SplitInclusive(Print(v)) == Pieces(v)
  {
    hide SplitInclusive;
    assert Readable(v[0].value);
    if |v| == 1 {
      SplitAt(v[0].value, "-", "");
      assert v[0].value + "" == v[0].value;
    } else {
      SplitPrinted(v[1..]);
      SplitAt(v[0].value, v[1].prefix, Print(v[1..]));
      assert v[0].value + (v[1].prefix + Print(v[1..])) == v[0].value + v[1].prefix + Print(v[1..]);
    }
  }

  lemma {:induction false} PieceAt(v: seq<Token>, i: nat)
    requires i < |v|
    ensures Pieces(v)[2 * i] == v[i].value && (i > 0 ==> Pieces(v)[2 * i - 1] == v[i].prefix)
  {
    if i > 0 {
      PieceAt(v[1..], i - 1);
      var k := 2 * (i - 1);
      assert Pieces(v)[k + 2] == Pieces(v[1..])[k];
      assert i > 1 ==> Pieces(v)[k + 1] == Pieces(v[1..])[k - 1];
    }
  }

  lemma {:induction false} TokensPrinted(v: seq<Token>, i: nat)
    requires Printable(v) && i <= |v|
    ensures TokensFrom(Pieces(v), 2 * i) == v[i..]
    decreases |v| - i
  {
    hide Normalise, Transitions, TokensFrom, Lower, Readable, Pieces;
    if i == |v| {
      TokensStep(Pieces(v), 2 * i);
    } else {
      PieceAt(v, i);
      ReadAsWritten(v[i].value);
      TokensPrinted(v, i + 1);
      NextToken(Pieces(v), 2 * i);
      assert v[i..] == [v[i]] + v[i + 1..];
    }
  }

  lemma {:induction false} TrimKeeps(v: seq<Token>, n: nat)
    requires n <= |v| && Trimmed(v, 1)
    ensures Trim(v[..n], v[n..]) == v
  {
    hide Trim;
    if n == 0 {
      TrimNothing(v);
      assert v[..0] == [] && v[0..] == v;
    } else {
      Keep(v, n - 1);
      TrimKeeps(v, n - 1);
    }
  }

  /** A version read back from its text: parsing gives the same tokens again, if none of them is null at
      the end or before a hyphen. */
  lemma PrintedParses(v: seq<Token>)
    requires Printable(v) && Trimmed(v, 1)
    ensures Parse(Print(v)) == v
  {
    hide SplitInclusive, TokensFrom, Trim, Print, Printable;
    assert v != [] by { PrintableHasFirst(v); }
    SplitPrintable(v);
    TokensPrinted(v, 0);
    TrimKeeps(v, |v|);
    assert v[0..] == v && v[..|v|] == v && v[|v|..] == [];
  }

  lemma PrintableHasFirst(v: seq<Token>)
    requires Printable(v)
    ensures v != []
  {
  }

  lemma SplitPrintable(v: seq<Token>)
    requires Printable(v)
    ensures SplitInclusive(Print(v)) == Pieces(v)
  {
    SplitPrinted(v);
  }

  lemma PrintShort(a: Token, b: Token, c: Token)
    ensures Print([a]) == a.value && Print([a, b]) == a.value + b.prefix + b.value
    ensures Print([a, b, c]) == a.value + b.prefix + b.value + c.prefix + c.value
  {
    assert [a, b][1..] == [b] && [a, b, c][1..] == [b, c] && [b, c][1..] == [c];
    assert Print([b, c]) == b.value + (c.prefix + c.value);
  }

  lemma SmallVersions()
    ensures Parse("1") == [Token("", "1", false)]
    ensures Parse("1-sp") == [Token("", "1", false), Token("-", "sp", false)]
    ensures Parse("1.0.alpha") == [Token("", "1", false), Token(".", "0", false), Token(".", "alpha", false)]
  {
    hide Parse, Print;
    var one, sp, zero, alpha := Token("", "1", false), Token("-", "sp", false), Token(".", "0", false), Token(".", "alpha", false);
    assert Readable("1") && Readable("0") && Readable("sp") && Readable("alpha");
    PrintedParses([one]);
    PrintedParses([one, sp]);
    PrintedParses([one, zero, alpha]);
    PrintShort(one, sp, sp);
    PrintShort(one, zero, alpha);
    assert "1" + "-" + "sp" == "1-sp" && "1" + "." + "0" + "." + "alpha" == "1.0.alpha";
  }

  /** The order is not transitive: 1 < 1-sp < 1.0.alpha < 1. */
  lemma NotTransitive()
    ensures var one, sp, alpha := Parse("1"), Parse("1-sp"), Parse("1.0.alpha");
            Cmp(one, sp) == Cmp(sp, alpha) == Cmp(alpha, one) == Some(-1)
  {
    hide Parse, ToInt;
    SmallVersions();
    NoNumber("sp");
    NoNumber("alpha");
    NoNumber("");
    SmallInts();
    var one, sp, alpha := Parse("1"), Parse("1-sp"), Parse("1.0.alpha");
    assert LessFrom(one, sp, 0) == LessFrom(one, sp, 1) == Some(true);
    assert LessFrom(sp, alpha, 0) == LessFrom(sp, alpha, 1) == Some(true);
    assert LessFrom(alpha, one, 0) == LessFrom(alpha, one, 1) == LessFrom(alpha, one, 2) == Some(true);
  }

  lemma SmallInts()
    ensures ToInt("0") == Some(0) && ToInt("1") == Some(1)
  {
  }
}
