/** semantic/version-maven.go: tokens of a Maven version, and their comparison. */
module Maven {
  import opened Text

  datatype Token = Token(prefix: string, value: string, isNull: bool)
  {
    /** A "null" value, dropped where it changes nothing. */
    predicate ShouldTrim() { value == "0" || value == "" || value == "final" || value == "ga" }

    predicate Equal(other: Token) { prefix == other.prefix && value == other.value }
  }

  // Parsing.

  predicate IsDelimiter(c: char) { c == '-' || c == '.' }

  predicate NotDelimiter(c: char) { !IsDelimiter(c) }

  /** The pieces between delimiters, with the delimiters in between. */
  function SplitInclusive(s: string): seq<string>
    decreases |s|
  {
    var m := Run(NotDelimiter, s);
    if m == |s| then [s] else [s[..m], s[m..m + 1]] + SplitInclusive(s[m + 1..])
  }

  /** The delimiters stand at the odd positions and nowhere else. */
  predicate Alternates(pieces: seq<string>) {
    && |pieces| % 2 == 1
    && (forall i :: 0 <= i < |pieces| && i % 2 == 1 ==> pieces[i] == "-" || pieces[i] == ".")
    && forall i :: 0 <= i < |pieces| && i % 2 == 0 ==> forall j :: 0 <= j < |pieces[i]| ==> !IsDelimiter(pieces[i][j])
  }

  function Glue(pieces: seq<string>): string {
    if pieces == [] then "" else pieces[0] + Glue(pieces[1..])
  }

  lemma OnePiece(piece: string)
    requires forall j :: 0 <= j < |piece| ==> !IsDelimiter(piece[j])
    ensures Alternates([piece]) && Glue([piece]) == piece
  {
    assert Glue([piece]) == piece + "";
  }

  lemma TwoMore(piece: string, delimiter: string, rest: seq<string>)
    requires Alternates(rest) && (forall j :: 0 <= j < |piece| ==> !IsDelimiter(piece[j])) && delimiter in {"-", "."}
    ensures Alternates([piece, delimiter] + rest) && Glue([piece, delimiter] + rest) == piece + (delimiter + Glue(rest))
  {
    var more := [piece, delimiter] + rest;
    forall i | 0 <= i < |more| ensures
        if i % 2 == 1 then more[i] == "-" || more[i] == "." else forall j :: 0 <= j < |more[i]| ==> !IsDelimiter(more[i][j])
    {
      if i >= 2 {
        var k := i - 2;
        assert more[i] == rest[k] && k % 2 == i % 2;
      }
    }
    assert more[1..] == [delimiter] + rest && more[1..][1..] == rest;
  }

  /** Pieces and delimiters alternate, and nothing is lost. */
  lemma {:induction false} SplitShape(s: string)
    ensures Alternates(SplitInclusive(s)) && Glue(SplitInclusive(s)) == s
    decreases |s|
  {
    hide Alternates, Glue;
    var m := Run(NotDelimiter, s);
    if m == |s| {
      OnePiece(s);
    } else {
      assert s[m..m + 1] == [s[m]];
      SplitShape(s[m + 1..]);
      TwoMore(s[..m], s[m..m + 1], SplitInclusive(s[m + 1..]));
      assert s == s[..m] + (s[m..m + 1] + s[m + 1..]);
    }
  }

  lemma SplitStep(out: seq<string>, s: string)
    ensures var m := Run(NotDelimiter, s);
            out + SplitInclusive(s) ==
              if m == |s| then out + [s] else (out + [s[..m], s[m..m + 1]]) + SplitInclusive(s[m + 1..])
  {
    hide Run;
  }

  method SplitCharsInclusive(str: string) returns (out: seq<string>)
    ensures out == SplitInclusive(str)
  {
    hide SplitInclusive;
    var s := str;
    out := [];
    while true
      invariant SplitInclusive(str) == out + SplitInclusive(s)
      decreases |s|
    {
      var m := Run(NotDelimiter, s);
      SplitStep(out, s);
      if m == |s| {
        break;
      }
      out := out + [s[..m], s[m..m + 1]];
      s := s[m + 1..];
    }
    out := out + [s];
  }

  /** Positions from `from` on where digits meet non-digits. */
  function Transitions(s: string, from: nat): (cuts: seq<nat>)
    requires 0 < from
    ensures forall i :: 0 <= i < |cuts| ==> from <= cuts[i] < |s|
    ensures forall i, j :: 0 <= i < j < |cuts| ==> cuts[i] < cuts[j]
    decreases |s| - from
  {
    if from >= |s| then []
    else if IsDigit(s[from - 1]) != IsDigit(s[from]) then [from] + Transitions(s, from + 1)
    else Transitions(s, from + 1)
  }

  /** Leading zeros of a number go; anything else stays. */
  function StripNumber(s: string): string {
    if s == "" || !AllDigits(s) then s else if TrimZeros(s) == "" then "0" else TrimZeros(s)
  }

  /** The value a lower-case piece stands for; `followed` says that a digit run comes right after it
      (or a letter run after digits). */
  function Normalise(piece: string, followed: bool): string {
    var a := if piece == "" then "0" else piece;
    var b := if a == "cr" then "rc" else a;
    var c := if b == "ga" || b == "final" || b == "release" then "" else b;
    var d := if followed && c == "a" then "alpha" else if followed && c == "b" then "beta"
             else if followed && c == "m" then "milestone" else c;
    StripNumber(d)
  }

  /** The tokens of one piece, cut at `cuts`. */
  function PieceTokens(piece: string, prefix: string, prev: nat, cuts: seq<nat>): seq<Token>
    requires forall i :: 0 <= i < |cuts| ==> prev <= cuts[i] <= |piece|
    requires forall i, j :: 0 <= i < j < |cuts| ==> cuts[i] < cuts[j]
    decreases |cuts|
  {
    if cuts == [] then []
    else
      var cut := cuts[0];
      [Token(prefix, Normalise(Lower(piece[prev..cut]), cut != |piece|), false)]
      + PieceTokens(piece, "-", cut, cuts[1..])
  }

  function Cuts(piece: string): (cuts: seq<nat>)
    ensures cuts != [] && forall i :: 0 <= i < |cuts| ==> 0 <= cuts[i] <= |piece|
    ensures forall i, j :: 0 <= i < j < |cuts| ==> cuts[i] < cuts[j]
  {
    Transitions(piece, 1) + [|piece|]
  }

  /** The tokens of the raw pieces from position `i` on. */
  function TokensFrom(raw: seq<string>, i: nat): seq<Token>
    decreases |raw| - i
  {
    if i >= |raw| then []
    else PieceTokens(raw[i], if i == 0 then "" else raw[i - 1], 0, Cuts(raw[i])) + TokensFrom(raw, i + 2)
  }

  /** Right to left: a null token goes if it is not the first and what follows it is nothing or starts
      with a hyphen. `kept` is what is left of the tokens to the right. */
  function Trim(front: seq<Token>, kept: seq<Token>): seq<Token> {
    if front == [] then kept
    else
      var rest, last := front[..|front| - 1], front[|front| - 1];
      if rest != [] && last.ShouldTrim() && (kept == [] || kept[0].prefix == "-") then Trim(rest, kept)
      else Trim(rest, [last] + kept)
  }

  function Parse(s: string): seq<Token> {
    Trim(TokensFrom(SplitInclusive(s), 0), [])
  }

  /** newMavenVersion. */
  method NewMavenVersion(str: string) returns (tokens: seq<Token>)
    ensures tokens == Parse(str)
  {
    hide Normalise, PieceTokens, Trim, Cuts, SplitInclusive, TokensFrom;
    tokens := [];
    var rawTokens := SplitCharsInclusive(str);
    var i := 0;
    while i < |rawTokens|
      invariant 0 <= i && tokens + TokensFrom(rawTokens, i) == TokensFrom(rawTokens, 0)
      decreases |rawTokens| - i
    {
      var prefix := if i == 0 then "" else rawTokens[i - 1];
      TokensStep(rawTokens, i);
      var piece := AppendPiece(rawTokens[i], prefix);
      assert (tokens + piece) + TokensFrom(rawTokens, i + 2) == tokens + (piece + TokensFrom(rawTokens, i + 2));
      tokens := tokens + piece;
      i := i + 2;
    }
    TokensStep(rawTokens, i);
    assert tokens + [] == tokens;
    tokens := TrimInPlace(tokens);
  }

  lemma TokensStep(raw: seq<string>, i: nat)
    ensures TokensFrom(raw, i) ==
              if i >= |raw| then []
              else PieceTokens(raw[i], if i == 0 then "" else raw[i - 1], 0, Cuts(raw[i])) + TokensFrom(raw, i + 2)
  {
  }

  method AppendPiece(piece: string, first: string) returns (tokens: seq<Token>)
    ensures tokens == PieceTokens(piece, first, 0, Cuts(piece))
  {
    hide Normalise, PieceTokens, Lower, Transitions, Cuts;
    tokens := [];
    var prefix, prevIndex, transitions := first, 0, Cuts(piece);
    ghost var rest := transitions;
    for j := 0 to |transitions|
      invariant rest == transitions[j..] && CutsAfter(piece, prevIndex, rest)
      invariant tokens + PieceTokens(piece, if j > 0 then "-" else prefix, prevIndex, rest)
             == PieceTokens(piece, first, 0, transitions)
    {
      if j > 0 {
        prefix := "-";
      }
      var transition := transitions[j];
      PieceStep(tokens, piece, prefix, prevIndex, rest);
      var current := Normalise(Lower(piece[prevIndex..transition]), transition != |piece|);
      tokens := tokens + [Token(prefix, current, false)];
      prevIndex := transition;
      rest := rest[1..];
    }
    PieceEnd(tokens, piece, "-", prevIndex);
  }

  predicate CutsAfter(piece: string, prev: nat, cuts: seq<nat>) {
    && prev <= |piece|
    && (forall i :: 0 <= i < |cuts| ==> prev <= cuts[i] <= |piece|)
    && forall i, j :: 0 <= i < j < |cuts| ==> cuts[i] < cuts[j]
  }

  lemma PieceStep(tokens: seq<Token>, piece: string, prefix: string, prev: nat, cuts: seq<nat>)
    requires CutsAfter(piece, prev, cuts) && cuts != []
    ensures prev <= cuts[0] && CutsAfter(piece, cuts[0], cuts[1..])
    ensures tokens + PieceTokens(piece, prefix, prev, cuts)
         == (tokens + [Token(prefix, Normalise(Lower(piece[prev..cuts[0]]), cuts[0] != |piece|), false)])
            + PieceTokens(piece, "-", cuts[0], cuts[1..])
  {
    hide Normalise;
  }

  lemma PieceEnd(tokens: seq<Token>, piece: string, prefix: string, prev: nat)
    ensures tokens + PieceTokens(piece, prefix, prev, []) == tokens
  {
  }

  /** The token at `i` stays: it is the first, not null, or followed by a token without hyphen. */
  lemma Keep(tokens: seq<Token>, i: nat)
    requires i < |tokens|
    requires i == 0 || !tokens[i].ShouldTrim() || (i + 1 < |tokens| && tokens[i + 1].prefix != "-")
    ensures Trim(tokens[..i + 1], tokens[i + 1..]) == Trim(tokens[..i], tokens[i..])
  {
    assert tokens[..i + 1][..i] == tokens[..i] && [tokens[i]] + tokens[i + 1..] == tokens[i..];
  }

  lemma Drop(tokens: seq<Token>, i: nat, shorter: seq<Token>)
    requires 0 < i < |tokens| && tokens[i].ShouldTrim() && shorter == tokens[..i] + tokens[i + 1..]
    requires i + 1 == |tokens| || tokens[i + 1].prefix == "-"
    ensures Trim(tokens[..i + 1], tokens[i + 1..]) == Trim(shorter[..i], shorter[i..])
  {
    assert tokens[..i + 1][..i] == tokens[..i] == shorter[..i] && shorter[i..] == tokens[i + 1..];
  }

  /** The trimming loop: drops null tokens at the end, then goes on before each hyphen. */
  method TrimInPlace(all: seq<Token>) returns (tokens: seq<Token>)
    ensures tokens == Trim(all, [])
  {
    hide Trim;
    tokens := all;
    var i := |tokens| - 1;
    assert tokens[..i + 1] == tokens && tokens[i + 1..] == [];
    while i > 0
      invariant i < |tokens|
      invariant i >= 0 ==> i + 1 == |tokens| || tokens[i + 1].prefix == "-"
      invariant var n := if i >= 0 then i + 1 else 0; Trim(tokens[..n], tokens[n..]) == Trim(all, [])
      decreases i
    {
      if tokens[i].ShouldTrim() {
        ghost var before := tokens;
        tokens := tokens[..i] + tokens[i + 1..];
        Drop(before, i, tokens);
        i := i - 1;
        continue;
      }
      Keep(tokens, i);
      while i >= 0 && tokens[i].prefix != "-"
        invariant i < |tokens|
        invariant var n := if i >= 0 then i else 0; Trim(tokens[..n], tokens[n..]) == Trim(all, [])
        decreases i
      {
        if i > 0 {
          Keep(tokens, i - 1);
        }
        i := i - 1;
      }
      i := i - 1;
    }
    if i == 0 {
      Keep(tokens, 0);
    }
    TrimNothing(tokens);
    assert tokens[0..] == tokens && tokens[..0] == [];
  }

  lemma TrimNothing(tokens: seq<Token>)
    ensures Trim([], tokens) == tokens
  {
  }
}
