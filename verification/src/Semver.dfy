/** semantic/version-semver-like.go and semantic/version-semver.go. */
module Semver {
  import opened Orders
  import opened Text
  import opened Components

  datatype Scanned = Scanned(components: seq<int>, build: string)

  /** The components and the build string of `s`; `com` holds the digits read last. */
  function Scan(s: string, com: string): Scanned
    requires AllDigits(com)
    decreases |s|
  {
    var done := if com == "" then [] else [Value(com)];
    if s == "" then Scanned(done, "")
    else if IsDigit(s[0]) then Scan(s[1..], com + [s[0]])
    else if s[0] == '.' then
      var rest := Scan(s[1..], "");
      rest.(components := done + rest.components)
    else Scanned(done, s)
  }

  function TrimV(line: string): string {
    if line != "" && line[0] == 'v' then line[1..] else line
  }

  method ParseSemverLike(line0: string) returns (leadingV: bool, r: Scanned)
    ensures leadingV <==> line0 != "" && line0[0] == 'v'
    ensures r == Scan(TrimV(line0), "")
  {
    leadingV := line0 != "" && line0[0] == 'v';
    var line := TrimV(line0);
    var comps: seq<int>, currentCom, foundBuild := [], "", false;
    ghost var rest := line;
    hide *;
    Begin(line);
    for i := 0 to |line|
      invariant rest == line[i..]
      invariant !foundBuild ==> AllDigits(currentCom) && Scan(line, "") == Prepend(comps, Scan(rest, currentCom))
      invariant foundBuild ==> Scan(line, "") == Scanned(comps, currentCom + rest)
    {
      var c := line[i];
      assert rest == [c] + rest[1..];
      if foundBuild {
        assert currentCom + ([c] + rest[1..]) == (currentCom + [c]) + rest[1..];
        currentCom, rest := currentCom + [c], rest[1..];
        continue;
      }
      Consume(Scan(line, ""), comps, rest, currentCom);
      rest := rest[1..];
      if IsDigit(c) {
        currentCom := currentCom + [c];
        continue;
      }
      if currentCom != "" {
        comps := comps + [ToInt(currentCom).value];
        currentCom := "";
      }
      if c == '.' {
        continue;
      }
      foundBuild := true;
      currentCom := [c];
    }
    if !foundBuild {
      Finish(Scan(line, ""), comps, currentCom);
    }
    if !foundBuild && currentCom != "" {
      comps := comps + [ToInt(currentCom).value];
      currentCom := "";
    }
    assert currentCom + "" == currentCom;
    r := Scanned(comps, currentCom);
  }

  lemma Begin(line: string)
    ensures AllDigits("") && Scan(line, "") == Prepend([], Scan(line, ""))
  {
  }

  /** What one character does to the scan of the `whole`. */
  lemma Consume(whole: Scanned, comps: seq<int>, s: string, com: string)
    requires s != "" && AllDigits(com) && whole == Prepend(comps, Scan(s, com))
    ensures com != "" ==> ToInt(com).Some?
    ensures IsDigit(s[0]) ==> AllDigits(com + [s[0]]) && whole == Prepend(comps, Scan(s[1..], com + [s[0]]))
    ensures !IsDigit(s[0]) ==>
              var more := if com == "" then comps else comps + [ToInt(com).value];
              && AllDigits("")
              && (s[0] == '.' ==> whole == Prepend(more, Scan(s[1..], "")))
              && (s[0] != '.' ==> whole == Scanned(more, [s[0]] + s[1..]))
  {
    hide Value, ToInt, Scan, Prepend;
    ScanStep(s, com);
    NoDigits();
    if com != "" {
      NumeralToInt(com);
    }
    if !IsDigit(s[0]) {
      var done := if com == "" then [] else [Value(com)];
      if s[0] == '.' {
        PrependTwice(comps, done, Scan(s[1..], ""));
      } else {
        PrependTwice(comps, done, Scanned([], s));
      }
      assert comps + [] == comps && s == [s[0]] + s[1..];
    }
  }

  lemma ScanStep(s: string, com: string)
    requires s != "" && AllDigits(com)
    ensures AllDigits("") && (IsDigit(s[0]) ==> AllDigits(com + [s[0]]))
    ensures Scan(s, com) ==
              if IsDigit(s[0]) then Scan(s[1..], com + [s[0]])
              else
                var done := if com == "" then [] else [Value(com)];
                Prepend(done, if s[0] == '.' then Scan(s[1..], "") else Scanned([], s))
  {
    hide Value;
  }

  lemma PrependTwice(comps: seq<int>, done: seq<int>, r: Scanned)
    ensures Prepend(comps, Prepend(done, r)) == Prepend(comps + done, r)
    ensures Prepend(comps, Scanned([], r.build)) == Scanned(comps, r.build)
    ensures r.components == [] ==> Prepend(comps + done, r) == Scanned(comps + done, r.build)
  {
    assert comps + (done + r.components) == (comps + done) + r.components;
    assert comps + [] == comps && (comps + done) + [] == comps + done;
  }

  lemma Finish(whole: Scanned, comps: seq<int>, com: string)
    requires AllDigits(com) && whole == Prepend(comps, Scan("", com))
    ensures com != "" ==> ToInt(com).Some?
    ensures whole == Scanned(if com == "" then comps else comps + [ToInt(com).value], "")
  {
  }

  function Prepend(comps: seq<int>, r: Scanned): Scanned {
    r.(components := comps + r.components)
  }

  // Round trip.

  function Values(numerals: seq<string>): (vs: seq<int>)
    requires forall i :: 0 <= i < |numerals| ==> IsNumeral(numerals[i])
    ensures |vs| == |numerals|
  {
    if numerals == [] then []
    else
      assert IsNumeral(numerals[0]);
      [Value(numerals[0])] + Values(numerals[1..])
  }

  lemma {:induction false} ScanDigits(digits: string, rest: string, com: string)
    requires AllDigits(digits) && AllDigits(com)
    ensures Scan(digits + rest, com) == Scan(rest, com + digits)
  {
    if digits == "" {
      assert digits + rest == rest && com + digits == com;
    } else {
      assert (digits + rest)[1..] == digits[1..] + rest && (com + [digits[0]]) + digits[1..] == com + digits;
      ScanDigits(digits[1..], rest, com + [digits[0]]);
    }
  }

  /** What scanning leaves over as the build string. */
  predicate IsBuild(build: string) {
    build == "" || !(IsDigit(build[0]) || build[0] == '.')
  }

  /** The printed form of numerals and a build string reads back as their values and that string. */
  lemma {:induction false} ScanPrinted(numerals: seq<string>, build: string)
    requires numerals != [] && forall i :: 0 <= i < |numerals| ==> IsNumeral(numerals[i])
    requires IsBuild(build)
    ensures Scan(Join(numerals, '.') + build, "") == Scanned(Values(numerals), build)
  {
    hide Value, AllDigits, ToInt;
    NoDigits();
    var first := numerals[0];
    assert "" + first == first && IsNumeral(first);
    if |numerals| == 1 {
      ScanDigits(first, build, "");
    } else {
      var rest := Join(numerals[1..], '.') + build;
      assert Join(numerals, '.') + build == first + ("." + rest);
      ScanDigits(first, "." + rest, "");
      assert ("." + rest)[1..] == rest;
      ScanPrinted(numerals[1..], build);
    }
  }

  // fetchComponentsAndBuild.

  /** Components beyond the limit move to the end of the build string, each after a dot. */
  function Moved(extra: seq<nat>): string {
    if extra == [] then "" else "." + Decimal(extra[0]) + Moved(extra[1..])
  }

  function Fetched(comps: seq<nat>, build: string, maxComponents: int): (seq<nat>, string)
    requires maxComponents >= -1
  {
    var limit := if maxComponents == -1 || |comps| <= maxComponents then |comps| else maxComponents;
    (comps[..limit], build + Moved(comps[limit..]))
  }

  method FetchComponentsAndBuild(comps: seq<nat>, build0: string, maxComponents: int) returns (r: seq<nat>, build: string)
    requires maxComponents >= -1
    ensures (r, build) == Fetched(comps, build0, maxComponents)
    ensures maxComponents == -1 || |comps| <= maxComponents ==> r == comps && build == build0
    ensures 0 <= maxComponents < |comps| ==> r == comps[..maxComponents] && build0 <= build
  {
    if maxComponents == -1 || |comps| <= maxComponents {
      assert comps[..|comps|] == comps && comps[|comps|..] == [] && build0 + "" == build0;
      return comps, build0;
    }
    r := comps[..maxComponents];
    var extra := comps[maxComponents..];
    build := build0;
    for i := 0 to |extra|
      invariant build + Moved(extra[i..]) == build0 + Moved(extra)
    {
      assert extra[i..][1..] == extra[i + 1..];
      var piece := "." + Decimal(extra[i]);
      assert build + (piece + Moved(extra[i + 1..])) == (build + piece) + Moved(extra[i + 1..]);
      build := build + piece;
    }
    assert build + "" == build;
  }

  /** What was moved out of the components, on its own, reads back as those components. */
  lemma {:induction false} MovedReadsBack(extra: seq<nat>)
    ensures Scan(Moved(extra), "") == Scanned(extra, "")
  {
    if extra != [] {
      var rest := Moved(extra[1..]);
      var digits := Decimal(extra[0]);
      assert ("." + digits + rest)[1..] == digits + rest;
      ScanDigits(digits, rest, "");
      assert "" + digits == digits;
      DecimalValue(extra[0]);
      MovedReadsBack(extra[1..]);
      ScanAfter(rest, digits);
    }
  }

  ghost predicate Determined(comps: seq<nat>, build: string, maxComponents: nat) {
    forall comps', build' | IsBuild(build') && Fetched(comps', build', maxComponents) == Fetched(comps, build, maxComponents) ::
      comps' == comps && build' == build
  }

  /** When components are moved, the result determines what was scanned exactly if the build string was
      empty: behind another one, moved components cannot be told from what was there. */
  lemma DeterminedIffNoBuild(comps: seq<nat>, build: string, maxComponents: nat)
    requires |comps| > maxComponents && IsBuild(build)
    ensures Determined(comps, build, maxComponents) <==> build == ""
  {
    hide Moved;
    var extra := comps[maxComponents..];
    MovedStarts(extra);
    if build == "" {
      forall comps', build' | IsBuild(build') && Fetched(comps', build', maxComponents) == Fetched(comps, build, maxComponents)
        ensures comps' == comps && build' == build
      {
        MovedOnly(comps', build', comps, maxComponents);
      }
    } else {
      var shorter, longer := comps[..maxComponents], build + Moved(extra);
      MovedStarts([]);
      assert shorter[..|shorter|] == shorter && shorter[|shorter|..] == [] && longer + "" == longer;
      assert longer[0] == build[0];
      assert Fetched(shorter, longer, maxComponents) == Fetched(comps, build, maxComponents);
    }
  }

  lemma MovedStarts(extra: seq<nat>)
    ensures if extra == [] then Moved(extra) == "" else Moved(extra) != "" && Moved(extra)[0] == '.'
  {
  }

  lemma FirstOf(a: string, b: string)
    ensures a != "" ==> a + b != "" && (a + b)[0] == a[0]
  {
  }

  lemma MovedOnly(comps': seq<nat>, build': string, comps: seq<nat>, maxComponents: nat)
    requires |comps| > maxComponents && IsBuild(build')
    requires Fetched(comps', build', maxComponents) == Fetched(comps, "", maxComponents)
    ensures comps' == comps && build' == ""
  {
    hide Moved;
    var limit := if |comps'| <= maxComponents then |comps'| else maxComponents;
    var extra, extra' := comps[maxComponents..], comps'[limit..];
    MovedStarts(extra);
    MovedStarts(extra');
    assert build' + Moved(extra') == "" + Moved(extra) == Moved(extra);
    FirstOf(build', Moved(extra'));
    assert "" + Moved(extra') == Moved(extra');
    MovedReadsBack(extra);
    MovedReadsBack(extra');
    assert extra == extra';
    assert comps == comps[..maxComponents] + extra && comps' == comps'[..limit] + extra';
  }

  /** Digits read before a dot or the end are one component more. */
  lemma ScanAfter(rest: string, digits: string)
    requires IsNumeral(digits) && (rest == "" || rest[0] == '.')
    ensures Scan(rest, digits) == Prepend([Value(digits)], Scan(rest, ""))
  {
  }

  // Comparison.

  function PreRelease(build: string): string {
    var plain := build[..Find(build, '+')];
    if plain != "" && plain[0] == '-' then plain[1..] else plain
  }

  /** On pre-release strings; the empty one, a release, is the greatest. */
  function PreReleaseCmp(a: string, b: string): int {
    if a == "" && b != "" then 1
    else if a != "" && b == "" then -1
    else Lex(NumbersFirst, Split(a, '.'), Split(b, '.'))
  }

  method CompareIdentifiers(a: seq<string>, b: seq<string>) returns (r: int)
    ensures r == Lex(NumbersFirst, a, b)
  {
    var n := if |a| <= |b| then |a| else |b|;
    for i := 0 to n
      invariant Lex(NumbersFirst, a[i..], b[i..]) == Lex(NumbersFirst, a, b)
    {
      assert a[i..][1..] == a[i + 1..] && b[i..][1..] == b[i + 1..];
      var compare := NumbersFirst(a[i], b[i]);
      if compare != 0 {
        PartCmpOrder(-1, a[i], b[i], b[i]);
        return if compare > 0 then 1 else -1;
      }
    }
    return IntCmp(|a|, |b|);
  }

  function VersionCmp(v: Scanned, w: Scanned): int {
    Then(PadLex(IntCmp, 0, v.components, w.components), PreReleaseCmp(PreRelease(v.build), PreRelease(w.build)))
  }

  method Compare(v: Scanned, w: Scanned) returns (r: int)
    ensures r == VersionCmp(v, w)
  {
    r := Components.Cmp(v.components, w.components);
    if r != 0 {
      return;
    }
    var a, b := PreRelease(v.build), PreRelease(w.build);
    if a == "" && b != "" {
      return 1;
    }
    if a != "" && b == "" {
      return -1;
    }
    r := CompareIdentifiers(Split(a, '.'), Split(b, '.'));
  }

  lemma PreReleaseCmpPreorder()
    ensures IsPreorder(PreReleaseCmp)
  {
    PartCmpPreorder();
    forall a, b ensures -1 <= PreReleaseCmp(a, b) <= 1 && PreReleaseCmp(a, b) == -PreReleaseCmp(b, a) {
      LexFlips(NumbersFirst, Split(a, '.'), Split(b, '.'));
    }
    forall a, b, c | PreReleaseCmp(a, b) <= 0 && PreReleaseCmp(b, c) <= 0 ensures PreReleaseCmp(a, c) <= 0 {
      if (a == "") == (b == "") == (c == "") {
        LexTransitive(NumbersFirst, Split(a, '.'), Split(b, '.'), Split(c, '.'));
      }
    }
  }

  /** SemverVersion.compare is a total preorder. */
  lemma VersionCmpPreorder()
    ensures IsPreorder(VersionCmp)
  {
    IntCmpPreorder();
    PadLexPreorder(IntCmp, 0);
    PreReleaseCmpPreorder();
    var byComponents := (v: Scanned, w: Scanned) => PadLex(IntCmp, 0, v.components, w.components);
    var byBuild := (v: Scanned, w: Scanned) => PreReleaseCmp(PreRelease(v.build), PreRelease(w.build));
    KeyPreorder((v: Scanned) => v.components, (a, b) => PadLex(IntCmp, 0, a, b), byComponents);
    KeyPreorder((v: Scanned) => PreRelease(v.build), PreReleaseCmp, byBuild);
    ThenPreorder(byComponents, byBuild, VersionCmp);
  }

  // Item 11 of Semantic Versioning 2.0.0, on pre-release identifiers.

  predicate Identifier(s: string) {
    s != "" && forall i :: 0 <= i < |s| ==> IsDigit(s[i]) || IsLetter(s[i]) || s[i] == '-'
  }

  /** A hyphen followed only by digits, which the source reads as a negative number. */
  predicate LooksNegative(s: string) {
    |s| > 1 && s[0] == '-' && AllDigits(s[1..])
  }

  /** Identifiers of digits compare numerically and are lower; the others compare in ASCII order. */
  function Item11Cmp(x: string, y: string): int {
    if AllDigits(x) && AllDigits(y) then IntCmp(Value(x), Value(y))
    else if AllDigits(x) then -1
    else if AllDigits(y) then 1
    else StrCmp(x, y)
  }

  /** The source agrees with the specification on two identifiers that do not look negative. */
  lemma IdentifiersFollowItem11(x: string, y: string)
    requires Identifier(x) && Identifier(y) && !LooksNegative(x) && !LooksNegative(y)
    ensures NumbersFirst(x, y) == Item11Cmp(x, y)
  {
    assert x[0] != '+' && y[0] != '+';
  }

  /** Every identifier that looks negative is placed wrongly against the number 0. */
  lemma LooksNegativeDisagrees(x: string)
    requires LooksNegative(x)
    ensures NumbersFirst(x, "0") != Item11Cmp(x, "0")
  {
    assert !IsDigit(x[0]) && !AllDigits(x);
    assert AllDigits("0") && Value("0") == 0;
  }

  /** So an identifier is placed as item 11 says among all that do not look negative, exactly when it
      does not look negative itself. */
  lemma FollowsItem11Iff(x: string)
    requires Identifier(x)
    ensures (forall y | Identifier(y) && !LooksNegative(y) :: NumbersFirst(x, y) == Item11Cmp(x, y)) <==> !LooksNegative(x)
  {
    if LooksNegative(x) {
      LooksNegativeDisagrees(x);
      assert Identifier("0") && !LooksNegative("0");
    } else {
      forall y | Identifier(y) && !LooksNegative(y) ensures NumbersFirst(x, y) == Item11Cmp(x, y) {
        IdentifiersFollowItem11(x, y);
      }
    }
  }

  predicate Ordinary(ids: seq<string>) {
    ids != [] && forall i :: 0 <= i < |ids| ==> Identifier(ids[i]) && !LooksNegative(ids[i])
  }

  lemma {:induction false} ListsFollowItem11(a: seq<string>, b: seq<string>)
    requires forall i :: 0 <= i < |a| ==> Identifier(a[i]) && !LooksNegative(a[i])
    requires forall i :: 0 <= i < |b| ==> Identifier(b[i]) && !LooksNegative(b[i])
    ensures Lex(NumbersFirst, a, b) == Lex(Item11Cmp, a, b)
  {
    if a != [] && b != [] {
      IdentifiersFollowItem11(a[0], b[0]);
      ListsFollowItem11(a[1..], b[1..]);
    }
  }

  /** A pre-release as it is written, with build metadata after it. */
  function Written(ids: seq<string>, metadata: string): string {
    (if ids == [] then "" else "-" + Join(ids, '.')) + (if metadata == "" then "" else "+" + metadata)
  }

  lemma {:induction false} JoinHas(ids: seq<string>, c: char)
    requires c != '.' && forall i :: 0 <= i < |ids| ==> c !in ids[i]
    ensures c !in Join(ids, '.')
  {
    if |ids| > 1 {
      JoinHas(ids[1..], c);
    }
  }

  lemma WrittenPreRelease(ids: seq<string>, metadata: string)
    requires ids == [] || Ordinary(ids)
    ensures PreRelease(Written(ids, metadata)) == (if ids == [] then "" else Join(ids, '.'))
    ensures ids != [] ==> Split(Join(ids, '.'), '.') == ids && Join(ids, '.') != ""
  {
    hide Join, Split;
    var plain := if ids == [] then "" else "-" + Join(ids, '.');
    if ids != [] {
      JoinedIdentifiers(ids);
    }
    MetadataIgnored(plain, metadata);
  }

  lemma MetadataIgnored(plain: string, metadata: string)
    requires '+' !in plain
    ensures var s := plain + (if metadata == "" then "" else "+" + metadata); s[..Find(s, '+')] == plain
  {
    if metadata == "" {
      assert plain + "" == plain;
      FindNone(plain, '+');
    } else {
      FindAt(plain, '+', metadata);
      assert plain + ("+" + metadata) == plain + ['+'] + metadata;
      assert (plain + ['+'] + metadata)[..|plain|] == plain;
    }
  }

  lemma JoinedIdentifiers(ids: seq<string>)
    requires Ordinary(ids)
    ensures Split(Join(ids, '.'), '.') == ids && Join(ids, '.') != "" && '+' !in Join(ids, '.')
  {
    forall i | 0 <= i < |ids| ensures '+' !in ids[i] && '.' !in ids[i] {
      assert Identifier(ids[i]);
    }
    JoinHas(ids, '+');
    SplitJoin(ids, '.');
    assert Identifier(ids[0]);
  }

  /** Precedence of valid versions: components first, a pre-release before its release, then the
      identifiers from left to right, more of them being higher. */
  function Precedence(v: seq<int>, p: seq<string>, w: seq<int>, q: seq<string>): int {
    Then(Lex(IntCmp, v, w),
         if p == [] && q == [] then 0 else if p == [] then 1 else if q == [] then -1 else Lex(Item11Cmp, p, q))
  }

  /** The source compares by precedence; metadata does not count. */
  lemma CompareFollowsItem11(v: seq<int>, p: seq<string>, m: string, w: seq<int>, q: seq<string>, n: string)
    requires |v| == |w| == 3 && (p == [] || Ordinary(p)) && (q == [] || Ordinary(q))
    ensures VersionCmp(Scanned(v, Written(p, m)), Scanned(w, Written(q, n)))
         == Precedence(v, p, w, q)
  {
    WrittenPreRelease(p, m);
    WrittenPreRelease(q, n);
    EqualLengths(v, w);
    ListsFollowItem11(p, q);
    if p == [] && q == [] {
      PartCmpPreorder();
      LexFlips(NumbersFirst, Split("", '.'), Split("", '.'));
    }
  }

  /** A valid version as text, say 1.2.3-rc.1+build. */
  function Printed(numerals: seq<string>, ids: seq<string>, metadata: string): string {
    Join(numerals, '.') + Written(ids, metadata)
  }

  /** It reads back as its numbers and the rest, with a leading v or without. */
  lemma PrintedParses(numerals: seq<string>, ids: seq<string>, metadata: string)
    requires |numerals| == 3 && forall i :: 0 <= i < |numerals| ==> IsNumeral(numerals[i])
    ensures Scan(TrimV(Printed(numerals, ids, metadata)), "") == Scanned(Values(numerals), Written(ids, metadata))
    ensures Scan(TrimV("v" + Printed(numerals, ids, metadata)), "") == Scanned(Values(numerals), Written(ids, metadata))
  {
    hide Scan, Values;
    ScanPrinted(numerals, Written(ids, metadata));
    assert IsNumeral(numerals[0]) && IsDigit(numerals[0][0]);
    assert Printed(numerals, ids, metadata)[0] == numerals[0][0];
    assert ("v" + Printed(numerals, ids, metadata))[1..] == Printed(numerals, ids, metadata);
  }

  /** Reading two valid version strings and comparing them yields their precedence. */
  lemma PrintedFollowsItem11(v: seq<string>, p: seq<string>, m: string, w: seq<string>, q: seq<string>, n: string)
    requires |v| == |w| == 3 && (p == [] || Ordinary(p)) && (q == [] || Ordinary(q))
    requires forall i :: 0 <= i < 3 ==> IsNumeral(v[i]) && IsNumeral(w[i])
    ensures VersionCmp(Scan(TrimV(Printed(v, p, m)), ""), Scan(TrimV(Printed(w, q, n)), ""))
         == Precedence(Values(v), p, Values(w), q)
  {
    hide Scan, TrimV, Printed, VersionCmp, Written;
    PrintedParses(v, p, m);
    PrintedParses(w, q, n);
    CompareFollowsItem11(Values(v), p, m, Values(w), q, n);
  }

  lemma {:induction false} EqualLengths(v: seq<int>, w: seq<int>)
    requires |v| == |w|
    ensures PadLex(IntCmp, 0, v, w) == Lex(IntCmp, v, w)
  {
    if v != [] {
      EqualLengths(v[1..], w[1..]);
    }
  }
}
