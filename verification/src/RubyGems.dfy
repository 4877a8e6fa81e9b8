/** semantic/version-rubygems.go: canonical segments of a RubyGems version, and their comparison. */
module RubyGems {
  import opened Orders
  import opened Text
  import opened Wrappers
  import opened Components

  /** Puts a dot between a digit and a non-digit neighbour; `prev` is the character before `s` in its
      piece, if any. */
  function Canonical(s: string, prev: Option<char>): string {
    if s == "" then ""
    else if s[0] == '.' then "." + Canonical(s[1..], None)
    else
      (if prev.Some? && IsDigit(prev.value) != IsDigit(s[0]) then "." else "") + [s[0]] + Canonical(s[1..], Some(s[0]))
  }

  method Canonicalize(str: string) returns (res: string)
    ensures res == Canonical(str, None)
  {
    hide Canonical;
    res := "";
    var checkPrevious, previousWasDigit := false, true;
    ghost var prev: Option<char>, rest := None, str;
    for i := 0 to |str|
      invariant rest == str[i..]
      invariant checkPrevious == prev.Some? && (prev.Some? ==> previousWasDigit == IsDigit(prev.value))
      invariant res + Canonical(rest, prev) == Canonical(str, None)
    {
      var c := str[i];
      assert rest == [c] + rest[1..];
      CanonicalStep(res, rest, prev);
      rest := rest[1..];
      if c == '.' {
        checkPrevious := false;
        res := res + ".";
        prev := None;
        continue;
      }
      var isDigit := IsDigit(c);
      if checkPrevious && previousWasDigit != isDigit {
        res := res + ".";
      }
      res := res + [c];
      previousWasDigit := isDigit;
      checkPrevious := true;
      prev := Some(c);
    }
    CanonicalEnd(prev);
    assert res + "" == res;
  }

  lemma CanonicalEnd(prev: Option<char>)
    ensures Canonical("", prev) == ""
  {
  }

  /** What one character adds to the characters written so far. */
  lemma CanonicalStep(res: string, s: string, prev: Option<char>)
    requires s != ""
    ensures var dotted := if prev.Some? && IsDigit(prev.value) != IsDigit(s[0]) then res + "." else res;
            res + Canonical(s, prev) ==
              if s[0] == '.' then (res + ".") + Canonical(s[1..], None)
              else (dotted + [s[0]]) + Canonical(s[1..], Some(s[0]))
  {
  }

  // What canonicalisation does.

  function WithoutDots(s: string): string {
    if s == "" then "" else (if s[0] == '.' then "" else [s[0]]) + WithoutDots(s[1..])
  }

  /** No digit and non-digit are neighbours, counting dots as separators. */
  predicate Separated(s: string) {
    forall i :: 0 < i < |s| && s[i - 1] != '.' && s[i] != '.' ==> IsDigit(s[i - 1]) == IsDigit(s[i])
  }

  predicate Follows(s: string, prev: Option<char>) {
    prev.Some? && s != "" && s[0] != '.' ==> IsDigit(prev.value) == IsDigit(s[0])
  }

  lemma WithoutDotsCons(c: char, s: string)
    ensures WithoutDots([c] + s) == (if c == '.' then "" else [c]) + WithoutDots(s)
  {
    assert ([c] + s)[1..] == s;
  }

  /** Dots are added and nothing else changes. */
  lemma {:induction false} CanonicalKeepsCharacters(s: string, prev: Option<char>)
    ensures WithoutDots(Canonical(s, prev)) == WithoutDots(s)
  {
    hide WithoutDots;
    if s != "" {
      var next := if s[0] == '.' then None else Some(s[0]);
      var rest := Canonical(s[1..], next);
      CanonicalKeepsCharacters(s[1..], next);
      assert s == [s[0]] + s[1..];
      WithoutDotsCons(s[0], s[1..]);
      WithoutDotsCons(s[0], rest);
      WithoutDotsCons('.', [s[0]] + rest);
      assert "" + [s[0]] + rest == [s[0]] + rest && "." + [s[0]] + rest == ['.'] + ([s[0]] + rest);
      assert "." + rest == ['.'] + rest;
    }
  }

  lemma {:induction false} CanonicalSeparates(s: string, prev: Option<char>)
    requires prev != Some('.')
    ensures Separated(Canonical(s, prev)) && Follows(Canonical(s, prev), prev)
  {
    if s != "" {
      var c := s[0];
      var next := if c == '.' then None else Some(c);
      CanonicalSeparates(s[1..], next);
      var rest := Canonical(s[1..], next);
      var tail := [c] + rest;
      assert forall i :: 0 < i < |tail| ==> tail[i] == rest[i - 1];
      assert Separated(tail);
      var dotted := "." + tail;
      assert forall i :: 0 < i < |dotted| ==> dotted[i] == tail[i - 1];
      assert Separated(dotted);
      assert "" + [c] + rest == tail && "." + [c] + rest == dotted;
    }
  }

  lemma SeparatedTail(s: string)
    requires Separated(s) && s != ""
    ensures Separated(s[1..]) && Follows(s[1..], if s[0] == '.' then None else Some(s[0]))
  {
    var rest := s[1..];
    forall i | 0 < i < |rest| && rest[i - 1] != '.' && rest[i] != '.' ensures IsDigit(rest[i - 1]) == IsDigit(rest[i]) {
      var k := i + 1;
      assert s[k - 1] == rest[i - 1] && s[k] == rest[i];
    }
    if rest != "" && s[0] != '.' && rest[0] != '.' {
      var k := 1;
      assert s[k - 1] == s[0] && s[k] == rest[0];
    }
  }

  /** A separated string is canonical already. */
  lemma {:induction false} SeparatedIsCanonical(s: string, prev: Option<char>)
    requires Separated(s) && Follows(s, prev)
    ensures Canonical(s, prev) == s
  {
    hide Canonical, Separated;
    CanonicalEnd(prev);
    if s != "" {
      SeparatedTail(s);
      SeparatedIsCanonical(s[1..], if s[0] == '.' then None else Some(s[0]));
      CanonicalStep("", s, prev);
      assert "" + Canonical(s, prev) == Canonical(s, prev);
      assert s == ("" + [s[0]]) + s[1..];
    }
  }

  lemma CanonicalIsIdempotent(s: string)
    ensures Canonical(Canonical(s, None), None) == Canonical(s, None)
  {
    CanonicalSeparates(s, None);
    SeparatedIsCanonical(Canonical(s, None), None);
  }

  function After(s: string): Option<char>
    requires s != ""
  {
    if s[|s| - 1] == '.' then None else Some(s[|s| - 1])
  }

  lemma {:induction false} CanonicalGoesOn(a: string, b: string, prev: Option<char>)
    requires a != ""
    ensures Canonical(a + b, prev) == Canonical(a, prev) + Canonical(b, After(a))
  {
    hide Canonical;
    var next := if a[0] == '.' then None else Some(a[0]);
    CanonicalStep("", a, prev);
    CanonicalStep("", a + b, prev);
    assert (a + b)[0] == a[0] && (a + b)[1..] == a[1..] + b;
    assert "" + Canonical(a, prev) == Canonical(a, prev) && "" + Canonical(a + b, prev) == Canonical(a + b, prev);
    if |a| == 1 {
      CanonicalEnd(next);
      assert a[1..] == "" && "" + b == b && After(a) == next;
      assert forall x: string :: x + "" == x;
    } else {
      CanonicalGoesOn(a[1..], b, next);
      assert After(a) == After(a[1..]);
      Regrouped(a, prev, Canonical(a[1..], next), Canonical(b, After(a)));
    }
  }

  lemma Regrouped(a: string, prev: Option<char>, x: string, y: string)
    requires a != ""
    ensures var dotted := if prev.Some? && IsDigit(prev.value) != IsDigit(a[0]) then "" + "." else "";
            && ("" + ".") + (x + y) == (("" + ".") + x) + y
            && (dotted + [a[0]]) + (x + y) == ((dotted + [a[0]]) + x) + y
  {
  }

  /** One dot goes between a digit and a non-digit, neither of them a dot, and no other character is added:
      single characters stay as they are, and two strings are joined with that dot or without. */
  lemma CanonicalJoins(a: string, b: string, c: char)
    requires a != "" && b != ""
    ensures Canonical([c], None) == [c]
    ensures var x, y := a[|a| - 1], b[0];
            Canonical(a + b, None)
              == Canonical(a, None) + (if x != '.' && y != '.' && IsDigit(x) != IsDigit(y) then "." else "") + Canonical(b, None)
  {
    assert [c][1..] == "";
    CanonicalGoesOn(a, b, None);
    CanonicalStep("", b, None);
    CanonicalStep("", b, After(a));
    var x := Canonical(b, None);
    assert "" + x == x && "" + Canonical(b, After(a)) == Canonical(b, After(a));
    assert Canonical(a, None) + "" == Canonical(a, None);
    FirstDotted(b, After(a));
    assert Canonical(a, None) + ("." + x) == Canonical(a, None) + "." + x;
  }

  lemma FirstDotted(b: string, prev: Option<char>)
    requires b != "" && prev != Some('.')
    ensures Canonical(b, prev) ==
              (if prev.Some? && b[0] != '.' && IsDigit(prev.value) != IsDigit(b[0]) then "." else "") + Canonical(b, None)
  {
    hide Canonical;
    CanonicalCons(b, None);
    CanonicalCons(b, prev);
    assert "" + Canonical(b, None) == Canonical(b, None);
  }

  lemma CanonicalCons(s: string, prev: Option<char>)
    requires s != ""
    ensures var rest := [s[0]] + Canonical(s[1..], if s[0] == '.' then None else Some(s[0]));
            Canonical(s, prev) == if prev.Some? && s[0] != '.' && IsDigit(prev.value) != IsDigit(s[0]) then "." + rest else rest
  {
  }

  /** Every piece between dots is all digits or has no digit. */
  predicate Pure(segment: string) {
    AllDigits(segment) || forall i :: 0 <= i < |segment| ==> !IsDigit(segment[i])
  }

  lemma {:induction false} SegmentsArePure(s: string)
    requires Separated(s)
    ensures forall i :: 0 <= i < |Split(s, '.')| ==> Pure(Split(s, '.')[i])
    decreases |s|
  {
    var n := Find(s, '.');
    var first := s[..n];
    assert forall i :: 0 <= i < n ==> first[i] == s[i] && s[i] != '.';
    forall i | 0 <= i < n ensures IsDigit(first[i]) == IsDigit(first[0]) {
      SameKind(first, i);
    }
    if n < |s| {
      var rest := s[n + 1..];
      assert forall i :: 0 <= i < |rest| ==> rest[i] == s[n + 1 + i];
      SegmentsArePure(rest);
    } else {
      assert first == s;
    }
  }

  lemma {:induction false} SameKind(s: string, i: nat)
    requires i < |s| && forall j :: 0 < j < |s| ==> IsDigit(s[j - 1]) == IsDigit(s[j])
    ensures IsDigit(s[i]) == IsDigit(s[0])
  {
    if i > 0 {
      SameKind(s, i - 1);
    }
  }

  // Segments.

  /** Numbers up to the first segment that is none, and the rest. */
  function Numbers(segs: seq<string>): seq<string> {
    if segs == [] || ToInt(segs[0]).None? then [] else [segs[0]] + Numbers(segs[1..])
  }

  method GroupSegments(segs: seq<string>) returns (numbers: seq<string>, build: seq<string>)
    ensures numbers == Numbers(segs) && numbers + build == segs
    ensures (forall i :: 0 <= i < |numbers| ==> ToInt(numbers[i]).Some?) && (build == [] || ToInt(build[0]).None?)
  {
    hide Numbers, ToInt;
    numbers, build := [], [];
    ghost var rest := segs;
    for i := 0 to |segs|
      invariant rest == segs[i..] && numbers + build + rest == segs
      invariant build == [] ==> Numbers(segs) == numbers + Numbers(rest)
      invariant build != [] ==> Numbers(segs) == numbers
    {
      var seg := segs[i];
      assert rest == [seg] + rest[1..];
      NumbersStep(numbers, rest);
      MoveFirst(numbers, build, rest);
      rest := rest[1..];
      if |build| > 0 || ToInt(seg).None? {
        build := build + [seg];
        continue;
      }
      numbers := numbers + [seg];
    }
    NumbersStep(numbers, []);
    assert numbers + build + [] == numbers + build;
    NumbersMeaning(segs);
  }

  lemma MoveFirst(numbers: seq<string>, build: seq<string>, rest: seq<string>)
    requires rest != []
    ensures numbers + build + rest == numbers + (build + [rest[0]]) + rest[1..]
    ensures build == [] ==> numbers + build + rest == (numbers + [rest[0]]) + build + rest[1..]
  {
  }

  lemma NumbersStep(numbers: seq<string>, segs: seq<string>)
    ensures numbers + Numbers(segs) ==
              if segs == [] || ToInt(segs[0]).None? then numbers else (numbers + [segs[0]]) + Numbers(segs[1..])
  {
  }

  lemma {:induction false} NumbersMeaning(segs: seq<string>)
    ensures var numbers := Numbers(segs);
            && numbers <= segs
            && (forall i :: 0 <= i < |numbers| ==> ToInt(numbers[i]).Some?)
            && (|numbers| < |segs| ==> ToInt(segs[|numbers|]).None?)
  {
    hide ToInt;
    if segs != [] && ToInt(segs[0]).Some? {
      NumbersMeaning(segs[1..]);
      assert segs == [segs[0]] + segs[1..];
    }
  }

  function TrimZeros(segs: seq<string>): seq<string> {
    if segs != [] && segs[|segs| - 1] == "0" then TrimZeros(segs[..|segs| - 1]) else segs
  }

  lemma {:induction false} TrimZerosMeaning(segs: seq<string>)
    ensures var r := TrimZeros(segs);
            r <= segs && (r == [] || r[|r| - 1] != "0") && forall i :: |r| <= i < |segs| ==> segs[i] == "0"
  {
    if segs != [] && segs[|segs| - 1] == "0" {
      TrimZerosMeaning(segs[..|segs| - 1]);
    }
  }

  method RemoveZeros(segs: seq<string>) returns (r: seq<string>)
    ensures r == TrimZeros(segs) && r <= segs
    ensures (r == [] || r[|r| - 1] != "0") && forall i :: |r| <= i < |segs| ==> segs[i] == "0"
  {
    TrimZerosMeaning(segs);
    var i := |segs| - 1;
    assert segs[..|segs|] == segs;
    while i >= 0
      invariant -1 <= i < |segs| && TrimZeros(segs[..i + 1]) == TrimZeros(segs)
    {
      assert segs[..i + 1][..i] == segs[..i];
      if segs[i] != "0" {
        i := i + 1;
        break;
      }
      i := i - 1;
    }
    return segs[..if i >= 0 then i else 0];
  }

  function Segments(segs: seq<string>): seq<string> {
    var numbers := Numbers(segs);
    assert |numbers| <= |segs| by { NumbersMeaning(segs); }
    TrimZeros(numbers) + TrimZeros(segs[|numbers|..])
  }

  method CanonicalSegments(segs: seq<string>) returns (r: seq<string>)
    ensures r == Segments(segs)
  {
    var numbers, build := GroupSegments(segs);
    assert build == segs[|numbers|..];
    numbers := RemoveZeros(numbers);
    build := RemoveZeros(build);
    r := numbers + build;
  }

  method Parse(s: string) returns (segments: seq<string>)
    ensures segments == Parsed(s)
  {
    var canonical := Canonicalize(s);
    segments := CanonicalSegments(Split(canonical, '.'));
  }

  function Parsed(s: string): seq<string> {
    Segments(Split(Canonical(s, None), '.'))
  }

  predicate AllZeros(segs: seq<string>) {
    forall i :: 0 <= i < |segs| ==> segs[i] == "0"
  }

  lemma {:induction false} TrimZerosIs(kept: seq<string>, zeros: seq<string>)
    requires AllZeros(zeros) && (kept == [] || kept[|kept| - 1] != "0")
    ensures TrimZeros(kept + zeros) == kept
  {
    if zeros == [] {
      assert kept + zeros == kept;
    } else {
      assert (kept + zeros)[..|kept + zeros| - 1] == kept + zeros[..|zeros| - 1];
      TrimZerosIs(kept, zeros[..|zeros| - 1]);
    }
  }

  lemma {:induction false} NumbersIs(numbers: seq<string>, build: seq<string>)
    requires (forall i :: 0 <= i < |numbers| ==> ToInt(numbers[i]).Some?) && (build == [] || ToInt(build[0]).None?)
    ensures Numbers(numbers + build) == numbers
  {
    hide ToInt;
    if numbers == [] {
      assert numbers + build == build;
    } else {
      assert (numbers + build)[1..] == numbers[1..] + build;
      NumbersIs(numbers[1..], build);
      assert [numbers[0]] + numbers[1..] == numbers;
    }
  }

  /** Zeros go from the end of the leading numbers, and from the end of all that follows the first segment
      that is no number; nothing else changes. */
  lemma SegmentsMeaning(numbers: seq<string>, zeros: seq<string>, build: seq<string>, more: seq<string>)
    requires AllZeros(zeros) && AllZeros(more)
    requires (forall i :: 0 <= i < |numbers| ==> ToInt(numbers[i]).Some?) && (numbers == [] || numbers[|numbers| - 1] != "0")
    requires if build == [] then more == [] else ToInt(build[0]).None? && build[|build| - 1] != "0"
    ensures Segments((numbers + zeros) + (build + more)) == numbers + build
  {
    hide ToInt, Numbers, TrimZeros;
    ZeroIsNumber();
    NumbersIs(numbers + zeros, build + more);
    var segs := (numbers + zeros) + (build + more);
    assert segs[|numbers + zeros|..] == build + more;
    TrimZerosIs(numbers, zeros);
    TrimZerosIs(build, more);
  }

  lemma ZeroIsNumber()
    ensures ToInt("0").Some?
  {
  }

  /** Appending ".0" to a version string never changes its segments. */
  lemma AppendedZero(s: string)
    ensures Parsed(s + ".0") == Parsed(s)
  {
    CanonicalAppend(s, None);
    SplitAppend(Canonical(s, None));
    SegmentsAppend(Split(Canonical(s, None), '.'));
  }

  lemma {:induction false} CanonicalAppend(s: string, prev: Option<char>)
    ensures Canonical(s + ".0", prev) == Canonical(s, prev) + ".0"
  {
    if s == "" {
      assert s + ".0" == ".0" && ".0"[1..] == "0" && "0"[1..] == "";
      assert Canonical("0", None) == "" + ['0'] + Canonical("", Some('0')) == "0";
      assert "." + "0" == ".0";
    } else {
      assert (s + ".0")[1..] == s[1..] + ".0";
      CanonicalAppend(s[1..], if s[0] == '.' then None else Some(s[0]));
    }
  }

  lemma {:induction false} SplitAppend(s: string)
    ensures Split(s + ".0", '.') == Split(s, '.') + ["0"]
    decreases |s|
  {
    hide Split, Run;
    var n := Find(s, '.');
    if n == |s| {
      SplitFirst(s, '.', "0");
      SplitFirst("0", '.', "");
      assert s + ['.'] + "0" == s + ".0";
    } else {
      var before, after := s[..n], s[n + 1..];
      assert s == before + ['.'] + after;
      SplitFirst(before, '.', after);
      SplitFirst(before, '.', after + ".0");
      assert s + ".0" == before + ['.'] + (after + ".0");
      SplitAppend(after);
    }
  }

  lemma SegmentsAppend(segs: seq<string>)
    ensures Segments(segs + ["0"]) == Segments(segs)
  {
    var more := segs + ["0"];
    NumbersAppend(segs);
    NumbersMeaning(segs);
    var n := |Numbers(segs)|;
    if n == |segs| {
      assert Numbers(more) == Numbers(segs) + ["0"] && segs[n..] == [] && more[n + 1..] == [];
      assert (Numbers(segs) + ["0"])[..n] == Numbers(segs);
    } else {
      assert more[n..] == segs[n..] + ["0"];
      assert (segs[n..] + ["0"])[..|segs| - n] == segs[n..];
    }
  }

  lemma {:induction false} NumbersAppend(segs: seq<string>)
    ensures |Numbers(segs)| <= |segs|
    ensures Numbers(segs + ["0"]) == if |Numbers(segs)| == |segs| then Numbers(segs) + ["0"] else Numbers(segs)
  {
    if segs == [] {
      assert ToInt("0").Some?;
      assert ["0"][1..] == [];
    } else {
      assert (segs + ["0"])[1..] == segs[1..] + ["0"];
      NumbersAppend(segs[1..]);
    }
  }

  // Comparison.

  method Compare(a: seq<string>, b: seq<string>) returns (r: int)
    ensures r == PadLex(NumbersLast, "0", a, b)
  {
    var n := if |a| >= |b| then |a| else |b|;
    ghost var x, y := a, b;
    for i := 0 to n
      invariant x == (if i <= |a| then a[i..] else []) && y == (if i <= |b| then b[i..] else [])
      invariant PadLex(NumbersLast, "0", x, y) == PadLex(NumbersLast, "0", a, b)
    {
      var left, right := if i < |a| then a[i] else "0", if i < |b| then b[i] else "0";
      assert left == Head("0", x) && right == Head("0", y);
      var ai, bi := ToInt(left), ToInt(right);
      if ai.Some? && bi.Some? {
        if IntCmp(ai.value, bi.value) != 0 {
          return IntCmp(ai.value, bi.value);
        }
      } else if ai.None? && bi.None? {
        if StrCmp(left, right) != 0 {
          return StrCmp(left, right);
        }
      } else {
        return if ai.Some? then 1 else -1;
      }
      x, y := Tail(x), Tail(y);
    }
    return 0;
  }

  /** The comparison of two version strings is a total preorder. */
  lemma VersionsPreorder()
    ensures IsPreorder((s, t) => PadLex(NumbersLast, "0", Parsed(s), Parsed(t)))
  {
    PartCmpPreorder();
    PadLexPreorder(NumbersLast, "0");
    KeyPreorder(Parsed, (a, b) => PadLex(NumbersLast, "0", a, b), (s, t) => PadLex(NumbersLast, "0", Parsed(s), Parsed(t)));
  }
}
