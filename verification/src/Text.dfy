/** Strings as sequences of bytes, and the decimal numbers written in them. */
module Text {
  import opened Orders
  import opened Wrappers

  predicate IsDigit(c: char) { '0' <= c <= '9' }

  predicate IsLetter(c: char) { 'A' <= c <= 'Z' || 'a' <= c <= 'z' }

  predicate AllDigits(s: string) { forall i :: 0 <= i < |s| ==> IsDigit(s[i]) }

  function Pow10(n: nat): (p: nat)
    ensures p >= 1
  {
    if n == 0 then 1 else 10 * Pow10(n - 1)
  }

  /** The number a string of decimal digits denotes; the empty string denotes 0. */
  function Value(ds: string): (v: nat)
    requires AllDigits(ds)
    ensures v < Pow10(|ds|)
  {
    if ds == [] then 0 else
      assert AllDigits(ds[1..]);
      var d, p, rest := ds[0] as int - '0' as int, Pow10(|ds| - 1), Value(ds[1..]);
      DigitBound(d, rest, p);
      d * p + rest
  }

  lemma DigitBound(d: int, rest: nat, p: nat)
    requires 0 <= d <= 9 && rest < p
    ensures 0 <= d * p + rest < 10 * p
  {
    assert 0 <= (9 - d) * p;
    assert 0 <= d * p;
  }

  function Lower(s: string): (r: string)
    ensures |r| == |s|
    ensures forall i :: 0 <= i < |s| ==> r[i] == if 'A' <= s[i] <= 'Z' then s[i] - 'A' + 'a' else s[i]
  {
    seq(|s|, i requires 0 <= i < |s| => if 'A' <= s[i] <= 'Z' then s[i] - 'A' + 'a' else s[i])
  }

  function TrimZeros(s: string): string {
    if s != [] && s[0] == '0' then TrimZeros(s[1..]) else s
  }

  /** Length of the longest prefix of `s` whose characters all satisfy `p`. */
  function Run(p: char -> bool, s: string): (n: nat)
    ensures n <= |s|
    ensures forall i :: 0 <= i < n ==> p(s[i])
    ensures n < |s| ==> !p(s[n])
  {
    if s == [] || !p(s[0]) then 0 else
      var m := Run(p, s[1..]);
      assert forall i :: 0 < i <= m ==> s[i] == s[1..][i - 1];
      1 + m
  }

  /** Base-10 big-integer parsing: an optional sign and at least one digit. */
  function ToInt(s: string): Option<int> {
    if s != [] && AllDigits(s) then Some(Value(s))
    else if |s| > 1 && s[0] == '+' && AllDigits(s[1..]) then Some(Value(s[1..]))
    else if |s| > 1 && s[0] == '-' && AllDigits(s[1..]) then Some(-(Value(s[1..]) as int))
    else None
  }

  /** Index of the first `c` in `s`, or |s|. */
  function Find(s: string, c: char): nat {
    Run(x => x != c, s)
  }

  lemma {:induction false} TrimZerosValue(s: string)
    requires AllDigits(s)
    ensures AllDigits(TrimZeros(s)) && Value(TrimZeros(s)) == Value(s)
    ensures TrimZeros(s) != [] ==> TrimZeros(s)[0] != '0'
  {
    if s != [] && s[0] == '0' {
      TrimZerosValue(s[1..]);
    }
  }

  lemma {:induction false} Pow10Grows(m: nat, n: nat)
    requires m <= n
    ensures Pow10(m) <= Pow10(n)
  {
    if m < n {
      Pow10Grows(m, n - 1);
    }
  }

  /** The leading digit decides, whatever follows. */
  lemma LeadingDigit(x: int, xRest: nat, y: int, yRest: nat, p: nat)
    requires xRest < p && yRest < p
    ensures x < y ==> x * p + xRest < y * p + yRest
    ensures y < x ==> y * p + yRest < x * p + xRest
  {
    if x < y {
      assert (x + 1) * p <= y * p;
    } else if y < x {
      assert (y + 1) * p <= x * p;
    }
  }

  lemma Positive(y: int, p: nat)
    requires y >= 1
    ensures y * p >= p
  {
    assert (y - 1) * p >= 0;
  }

  /** Digit strings of one length order as text exactly as they order as numbers. */
  lemma {:induction false} SameLengthOrder(a: string, b: string)
    requires AllDigits(a) && AllDigits(b) && |a| == |b|
    ensures StrCmp(a, b) == IntCmp(Value(a), Value(b))
  {
    if a != [] {
      SameLengthOrder(a[1..], b[1..]);
      var x, y := a[0] as int - '0' as int, b[0] as int - '0' as int;
      LeadingDigit(x, Value(a[1..]), y, Value(b[1..]), Pow10(|a| - 1));
    }
  }

  /** Without leading zeros, fewer digits means a smaller number. */
  lemma ShorterIsSmaller(a: string, b: string)
    requires AllDigits(a) && AllDigits(b) && |a| < |b| && b[0] != '0'
    ensures Value(a) < Value(b)
  {
    Pow10Grows(|a|, |b| - 1);
    var p, y, rest := Pow10(|b| - 1), b[0] as int - '0' as int, Value(b[1..]);
    assert Value(b) == y * p + rest;
    Positive(y, p);
  }

  /** The pieces of `s` between occurrences of `c`; never the empty list. */
  function Split(s: string, c: char): (parts: seq<string>)
    ensures parts != []
    ensures forall i :: 0 <= i < |parts| ==> c !in parts[i]
    decreases |s|
  {
    var i := Find(s, c);
    if i == |s| then [s] else [s[..i]] + Split(s[i + 1..], c)
  }

  function Join(parts: seq<string>, c: char): string {
    if parts == [] then "" else if |parts| == 1 then parts[0] else parts[0] + [c] + Join(parts[1..], c)
  }

  lemma SplitFirst(before: string, c: char, after: string)
    requires c !in before
    ensures Split(before + [c] + after, c) == [before] + Split(after, c)
    ensures Split(before, c) == [before]
  {
    var s := before + [c] + after;
    FindAt(before, c, after);
    FindNone(before, c);
    assert s[..|before|] == before && s[|before| + 1..] == after;
  }

  lemma {:induction false} SplitJoin(parts: seq<string>, c: char)
    requires parts != [] && forall i :: 0 <= i < |parts| ==> c !in parts[i]
    ensures Split(Join(parts, c), c) == parts
  {
    if |parts| == 1 {
      SplitFirst(parts[0], c, "");
    } else {
      SplitFirst(parts[0], c, Join(parts[1..], c));
      SplitJoin(parts[1..], c);
    }
  }

  /** The longest run is known from what follows it. */
  lemma RunIs(p: char -> bool, run: string, rest: string)
    requires forall i :: 0 <= i < |run| ==> p(run[i])
    requires rest != "" ==> !p(rest[0])
    ensures Run(p, run + rest) == |run|
  {
    var s := run + rest;
    assert forall i :: 0 <= i < |run| ==> s[i] == run[i];
    assert rest != "" ==> s[|run|] == rest[0];
  }

  lemma FindAt(before: string, c: char, after: string)
    requires c !in before
    ensures Find(before + [c] + after, c) == |before|
  {
    var s := before + [c] + after;
    assert s[|before|] == c;
    assert forall i :: 0 <= i < |before| ==> s[i] == before[i] != c;
  }

  lemma FindNone(s: string, c: char)
    requires c !in s
    ensures Find(s, c) == |s|
  {
  }

  // Decimal notation.

  predicate IsNumeral(s: string) {
    s != "" && AllDigits(s)
  }

  function Decimal(n: nat): (s: string)
    ensures IsNumeral(s)
  {
    if n < 10 then [n as char + '0'] else Decimal(n / 10) + [(n % 10) as char + '0']
  }

  lemma NoDigits()
    ensures AllDigits("")
  {
  }

  lemma NumeralToInt(s: string)
    requires IsNumeral(s)
    ensures ToInt(s) == Some(Value(s))
  {
  }

  lemma Regroup(d: int, p: int)
    ensures d * (10 * p) == 10 * (d * p)
  {
  }

  lemma {:induction false} ValueAppend(s: string, c: char)
    requires AllDigits(s) && IsDigit(c)
    ensures AllDigits(s + [c]) && Value(s + [c]) == 10 * Value(s) + (c as int - '0' as int)
  {
    if s == "" {
      assert s + [c] == [c];
    } else {
      ValueAppend(s[1..], c);
      assert (s + [c])[1..] == s[1..] + [c];
      var d, p := s[0] as int - '0' as int, Pow10(|s| - 1);
      assert Pow10(|s|) == 10 * p;
      Regroup(d, p);
      assert Value(s) == d * p + Value(s[1..]);
      assert Value(s + [c]) == d * (10 * p) + Value(s[1..] + [c]);
    }
  }

  lemma {:induction false} DecimalValue(n: nat)
    ensures Value(Decimal(n)) == n
  {
    if n >= 10 {
      DecimalValue(n / 10);
      ValueAppend(Decimal(n / 10), (n % 10) as char + '0');
    }
  }

  predicate Zeros(s: string) { forall i :: 0 <= i < |s| ==> s[i] == '0' }

  lemma {:induction false} ZerosValue(zeros: string, digits: string)
    requires Zeros(zeros) && AllDigits(digits)
    ensures AllDigits(zeros + digits) && Value(zeros + digits) == Value(digits)
  {
    if zeros == "" {
      assert zeros + digits == digits;
    } else {
      ZerosValue(zeros[1..], digits);
      assert (zeros + digits)[1..] == zeros[1..] + digits;
    }
  }

  /** Decimal notation reads back as the number, with leading zeros and with either sign. */
  lemma ToIntReadsDecimal(n: nat, zeros: string)
    requires Zeros(zeros)
    ensures ToInt(zeros + Decimal(n)) == ToInt("+" + zeros + Decimal(n)) == Some(n)
    ensures ToInt("-" + zeros + Decimal(n)) == Some(-(n as int))
  {
    hide Value, Decimal;
    var digits := zeros + Decimal(n);
    ZerosValue(zeros, Decimal(n));
    DecimalValue(n);
    NumeralToInt(digits);
    var plus, minus := "+" + zeros + Decimal(n), "-" + zeros + Decimal(n);
    assert plus[1..] == digits && minus[1..] == digits && !IsDigit(plus[0]) && !IsDigit(minus[0]);
  }

  /** Nothing but decimal digits, at least one, behind at most one sign converts. */
  lemma ToIntAccepts(s: string)
    ensures ToInt(s).Some? <==> IsNumeral(s) || (s != "" && s[0] in {'+', '-'} && IsNumeral(s[1..]))
  {
  }
}
