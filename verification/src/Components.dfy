/** What several version comparators share: semantic/version.go, semantic/utilities.go, and the two
    orders on parts that are numbers or words. */
module Components {
  import opened Orders
  import opened Text
  import opened Wrappers

  /** components.Cmp: the shorter list is padded with zeros. */
  method Cmp(a: seq<int>, b: seq<int>) returns (r: int)
    ensures r == PadLex(IntCmp, 0, a, b)
  {
    var n := if |a| >= |b| then |a| else |b|;
    ghost var x, y := a, b;
    for i := 0 to n
      invariant x == (if i <= |a| then a[i..] else []) && y == (if i <= |b| then b[i..] else [])
      invariant PadLex(IntCmp, 0, x, y) == PadLex(IntCmp, 0, a, b)
    {
      var diff := IntCmp(if i < |a| then a[i] else 0, if i < |b| then b[i] else 0);
      if diff != 0 {
        return diff;
      }
      x, y := Tail(x), Tail(y);
    }
    return 0;
  }

  /** Numbers as numbers, words as text; `mixed` is the verdict on a number against a word. */
  function PartCmp(mixed: int, x: string, y: string): int {
    match (ToInt(x), ToInt(y))
    case (Some(m), Some(n)) => IntCmp(m, n)
    case (None, None) => StrCmp(x, y)
    case (Some(_), None) => mixed
    case (None, Some(_)) => -mixed
  }

  function NumbersLast(x: string, y: string): int { PartCmp(1, x, y) }

  function NumbersFirst(x: string, y: string): int { PartCmp(-1, x, y) }

  lemma PartCmpOrder(mixed: int, x: string, y: string, z: string)
    requires mixed in {-1, 1}
    ensures -1 <= PartCmp(mixed, x, y) <= 1 && PartCmp(mixed, x, y) == -PartCmp(mixed, y, x)
    ensures PartCmp(mixed, x, y) <= 0 && PartCmp(mixed, y, z) <= 0 ==> PartCmp(mixed, x, z) <= 0
  {
    hide ToInt;
    StrCmpPreorder();
    assert StrCmp(x, y) == -StrCmp(y, x);
    Chain(StrCmp, x, y, z);
  }

  /** Numbers in decimal notation, with or without leading zeros, are ordered by value; words, which read
      as no number, as text; numbers come after words under one order and before them under the other. */
  lemma PartVerdict(m: nat, n: nat, zeros: string, x: string, y: string)
    requires Zeros(zeros) && ToInt(x) == None && ToInt(y) == None
    ensures var number := zeros + Decimal(m);
            && NumbersLast(number, Decimal(n)) == NumbersFirst(number, Decimal(n)) == IntCmp(m, n)
            && NumbersLast(x, y) == NumbersFirst(x, y) == StrCmp(x, y)
            && NumbersLast(number, x) == 1 && NumbersLast(x, number) == -1
            && NumbersFirst(number, x) == -1 && NumbersFirst(x, number) == 1
  {
    hide ToInt, Decimal;
    ToIntReadsDecimal(m, zeros);
    ToIntReadsDecimal(n, "");
    assert "" + Decimal(n) == Decimal(n);
  }

  lemma PartCmpPreorder()
    ensures IsPreorder(NumbersLast) && IsPreorder(NumbersFirst)
  {
    hide PartCmp;
    forall x, y ensures NumbersLast(x, y) == -NumbersLast(y, x) && -1 <= NumbersLast(x, y) <= 1 {
      PartCmpOrder(1, x, y, y);
    }
    forall x, y, z | NumbersLast(x, y) <= 0 && NumbersLast(y, z) <= 0 ensures NumbersLast(x, z) <= 0 {
      PartCmpOrder(1, x, y, z);
    }
    forall x, y ensures NumbersFirst(x, y) == -NumbersFirst(y, x) && -1 <= NumbersFirst(x, y) <= 1 {
      PartCmpOrder(-1, x, y, y);
    }
    forall x, y, z | NumbersFirst(x, y) <= 0 && NumbersFirst(y, z) <= 0 ensures NumbersFirst(x, z) <= 0 {
      PartCmpOrder(-1, x, y, z);
    }
  }
}
