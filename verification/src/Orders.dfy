/** Three-way comparators, and the two ways the version comparators lift one to sequences:
    a proper prefix is smaller (Lex), or the shorter side is padded (PadLex). */
module Orders {

  /** `cmp` answers -1, 0 or +1, flips when its arguments are swapped, and is transitive. */
  ghost predicate IsPreorder<T(!new)>(cmp: (T, T) -> int) {
    && (forall x, y :: -1 <= cmp(x, y) <= 1)
    && (forall x, y :: cmp(x, y) == -cmp(y, x))
    && (forall x, y, z :: cmp(x, y) <= 0 && cmp(y, z) <= 0 ==> cmp(x, z) <= 0)
  }

  function IntCmp(a: int, b: int): int {
    if a < b then -1 else if a > b then 1 else 0
  }

  function CharCmp(a: char, b: char): int {
    IntCmp(a as int, b as int)
  }

  /** The first non-zero verdict of two, as in a chain of early returns. */
  function Then(first: int, second: int): int {
    if first != 0 then first else second
  }

  function Lex<T>(cmp: (T, T) -> int, a: seq<T>, b: seq<T>): int {
    if a == [] then (if b == [] then 0 else -1)
    else if b == [] then 1
    else Then(cmp(a[0], b[0]), Lex(cmp, a[1..], b[1..]))
  }

  function Head<T>(pad: T, a: seq<T>): T {
    if a == [] then pad else a[0]
  }

  function Tail<T>(a: seq<T>): seq<T> {
    if a == [] then [] else a[1..]
  }

  /** Compares `a` and `b` as if both went on with `pad` for ever. */
  function PadLex<T>(cmp: (T, T) -> int, pad: T, a: seq<T>, b: seq<T>): int
    decreases |a| + |b|
  {
    if a == [] && b == [] then 0
    else Then(cmp(Head(pad, a), Head(pad, b)), PadLex(cmp, pad, Tail(a), Tail(b)))
  }

  /** Byte-wise string comparison, as Go's strings.Compare. */
  function StrCmp(a: string, b: string): int {
    Lex(CharCmp, a, b)
  }

  /** A preorder is transitive in its strict part too. */
  lemma Chain<T(!new)>(cmp: (T, T) -> int, x: T, y: T, z: T)
    requires IsPreorder(cmp)
    ensures cmp(x, x) == 0
    ensures cmp(x, y) <= 0 && cmp(y, z) <= 0 ==> cmp(x, z) <= 0
    ensures cmp(x, y) <= 0 && cmp(y, z) < 0 ==> cmp(x, z) < 0
    ensures cmp(x, y) < 0 && cmp(y, z) <= 0 ==> cmp(x, z) < 0
    ensures cmp(x, y) == 0 ==> cmp(x, z) == cmp(y, z) && cmp(z, x) == cmp(z, y)
  {
    assert cmp(x, x) == -cmp(x, x);
    assert cmp(z, x) == -cmp(x, z);
    assert cmp(y, x) == -cmp(x, y);
    assert cmp(z, y) == -cmp(y, z);
  }

  lemma IntCmpPreorder()
    ensures IsPreorder(IntCmp)
  {
  }

  lemma CharCmpPreorder()
    ensures IsPreorder(CharCmp)
  {
  }

  lemma LexCons<T(!new)>(cmp: (T, T) -> int, x: T, a: seq<T>, y: T, b: seq<T>)
    ensures Lex(cmp, [x] + a, [y] + b) == Then(cmp(x, y), Lex(cmp, a, b))
  {
    assert ([x] + a)[1..] == a && ([y] + b)[1..] == b;
  }

  /** The first place where the sequences differ decides; if there is none, the shorter one is smaller. */
  lemma {:induction false} LexDecides<T>(cmp: (T, T) -> int, a: seq<T>, b: seq<T>, k: nat)
    requires k <= |a| && k <= |b| && forall i :: 0 <= i < k ==> cmp(a[i], b[i]) == 0
    ensures k < |a| && k < |b| && cmp(a[k], b[k]) != 0 ==> Lex(cmp, a, b) == cmp(a[k], b[k])
    ensures k == |a| || k == |b| ==> Lex(cmp, a, b) == IntCmp(|a|, |b|)
  {
    if k > 0 {
      LexDecides(cmp, a[1..], b[1..], k - 1);
    }
  }

  /** The element at a place of a sequence that goes on with `pad` for ever. */
  function At<T>(pad: T, a: seq<T>, i: nat): T {
    if i < |a| then a[i] else pad
  }

  lemma {:induction false} PadLexDecides<T>(cmp: (T, T) -> int, pad: T, a: seq<T>, b: seq<T>, k: nat)
    requires cmp(pad, pad) == 0 && forall i: nat :: i < k ==> cmp(At(pad, a, i), At(pad, b, i)) == 0
    ensures cmp(At(pad, a, k), At(pad, b, k)) != 0 ==> PadLex(cmp, pad, a, b) == cmp(At(pad, a, k), At(pad, b, k))
    ensures k >= |a| && k >= |b| ==> PadLex(cmp, pad, a, b) == 0
  {
    if k > 0 && (a != [] || b != []) {
      assert At(pad, a, 0) == Head(pad, a) && At(pad, b, 0) == Head(pad, b);
      assert forall i: nat :: At(pad, Tail(a), i) == At(pad, a, i + 1) && At(pad, Tail(b), i) == At(pad, b, i + 1);
      PadLexDecides(cmp, pad, Tail(a), Tail(b), k - 1);
    }
  }

  lemma {:induction false} LexFlips<T(!new)>(cmp: (T, T) -> int, a: seq<T>, b: seq<T>)
    requires IsPreorder(cmp)
    ensures -1 <= Lex(cmp, a, b) <= 1
    ensures Lex(cmp, a, b) == -Lex(cmp, b, a)
  {
    if a != [] && b != [] {
      assert cmp(a[0], b[0]) == -cmp(b[0], a[0]);
      LexFlips(cmp, a[1..], b[1..]);
    }
  }

  lemma {:induction false} LexTransitive<T(!new)>(cmp: (T, T) -> int, a: seq<T>, b: seq<T>, c: seq<T>)
    requires IsPreorder(cmp)
    requires Lex(cmp, a, b) <= 0 && Lex(cmp, b, c) <= 0
    ensures Lex(cmp, a, c) <= 0
  {
    if a != [] && b != [] && c != [] {
      Chain(cmp, a[0], b[0], c[0]);
      if cmp(a[0], b[0]) == 0 && cmp(b[0], c[0]) == 0 {
        LexTransitive(cmp, a[1..], b[1..], c[1..]);
      }
    }
  }

  lemma LexPreorder<T(!new)>(cmp: (T, T) -> int)
    requires IsPreorder(cmp)
    ensures IsPreorder((a, b) => Lex(cmp, a, b))
  {
    forall a, b ensures -1 <= Lex(cmp, a, b) <= 1 && Lex(cmp, a, b) == -Lex(cmp, b, a) {
      LexFlips(cmp, a, b);
    }
    forall a, b, c | Lex(cmp, a, b) <= 0 && Lex(cmp, b, c) <= 0 ensures Lex(cmp, a, c) <= 0 {
      LexTransitive(cmp, a, b, c);
    }
  }

  lemma {:induction false} PadLexFlips<T(!new)>(cmp: (T, T) -> int, pad: T, a: seq<T>, b: seq<T>)
    requires IsPreorder(cmp)
    ensures -1 <= PadLex(cmp, pad, a, b) <= 1
    ensures PadLex(cmp, pad, a, b) == -PadLex(cmp, pad, b, a)
    decreases |a| + |b|
  {
    if a != [] || b != [] {
      assert cmp(Head(pad, a), Head(pad, b)) == -cmp(Head(pad, b), Head(pad, a));
      PadLexFlips(cmp, pad, Tail(a), Tail(b));
    }
  }

  /** One more padded step never changes the verdict. */
  lemma PadLexStep<T(!new)>(cmp: (T, T) -> int, pad: T, a: seq<T>, b: seq<T>)
    requires IsPreorder(cmp)
    ensures PadLex(cmp, pad, a, b)
         == Then(cmp(Head(pad, a), Head(pad, b)), PadLex(cmp, pad, Tail(a), Tail(b)))
  {
    Chain(cmp, pad, pad, pad);
  }

  lemma {:induction false} PadLexTransitive<T(!new)>(cmp: (T, T) -> int, pad: T, a: seq<T>, b: seq<T>, c: seq<T>)
    requires IsPreorder(cmp)
    requires PadLex(cmp, pad, a, b) <= 0 && PadLex(cmp, pad, b, c) <= 0
    ensures PadLex(cmp, pad, a, c) <= 0
    decreases |a| + |b| + |c|
  {
    if a != [] || b != [] || c != [] {
      PadLexStep(cmp, pad, a, b);
      PadLexStep(cmp, pad, b, c);
      PadLexStep(cmp, pad, a, c);
      Chain(cmp, Head(pad, a), Head(pad, b), Head(pad, c));
      if cmp(Head(pad, a), Head(pad, b)) == 0 && cmp(Head(pad, b), Head(pad, c)) == 0 {
        PadLexTransitive(cmp, pad, Tail(a), Tail(b), Tail(c));
      }
    }
  }

  lemma PadLexPreorder<T(!new)>(cmp: (T, T) -> int, pad: T)
    requires IsPreorder(cmp)
    ensures IsPreorder((a, b) => PadLex(cmp, pad, a, b))
  {
    forall a, b ensures -1 <= PadLex(cmp, pad, a, b) <= 1 && PadLex(cmp, pad, a, b) == -PadLex(cmp, pad, b, a) {
      PadLexFlips(cmp, pad, a, b);
    }
    forall a, b, c | PadLex(cmp, pad, a, b) <= 0 && PadLex(cmp, pad, b, c) <= 0
      ensures PadLex(cmp, pad, a, c) <= 0
    {
      PadLexTransitive(cmp, pad, a, b, c);
    }
  }

  lemma StrCmpPreorder()
    ensures IsPreorder(StrCmp)
  {
    CharCmpPreorder();
    LexPreorder(CharCmp);
    forall a, b ensures StrCmp(a, b) == ((x, y) => Lex(CharCmp, x, y))(a, b) {}
  }

  /** String comparison answers 0 only for equal strings. */
  lemma {:induction false} StrCmpZero(a: string, b: string)
    ensures StrCmp(a, b) == 0 <==> a == b
  {
    if a != [] && b != [] {
      StrCmpZero(a[1..], b[1..]);
      if StrCmp(a, b) == 0 {
        assert a == [a[0]] + a[1..] == b;
      }
    }
  }

  /** Comparing under one preorder and then, on a tie, under another is a preorder. */
  lemma ThenPreorder<T(!new)>(first: (T, T) -> int, second: (T, T) -> int, both: (T, T) -> int)
    requires IsPreorder(first) && IsPreorder(second)
    requires forall x, y :: both(x, y) == Then(first(x, y), second(x, y))
    ensures IsPreorder(both)
  {
    forall x, y ensures -1 <= both(x, y) <= 1 && both(x, y) == -both(y, x) {
      assert first(x, y) == -first(y, x) && second(x, y) == -second(y, x);
    }
    forall x, y, z | both(x, y) <= 0 && both(y, z) <= 0 ensures both(x, z) <= 0 {
      Chain(first, x, y, z);
      Chain(second, x, y, z);
    }
  }

  /** Comparing keys under a preorder is a preorder. */
  lemma KeyPreorder<T(!new), K(!new)>(key: T -> K, cmp: (K, K) -> int, byKey: (T, T) -> int)
    requires IsPreorder(cmp)
    requires forall x, y :: byKey(x, y) == cmp(key(x), key(y))
    ensures IsPreorder(byKey)
  {
  }
}
