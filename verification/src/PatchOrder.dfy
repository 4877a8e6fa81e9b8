/** guidedremediation/result/result.go Patch.Compare: patches ranked by effectiveness, best first. */
module PatchOrder {
  import opened Orders
  import opened Wrappers
  import opened Patches

  // `parse` and `verCmp` stand for the ecosystem's version parser and version order.

  function NamesFrom(a: seq<Update>, b: seq<Update>, i: nat): int
    requires |a| == |b|
    decreases |a| - i
  {
    if i >= |a| then 0 else Then(StrCmp(a[i].name, b[i].name), NamesFrom(a, b, i + 1))
  }

  function BumpCmp<V>(parse: string -> Option<V>, verCmp: (V, V) -> int, x: string, y: string): int {
    match (parse(x), parse(y))
    case (Some(v), Some(w)) => verCmp(v, w)
    case _ => StrCmp(x, y)
  }

  function BumpsFrom<V>(parse: string -> Option<V>, verCmp: (V, V) -> int, a: seq<Update>, b: seq<Update>, i: nat): int
    requires |a| == |b|
    decreases |a| - i
  {
    if i >= |a| then 0
    else Then(BumpCmp(parse, verCmp, a[i].versionTo, b[i].versionTo), BumpsFrom(parse, verCmp, a, b, i + 1))
  }

  /** Fixed less introduced vulnerabilities. */
  function Net(p: Patch): int {
    |p.fixed| - |p.introduced|
  }

  function PatchCmp<V>(parse: string -> Option<V>, verCmp: (V, V) -> int, a: Patch, b: Patch): int {
    var ratio := IntCmp(Net(a) * |b.updates|, Net(b) * |a.updates|);
    if ratio != 0 then -ratio
    else if |a.fixed| != |b.fixed| then -IntCmp(|a.fixed|, |b.fixed|)
    else if |a.updates| != |b.updates| then IntCmp(|a.updates|, |b.updates|)
    else Then(NamesFrom(a.updates, b.updates, 0), BumpsFrom(parse, verCmp, a.updates, b.updates, 0))
  }

  // Which targets can be ranked.

  /** No target that does not parse stands, as a string, between two that parse and are ordered the
      other way round, or tie, as versions. */
  ghost predicate Untangled<V>(parse: string -> Option<V>, verCmp: (V, V) -> int, targets: iset<string>) {
    forall x, y, r | x in targets && y in targets && r in targets ::
      parse(x).Some? && parse(y).Some? && parse(r).None? && StrCmp(y, r) < 0 && StrCmp(r, x) < 0 ==>
        verCmp(parse(x).value, parse(y).value) > 0
  }

  /** The patch updates something, to versions among `targets`. */
  predicate Updates(targets: iset<string>, p: Patch) {
    p.updates != [] && forall i :: 0 <= i < |p.updates| ==> p.updates[i].versionTo in targets
  }

  // What the ranking prefers.

  /** Vulnerabilities fixed less introduced for each update. */
  ghost function Effect(p: Patch): real
    requires p.updates != []
  {
    Net(p) as real / |p.updates| as real
  }

  lemma EffectCompares(a: Patch, b: Patch)
    requires a.updates != [] && b.updates != []
    ensures Effect(a) > Effect(b) <==> Net(a) * |b.updates| > Net(b) * |a.updates|
    ensures Effect(a) == Effect(b) <==> Net(a) * |b.updates| == Net(b) * |a.updates|
  {
    var m, n := |a.updates| as real, |b.updates| as real;
    var x, y := Effect(a), Effect(b);
    assert x * m == Net(a) as real && y * n == Net(b) as real;
    assert (Net(a) * |b.updates|) as real == (x * m) * n == x * (m * n);
    assert (Net(b) * |a.updates|) as real == (y * n) * m == y * (m * n);
    assert m * n > 0.0;
    ScaleReal(x, y, m * n);
    ScaleReal(y, x, m * n);
  }

  lemma ScaleReal(x: real, y: real, k: real)
    requires k > 0.0
    ensures x > y <==> x * k > y * k
  {
    assert (x - y) * k == x * k - y * k;
    assert x > y ==> (x - y) * k > 0.0;
    assert x < y ==> (y - x) * k > 0.0;
  }

  lemma {:induction false} NamesDecide(a: seq<Update>, b: seq<Update>, i: nat, k: nat)
    requires |a| == |b| && i <= k <= |a| && forall j :: i <= j < k ==> a[j].name == b[j].name
    ensures k < |a| && a[k].name != b[k].name ==> NamesFrom(a, b, i) == StrCmp(a[k].name, b[k].name)
    ensures k == |a| ==> NamesFrom(a, b, i) == 0
    decreases k - i
  {
    if i < k {
      StrCmpZero(a[i].name, b[i].name);
      NamesDecide(a, b, i + 1, k);
    } else if k < |a| {
      StrCmpZero(a[k].name, b[k].name);
    }
  }

  lemma {:induction false} BumpsDecide<V>(parse: string -> Option<V>, verCmp: (V, V) -> int, a: seq<Update>, b: seq<Update>, i: nat, k: nat)
    requires |a| == |b| && i <= k < |a|
    requires forall j :: i <= j < k ==> BumpCmp(parse, verCmp, a[j].versionTo, b[j].versionTo) == 0
    requires BumpCmp(parse, verCmp, a[k].versionTo, b[k].versionTo) != 0
    ensures BumpsFrom(parse, verCmp, a, b, i) == BumpCmp(parse, verCmp, a[k].versionTo, b[k].versionTo)
    decreases k - i
  {
    if i < k {
      BumpsDecide(parse, verCmp, a, b, i + 1, k);
    }
  }

  /** Of two patches with updates the one with the greater effect comes first; then the one that fixes more
      vulnerabilities; then the one with fewer updates; then the one with the smaller name where the names
      of the updates first differ, at `k`; then the one with the smaller bump where the targets first
      differ, at `k`. */
  lemma RankingPrefers<V>(parse: string -> Option<V>, verCmp: (V, V) -> int, a: Patch, b: Patch, k: nat)
    requires a.updates != [] && b.updates != []
    ensures Effect(a) > Effect(b) ==> PatchCmp(parse, verCmp, a, b) == -1
    ensures Effect(a) == Effect(b) ==>
              && (|a.fixed| > |b.fixed| ==> PatchCmp(parse, verCmp, a, b) == -1)
              && (|a.fixed| == |b.fixed| && |a.updates| < |b.updates| ==> PatchCmp(parse, verCmp, a, b) == -1)
    ensures Effect(a) == Effect(b) && |a.fixed| == |b.fixed| && |a.updates| == |b.updates| && k < |a.updates|
            && (forall j :: 0 <= j < k ==> a.updates[j].name == b.updates[j].name)
            && a.updates[k].name != b.updates[k].name ==>
              PatchCmp(parse, verCmp, a, b) == StrCmp(a.updates[k].name, b.updates[k].name)
    ensures Effect(a) == Effect(b) && |a.fixed| == |b.fixed| && |a.updates| == |b.updates| && k < |a.updates|
            && (forall j :: 0 <= j < |a.updates| ==> a.updates[j].name == b.updates[j].name)
            && (forall j :: 0 <= j < k ==> BumpCmp(parse, verCmp, a.updates[j].versionTo, b.updates[j].versionTo) == 0)
            && BumpCmp(parse, verCmp, a.updates[k].versionTo, b.updates[k].versionTo) != 0 ==>
              PatchCmp(parse, verCmp, a, b) == BumpCmp(parse, verCmp, a.updates[k].versionTo, b.updates[k].versionTo)
  {
    hide Effect, NamesFrom, BumpsFrom, BumpCmp;
    EffectCompares(a, b);
    if |a.updates| == |b.updates| && k < |a.updates| {
      if forall j :: 0 <= j < k ==> a.updates[j].name == b.updates[j].name {
        NamesDecide(a.updates, b.updates, 0, k);
        StrCmpZero(a.updates[k].name, b.updates[k].name);
      }
      if forall j :: 0 <= j < |a.updates| ==> a.updates[j].name == b.updates[j].name {
        NamesDecide(a.updates, b.updates, 0, |a.updates|);
      }
      if && (forall j :: 0 <= j < k ==> BumpCmp(parse, verCmp, a.updates[j].versionTo, b.updates[j].versionTo) == 0)
         && BumpCmp(parse, verCmp, a.updates[k].versionTo, b.updates[k].versionTo) != 0 {
        BumpsDecide(parse, verCmp, a.updates, b.updates, 0, k);
      }
    }
  }

  /** Targets that both parse are compared as versions, others as text. */
  lemma BumpVerdict<V>(parse: string -> Option<V>, verCmp: (V, V) -> int, x: string, y: string)
    ensures parse(x).Some? && parse(y).Some? ==> BumpCmp(parse, verCmp, x, y) == verCmp(parse(x).value, parse(y).value)
    ensures parse(x).None? || parse(y).None? ==> BumpCmp(parse, verCmp, x, y) == StrCmp(x, y)
  {
  }

  lemma {:induction false} NamesFlip(a: seq<Update>, b: seq<Update>, i: nat)
    requires |a| == |b|
    ensures -1 <= NamesFrom(a, b, i) <= 1 && NamesFrom(a, b, i) == -NamesFrom(b, a, i)
    decreases |a| - i
  {
    if i < |a| {
      CharCmpPreorder();
      LexFlips(CharCmp, a[i].name, b[i].name);
      NamesFlip(a, b, i + 1);
    }
  }

  lemma {:induction false} NamesTransitive(a: seq<Update>, b: seq<Update>, c: seq<Update>, i: nat)
    requires |a| == |b| == |c|
    requires NamesFrom(a, b, i) <= 0 && NamesFrom(b, c, i) <= 0
    ensures NamesFrom(a, c, i) <= 0
    ensures NamesFrom(a, c, i) == 0 ==> NamesFrom(a, b, i) == 0 && NamesFrom(b, c, i) == 0
    decreases |a| - i
  {
    if i < |a| {
      StrCmpPreorder();
      Chain(StrCmp, a[i].name, b[i].name, c[i].name);
      if StrCmp(a[i].name, b[i].name) == 0 && StrCmp(b[i].name, c[i].name) == 0 {
        NamesTransitive(a, b, c, i + 1);
      }
    }
  }

  lemma {:induction false} BumpsFlip<V(!new)>(parse: string -> Option<V>, verCmp: (V, V) -> int, a: seq<Update>, b: seq<Update>, i: nat)
    requires |a| == |b| && IsPreorder(verCmp)
    ensures -1 <= BumpsFrom(parse, verCmp, a, b, i) <= 1
    ensures BumpsFrom(parse, verCmp, a, b, i) == -BumpsFrom(parse, verCmp, b, a, i)
    decreases |a| - i
  {
    if i < |a| {
      var x, y := a[i].versionTo, b[i].versionTo;
      CharCmpPreorder();
      LexFlips(CharCmp, x, y);
      if parse(x).Some? && parse(y).Some? {
        assert verCmp(parse(x).value, parse(y).value) == -verCmp(parse(y).value, parse(x).value);
      }
      BumpsFlip(parse, verCmp, a, b, i + 1);
    }
  }

  lemma BumpTransitive<V(!new)>(parse: string -> Option<V>, verCmp: (V, V) -> int, targets: iset<string>,
                                x: string, y: string, z: string)
    requires IsPreorder(verCmp) && Untangled(parse, verCmp, targets) && x in targets && y in targets && z in targets
    requires BumpCmp(parse, verCmp, x, y) <= 0 && BumpCmp(parse, verCmp, y, z) <= 0
    ensures BumpCmp(parse, verCmp, x, z) <= 0
    ensures BumpCmp(parse, verCmp, x, z) == 0 ==> BumpCmp(parse, verCmp, x, y) == 0 && BumpCmp(parse, verCmp, y, z) == 0
  {
    StrCmpPreorder();
    Chain(StrCmp, x, y, z);
    Chain(StrCmp, z, x, y);
    Chain(StrCmp, y, z, x);
    StrCmpZero(x, y);
    StrCmpZero(y, z);
    StrCmpZero(x, z);
    assert StrCmp(x, y) == -StrCmp(y, x) && StrCmp(y, z) == -StrCmp(z, y) && StrCmp(x, z) == -StrCmp(z, x);
    var vx, vy, vz := parse(x), parse(y), parse(z);
    if vx.Some? && vy.Some? && vz.Some? {
      Chain(verCmp, vx.value, vy.value, vz.value);
    } else if vx.Some? && vy.Some? {
      assert verCmp(vx.value, vy.value) <= 0;
    } else if vy.Some? && vz.Some? {
      assert verCmp(vy.value, vz.value) <= 0;
    } else if vx.Some? && vz.Some? {
      assert verCmp(vx.value, vz.value) == -verCmp(vz.value, vx.value);
    }
  }

  lemma {:induction false} BumpsTransitive<V(!new)>(parse: string -> Option<V>, verCmp: (V, V) -> int, targets: iset<string>,
                                                    a: seq<Update>, b: seq<Update>, c: seq<Update>, i: nat)
    requires |a| == |b| == |c| && IsPreorder(verCmp) && Untangled(parse, verCmp, targets)
    requires forall j :: 0 <= j < |a| ==>
               a[j].versionTo in targets && b[j].versionTo in targets && c[j].versionTo in targets
    requires BumpsFrom(parse, verCmp, a, b, i) <= 0 && BumpsFrom(parse, verCmp, b, c, i) <= 0
    ensures BumpsFrom(parse, verCmp, a, c, i) <= 0
    decreases |a| - i
  {
    hide BumpCmp, Untangled;
    if i < |a| {
      var x, y, z := a[i].versionTo, b[i].versionTo, c[i].versionTo;
      BumpTransitive(parse, verCmp, targets, x, y, z);
      if BumpCmp(parse, verCmp, x, y) == 0 && BumpCmp(parse, verCmp, y, z) == 0 {
        BumpsTransitive(parse, verCmp, targets, a, b, c, i + 1);
      }
    }
  }

  /** Cross-multiplied comparison of ratios with positive denominators is transitive. */
  lemma RatiosTransitive(p: int, m: int, q: int, n: int, r: int, k: int)
    requires m > 0 && n > 0 && k > 0
    requires p * n >= q * m && q * k >= r * n
    ensures p * k >= r * m
    ensures p * k == r * m ==> p * n == q * m && q * k == r * n
  {
    Scale(q * m, p * n, k);
    Scale(r * n, q * k, m);
    assert (p * n) * k == (p * k) * n && (q * m) * k == (q * k) * m && (r * n) * m == (r * m) * n;
    Scale(p * k, r * m, n);
  }

  lemma Scale(x: int, y: int, k: int)
    requires k > 0
    ensures (x < y <==> x * k < y * k) && (x <= y <==> x * k <= y * k)
  {
    assert (y - x) * k == y * k - x * k;
    assert y - x > 0 ==> (y - x) * k > 0;
    assert y - x < 0 ==> (y - x) * k < 0;
  }

  lemma RankingFlips<V(!new)>(parse: string -> Option<V>, verCmp: (V, V) -> int, a: Patch, b: Patch)
    requires IsPreorder(verCmp)
    ensures -1 <= PatchCmp(parse, verCmp, a, b) <= 1
    ensures PatchCmp(parse, verCmp, a, b) == -PatchCmp(parse, verCmp, b, a)
  {
    if |a.updates| == |b.updates| {
      NamesFlip(a.updates, b.updates, 0);
      BumpsFlip(parse, verCmp, a.updates, b.updates, 0);
    }
  }

  lemma RankingTransitive<V(!new)>(parse: string -> Option<V>, verCmp: (V, V) -> int, targets: iset<string>,
                                   a: Patch, b: Patch, c: Patch)
    requires IsPreorder(verCmp) && Untangled(parse, verCmp, targets)
    requires Updates(targets, a) && Updates(targets, b) && Updates(targets, c)
    requires PatchCmp(parse, verCmp, a, b) <= 0 && PatchCmp(parse, verCmp, b, c) <= 0
    ensures PatchCmp(parse, verCmp, a, c) <= 0
  {
    hide NamesFrom, BumpsFrom, Untangled;
    RatiosTransitive(Net(a), |a.updates|, Net(b), |b.updates|, Net(c), |c.updates|);
    if |a.updates| == |b.updates| == |c.updates| {
      if NamesFrom(a.updates, b.updates, 0) <= 0 && NamesFrom(b.updates, c.updates, 0) <= 0 {
        NamesTransitive(a.updates, b.updates, c.updates, 0);
        if BumpsFrom(parse, verCmp, a.updates, b.updates, 0) <= 0 && BumpsFrom(parse, verCmp, b.updates, c.updates, 0) <= 0 {
          BumpsTransitive(parse, verCmp, targets, a.updates, b.updates, c.updates, 0);
        }
      }
    }
  }

  ghost predicate Transitive<V>(parse: string -> Option<V>, verCmp: (V, V) -> int, patches: iset<Patch>) {
    forall a, b, c | a in patches && b in patches && c in patches ::
      PatchCmp(parse, verCmp, a, b) <= 0 && PatchCmp(parse, verCmp, b, c) <= 0 ==> PatchCmp(parse, verCmp, a, c) <= 0
  }

  /** Patches that update something to versions that all parse are ranked by a total preorder; if some
      targets do not parse, the ranking is one exactly when the targets are not tangled. */
  lemma RankingIsPreorderIff<V(!new)>(parse: string -> Option<V>, verCmp: (V, V) -> int, targets: iset<string>)
    requires IsPreorder(verCmp)
    ensures Transitive(parse, verCmp, iset p | Updates(targets, p)) <==> Untangled(parse, verCmp, targets)
    ensures (forall x :: x in targets ==> parse(x).Some?) ==> Untangled(parse, verCmp, targets)
  {
    var patches := iset p | Updates(targets, p);
    if Untangled(parse, verCmp, targets) {
      forall a, b, c | a in patches && b in patches && c in patches
                       && PatchCmp(parse, verCmp, a, b) <= 0 && PatchCmp(parse, verCmp, b, c) <= 0
        ensures PatchCmp(parse, verCmp, a, c) <= 0
      {
        RankingTransitive(parse, verCmp, targets, a, b, c);
      }
    } else {
      var x, y, r :| x in targets && y in targets && r in targets
        && parse(x).Some? && parse(y).Some? && parse(r).None? && StrCmp(y, r) < 0 && StrCmp(r, x) < 0
        && verCmp(parse(x).value, parse(y).value) <= 0;
      TangledTargets(parse, verCmp, x, y, r);
      assert To(x) in patches && To(y) in patches && To(r) in patches;
    }
  }

  function To(target: string): Patch {
    Patch([Update("p", "0", target)], [], [])
  }

  /** x does not rank after y, nor y after r; but r ranks before x. */
  lemma TangledTargets<V(!new)>(parse: string -> Option<V>, verCmp: (V, V) -> int, x: string, y: string, r: string)
    requires IsPreorder(verCmp) && parse(x).Some? && parse(y).Some? && parse(r).None?
    requires StrCmp(y, r) < 0 && StrCmp(r, x) < 0 && verCmp(parse(x).value, parse(y).value) <= 0
    ensures PatchCmp(parse, verCmp, To(x), To(y)) <= 0 && PatchCmp(parse, verCmp, To(y), To(r)) <= 0
    ensures PatchCmp(parse, verCmp, To(x), To(r)) > 0
  {
    OneBump(parse, verCmp, x, y);
    OneBump(parse, verCmp, y, r);
    OneBump(parse, verCmp, x, r);
    CharCmpPreorder();
    LexFlips(CharCmp, x, r);
  }

  /** Patches with one update of the same package are ranked by the update's target. */
  lemma OneBump<V>(parse: string -> Option<V>, verCmp: (V, V) -> int, x: string, y: string)
    ensures PatchCmp(parse, verCmp, To(x), To(y)) == BumpCmp(parse, verCmp, x, y)
  {
    var a, b := To(x).updates, To(y).updates;
    StrCmpZero("p", "p");
    assert NamesFrom(a, b, 1) == 0 && NamesFrom(a, b, 0) == 0;
    assert BumpsFrom(parse, verCmp, a, b, 1) == 0;
    assert BumpsFrom(parse, verCmp, a, b, 0) == BumpCmp(parse, verCmp, x, y);
  }

  // Patches without updates.

  /** None fixes as many vulnerabilities as it introduces, and those that fix more than they introduce
      fix more than those that fix less. */
  ghost predicate Separated(empties: iset<Patch>) {
    && (forall e :: e in empties ==> Net(e) != 0)
    && forall e, f | e in empties && f in empties :: Net(f) < 0 < Net(e) ==> |f.fixed| < |e.fixed|
  }

  ghost function Among(targets: iset<string>, empties: iset<Patch>): iset<Patch> {
    iset p | p in empties || Updates(targets, p)
  }

  /** The whole condition: with patches without updates among the others, the ranking is transitive
      exactly if the targets are not tangled and the patches without updates are separated. */
  lemma EmptyPatchesIff<V(!new)>(parse: string -> Option<V>, verCmp: (V, V) -> int, targets: iset<string>,
                                 x: string, empties: iset<Patch>)
    requires IsPreorder(verCmp) && x in targets
    requires forall e :: e in empties ==> e.updates == []
    ensures Transitive(parse, verCmp, Among(targets, empties)) <==> Untangled(parse, verCmp, targets) && Separated(empties)
  {
    hide PatchCmp, Untangled;
    var patches := Among(targets, empties);
    RankingIsPreorderIff(parse, verCmp, targets);
    if !Untangled(parse, verCmp, targets) {
      assert forall p :: p in (iset p | Updates(targets, p)) ==> p in patches;
    } else if Separated(empties) {
      forall a, b, c | a in patches && b in patches && c in patches
                       && PatchCmp(parse, verCmp, a, b) <= 0 && PatchCmp(parse, verCmp, b, c) <= 0
        ensures PatchCmp(parse, verCmp, a, c) <= 0
      {
        RankedAmong(parse, verCmp, targets, empties, a, b, c);
      }
    } else {
      var u := Update("p", "0", x);
      if e :| e in empties && Net(e) == 0 {
        var one, harmful := Patch([u], [], []), Patch([u], e.fixed + ["v"], e.introduced + ["v", "v"]);
        EmptyInCircle(parse, verCmp, u, e);
        assert one in patches && harmful in patches && e in patches;
        RankingFlips(parse, verCmp, e, one);
      } else {
        var e, f :| e in empties && f in empties && Net(f) < 0 < Net(e) && |f.fixed| >= |e.fixed|;
        var one := Patch([u], [], []);
        EmptyIsExtreme(parse, verCmp, e, one);
        EmptyIsExtreme(parse, verCmp, f, one);
        EmptiesByFixed(parse, verCmp, f, e);
        assert one in patches && e in patches && f in patches;
      }
    }
  }

  /** A patch that fixes as many as it introduces, without updates, closes a circle of three. */
  lemma EmptyInCircle<V>(parse: string -> Option<V>, verCmp: (V, V) -> int, u: Update, e: Patch)
    requires e.updates == [] && Net(e) == 0
    ensures var one, harmful := Patch([u], [], []), Patch([u], e.fixed + ["v"], e.introduced + ["v", "v"]);
            && PatchCmp(parse, verCmp, one, harmful) == -1
            && PatchCmp(parse, verCmp, harmful, e) == -1
            && PatchCmp(parse, verCmp, e, one) == -1
  {
  }

  /** Otherwise it ranks before all patches with updates, or after all of them. */
  lemma EmptyIsExtreme<V>(parse: string -> Option<V>, verCmp: (V, V) -> int, e: Patch, p: Patch)
    requires e.updates == [] && Net(e) != 0 && p.updates != []
    ensures PatchCmp(parse, verCmp, e, p) == -IntCmp(Net(e), 0)
    ensures PatchCmp(parse, verCmp, p, e) == IntCmp(Net(e), 0)
  {
    var n := |p.updates|;
    assert Net(p) * |e.updates| == 0;
    Scale(0, Net(e), n);
    Scale(Net(e), 0, n);
  }

  /** Among each other, patches without updates are ranked by how many vulnerabilities they fix. */
  lemma EmptiesByFixed<V>(parse: string -> Option<V>, verCmp: (V, V) -> int, e: Patch, f: Patch)
    requires e.updates == [] && f.updates == []
    ensures PatchCmp(parse, verCmp, e, f) == -IntCmp(|e.fixed|, |f.fixed|)
  {
  }

  lemma RankedAmong<V(!new)>(parse: string -> Option<V>, verCmp: (V, V) -> int, targets: iset<string>, empties: iset<Patch>,
                             a: Patch, b: Patch, c: Patch)
    requires IsPreorder(verCmp) && Untangled(parse, verCmp, targets) && Separated(empties)
    requires forall e :: e in empties ==> e.updates == []
    requires a in Among(targets, empties) && b in Among(targets, empties) && c in Among(targets, empties)
    requires PatchCmp(parse, verCmp, a, b) <= 0 && PatchCmp(parse, verCmp, b, c) <= 0
    ensures PatchCmp(parse, verCmp, a, c) <= 0
  {
    hide PatchCmp, Untangled;
    if a.updates != [] && b.updates != [] && c.updates != [] {
      RankingTransitive(parse, verCmp, targets, a, b, c);
    } else {
      EmptyOrNot(parse, verCmp, empties, a, b);
      EmptyOrNot(parse, verCmp, empties, b, c);
      EmptyOrNot(parse, verCmp, empties, a, c);
    }
  }

  /** How two patches are ranked of which at least one has no updates. */
  lemma EmptyOrNot<V>(parse: string -> Option<V>, verCmp: (V, V) -> int, empties: iset<Patch>, p: Patch, q: Patch)
    requires Separated(empties)
    requires p.updates == [] ==> p in empties
    requires q.updates == [] ==> q in empties
    ensures p.updates == [] && q.updates == [] ==> PatchCmp(parse, verCmp, p, q) == -IntCmp(|p.fixed|, |q.fixed|)
    ensures p.updates == [] && q.updates != [] ==> PatchCmp(parse, verCmp, p, q) == -IntCmp(Net(p), 0)
    ensures p.updates != [] && q.updates == [] ==> PatchCmp(parse, verCmp, p, q) == IntCmp(Net(q), 0)
  {
    if p.updates == [] && q.updates == [] {
      EmptiesByFixed(parse, verCmp, p, q);
    } else if p.updates == [] {
      EmptyIsExtreme(parse, verCmp, p, q);
    } else if q.updates == [] {
      EmptyIsExtreme(parse, verCmp, q, p);
    }
  }
}
