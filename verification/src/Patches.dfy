/** guidedremediation: which patches are chosen, and how patches are ranked. */
module Patches {
  datatype Update = Update(name: string, versionFrom: string, versionTo: string)

  /** `fixed` and `introduced` are lists of vulnerability identifiers. */
  datatype Patch = Patch(updates: seq<Update>, fixed: seq<string>, introduced: seq<string>)

  datatype Package = Package(name: string, version: string)

  datatype VulnKey = VulnKey(id: string, name: string, version: string)

  // guidedremediation/guidedremediation.go choosePatches.

  function Changes(p: Patch): set<Package> {
    set u | u in p.updates :: Package(u.name, u.versionFrom)
  }

  /** In lockfile mode a vulnerability is told apart by the patch's first package, too. */
  function Key(p: Patch, id: string, lockfileVulns: bool): VulnKey
    requires lockfileVulns ==> p.updates != []
  {
    if lockfileVulns then VulnKey(id, p.updates[0].name, p.updates[0].versionFrom) else VulnKey(id, "", "")
  }

  /** The source panics on a patch without updates that fixes something in lockfile mode. */
  predicate Keyed(p: Patch, lockfileVulns: bool) {
    lockfileVulns && p.fixed != [] ==> p.updates != []
  }

  function Fixes(p: Patch, lockfileVulns: bool): set<VulnKey>
    requires Keyed(p, lockfileVulns)
  {
    set id | id in p.fixed :: Key(p, id, lockfileVulns)
  }

  predicate Compatible(p: Patch, q: Patch, lockfileVulns: bool)
    requires Keyed(p, lockfileVulns) && Keyed(q, lockfileVulns)
  {
    Changes(p) !! Changes(q) && Fixes(p, lockfileVulns) !! Fixes(q, lockfileVulns)
  }

  /** Two patches are compatible if they change no package from the same version, and fix no vulnerability
      of the same identifier - in lockfile mode, unless they first update different packages or versions. */
  lemma CompatibleIff(p: Patch, q: Patch, lockfileVulns: bool)
    requires Keyed(p, lockfileVulns) && Keyed(q, lockfileVulns)
    ensures Compatible(p, q, lockfileVulns) <==>
              && (forall u, v :: u in p.updates && v in q.updates ==> u.name != v.name || u.versionFrom != v.versionFrom)
              && forall id :: id in p.fixed && id in q.fixed ==>
                   lockfileVulns && (p.updates[0].name != q.updates[0].name
                                     || p.updates[0].versionFrom != q.updates[0].versionFrom)
  {
    if Compatible(p, q, lockfileVulns) {
      forall u, v | u in p.updates && v in q.updates ensures u.name != v.name || u.versionFrom != v.versionFrom {
        assert Package(u.name, u.versionFrom) in Changes(p) && Package(v.name, v.versionFrom) in Changes(q);
      }
      forall id | id in p.fixed && id in q.fixed ensures Key(p, id, lockfileVulns) != Key(q, id, lockfileVulns) {
        assert Key(p, id, lockfileVulns) in Fixes(p, lockfileVulns);
      }
    }
  }

  datatype Options = Options(maxUpgrades: int, noIntroduce: bool, lockfileVulns: bool)

  predicate AllKeyed(all: seq<Patch>, opts: Options) {
    forall i :: 0 <= i < |all| ==> Keyed(all[i], opts.lockfileVulns)
  }

  /** How many of the indices are below `i`. */
  function CountBelow(chosen: seq<nat>, i: nat): nat {
    if chosen == [] then 0
    else CountBelow(chosen[..|chosen| - 1], i) + (if chosen[|chosen| - 1] < i then 1 else 0)
  }

  /** The patch introduces nothing where that is forbidden and fits all earlier chosen ones. */
  ghost predicate Admissible(all: seq<Patch>, opts: Options, chosen: seq<nat>, i: nat)
    requires AllKeyed(all, opts) && i < |all|
  {
    && (opts.noIntroduce ==> all[i].introduced == [])
    && forall c :: c in chosen && c < i ==> c < |all| && Compatible(all[c], all[i], opts.lockfileVulns)
  }

  /** A patch is chosen exactly if it is admissible and the limit is not used up by earlier ones. */
  ghost predicate Greedy(all: seq<Patch>, opts: Options, chosen: seq<nat>, upTo: nat)
    requires AllKeyed(all, opts) && upTo <= |all|
  {
    && (forall j :: 0 <= j < |chosen| ==> chosen[j] < upTo)
    && (forall j, k :: 0 <= j < k < |chosen| ==> chosen[j] < chosen[k])
    && forall i :: 0 <= i < upTo ==>
         (i in chosen <==> Admissible(all, opts, chosen, i)
                           && (opts.maxUpgrades <= 0 || CountBelow(chosen, i) < opts.maxUpgrades))
  }

  predicate InRange(all: seq<Patch>, chosen: seq<nat>) {
    forall j :: 0 <= j < |chosen| ==> chosen[j] < |all|
  }

  function Pick(all: seq<Patch>, chosen: seq<nat>): seq<Patch>
    requires InRange(all, chosen)
  {
    seq(|chosen|, j requires 0 <= j < |chosen| => all[chosen[j]])
  }

  ghost predicate Tracks(all: seq<Patch>, opts: Options, chosen: seq<nat>, pkgChanges: set<Package>, fixedVulns: set<VulnKey>)
    requires AllKeyed(all, opts)
  {
    && (forall p :: p in pkgChanges <==> exists c :: c in chosen && c < |all| && p in Changes(all[c]))
    && (forall v :: v in fixedVulns <==> exists c :: c in chosen && c < |all| && v in Fixes(all[c], opts.lockfileVulns))
  }

  method ChoosePatches(all: seq<Patch>, opts: Options) returns (patches: seq<Patch>)
    requires AllKeyed(all, opts)
    ensures exists chosen :: Greedy(all, opts, chosen, |all|) && InRange(all, chosen) && patches == Pick(all, chosen)
  {
    hide Greedy, Tracks, Admissible;
    patches := [];
    ghost var chosen: seq<nat> := [];
    Start(all, opts);
    var pkgChanges: set<Package>, fixedVulns: set<VulnKey> := {}, {};
    var maxUpgrades := opts.maxUpgrades;
    for i := 0 to |all|
      invariant Greedy(all, opts, chosen, i) && forall j :: 0 <= j < |chosen| ==> chosen[j] < i
      invariant patches == Pick(all, chosen)
      invariant Tracks(all, opts, chosen, pkgChanges, fixedVulns)
      invariant maxUpgrades == opts.maxUpgrades - |chosen| && (opts.maxUpgrades > 0 ==> maxUpgrades > 0)
    {
      var patch := all[i];
      AllBelow(chosen, i);
      if exists u | u in patch.updates :: Package(u.name, u.versionFrom) in pkgChanges {
        ghost var u :| u in patch.updates && Package(u.name, u.versionFrom) in pkgChanges;
        assert Package(u.name, u.versionFrom) in Changes(patch) * pkgChanges;
        ConflictSkips(all, opts, chosen, i, pkgChanges, fixedVulns);
        continue;
      }
      if exists id | id in patch.fixed :: Key(patch, id, opts.lockfileVulns) in fixedVulns {
        ghost var id :| id in patch.fixed && Key(patch, id, opts.lockfileVulns) in fixedVulns;
        assert Key(patch, id, opts.lockfileVulns) in Fixes(patch, opts.lockfileVulns) * fixedVulns;
        ConflictSkips(all, opts, chosen, i, pkgChanges, fixedVulns);
        continue;
      }
      if opts.noIntroduce && |patch.introduced| > 0 {
        Skip(all, opts, chosen, i);
        continue;
      }
      Fits(all, opts, chosen, i, pkgChanges, fixedVulns);
      Extend(all, opts, chosen, i);
      TracksMore(all, opts, chosen, i, pkgChanges, fixedVulns);
      patches := patches + [patch];
      chosen := chosen + [i];
      pkgChanges := pkgChanges + Changes(patch);
      fixedVulns := fixedVulns + Fixes(patch, opts.lockfileVulns);
      maxUpgrades := maxUpgrades - 1;
      if maxUpgrades == 0 {
        UsedUp(all, opts, chosen, i + 1);
        break;
      }
    }
  }

  lemma {:induction false} AllBelow(chosen: seq<nat>, i: nat)
    requires forall j :: 0 <= j < |chosen| ==> chosen[j] < i
    ensures CountBelow(chosen, i) == |chosen|
  {
    if chosen != [] {
      AllBelow(chosen[..|chosen| - 1], i);
    }
  }

  lemma Start(all: seq<Patch>, opts: Options)
    requires AllKeyed(all, opts)
    ensures Greedy(all, opts, [], 0) && Tracks(all, opts, [], {}, {})
  {
  }

  lemma Skip(all: seq<Patch>, opts: Options, chosen: seq<nat>, i: nat)
    requires AllKeyed(all, opts) && i < |all| && Greedy(all, opts, chosen, i)
    requires !Admissible(all, opts, chosen, i) || (opts.noIntroduce && all[i].introduced != [])
    ensures Greedy(all, opts, chosen, i + 1)
  {
  }

  /** A patch that shares a change or a fix with what has been chosen is not admissible. */
  lemma ConflictSkips(all: seq<Patch>, opts: Options, chosen: seq<nat>, i: nat, pkgChanges: set<Package>, fixedVulns: set<VulnKey>)
    requires AllKeyed(all, opts) && i < |all| && Greedy(all, opts, chosen, i)
    requires Tracks(all, opts, chosen, pkgChanges, fixedVulns)
    requires Changes(all[i]) * pkgChanges != {} || Fixes(all[i], opts.lockfileVulns) * fixedVulns != {}
    ensures Greedy(all, opts, chosen, i + 1)
  {
    var c: nat;
    if Changes(all[i]) * pkgChanges != {} {
      var p :| p in Changes(all[i]) * pkgChanges;
      c :| c in chosen && c < |all| && p in Changes(all[c]);
    } else {
      var v :| v in Fixes(all[i], opts.lockfileVulns) * fixedVulns;
      c :| c in chosen && c < |all| && v in Fixes(all[c], opts.lockfileVulns);
    }
    assert !Compatible(all[c], all[i], opts.lockfileVulns);
    Skip(all, opts, chosen, i);
  }

  lemma Fits(all: seq<Patch>, opts: Options, chosen: seq<nat>, i: nat, pkgChanges: set<Package>, fixedVulns: set<VulnKey>)
    requires AllKeyed(all, opts) && i < |all| && Greedy(all, opts, chosen, i)
    requires Tracks(all, opts, chosen, pkgChanges, fixedVulns)
    requires Changes(all[i]) !! pkgChanges && Fixes(all[i], opts.lockfileVulns) !! fixedVulns
    requires opts.noIntroduce ==> all[i].introduced == []
    ensures Admissible(all, opts, chosen, i)
  {
  }

  lemma {:induction false} CountSame(chosen: seq<nat>, i: nat, k: nat)
    requires k <= i
    ensures CountBelow(chosen + [i], k) == CountBelow(chosen, k)
  {
    assert (chosen + [i])[..|chosen|] == chosen;
  }

  lemma Extend(all: seq<Patch>, opts: Options, chosen: seq<nat>, i: nat)
    requires AllKeyed(all, opts) && i < |all| && Greedy(all, opts, chosen, i) && Admissible(all, opts, chosen, i)
    requires opts.maxUpgrades <= 0 || CountBelow(chosen, i) < opts.maxUpgrades
    ensures Greedy(all, opts, chosen + [i], i + 1)
  {
    var more := chosen + [i];
    forall k | 0 <= k < i + 1
      ensures k in more <==> Admissible(all, opts, more, k)
                             && (opts.maxUpgrades <= 0 || CountBelow(more, k) < opts.maxUpgrades)
    {
      CountSame(chosen, i, k);
      assert forall c :: c < k ==> (c in more <==> c in chosen);
      assert Admissible(all, opts, more, k) <==> Admissible(all, opts, chosen, k);
    }
  }

  lemma TracksMore(all: seq<Patch>, opts: Options, chosen: seq<nat>, i: nat, pkgChanges: set<Package>, fixedVulns: set<VulnKey>)
    requires AllKeyed(all, opts) && i < |all| && Tracks(all, opts, chosen, pkgChanges, fixedVulns)
    ensures Tracks(all, opts, chosen + [i], pkgChanges + Changes(all[i]), fixedVulns + Fixes(all[i], opts.lockfileVulns))
  {
    var more := chosen + [i];
    assert i in more && forall c :: c in chosen ==> c in more;
    assert forall c :: c in more ==> c in chosen || c == i;
  }

  lemma UsedUp(all: seq<Patch>, opts: Options, chosen: seq<nat>, n: nat)
    requires AllKeyed(all, opts) && n <= |all| && Greedy(all, opts, chosen, n) && |chosen| == opts.maxUpgrades > 0
    ensures Greedy(all, opts, chosen, |all|)
  {
    forall i | n <= i < |all| ensures i !in chosen && CountBelow(chosen, i) == |chosen| {
      AllBelow(chosen, i);
    }
  }

  /** Chosen patches fit each other pairwise, obey `noIntroduce` and the limit; a patch that is not
      chosen introduces something, conflicts with an earlier chosen one, or comes after the limit. */
  lemma ChosenFit(all: seq<Patch>, opts: Options, chosen: seq<nat>)
    requires AllKeyed(all, opts) && Greedy(all, opts, chosen, |all|)
    ensures forall j, k :: 0 <= j < k < |chosen| ==>
              chosen[j] < chosen[k] && Compatible(all[chosen[j]], all[chosen[k]], opts.lockfileVulns)
    ensures opts.noIntroduce ==> forall j :: 0 <= j < |chosen| ==> all[chosen[j]].introduced == []
    ensures opts.maxUpgrades > 0 ==> |chosen| <= opts.maxUpgrades
    ensures forall i :: 0 <= i < |all| && i !in chosen ==>
              || (opts.noIntroduce && all[i].introduced != [])
              || (exists c :: c in chosen && c < i && !Compatible(all[c], all[i], opts.lockfileVulns))
              || (opts.maxUpgrades > 0 && |chosen| == opts.maxUpgrades && forall c :: c in chosen ==> c < i)
  {
    forall j, k | 0 <= j < k < |chosen|
      ensures chosen[j] < chosen[k] && Compatible(all[chosen[j]], all[chosen[k]], opts.lockfileVulns)
    {
      assert chosen[k] in chosen && chosen[j] in chosen;
      assert Admissible(all, opts, chosen, chosen[k]);
    }
    forall j | 0 <= j < |chosen| ensures opts.noIntroduce ==> all[chosen[j]].introduced == [] {
      assert chosen[j] in chosen;
      assert Admissible(all, opts, chosen, chosen[j]);
    }
    if chosen != [] {
      var last := chosen[|chosen| - 1];
      assert last in chosen;
      AllBelow(chosen[..|chosen| - 1], last);
    }
    forall i | 0 <= i < |all| && i !in chosen && Admissible(all, opts, chosen, i)
      ensures opts.maxUpgrades > 0 && |chosen| == opts.maxUpgrades && forall c :: c in chosen ==> c < i
    {
      BelowAtMost(chosen, i);
    }
  }

  /** If as many as all indices are below `i`, all of them are. */
  lemma {:induction false} BelowAtMost(chosen: seq<nat>, i: nat)
    ensures CountBelow(chosen, i) <= |chosen|
    ensures CountBelow(chosen, i) == |chosen| ==> forall c :: c in chosen ==> c < i
  {
    if chosen != [] {
      var front := chosen[..|chosen| - 1];
      BelowAtMost(front, i);
      assert chosen == front + [chosen[|chosen| - 1]];
    }
  }

  ghost predicate Increasing(s: seq<nat>) {
    forall j, k :: 0 <= j < k < |s| ==> s[j] < s[k]
  }

  lemma Below(front: seq<nat>, last: nat, i: nat)
    requires last !in front
    ensures var before := set c | c in front && c < i;
            (set c | c in front + [last] && c < i) == (if last < i then before + {last} else before)
            && last !in before
  {
  }

  lemma LastIsNew(chosen: seq<nat>)
    requires Increasing(chosen) && chosen != []
    ensures Increasing(chosen[..|chosen| - 1]) && chosen[|chosen| - 1] !in chosen[..|chosen| - 1]
    ensures chosen == chosen[..|chosen| - 1] + [chosen[|chosen| - 1]]
  {
  }

  lemma {:induction false} CountIsCardinality(chosen: seq<nat>, i: nat)
    requires Increasing(chosen)
    ensures CountBelow(chosen, i) == |set c | c in chosen && c < i|
  {
    hide Increasing;
    if chosen != [] {
      LastIsNew(chosen);
      var front, last := chosen[..|chosen| - 1], chosen[|chosen| - 1];
      CountIsCardinality(front, i);
      Below(front, last, i);
    }
  }

  /** The characterisation leaves no freedom: the choice is determined by the list and the options. */
  lemma GreedyIsUnique(all: seq<Patch>, opts: Options, a: seq<nat>, b: seq<nat>)
    requires AllKeyed(all, opts) && Greedy(all, opts, a, |all|) && Greedy(all, opts, b, |all|)
    ensures a == b
  {
    forall i: nat ensures i in a <==> i in b {
      SameMembers(all, opts, a, b, i);
    }
    SameSorted(a, b);
  }

  lemma {:induction false} SameMembers(all: seq<Patch>, opts: Options, a: seq<nat>, b: seq<nat>, i: nat)
    requires AllKeyed(all, opts) && Greedy(all, opts, a, |all|) && Greedy(all, opts, b, |all|)
    ensures i in a <==> i in b
    decreases i
  {
    if i < |all| {
      forall c: nat | c < i ensures c in a <==> c in b {
        SameMembers(all, opts, a, b, c);
      }
      CountIsCardinality(a, i);
      CountIsCardinality(b, i);
      assert (set c | c in a && c < i) == (set c | c in b && c < i);
      assert Admissible(all, opts, a, i) <==> Admissible(all, opts, b, i);
    }
  }

  lemma {:induction false} SameSorted(a: seq<nat>, b: seq<nat>)
    requires Increasing(a) && Increasing(b) && forall i: nat :: i in a <==> i in b
    ensures a == b
  {
    hide Increasing;
    assert |a| > 0 ==> a[0] in a;
    assert |b| > 0 ==> b[0] in b;
    if a != [] {
      LastIsNew(a);
      LastIsNew(b);
      var fa, fb, x, y := a[..|a| - 1], b[..|b| - 1], a[|a| - 1], b[|b| - 1];
      FrontMembers(a, y);
      FrontMembers(b, x);
      forall i: nat ensures i in fa <==> i in fb {
        FrontMembers(a, i);
        FrontMembers(b, i);
      }
      SameSorted(fa, fb);
    }
  }

  lemma FrontMembers(a: seq<nat>, i: nat)
    requires Increasing(a) && a != []
    ensures i in a[..|a| - 1] <==> i in a && i != a[|a| - 1]
    ensures i in a ==> i <= a[|a| - 1]
  {
    var front, last := a[..|a| - 1], a[|a| - 1];
    assert a == front + [last];
  }
}
