/** enricher/baseimage/baseimage.go: packing base images by the topmost layer they cover. Layers are
    numbered from the oldest, 0, to the newest. */
module BaseImage {

  datatype Detail = Detail(repository: string, registry: string, chainID: string, plugin: string)

  type Group = seq<Detail>

  const PLUGIN := "baseimage"

  /** What packing starts from: the groups and each layer's index into them, as earlier plugins left
      them, and for each layer its chain identifier and the repositories deps.dev knows for it. */
  datatype Input = Input(groups: seq<Group>, index: seq<int>, chainIDs: seq<string>, repos: seq<seq<string>>)
  {
    predicate Valid() {
      && |index| == |chainIDs| == |repos|
      && forall i :: 0 <= i < |repos| ==> Distinct(repos[i])
    }
  }

  predicate Distinct(s: seq<string>) {
    forall i, j :: 0 <= i < j < |s| ==> s[i] != s[j]
  }

  function Elements(s: seq<string>): set<string> {
    set x | x in s
  }

  predicate SameRepos(a: seq<string>, b: seq<string>) {
    |a| == |b| && forall i :: 0 <= i < |a| ==> a[i] in b
  }

  lemma {:induction false} ElementsSize(s: seq<string>)
    requires Distinct(s)
    ensures |Elements(s)| == |s|
  {
    if s != [] {
      var front, last := s[..|s| - 1], s[|s| - 1];
      ElementsSize(front);
      assert s == front + [last];
      assert Elements(s) == Elements(front) + {last};
    }
  }

  /** On lists without repetition the source's check is equality of sets. */
  lemma SameReposIsSetEquality(a: seq<string>, b: seq<string>)
    requires Distinct(a) && Distinct(b)
    ensures SameRepos(a, b) <==> Elements(a) == Elements(b)
  {
    ElementsSize(a);
    ElementsSize(b);
    assert forall i :: 0 <= i < |a| ==> a[i] in Elements(a);
    if SameRepos(a, b) {
      assert Elements(a) <= Elements(b);
      SubsetOfSameSize(Elements(a), Elements(b));
    }
  }

  lemma SubsetOfSameSize<T>(a: set<T>, b: set<T>)
    requires a <= b && |a| == |b|
    ensures a == b
  {
    assert |b - a| == |b| - |a|;
  }

  // Where groups belong.

  /** Layer `i` is the topmost one that refers to its pre-existing group. */
  predicate TopmostUse(input: Input, i: nat)
    requires input.Valid() && i < |input.index|
  {
    0 < input.index[i] < |input.groups| && forall j :: i < j < |input.index| ==> input.index[j] != input.index[i]
  }

  function Relabel(g: Group, chainID: string): (r: Group)
    ensures |r| == |g|
    ensures forall i :: 0 <= i < |g| ==> r[i] == g[i].(chainID := chainID)
  {
    seq(|g|, i requires 0 <= i < |g| => g[i].(chainID := chainID))
  }

  function Existing(input: Input, i: nat): Group
    requires input.Valid() && i < |input.index|
  {
    if TopmostUse(input, i) then Relabel(input.groups[input.index[i]], input.chainIDs[i]) else []
  }

  /** The repositories of the nearest layer from `i` on that has some; [] if there is none. */
  function NearestRepos(input: Input, i: nat): (r: seq<string>)
    requires input.Valid() && i <= |input.index|
    ensures Distinct(r)
    decreases |input.index| - i
  {
    if i == |input.index| then [] else if input.repos[i] != [] then input.repos[i] else NearestRepos(input, i + 1)
  }

  lemma NoRepos(input: Input)
    requires input.Valid()
    ensures NearestRepos(input, |input.index|) == [] && Distinct([])
  {
  }

  lemma NearestStep(input: Input, i: nat)
    requires input.Valid() && i < |input.index|
    ensures NearestRepos(input, i) == if input.repos[i] != [] then input.repos[i] else NearestRepos(input, i + 1)
  {
  }

  function RepoDetails(repos: seq<string>, chainID: string): (r: Group)
    ensures |r| == |repos|
    ensures forall i :: 0 <= i < |repos| ==> r[i] == Detail(repos[i], "docker.io", chainID, PLUGIN)
  {
    seq(|repos|, i requires 0 <= i < |repos| => Detail(repos[i], "docker.io", chainID, PLUGIN))
  }

  /** Layer `i` has repositories, and not the same set as the nearest newer layer that has some. */
  predicate ReposChange(input: Input, i: nat)
    requires input.Valid() && i < |input.index|
  {
    input.repos[i] != [] && Elements(input.repos[i]) != Elements(NearestRepos(input, i + 1))
  }

  function FromDepsDev(input: Input, i: nat): Group
    requires input.Valid() && i < |input.index|
  {
    if ReposChange(input, i) then RepoDetails(input.repos[i], input.chainIDs[i]) else []
  }

  /** The group whose topmost layer is `i`; [] if `i` is no boundary. */
  function Boundary(input: Input, i: nat): Group
    requires input.Valid() && i < |input.index|
  {
    Existing(input, i) + FromDepsDev(input, i)
  }

  /** The packed groups of the layers from `i` on, newest first, after the placeholder. */
  function Packed(input: Input, i: nat): (groups: seq<Group>)
    requires input.Valid() && i <= |input.index|
    ensures |groups| > 0
    decreases |input.index| - i
  {
    if i == |input.index| then [[]]
    else if Boundary(input, i) == [] then Packed(input, i + 1)
    else Packed(input, i + 1) + [Boundary(input, i)]
  }

  lemma {:induction false} NearestIs(input: Input, i: nat, j: nat)
    requires input.Valid() && i <= j <= |input.index| && forall k :: i <= k < j ==> input.repos[k] == []
    requires j < |input.index| ==> input.repos[j] != []
    ensures NearestRepos(input, i) == if j == |input.index| then [] else input.repos[j]
    decreases j - i
  {
    if i < j {
      NearestIs(input, i + 1, j);
    }
  }

  /** Let `j` be the nearest layer newer than `i` that has repositories, or the number of layers if there
      is none. A deps.dev group is added at layer `i` exactly if the layer has repositories and there is no
      such `j`, or some repository is in one of the two lists only; it has one detail for each. */
  lemma DepsDevGroupIff(input: Input, i: nat, j: nat)
    requires input.Valid() && i < j <= |input.index| && forall k :: i < k < j ==> input.repos[k] == []
    requires j < |input.index| ==> input.repos[j] != []
    ensures FromDepsDev(input, i) != [] <==>
              input.repos[i] != []
              && (j == |input.index| || exists r :: (r in input.repos[i]) != (r in input.repos[j]))
    ensures FromDepsDev(input, i) != [] ==>
              && |FromDepsDev(input, i)| == |input.repos[i]|
              && forall k :: 0 <= k < |input.repos[i]| ==>
                   FromDepsDev(input, i)[k] == Detail(input.repos[i][k], "docker.io", input.chainIDs[i], PLUGIN)
  {
    hide NearestRepos;
    NearestIs(input, i + 1, j);
    var here := Elements(input.repos[i]);
    if input.repos[i] != [] {
      assert input.repos[i][0] in here;
      if j < |input.index| {
        var there := Elements(input.repos[j]);
        assert forall r :: (r in here <==> r in input.repos[i]) && (r in there <==> r in input.repos[j]);
        assert here != there ==> exists r :: (r in here) != (r in there);
      }
    }
  }

  /** Which groups the layers from `i` on refer to. */
  ghost predicate Seen(input: Input, seen: seq<bool>, i: nat) {
    && |seen| == (if input.groups == [] then 1 else |input.groups|)
    && forall g :: 0 <= g < |seen| ==> (seen[g] <==> g > 0 && exists j :: i <= j < |input.index| && input.index[j] == g)
  }

  lemma NothingSeen(input: Input, seen: seq<bool>)
    requires |seen| == (if input.groups == [] then 1 else |input.groups|) && forall g :: 0 <= g < |seen| ==> !seen[g]
    ensures Seen(input, seen, |input.index|)
  {
  }

  lemma SeenStep(input: Input, seen: seq<bool>, i: nat)
    requires input.Valid() && i < |input.index| && Seen(input, seen, i + 1)
    ensures var idx := input.index[i];
            && (TopmostUse(input, i) <==> 0 < idx < |seen| && !seen[idx])
            && Seen(input, if 0 < idx < |seen| then seen[idx := true] else seen, i)
            && (0 < idx < |seen| && seen[idx] ==> seen[idx := true] == seen)
  {
  }

  lemma ReposChangeIs(input: Input, i: nat)
    requires input.Valid() && i < |input.index|
    ensures ReposChange(input, i) <==> input.repos[i] != [] && Elements(input.repos[i]) != Elements(NearestRepos(input, i + 1))
  {
  }

  class ContainerImage {
    var baseImages: seq<Group>
    const baseImageIndex: array<int>

    constructor (baseImages: seq<Group>, baseImageIndex: array<int>)
      ensures this.baseImages == baseImages && this.baseImageIndex == baseImageIndex
    {
      this.baseImages, this.baseImageIndex := baseImages, baseImageIndex;
    }

    /** The two passes of Enrich over one image. */
    method Pack(chainIDs: seq<string>, repos: seq<seq<string>>)
      requires Input(baseImages, baseImageIndex[..], chainIDs, repos).Valid()
      modifies this, baseImageIndex
      ensures var input := Input(old(baseImages), old(baseImageIndex[..]), chainIDs, repos);
              && input.Valid()
              && baseImages == Packed(input, 0)
              && forall i :: 0 <= i < baseImageIndex.Length ==> baseImageIndex[i] == |Packed(input, i)| - 1
    {
      hide Boundary, NearestRepos;
      ghost var input := Input(baseImages, baseImageIndex[..], chainIDs, repos);
      if |baseImages| == 0 {
        baseImages := [[]];
      }
      var byTopLayer := CollectBoundaries(chainIDs, repos, input);
      var n := baseImageIndex.Length;
      baseImages := [[]];
      var i := n;
      while i > 0
        invariant 0 <= i <= n
        invariant baseImages == Packed(input, i)
        invariant forall j :: i <= j < n ==> baseImageIndex[j] == |Packed(input, j)| - 1
      {
        i := i - 1;
        if |byTopLayer[i]| > 0 {
          baseImages := baseImages + [byTopLayer[i]];
        }
        baseImageIndex[i] := |baseImages| - 1;
      }
    }

    /** The first pass, from the newest layer to the oldest. */
    method CollectBoundaries(chainIDs: seq<string>, repos: seq<seq<string>>, ghost input: Input)
      returns (byTopLayer: seq<Group>)
      requires input.Valid() && input.index == baseImageIndex[..] && input.chainIDs == chainIDs && input.repos == repos
      requires baseImages == if input.groups == [] then [[]] else input.groups
      ensures |byTopLayer| == |input.index|
      ensures forall i :: 0 <= i < |input.index| ==> byTopLayer[i] == Boundary(input, i)
    {
      hide NearestRepos, Relabel, RepoDetails, SameRepos, Elements, Distinct, Seen, TopmostUse, ReposChange;
      NoRepos(input);
      var n := baseImageIndex.Length;
      byTopLayer := seq(n, i => []);
      var seenExisting := seq(|baseImages|, i => false);
      var lastRepos: seq<string> := [];
      var i := n;
      NothingSeen(input, seenExisting);
      while i > 0
        invariant 0 <= i <= n && |byTopLayer| == n && |seenExisting| == |baseImages|
        invariant forall j :: i <= j < n ==> byTopLayer[j] == Boundary(input, j)
        invariant Seen(input, seenExisting, i)
        invariant Distinct(lastRepos) && Elements(lastRepos) == Elements(NearestRepos(input, i))
      {
        i := i - 1;
        var idx := baseImageIndex[i];
        var group: Group := [];
        SeenStep(input, seenExisting, i);
        if 0 < idx < |baseImages| && !seenExisting[idx] {
          seenExisting := seenExisting[idx := true];
          group := group + Relabel(baseImages[idx], chainIDs[i]);
        }
        assert group == Existing(input, i);
        SameReposIsSetEquality(repos[i], lastRepos);
        NearestStep(input, i);
        ReposChangeIs(input, i);
        if |repos[i]| > 0 && !SameRepos(repos[i], lastRepos) {
          lastRepos := repos[i];
          group := group + RepoDetails(repos[i], chainIDs[i]);
        }
        byTopLayer := byTopLayer[i := group];
      }
    }
  }

  // What packing guarantees.

  predicate IsBoundary(input: Input, i: nat)
    requires input.Valid() && i < |input.index|
  {
    Boundary(input, i) != []
  }

  /** The nearest boundary at or above layer `i`; the number of layers if there is none. */
  function NearestBoundary(input: Input, i: nat): (j: nat)
    requires input.Valid() && i <= |input.index|
    ensures i <= j <= |input.index|
    decreases |input.index| - i
  {
    if i == |input.index| || IsBoundary(input, i) then i else NearestBoundary(input, i + 1)
  }

  lemma {:induction false} NearestIsFirst(input: Input, i: nat)
    requires input.Valid() && i <= |input.index|
    ensures var j := NearestBoundary(input, i);
            && (j < |input.index| ==> IsBoundary(input, j))
            && forall k :: i <= k < j ==> !IsBoundary(input, k)
    decreases |input.index| - i
  {
    hide IsBoundary;
    if i < |input.index| && !IsBoundary(input, i) {
      NearestIsFirst(input, i + 1);
    }
  }

  /** Packed groups of newer layers come first and stay in place. */
  lemma {:induction false} PackedPrefix(input: Input, i: nat, j: nat)
    requires input.Valid() && i <= j <= |input.index|
    ensures Packed(input, j) <= Packed(input, i)
    decreases j - i
  {
    hide Boundary;
    if i < j {
      PackedPrefix(input, i + 1, j);
    }
  }

  /** After packing, a layer's index is in range and points to the group of the nearest boundary at or
      above the layer, to the placeholder 0 exactly when there is none; from newer to older layers the
      index never decreases. */
  lemma {:induction false} IndexPointsToNearest(input: Input, i: nat)
    requires input.Valid() && i < |input.index|
    ensures var groups, index := Packed(input, 0), |Packed(input, i)| - 1;
            var j := NearestBoundary(input, i);
            && 0 <= index < |groups|
            && (index == 0 <==> j == |input.index|)
            && groups[index] == (if j == |input.index| then [] else Boundary(input, j))
            && forall k :: i <= k < |input.index| ==> |Packed(input, k)| - 1 <= index
  {
    hide Boundary;
    var j := NearestBoundary(input, i);
    NearestIsFirst(input, i);
    SkipToBoundary(input, i);
    PackedPrefix(input, 0, i);
    forall k | i <= k < |input.index| ensures |Packed(input, k)| - 1 <= |Packed(input, i)| - 1 {
      PackedPrefix(input, i, k);
    }
    if j < |input.index| {
      PackedPrefix(input, j + 1, |input.index|);
      assert Packed(input, j) == Packed(input, j + 1) + [Boundary(input, j)];
    }
  }

  lemma {:induction false} SkipToBoundary(input: Input, i: nat)
    requires input.Valid() && i <= |input.index|
    ensures Packed(input, i) == Packed(input, NearestBoundary(input, i))
    decreases |input.index| - i
  {
    hide Boundary;
    if i < |input.index| && !IsBoundary(input, i) {
      SkipToBoundary(input, i + 1);
    }
  }

  /** A pre-existing group that some layer refers to is kept at exactly one layer, the topmost one. */
  lemma {:induction false} ExistingKeptOnce(input: Input, g: nat, i: nat) returns (top: nat)
    requires input.Valid() && 0 < g < |input.groups| && i < |input.index| && input.index[i] == g
    ensures i <= top < |input.index| && input.index[top] == g && TopmostUse(input, top)
    ensures Existing(input, top) == Relabel(input.groups[g], input.chainIDs[top])
    ensures forall k :: 0 <= k < |input.index| && input.index[k] == g && k != top ==> Existing(input, k) == []
    decreases |input.index| - i
  {
    if j :| i < j < |input.index| && input.index[j] == g {
      top := ExistingKeptOnce(input, g, j);
    } else {
      top := i;
    }
  }

  /** So a non-empty group that some layer refers to leads the packed group its topmost layer points to,
      with that layer's chain identifier; the other layers that refer to it add only deps.dev details. */
  lemma ReferredGroupSurvives(input: Input, g: nat, i: nat) returns (top: nat)
    requires input.Valid() && 0 < g < |input.groups| && input.groups[g] != []
    requires i < |input.index| && input.index[i] == g
    ensures i <= top < |input.index| && input.index[top] == g
    ensures var index := |Packed(input, top)| - 1;
            index < |Packed(input, 0)| && Relabel(input.groups[g], input.chainIDs[top]) <= Packed(input, 0)[index]
    ensures forall k :: 0 <= k < |input.index| && input.index[k] == g && k != top ==>
              Boundary(input, k) == FromDepsDev(input, k)
  {
    top := ExistingKeptOnce(input, g, i);
    IndexPointsToNearest(input, top);
    assert Boundary(input, top) != [] by {
      assert Relabel(input.groups[g], input.chainIDs[top]) != [];
    }
    forall k | 0 <= k < |input.index| && input.index[k] == g && k != top
      ensures Boundary(input, k) == FromDepsDev(input, k)
    {
      assert Existing(input, k) == [];
    }
  }
}
