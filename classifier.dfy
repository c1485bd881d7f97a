/**
 * `DecisionTreeClassifier`: the estimator object. `fit` draws the sample,
 * then grows the top of the tree with a worklist, down to `distr_depth`,
 * and grows one subtree at every frontier node. `predict` asks every
 * subtree for the rows that reach it and merges the answers.
 */
module Classifier {
  import opened Wrappers
  import opened Nodes
  import opened Split
  import opened BinaryPath
  import opened Masks
  import opened Subtree
  import opened Routing
  import opened TopTree

  /**
   * What `fit` reads from an `RfDataset`: the feature-major store, the
   * number of features and of classes, and the class code of every sample.
   */
  datatype Dataset = Dataset(features: seq<seq<int>>, nFeatures: nat, nClasses: nat, yCodes: seq<nat>)

  /** Every feature column has an entry for every sample. */
  predicate Stored(ds: Dataset)
  {
    ds.nFeatures <= |ds.features| && forall f | 0 <= f < ds.nFeatures :: |ds.yCodes| <= |ds.features[f]|
  }

  /** `np.arange(n)` */
  function Range(n: nat): (r: seq<nat>)
    ensures |r| == n && forall k | 0 <= k < n :: r[k] == k
  {
    if n == 0 then [] else Range(n - 1) + [n - 1]
  }

  predicate Ascending(s: seq<nat>)
  {
    forall i, j | 0 <= i < j < |s| :: s[i] <= s[j]
  }

  /**
   * `sample_selection`: with `bootstrap`, `n_samples` indices drawn with
   * replacement and sorted (the draw itself is a free choice here); without,
   * every index once, in order. Each selected index comes with its class code.
   */
  method SampleSelection(nSamples: nat, yCodes: seq<nat>, bootstrap: bool) returns (sample: seq<nat>, ys: seq<nat>)
    requires |yCodes| == nSamples
    ensures |sample| == nSamples && |ys| == nSamples && Ascending(sample)
    ensures forall k | 0 <= k < nSamples :: sample[k] < nSamples && ys[k] == yCodes[sample[k]]
    ensures !bootstrap ==> sample == Range(nSamples) && ys == yCodes
  {
    if bootstrap {
      var id := Range(nSamples);
      assert Ascending(id) && forall k | 0 <= k < nSamples :: id[k] < nSamples;
      sample :| |sample| == nSamples && Ascending(sample) && forall k | 0 <= k < nSamples :: sample[k] < nSamples;
      ys := seq(nSamples, k requires 0 <= k < nSamples => yCodes[sample[k]]);
    } else {
      sample, ys := Range(nSamples), yCodes;
    }
  }

  // ---------------------------------------------------------------- routing a single row

  /** The frontier subtree a row lands in: the one held by the node its comparisons lead it to. */
  ghost function Landing(tree: seq<NodeRec>, nodesInfo: seq<NodeInfo>, subtrees: seq<seq<NodeRec>>,
                         d: nat, nFeatures: nat, row: seq<int>): (i: nat)
    requires Fitted(tree, nodesInfo, subtrees, d, nFeatures) && AllInner(nodesInfo) && nFeatures <= |row|
    ensures i < |subtrees|
  {
    FittedComplete(tree, nodesInfo, subtrees, d, nFeatures);
    var p := RouteOf(row, tree, nodesInfo, d, d);
    assert Reaches(tree, nodesInfo, d, p);
    BinValueBound(p);
    tree[Walk(tree, p).value].content.handle
  }

  /** The class the whole tree gives a row: the prediction of the subtree it lands in. */
  ghost function Classify(tree: seq<NodeRec>, nodesInfo: seq<NodeInfo>, subtrees: seq<seq<NodeRec>>,
                          d: nat, nFeatures: nat, row: seq<int>, sk: SkPredict): nat
    requires Fitted(tree, nodesInfo, subtrees, d, nFeatures) && AllInner(nodesInfo) && nFeatures <= |row|
    requires forall h | 0 <= h < |subtrees| :: subtrees[h] != []
  {
    var i := Landing(tree, nodesInfo, subtrees, d, nFeatures, row);
    WideRows(subtrees[i], nFeatures, [row]);
    PredictRow(subtrees[i], 0, row, sk)
  }

  /**
   * Of the `2^d` subtree paths, a row follows exactly one: the path of the
   * subtree it lands in.
   */
  lemma LandingFollowed(tree: seq<NodeRec>, nodesInfo: seq<NodeInfo>, subtrees: seq<seq<NodeRec>>,
                        d: nat, nFeatures: nat, row: seq<int>, i: nat)
    requires Fitted(tree, nodesInfo, subtrees, d, nFeatures) && AllInner(nodesInfo) && nFeatures <= |row|
    requires i < Pow2(d)
    ensures Routes(tree, nodesInfo, SubtreePath(i, d)) && Wide(nodesInfo, row)
    ensures Follows(row, tree, nodesInfo, SubtreePath(i, d)) <==> i == Landing(tree, nodesInfo, subtrees, d, nFeatures, row)
  {
    FittedComplete(tree, nodesInfo, subtrees, d, nFeatures);
    var p := RouteOf(row, tree, nodesInfo, d, d);
    assert Reaches(tree, nodesInfo, d, p);
    OnePathPerRow(row, tree, nodesInfo, d, i);
  }

  // ---------------------------------------------------------------- predict_branch

  /**
   * `predict_branch`: select the rows that follow the path of subtree `i`
   * and predict them with that subtree. The mask marks exactly the rows
   * following the path, and the prediction written for a marked row is the
   * subtree's own answer for that row.
   */
  method PredictBranch(samples: seq<seq<int>>, tree: seq<NodeRec>, nodesInfo: seq<NodeInfo>, i: nat,
                       subtree: seq<NodeRec>, d: nat, sk: SkPredict) returns (br: Branch)
    requires i < Pow2(d) && Routes(tree, nodesInfo, SubtreePath(i, d))
    requires forall r | r in samples :: Wide(nodesInfo, r)
    requires SubtreeWF(subtree) && subtree != [] && ColumnsFit(subtree, samples)
    ensures |br.selected| == |samples| && |br.prediction| == Count(br.selected)
    ensures forall k | 0 <= k < |samples| :: br.selected[k] == Follows(samples[k], tree, nodesInfo, SubtreePath(i, d))
    ensures forall k | 0 <= k < |samples| && br.selected[k] ::
              ColumnsFit(subtree, [samples[k]]) && Written(br, k) == PredictRow(subtree, 0, samples[k], sk)
  {
    var path := SubtreePath(i, d);
    var mask := GetPredictedIndices(samples, tree, nodesInfo, path);
    var rows := Select(samples, mask);
    SelectSubset(samples, mask);
    var prediction := Nodes.Predict(subtree, 0, rows, sk);
    br := Branch(mask, prediction);
    forall k | 0 <= k < |samples| && mask[k]
      ensures ColumnsFit(subtree, [samples[k]]) && Written(br, k) == PredictRow(subtree, 0, samples[k], sk)
    {
      SelectAt(samples, mask, k);
      PredictPointwise(subtree, 0, rows, sk, Rank(mask, k));
    }
  }

  /**
   * What `predict` needs: a fitted top tree whose splits all succeeded,
   * subtrees that are not empty, and rows wide enough for every split.
   */
  ghost predicate Ready(tree: seq<NodeRec>, nodesInfo: seq<NodeInfo>, subtrees: seq<seq<NodeRec>>,
                        d: nat, nFeatures: nat, samples: seq<seq<int>>)
  {
    Fitted(tree, nodesInfo, subtrees, d, nFeatures) && AllInner(nodesInfo) &&
    (forall h | 0 <= h < |subtrees| :: subtrees[h] != []) &&
    (forall r | r in samples :: nFeatures <= |r|)
  }

  /**
   * What branch `b` means on a fitted top tree: its mask marks exactly the
   * rows that land in subtree `b`, and each marked row gets its class.
   */
  ghost predicate Means(tree: seq<NodeRec>, nodesInfo: seq<NodeInfo>, subtrees: seq<seq<NodeRec>>,
                        d: nat, nFeatures: nat, samples: seq<seq<int>>, sk: SkPredict, b: nat, br: Branch)
  {
    Ready(tree, nodesInfo, subtrees, d, nFeatures, samples) &&
    |br.selected| == |samples| && |br.prediction| == Count(br.selected) &&
    forall k | 0 <= k < |samples| ::
      br.selected[k] == (b == Landing(tree, nodesInfo, subtrees, d, nFeatures, samples[k])) &&
      (br.selected[k] ==> Written(br, k) == Classify(tree, nodesInfo, subtrees, d, nFeatures, samples[k], sk))
  }

  /** A branch whose mask follows the path of subtree `i` and whose predictions are that subtree's means what `Means` says. */
  lemma BranchLands(samples: seq<seq<int>>, tree: seq<NodeRec>, nodesInfo: seq<NodeInfo>, subtrees: seq<seq<NodeRec>>,
                    d: nat, nFeatures: nat, sk: SkPredict, i: nat, br: Branch)
    requires Ready(tree, nodesInfo, subtrees, d, nFeatures, samples)
    requires i < |subtrees| && |br.selected| == |samples| && |br.prediction| == Count(br.selected)
    requires forall k | 0 <= k < |samples| ::
               Routes(tree, nodesInfo, SubtreePath(i, d)) && Wide(nodesInfo, samples[k]) &&
               br.selected[k] == Follows(samples[k], tree, nodesInfo, SubtreePath(i, d))
    requires forall k | 0 <= k < |samples| && br.selected[k] ::
               ColumnsFit(subtrees[i], [samples[k]]) && Written(br, k) == PredictRow(subtrees[i], 0, samples[k], sk)
    ensures Means(tree, nodesInfo, subtrees, d, nFeatures, samples, sk, i, br)
  {
    forall k | 0 <= k < |samples|
      ensures br.selected[k] == (i == Landing(tree, nodesInfo, subtrees, d, nFeatures, samples[k]))
    {
      assert samples[k] in samples;
      LandingFollowed(tree, nodesInfo, subtrees, d, nFeatures, samples[k], i);
    }
  }

  lemma ShapedAppend(n: nat, branches: seq<Branch>, br: Branch)
    requires Shaped(n, branches) && |br.selected| == n && |br.prediction| == Count(br.selected)
    ensures Shaped(n, branches + [br])
  {
  }

  /** `predict_branch` for subtree `i` of a fitted tree, with what its answer means. */
  method BranchAt(samples: seq<seq<int>>, tree: seq<NodeRec>, nodesInfo: seq<NodeInfo>, subtrees: seq<seq<NodeRec>>,
                  d: nat, nFeatures: nat, sk: SkPredict, i: nat) returns (br: Branch)
    requires Ready(tree, nodesInfo, subtrees, d, nFeatures, samples) && i < |subtrees|
    ensures Means(tree, nodesInfo, subtrees, d, nFeatures, samples, sk, i, br)
  {
    WideRows(subtrees[i], nFeatures, samples);
    FittedRoutes(tree, nodesInfo, subtrees, d, nFeatures, SubtreePath(i, d));
    br := PredictBranch(samples, tree, nodesInfo, i, subtrees[i], d, sk);
    BranchLands(samples, tree, nodesInfo, subtrees, d, nFeatures, sk, i, br);
  }

  /** The loop of `predict`: one `predict_branch` per subtree, in order. */
  method PredictBranches(samples: seq<seq<int>>, tree: seq<NodeRec>, nodesInfo: seq<NodeInfo>, subtrees: seq<seq<NodeRec>>,
                         d: nat, nFeatures: nat, sk: SkPredict) returns (branches: seq<Branch>)
    requires Ready(tree, nodesInfo, subtrees, d, nFeatures, samples)
    ensures Shaped(|samples|, branches) && |branches| == |subtrees|
    ensures forall b | 0 <= b < |branches| :: Means(tree, nodesInfo, subtrees, d, nFeatures, samples, sk, b, branches[b])
  {
    branches := [];
    for i := 0 to |subtrees|
      invariant Shaped(|samples|, branches) && |branches| == i
      invariant forall b | 0 <= b < i :: Means(tree, nodesInfo, subtrees, d, nFeatures, samples, sk, b, branches[b])
    {
      var br := BranchAt(samples, tree, nodesInfo, subtrees, d, nFeatures, sk, i);
      ShapedAppend(|samples|, branches, br);
      branches := branches + [br];
    }
  }

  /**
   * The body of `predict` on a fitted tree: the branches, then
   * `merge_branches`. Every row gets the class of the subtree it lands in,
   * the same answer as routing it on its own.
   */
  method PredictTop(samples: seq<seq<int>>, tree: seq<NodeRec>, nodesInfo: seq<NodeInfo>, subtrees: seq<seq<NodeRec>>,
                    d: nat, nFeatures: nat, sk: SkPredict) returns (merged: seq<int>)
    requires Ready(tree, nodesInfo, subtrees, d, nFeatures, samples)
    ensures |merged| == |samples|
    ensures forall k | 0 <= k < |samples| :: merged[k] == Classify(tree, nodesInfo, subtrees, d, nFeatures, samples[k], sk)
  {
    var branches := PredictBranches(samples, tree, nodesInfo, subtrees, d, nFeatures, sk);
    merged := MergeBranches(|samples|, branches);
    forall k | 0 <= k < |samples|
      ensures merged[k] == Classify(tree, nodesInfo, subtrees, d, nFeatures, samples[k], sk)
    {
      var b := Landing(tree, nodesInfo, subtrees, d, nFeatures, samples[k]);
      assert Means(tree, nodesInfo, subtrees, d, nFeatures, samples, sk, b, branches[b]);
      WriterUnique(branches, k, b);
    }
  }

  // ---------------------------------------------------------------- fit's loop

  /**
   * The loop of `fit`: starting from a root slot holding the whole sample,
   * visit the worklist until it is empty. The finished top tree is fitted,
   * and the ghost records describe every split and subtree in it.
   */
  method GrowTop(tc: TopConfig, root: seq<nat>, rootLabels: seq<nat>)
    returns (tree: seq<NodeRec>, nodesInfo: seq<NodeInfo>, subtrees: seq<seq<NodeRec>>,
             ghost sl: Slots, ghost splits: seq<SplitRec>, ghost subs: seq<SubRecord>)
    requires tc.nClasses >= 1 && tc.mTry >= 1
    requires |rootLabels| == |root| && Fits(tc.features, tc.nFeatures, root)
    ensures TopInv(tc, root, rootLabels, tree, nodesInfo, subtrees, sl, splits, subs, [])
    ensures tree != [] && Fitted(tree, nodesInfo, subtrees, tc.distrDepth, tc.nFeatures)
  {
    tree, nodesInfo, subtrees := [Unset()], [], [];
    sl, splits, subs := Slots([0], [[]], [root], [rootLabels]), [], [];
    var stack := [Item(0, root, rootLabels, 0)];
    TopStart(tc, root, rootLabels);
    while stack != []
      invariant TopInv(tc, root, rootLabels, tree, nodesInfo, subtrees, sl, splits, subs, stack)
      decreases StackWeight(tc.distrDepth, stack)
    {
      tree, nodesInfo, subtrees, sl, splits, subs, stack :=
        TopVisit(tc, root, rootLabels, tree, nodesInfo, subtrees, sl, splits, subs, stack);
    }
    TopFitted(tc, root, rootLabels, tree, nodesInfo, subtrees, sl, splits, subs);
    assert IsBits([]) && Walk(tree, []).Some?;
  }

  // ---------------------------------------------------------------- the estimator

  class DecisionTreeClassifier {
    const tryFeatures: nat
    const maxDepth: int
    const distrDepth: nat
    const bootstrap: bool

    /** Zero until fitted. */
    var nFeatures: nat
    var nClasses: nat

    /** The top tree's node arena, empty until fitted. */
    var tree: seq<NodeRec>
    var nodesInfo: seq<NodeInfo>
    var subtrees: seq<seq<NodeRec>>

    /** An empty arena stands for `self.tree is None`; anything else is a fitted top tree. */
    ghost predicate Valid()
      reads this
    {
      tree != [] ==> Fitted(tree, nodesInfo, subtrees, distrDepth, nFeatures)
    }

    /** The parameters `fit` hands to the top tree's builder. */
    function Setup(ds: Dataset, test: SplitTest): (tc: TopConfig)
      ensures tc.features == ds.features && tc.nFeatures == ds.nFeatures && tc.nClasses == ds.nClasses
      ensures tc.mTry == tryFeatures && tc.test == test && tc.maxDepth == maxDepth && tc.distrDepth == distrDepth
    {
      TopConfig(ds.features, ds.nFeatures, ds.nClasses, tryFeatures, test, maxDepth, distrDepth)
    }

    constructor (tryFeatures: nat, maxDepth: int, distrDepth: nat, bootstrap: bool)
      ensures this.tryFeatures == tryFeatures && this.maxDepth == maxDepth
      ensures this.distrDepth == distrDepth && this.bootstrap == bootstrap
      ensures nFeatures == 0 && nClasses == 0 && tree == [] && nodesInfo == [] && subtrees == []
      ensures Valid()
    {
      this.tryFeatures := tryFeatures;
      this.maxDepth := maxDepth;
      this.distrDepth := distrDepth;
      this.bootstrap := bootstrap;
      nFeatures, nClasses := 0, 0;
      tree, nodesInfo, subtrees := [], [], [];
    }

    /**
     * `fit`: draw the sample, then pop the worklist until it is empty;
     * above `distr_depth` a node is split and its children pushed, right
     * first; at `distr_depth` it receives a subtree grown with the levels
     * that remain. The object then holds a fitted top tree; `GrowTop`
     * states how its splits and subtrees come from the drawn sample.
     */
    method Fit(ds: Dataset, test: SplitTest)
      requires tryFeatures >= 1 && ds.nClasses >= 1 && Stored(ds)
      modifies this
      ensures nFeatures == ds.nFeatures && nClasses == ds.nClasses
      ensures tree != [] && Valid()
    {
      var treeSample, ys := SampleSelection(|ds.yCodes|, ds.yCodes, bootstrap);
      assert Fits(ds.features, ds.nFeatures, treeSample);
      var t, info, subs, sl, sr, gr := GrowTop(Setup(ds, test), treeSample, ys);
      nFeatures, nClasses, tree, nodesInfo, subtrees := ds.nFeatures, ds.nClasses, t, info, subs;
    }

    /**
     * `predict`: refused on an unfitted tree; otherwise every row receives
     * the class of the subtree it lands in.
     */
    method Predict(samples: seq<seq<int>>, sk: SkPredict) returns (pred: Option<seq<int>>)
      requires Valid()
      requires AllInner(nodesInfo) && forall h | 0 <= h < |subtrees| :: subtrees[h] != []
      requires forall r | r in samples :: nFeatures <= |r|
      ensures pred.None? <==> tree == []
      ensures pred.Some? ==>
                |pred.value| == |samples| &&
                forall k | 0 <= k < |samples| ::
                  pred.value[k] == Classify(tree, nodesInfo, subtrees, distrDepth, nFeatures, samples[k], sk)
    {
      if tree == [] {
        return None;
      }
      var merged := PredictTop(samples, tree, nodesInfo, subtrees, distrDepth, nFeatures, sk);
      pred := Some(merged);
    }
  }
}
