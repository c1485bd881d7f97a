/**
 * The distributed top of the tree, as `DecisionTreeClassifier.fit` grows it.
 *
 * Every node shallower than `distrDepth` is split with `compute_split`; its
 * content becomes a handle into `nodesInfo`, where the split is appended,
 * and it gets two children whether or not the split succeeded. Every node at
 * `distrDepth` gets a subtree from `build_subtree_in` with the remaining
 * depth; its content becomes a handle into `subtrees`. The worklist pops the
 * last item and pushes the right child before the left one, so the frontier
 * is reached from left to right and subtree `i` is the one whose path from
 * the root spells `i` in binary.
 *
 * As in `Subtree`, the nodes live in an arena, and ghost records keep, for
 * every slot, its depth, its path from the root and the sample and labels
 * it was created with; for every split, what it was made on and what it
 * produced; and for every subtree, what it was grown from and the records
 * of its own builder.
 */
module TopTree {
  import opened Wrappers
  import opened Nodes
  import opened Split
  import opened BinaryPath
  import opened Subtree
  import opened Routing

  /** `build_subtree_in`'s defaults, which `fit` keeps. */
  const SklearnMax: int := 100000000

  /** What `fit` passes down unchanged. */
  datatype TopConfig = TopConfig(features: seq<seq<int>>, nFeatures: nat, nClasses: nat, mTry: nat,
                                 test: SplitTest, maxDepth: int, distrDepth: nat)

  /** The subtree builder's parameters at the frontier: `max_depth - distr_depth` levels remain. */
  function SubConfig(tc: TopConfig): Config
  {
    Config(tc.features, tc.nFeatures, tc.maxDepth - tc.distrDepth, tc.nClasses, tc.mTry, tc.test, true, SklearnMax)
  }

  /** Per slot of the top tree: depth, path from the root, sample and labels. */
  datatype Slots = Slots(depths: seq<nat>, paths: seq<string>, samples: seq<seq<nat>>, labels: seq<seq<nat>>)

  /**
   * A split made at a top slot: the feature and threshold of its last
   * attempt (`None` when no feature was scored), the sample and labels it
   * was made on, and the groups that attempt produced.
   */
  datatype SplitRec = SplitRec(index: Option<nat>, value: Option<int>, sample: seq<nat>, ys: seq<nat>, groups: Groups)

  /** A subtree grown at the frontier: the sample and labels it was grown from, and its builder's records. */
  datatype SubRecord = SubRecord(sample: seq<nat>, ys: seq<nat>,
                                 depths: seq<nat>, samples: seq<seq<nat>>, labels: seq<seq<nat>>)

  predicate Lengths(tree: seq<NodeRec>, sl: Slots)
  {
    |sl.depths| == |tree| && |sl.paths| == |tree| && |sl.samples| == |tree| && |sl.labels| == |tree|
  }

  /** The slot records line up with the arena; the root holds the whole selected sample. */
  ghost predicate TopRecords(tc: TopConfig, root: seq<nat>, rootLabels: seq<nat>, tree: seq<NodeRec>, sl: Slots)
  {
    Lengths(tree, sl) && |tree| > 0 &&
    sl.depths[0] == 0 && sl.paths[0] == [] && sl.samples[0] == root && sl.labels[0] == rootLabels &&
    tc.nClasses >= 1 && tc.mTry >= 1 &&
    forall s | 0 <= s < |tree| ::
      sl.depths[s] <= tc.distrDepth && |sl.paths[s]| == sl.depths[s] && IsBits(sl.paths[s]) &&
      |sl.labels[s]| == |sl.samples[s]| && Fits(tc.features, tc.nFeatures, sl.samples[s])
  }

  /**
   * What `compute_split` left: the groups of the feature and threshold its
   * last round kept; an inner split, on an existing feature, when both
   * groups are non-empty, and otherwise the leaf of the labels; in both
   * cases the node and the kept split of one run of its loop (`Yields`),
   * scored with the configured split test.
   */
  ghost predicate SplitRecord(tc: TopConfig, info: NodeInfo, sr: SplitRec)
  {
    |sr.ys| == |sr.sample| && Fits(tc.features, tc.nFeatures, sr.sample) && tc.nClasses >= 1 &&
    (sr.index.Some? ==> sr.value.Some? && sr.index.value < tc.nFeatures) &&
    sr.groups == GetGroups(sr.sample, sr.ys, tc.features, sr.index, sr.value) &&
    (info.InnerNodeInfo? ==>
       info.index < tc.nFeatures && |sr.groups.left| > 0 && |sr.groups.right| > 0 &&
       sr.groups == GetGroups(sr.sample, sr.ys, tc.features, Some(info.index), Some(info.value))) &&
    (info.LeafInfo? ==> info == ComputeLeafInfo(sr.ys, tc.nClasses) && (sr.groups.left == [] || sr.groups.right == [])) &&
    Yields(sr.sample, sr.ys, tc.features, tc.nFeatures, tc.nClasses, tc.mTry, tc.test, info, sr.index, sr.value)
  }

  /** Entry `h` of `nodes_info` is the outcome of split `h`. */
  ghost predicate SplitsMade(tc: TopConfig, nodesInfo: seq<NodeInfo>, splits: seq<SplitRec>)
  {
    |splits| == |nodesInfo| && forall h | 0 <= h < |splits| :: SplitRecord(tc, nodesInfo[h], splits[h])
  }

  /** What `build_subtree_in` returns for this sample with `max_depth - distr_depth` levels left. */
  ghost predicate SubtreeRecord(tc: TopConfig, nodes: seq<NodeRec>, sr: SubRecord)
  {
    |sr.ys| == |sr.sample| &&
    (sr.sample == [] <==> nodes == []) && SubtreeWF(nodes) && ReadsBelow(nodes, tc.nFeatures) &&
    (sr.sample != [] ==> BuiltTree(SubConfig(tc), sr.sample, sr.ys, nodes, sr.depths, sr.samples, sr.labels))
  }

  /** Entry `h` of `subtrees` was grown from what subtree record `h` says. */
  ghost predicate SubtreesGrown(tc: TopConfig, subtrees: seq<seq<NodeRec>>, subs: seq<SubRecord>)
  {
    |subs| == |subtrees| && forall h | 0 <= h < |subs| :: SubtreeRecord(tc, subtrees[h], subs[h])
  }

  /**
   * A finished top slot above the frontier: a handle to the split made on
   * its sample, and two children one level deeper whose paths add '0' and
   * '1' and whose samples are that split's groups.
   */
  ghost predicate SplitBuilt(tree: seq<NodeRec>, sl: Slots, splits: seq<SplitRec>, s: nat)
    requires Lengths(tree, sl) && s < |tree|
  {
    var n := tree[s];
    n.content.Handle? && n.content.handle < |splits| && n.left.Some? && n.right.Some? &&
    var h, l, r := n.content.handle, n.left.value, n.right.value;
    s < l < |tree| && s < r < |tree| && l != r &&
    sl.depths[l] == sl.depths[s] + 1 && sl.depths[r] == sl.depths[s] + 1 &&
    sl.paths[l] == sl.paths[s] + ['0'] && sl.paths[r] == sl.paths[s] + ['1'] &&
    splits[h].sample == sl.samples[s] && splits[h].ys == sl.labels[s] &&
    splits[h].groups == Groups(sl.samples[l], sl.labels[l], sl.samples[r], sl.labels[r])
  }

  /** A finished frontier slot: a handle, equal to its path's value, to the subtree grown from its sample. */
  ghost predicate FrontierBuilt(tree: seq<NodeRec>, sl: Slots, subs: seq<SubRecord>, s: nat)
    requires Lengths(tree, sl) && s < |tree|
  {
    var n := tree[s];
    n.content.Handle? && n.left.None? && n.right.None? &&
    var h := n.content.handle;
    h == BinValue(sl.paths[s]) && h < |subs| && subs[h].sample == sl.samples[s] && subs[h].ys == sl.labels[s]
  }

  ghost predicate TopBuilt(d: nat, tree: seq<NodeRec>, sl: Slots, splits: seq<SplitRec>, subs: seq<SubRecord>, s: nat)
    requires Lengths(tree, sl) && s < |tree|
  {
    if sl.depths[s] < d then SplitBuilt(tree, sl, splits, s) else FrontierBuilt(tree, sl, subs, s)
  }

  /** Every slot is either waiting on the worklist or finished. */
  ghost predicate TopSlots(d: nat, tree: seq<NodeRec>, sl: Slots, splits: seq<SplitRec>, subs: seq<SubRecord>,
                           stack: seq<Item>)
    requires Lengths(tree, sl)
  {
    forall s | 0 <= s < |tree| ::
      if tree[s].content.NoContent? then tree[s] == Unset() && s in StackNodes(stack)
      else TopBuilt(d, tree, sl, splits, subs, s)
  }

  /** Every item on the worklist names a distinct empty slot and carries that slot's records. */
  ghost predicate TopStack(tree: seq<NodeRec>, sl: Slots, stack: seq<Item>)
    requires Lengths(tree, sl)
  {
    (forall k | 0 <= k < |stack| ::
       stack[k].node < |tree| && tree[stack[k].node].content.NoContent? &&
       stack[k].sample == sl.samples[stack[k].node] && stack[k].labels == sl.labels[stack[k].node] &&
       stack[k].depth == sl.depths[stack[k].node]) &&
    (forall k, k' | 0 <= k < k' < |stack| :: stack[k].node != stack[k'].node)
  }

  /** The records of two new children of slot `j`, one level deeper, holding the groups of its split. */
  function AddChildren(sl: Slots, j: nat, d: nat, g: Groups): Slots
    requires j < |sl.paths|
  {
    Slots(sl.depths + [d, d], sl.paths + [sl.paths[j] + ['0'], sl.paths[j] + ['1']],
          sl.samples + [g.left, g.right], sl.labels + [g.yl, g.yr])
  }

  // ---------------------------------------------------------------- frontier order

  /** The number of frontier slots below a slot at `depth`. */
  function Span(d: nat, depth: nat): nat
  {
    Pow2(if depth <= d then d - depth else 0)
  }

  /** The index of the leftmost subtree below a slot with this path. */
  function Lo(d: nat, path: string, depth: nat): nat
  {
    BinValue(path) * Span(d, depth)
  }

  function ItemLo(d: nat, sl: Slots, it: Item): nat
    requires it.node < |sl.paths|
  {
    Lo(d, sl.paths[it.node], it.depth)
  }

  /** The splits still to be made below the items of the worklist. */
  function Debt(d: nat, stack: seq<Item>): nat
  {
    if stack == [] then 0 else Debt(d, stack[..|stack| - 1]) + Span(d, stack[|stack| - 1].depth) - 1
  }

  /**
   * The worklist, read from its top down, covers the subtrees not yet
   * grown, in order and without gaps: the top item's first subtree is the
   * next one to append, each item's range ends where the one below it
   * starts, and the bottom item's ends at `2^d`. Splits made and splits owed
   * add up to `2^d - 1`.
   */
  ghost predicate Tiled(d: nat, sl: Slots, nSub: nat, nInfo: nat, stack: seq<Item>)
  {
    (forall k | 0 <= k < |stack| :: stack[k].node < |sl.paths|) &&
    (stack == [] ==> nSub == Pow2(d)) &&
    (stack != [] ==> ItemLo(d, sl, stack[|stack| - 1]) == nSub &&
                     ItemLo(d, sl, stack[0]) + Span(d, stack[0].depth) == Pow2(d)) &&
    (forall k | 0 <= k < |stack| - 1 ::
       ItemLo(d, sl, stack[k]) == ItemLo(d, sl, stack[k + 1]) + Span(d, stack[k + 1].depth)) &&
    nInfo + Debt(d, stack) == Pow2(d) - 1
  }

  /** `fit`'s loop invariant. */
  ghost predicate TopInv(tc: TopConfig, root: seq<nat>, rootLabels: seq<nat>, tree: seq<NodeRec>,
                         nodesInfo: seq<NodeInfo>, subtrees: seq<seq<NodeRec>>,
                         sl: Slots, splits: seq<SplitRec>, subs: seq<SubRecord>, stack: seq<Item>)
  {
    TopRecords(tc, root, rootLabels, tree, sl) &&
    SplitsMade(tc, nodesInfo, splits) && SubtreesGrown(tc, subtrees, subs) &&
    TopSlots(tc.distrDepth, tree, sl, splits, subs, stack) &&
    TopStack(tree, sl, stack) &&
    Tiled(tc.distrDepth, sl, |subtrees|, |nodesInfo|, stack)
  }

  /** The invariant before the first turn: one empty root slot holding the whole sample. */
  lemma TopStart(tc: TopConfig, root: seq<nat>, rootLabels: seq<nat>)
    requires tc.nClasses >= 1 && tc.mTry >= 1
    requires |rootLabels| == |root| && Fits(tc.features, tc.nFeatures, root)
    ensures TopInv(tc, root, rootLabels, [Unset()], [], [], Slots([0], [[]], [root], [rootLabels]), [], [],
                   [Item(0, root, rootLabels, 0)])
  {
    var stack := [Item(0, root, rootLabels, 0)];
    assert stack[0].node == 0 && 0 in StackNodes(stack);
    assert BinValue([]) == 0;
  }

  // ---------------------------------------------------------------- fit's loop

  /**
   * One turn of `fit`'s loop: pop the last item; above the frontier, split
   * it, register the split and push its two children, right first; at the
   * frontier, grow its subtree and register it.
   */
  method TopVisit(tc: TopConfig, ghost root: seq<nat>, ghost rootLabels: seq<nat>,
                  tree: seq<NodeRec>, nodesInfo: seq<NodeInfo>, subtrees: seq<seq<NodeRec>>,
                  ghost sl: Slots, ghost splits: seq<SplitRec>, ghost subs: seq<SubRecord>, stack: seq<Item>)
    returns (tree': seq<NodeRec>, nodesInfo': seq<NodeInfo>, subtrees': seq<seq<NodeRec>>,
             ghost sl': Slots, ghost splits': seq<SplitRec>, ghost subs': seq<SubRecord>, stack': seq<Item>)
    requires TopInv(tc, root, rootLabels, tree, nodesInfo, subtrees, sl, splits, subs, stack) && stack != []
    ensures TopInv(tc, root, rootLabels, tree', nodesInfo', subtrees', sl', splits', subs', stack')
    ensures StackWeight(tc.distrDepth, stack') < StackWeight(tc.distrDepth, stack)
  {
    var item := stack[|stack| - 1];
    var rest := stack[..|stack| - 1];
    assert stack == rest + [item];
    TopPop(tc, root, rootLabels, tree, nodesInfo, subtrees, sl, splits, subs, rest, item);
    if item.depth < tc.distrDepth {
      ghost var info, sr;
      tree', nodesInfo', stack', info, sr := SplitTop(tc, tree, nodesInfo, rest, item);
      sl', splits' := AddChildren(sl, item.node, item.depth + 1, sr.groups), splits + [sr];
      subtrees', subs' := subtrees, subs;
      TopExpand(tc, root, rootLabels, tree, nodesInfo, subtrees, sl, splits, subs, rest, item, info, sr,
                tree', nodesInfo', sl', splits', stack');
    } else {
      tree', subtrees', subs' := PlantSubtree(tc, root, rootLabels, tree, nodesInfo, subtrees, sl, splits, subs, rest, item);
      nodesInfo', sl', splits', stack' := nodesInfo, sl, splits, rest;
    }
  }

  /** What the invariant says about the popped item. */
  lemma TopPop(tc: TopConfig, root: seq<nat>, rootLabels: seq<nat>, tree: seq<NodeRec>,
               nodesInfo: seq<NodeInfo>, subtrees: seq<seq<NodeRec>>,
               sl: Slots, splits: seq<SplitRec>, subs: seq<SubRecord>, rest: seq<Item>, item: Item)
    requires TopInv(tc, root, rootLabels, tree, nodesInfo, subtrees, sl, splits, subs, rest + [item])
    ensures item.node < |tree| && item.sample == sl.samples[item.node] && item.labels == sl.labels[item.node]
    ensures item.depth == sl.depths[item.node] <= tc.distrDepth
    ensures |item.labels| == |item.sample| && Fits(tc.features, tc.nFeatures, item.sample)
    ensures tc.nClasses >= 1 && tc.mTry >= 1
  {
    var s := rest + [item];
    assert s[|rest|] == item;
  }

  /**
   * `compute_split` on the popped item: the node gets the next `nodes_info`
   * handle and two fresh children, and the children are pushed right first.
   */
  method SplitTop(tc: TopConfig, tree: seq<NodeRec>, nodesInfo: seq<NodeInfo>, rest: seq<Item>, item: Item)
    returns (tree': seq<NodeRec>, nodesInfo': seq<NodeInfo>, stack': seq<Item>, ghost info: NodeInfo, ghost sr: SplitRec)
    requires item.node < |tree|
    requires |item.labels| == |item.sample| && Fits(tc.features, tc.nFeatures, item.sample)
    requires tc.nClasses >= 1 && tc.mTry >= 1
    ensures SplitRecord(tc, info, sr) && sr.sample == item.sample && sr.ys == item.labels
    ensures tree' == tree[item.node := NodeRec(Handle(|nodesInfo|), Some(|tree|), Some(|tree| + 1))] + [Unset(), Unset()]
    ensures nodesInfo' == nodesInfo + [info]
    ensures stack' == rest + [Item(|tree| + 1, sr.groups.right, sr.groups.yr, item.depth + 1),
                              Item(|tree|, sr.groups.left, sr.groups.yl, item.depth + 1)]
  {
    var split, g, tried, _, index, value :=
      ComputeSplit(item.sample, tc.nFeatures, item.labels, tc.nClasses, tc.mTry, tc.features, tc.test);
    info, sr := split, SplitRec(index, value, item.sample, item.labels, g);
    SettledRecord(tc, info, sr, tried);
    var h, l, r, d := |nodesInfo|, |tree|, |tree| + 1, item.depth + 1;
    tree' := tree[item.node := NodeRec(Handle(h), Some(l), Some(r))] + [Unset(), Unset()];
    nodesInfo' := nodesInfo + [split];
    stack' := rest + [Item(r, g.right, g.yr, d), Item(l, g.left, g.yl, d)];
  }

  /** A settled `compute_split` is recorded as a split. */
  lemma SettledRecord(tc: TopConfig, info: NodeInfo, sr: SplitRec, tried: seq<nat>)
    requires Settled(sr.sample, sr.ys, tc.features, tc.nFeatures, tc.nClasses, tc.mTry, tc.test, info, sr.groups,
                     tried, sr.index, sr.value)
    requires tc.nClasses >= 1
    ensures SplitRecord(tc, info, sr)
  {
  }

  /** `build_subtree` on the popped item with `max_depth - depth` levels, and a handle to it. */
  method PlantSubtree(tc: TopConfig, ghost root: seq<nat>, ghost rootLabels: seq<nat>,
                      tree: seq<NodeRec>, ghost nodesInfo: seq<NodeInfo>, subtrees: seq<seq<NodeRec>>,
                      ghost sl: Slots, ghost splits: seq<SplitRec>, ghost subs: seq<SubRecord>, rest: seq<Item>, item: Item)
    returns (tree': seq<NodeRec>, subtrees': seq<seq<NodeRec>>, ghost subs': seq<SubRecord>)
    requires TopInv(tc, root, rootLabels, tree, nodesInfo, subtrees, sl, splits, subs, rest + [item])
    requires item.node < |tree| && item.depth == tc.distrDepth
    requires item.sample == sl.samples[item.node] && item.labels == sl.labels[item.node]
    requires |item.labels| == |item.sample| && Fits(tc.features, tc.nFeatures, item.sample)
    requires tc.nClasses >= 1 && tc.mTry >= 1
    ensures TopInv(tc, root, rootLabels, tree', nodesInfo, subtrees', sl, splits, subs', rest)
  {
    var nodes, depths, samples, labels :=
      BuildSubtreeIn(item.sample, item.labels, tc.nFeatures, tc.maxDepth - item.depth, tc.nClasses, tc.mTry,
                     tc.features, tc.test, true, SklearnMax);
    if |item.sample| > 0 {
      ReadsFeatures(SubConfig(tc), item.sample, item.labels, nodes, depths, samples, labels);
    }
    ghost var sr := SubRecord(item.sample, item.labels, depths, samples, labels);
    assert SubtreeRecord(tc, nodes, sr);
    var h := |subtrees|;
    tree' := tree[item.node := NodeRec(Handle(h), None, None)];
    subtrees' := subtrees + [nodes];
    subs' := subs + [sr];
    TopPlant(tc, root, rootLabels, tree, nodesInfo, subtrees, sl, splits, subs, rest, item, nodes, sr,
             tree', subtrees', subs');
  }

  // ---------------------------------------------------------------- the invariant is kept

  /**
   * A finished top slot stays finished when other slots change and records,
   * splits and subtrees are appended.
   */
  lemma TopBuiltFrame(d: nat, tree: seq<NodeRec>, sl: Slots, splits: seq<SplitRec>, subs: seq<SubRecord>,
                      tree': seq<NodeRec>, sl': Slots, splits': seq<SplitRec>, subs': seq<SubRecord>, s: nat)
    requires Lengths(tree, sl) && Lengths(tree', sl') && s < |tree| <= |tree'| && tree'[s] == tree[s]
    requires sl.depths == sl'.depths[..|tree|] && sl.paths == sl'.paths[..|tree|]
    requires sl.samples == sl'.samples[..|tree|] && sl.labels == sl'.labels[..|tree|]
    requires |splits| <= |splits'| && splits == splits'[..|splits|]
    requires |subs| <= |subs'| && subs == subs'[..|subs|]
    requires TopBuilt(d, tree, sl, splits, subs, s)
    ensures TopBuilt(d, tree', sl', splits', subs', s)
  {
    assert sl'.depths[s] == sl.depths[s] && sl'.paths[s] == sl.paths[s];
    assert sl'.samples[s] == sl.samples[s] && sl'.labels[s] == sl.labels[s];
    var n := tree[s];
    if sl.depths[s] < d {
      var h, l, r := n.content.handle, n.left.value, n.right.value;
      assert splits'[h] == splits[h];
      assert sl'.depths[l] == sl.depths[l] && sl'.paths[l] == sl.paths[l];
      assert sl'.samples[l] == sl.samples[l] && sl'.labels[l] == sl.labels[l];
      assert sl'.depths[r] == sl.depths[r] && sl'.paths[r] == sl.paths[r];
      assert sl'.samples[r] == sl.samples[r] && sl'.labels[r] == sl.labels[r];
    } else {
      assert subs'[n.content.handle] == subs[n.content.handle];
    }
  }

  /** Splitting the popped item and pushing its children keeps the invariant. */
  lemma TopExpand(tc: TopConfig, root: seq<nat>, rootLabels: seq<nat>,
                  tree: seq<NodeRec>, nodesInfo: seq<NodeInfo>, subtrees: seq<seq<NodeRec>>,
                  sl: Slots, splits: seq<SplitRec>, subs: seq<SubRecord>, rest: seq<Item>, item: Item,
                  info: NodeInfo, sr: SplitRec,
                  tree': seq<NodeRec>, nodesInfo': seq<NodeInfo>, sl': Slots, splits': seq<SplitRec>, stack': seq<Item>)
    requires TopInv(tc, root, rootLabels, tree, nodesInfo, subtrees, sl, splits, subs, rest + [item])
    requires item.node < |tree| && item.depth < tc.distrDepth
    requires item.sample == sl.samples[item.node] && item.labels == sl.labels[item.node]
    requires item.depth == sl.depths[item.node]
    requires SplitRecord(tc, info, sr) && sr.sample == item.sample && sr.ys == item.labels
    requires tree' == tree[item.node := NodeRec(Handle(|nodesInfo|), Some(|tree|), Some(|tree| + 1))] + [Unset(), Unset()]
    requires nodesInfo' == nodesInfo + [info] && splits' == splits + [sr]
    requires sl' == AddChildren(sl, item.node, item.depth + 1, sr.groups)
    requires stack' == rest + [Item(|tree| + 1, sr.groups.right, sr.groups.yr, item.depth + 1),
                               Item(|tree|, sr.groups.left, sr.groups.yl, item.depth + 1)]
    ensures TopInv(tc, root, rootLabels, tree', nodesInfo', subtrees, sl', splits', subs, stack')
    ensures StackWeight(tc.distrDepth, stack') < StackWeight(tc.distrDepth, rest) + Weight(tc.distrDepth, item.depth)
  {
    PushChildren(tc.distrDepth, rest, stack'[|rest|], stack'[|rest| + 1], item.depth);
    assert stack' == rest + [stack'[|rest|], stack'[|rest| + 1]];
    ExpandRecords(tc, root, rootLabels, tree, nodesInfo, sl, splits, item, info, sr, tree', nodesInfo', sl', splits');
    ExpandWorklist(tc.distrDepth, tree, sl, splits, subs, |subtrees|, |nodesInfo|, rest, item, sr, tree', sl', splits', stack');
  }

  /** The per-slot records and the split registry after a split. */
  lemma ExpandRecords(tc: TopConfig, root: seq<nat>, rootLabels: seq<nat>,
                      tree: seq<NodeRec>, nodesInfo: seq<NodeInfo>, sl: Slots, splits: seq<SplitRec>,
                      item: Item, info: NodeInfo, sr: SplitRec,
                      tree': seq<NodeRec>, nodesInfo': seq<NodeInfo>, sl': Slots, splits': seq<SplitRec>)
    requires TopRecords(tc, root, rootLabels, tree, sl) && SplitsMade(tc, nodesInfo, splits)
    requires item.node < |tree| && item.depth < tc.distrDepth && item.depth == sl.depths[item.node]
    requires SplitRecord(tc, info, sr)
    requires |tree'| == |tree| + 2 && sl' == AddChildren(sl, item.node, item.depth + 1, sr.groups)
    requires nodesInfo' == nodesInfo + [info] && splits' == splits + [sr]
    ensures TopRecords(tc, root, rootLabels, tree', sl') && SplitsMade(tc, nodesInfo', splits')
  {
    SplitChildren(tc, info, sr);
    ExpandTopRecords(tc, root, rootLabels, tree, sl, item, sr.groups, tree', sl');
    SplitsMadeGrow(tc, nodesInfo, splits, info, sr);
  }

  /** The slots, the worklist and the tiling after a split. */
  lemma ExpandWorklist(d: nat, tree: seq<NodeRec>, sl: Slots, splits: seq<SplitRec>, subs: seq<SubRecord>,
                       nSub: nat, h: nat, rest: seq<Item>, item: Item, sr: SplitRec,
                       tree': seq<NodeRec>, sl': Slots, splits': seq<SplitRec>, stack': seq<Item>)
    requires Lengths(tree, sl) && h == |splits|
    requires TopSlots(d, tree, sl, splits, subs, rest + [item]) && TopStack(tree, sl, rest + [item])
    requires Tiled(d, sl, nSub, h, rest + [item])
    requires item.node < |tree| && item.depth < d && item.depth == sl.depths[item.node]
    requires sr.sample == sl.samples[item.node] && sr.ys == sl.labels[item.node]
    requires tree' == tree[item.node := NodeRec(Handle(h), Some(|tree|), Some(|tree| + 1))] + [Unset(), Unset()]
    requires splits' == splits + [sr]
    requires sl' == AddChildren(sl, item.node, item.depth + 1, sr.groups)
    requires stack' == rest + [Item(|tree| + 1, sr.groups.right, sr.groups.yr, item.depth + 1),
                               Item(|tree|, sr.groups.left, sr.groups.yl, item.depth + 1)]
    ensures Lengths(tree', sl') && TopSlots(d, tree', sl', splits', subs, stack') && TopStack(tree', sl', stack')
    ensures Tiled(d, sl', nSub, h + 1, stack')
  {
    ExpandTopSlots(d, tree, sl, splits, subs, rest, item, sr, h, tree', sl', splits', stack');
    ExpandTopStack(tree, sl, rest, item, sr.groups, h, tree', sl', stack');
    ExpandTiled(d, sl, nSub, h, rest, item, sr.groups, |tree|, sl', stack');
  }

  lemma SplitsMadeGrow(tc: TopConfig, nodesInfo: seq<NodeInfo>, splits: seq<SplitRec>, info: NodeInfo, sr: SplitRec)
    requires SplitsMade(tc, nodesInfo, splits) && SplitRecord(tc, info, sr)
    ensures SplitsMade(tc, nodesInfo + [info], splits + [sr])
  {
    forall h | 0 <= h < |splits| + 1 ensures SplitRecord(tc, (nodesInfo + [info])[h], (splits + [sr])[h])
    {
      if h < |splits| {
        assert (nodesInfo + [info])[h] == nodesInfo[h] && (splits + [sr])[h] == splits[h];
      }
    }
  }

  /** The groups of a recorded split are labelled samples of the same store, as its sample was. */
  lemma SplitChildren(tc: TopConfig, info: NodeInfo, sr: SplitRec)
    requires SplitRecord(tc, info, sr)
    ensures |sr.groups.yl| == |sr.groups.left| && |sr.groups.yr| == |sr.groups.right|
    ensures Fits(tc.features, tc.nFeatures, sr.groups.left) && Fits(tc.features, tc.nFeatures, sr.groups.right)
  {
    GroupsPartition(sr.sample, sr.ys, tc.features, sr.index, sr.value);
    if sr.index.None? {
      assert sr.groups.left == sr.sample && sr.groups.right == [];
    }
  }

  lemma ExpandTopRecords(tc: TopConfig, root: seq<nat>, rootLabels: seq<nat>, tree: seq<NodeRec>, sl: Slots,
                         item: Item, g: Groups, tree': seq<NodeRec>, sl': Slots)
    requires TopRecords(tc, root, rootLabels, tree, sl)
    requires item.node < |tree| && item.depth < tc.distrDepth && item.depth == sl.depths[item.node]
    requires |g.yl| == |g.left| && |g.yr| == |g.right|
    requires Fits(tc.features, tc.nFeatures, g.left) && Fits(tc.features, tc.nFeatures, g.right)
    requires |tree'| == |tree| + 2
    requires sl' == AddChildren(sl, item.node, item.depth + 1, g)
    ensures TopRecords(tc, root, rootLabels, tree', sl')
  {
    var p := sl.paths[item.node];
    assert IsBits(p + ['0']) && IsBits(p + ['1']);
    forall s | 0 <= s < |tree'|
      ensures sl'.depths[s] <= tc.distrDepth && |sl'.paths[s]| == sl'.depths[s] && IsBits(sl'.paths[s]) &&
              |sl'.labels[s]| == |sl'.samples[s]| && Fits(tc.features, tc.nFeatures, sl'.samples[s])
    {
      if s < |tree| {
        assert sl'.depths[s] == sl.depths[s] && sl'.paths[s] == sl.paths[s];
        assert sl'.samples[s] == sl.samples[s] && sl'.labels[s] == sl.labels[s];
      }
    }
  }

  lemma ExpandTopSlots(d: nat, tree: seq<NodeRec>, sl: Slots, splits: seq<SplitRec>, subs: seq<SubRecord>,
                       rest: seq<Item>, item: Item, sr: SplitRec, h: nat,
                       tree': seq<NodeRec>, sl': Slots, splits': seq<SplitRec>, stack': seq<Item>)
    requires Lengths(tree, sl) && h == |splits|
    requires TopSlots(d, tree, sl, splits, subs, rest + [item])
    requires TopStack(tree, sl, rest + [item])
    requires item.node < |tree| && item.depth < d && item.depth == sl.depths[item.node]
    requires sr.sample == sl.samples[item.node] && sr.ys == sl.labels[item.node]
    requires tree' == tree[item.node := NodeRec(Handle(h), Some(|tree|), Some(|tree| + 1))] + [Unset(), Unset()]
    requires splits' == splits + [sr]
    requires sl' == AddChildren(sl, item.node, item.depth + 1, sr.groups)
    requires stack' == rest + [Item(|tree| + 1, sr.groups.right, sr.groups.yr, item.depth + 1),
                               Item(|tree|, sr.groups.left, sr.groups.yl, item.depth + 1)]
    ensures Lengths(tree', sl') && TopSlots(d, tree', sl', splits', subs, stack')
  {
    var j, l, r, g := item.node, |tree|, |tree| + 1, sr.groups;
    assert sl'.depths[j] == item.depth && sl'.paths[l] == sl'.paths[j] + ['0'] && sl'.paths[r] == sl'.paths[j] + ['1'];
    assert splits'[h] == sr && sl'.samples[j] == sr.sample && sl'.labels[j] == sr.ys;
    assert g == Groups(sl'.samples[l], sl'.labels[l], sl'.samples[r], sl'.labels[r]);
    assert SplitBuilt(tree', sl', splits', j);
    assert sl.depths == sl'.depths[..|tree|] && sl.paths == sl'.paths[..|tree|];
    assert sl.samples == sl'.samples[..|tree|] && sl.labels == sl'.labels[..|tree|];
    assert splits == splits'[..|splits|];
    KeptSlots(d, tree, sl, splits, subs, rest, item, tree', sl', splits', stack');
    assert l in StackNodes(stack') by { assert stack'[|rest| + 1].node == l; }
    assert r in StackNodes(stack') by { assert stack'[|rest|].node == r; }
  }

  /** The slots that existed before the split keep their standing. */
  lemma KeptSlots(d: nat, tree: seq<NodeRec>, sl: Slots, splits: seq<SplitRec>, subs: seq<SubRecord>,
                  rest: seq<Item>, item: Item, tree': seq<NodeRec>, sl': Slots, splits': seq<SplitRec>, stack': seq<Item>)
    requires Lengths(tree, sl) && Lengths(tree', sl') && |tree| <= |tree'| && item.node < |tree|
    requires TopSlots(d, tree, sl, splits, subs, rest + [item])
    requires TopStack(tree, sl, rest + [item])
    requires forall i | 0 <= i < |tree| && i != item.node :: tree'[i] == tree[i]
    requires sl.depths == sl'.depths[..|tree|] && sl.paths == sl'.paths[..|tree|]
    requires sl.samples == sl'.samples[..|tree|] && sl.labels == sl'.labels[..|tree|]
    requires |splits| <= |splits'| && splits == splits'[..|splits|]
    requires |rest| <= |stack'| && stack'[..|rest|] == rest
    ensures forall i | 0 <= i < |tree| && i != item.node ::
              if tree'[i].content.NoContent? then tree'[i] == Unset() && i in StackNodes(stack')
              else TopBuilt(d, tree', sl', splits', subs, i)
  {
    var s := rest + [item];
    assert s[|rest|] == item;
    forall i | 0 <= i < |tree| && i != item.node
      ensures if tree'[i].content.NoContent? then tree'[i] == Unset() && i in StackNodes(stack')
              else TopBuilt(d, tree', sl', splits', subs, i)
    {
      if tree[i].content.NoContent? {
        var k :| 0 <= k < |s| && s[k].node == i;
        assert k < |rest| && stack'[k] == stack'[..|rest|][k] == s[k];
      } else {
        TopBuiltFrame(d, tree, sl, splits, subs, tree', sl', splits', subs, i);
      }
    }
  }

  lemma ExpandTopStack(tree: seq<NodeRec>, sl: Slots, rest: seq<Item>, item: Item, g: Groups, h: nat,
                       tree': seq<NodeRec>, sl': Slots, stack': seq<Item>)
    requires Lengths(tree, sl)
    requires TopStack(tree, sl, rest + [item])
    requires item.node < |tree|
    requires tree' == tree[item.node := NodeRec(Handle(h), Some(|tree|), Some(|tree| + 1))] + [Unset(), Unset()]
    requires sl' == AddChildren(sl, item.node, item.depth + 1, g)
    requires stack' == rest + [Item(|tree| + 1, g.right, g.yr, item.depth + 1), Item(|tree|, g.left, g.yl, item.depth + 1)]
    ensures Lengths(tree', sl') && TopStack(tree', sl', stack')
  {
    var s := rest + [item];
    assert s[|rest|] == item;
    forall k | 0 <= k < |stack'|
      ensures stack'[k].node < |tree'| && tree'[stack'[k].node].content.NoContent? &&
              stack'[k].sample == sl'.samples[stack'[k].node] && stack'[k].labels == sl'.labels[stack'[k].node] &&
              stack'[k].depth == sl'.depths[stack'[k].node]
    {
      if k < |rest| {
        assert stack'[k] == s[k] && s[k].node != item.node;
      }
    }
    forall k, k' | 0 <= k < k' < |stack'| ensures stack'[k].node != stack'[k'].node
    {
      if k < |rest| {
        assert stack'[k] == s[k];
        if k' < |rest| {
          assert stack'[k'] == s[k'];
        }
      }
    }
  }

  /** Halving a range: the left child's subtrees come first, then the right child's. */
  lemma HalfRange(d: nat, path: string, depth: nat)
    requires depth < d
    ensures Span(d, depth) == 2 * Span(d, depth + 1)
    ensures Lo(d, path + ['0'], depth + 1) == Lo(d, path, depth)
    ensures Lo(d, path + ['1'], depth + 1) == Lo(d, path, depth) + Span(d, depth + 1)
  {
    assert (path + ['0'])[..|path|] == path && (path + ['1'])[..|path|] == path;
    var v, h := BinValue(path), Span(d, depth + 1);
    assert BinValue(path + ['0']) == 2 * v && BinValue(path + ['1']) == 2 * v + 1;
    calc {
      Lo(d, path + ['1'], depth + 1);
      (2 * v + 1) * h;
      v * (2 * h) + h;
    }
  }

  /** Replacing an item by its two children settles one split of its debt. */
  lemma PushDebt(d: nat, rest: seq<Item>, item: Item, right: Item, left: Item)
    requires item.depth < d && right.depth == item.depth + 1 && left.depth == item.depth + 1
    ensures Debt(d, rest + [right, left]) + 1 == Debt(d, rest + [item])
  {
    HalfRange(d, [], item.depth);
    var s, s' := rest + [item], rest + [right, left];
    assert s[..|s| - 1] == rest;
    assert s'[..|s'| - 1] == rest + [right] && (rest + [right])[..|rest|] == rest;
  }

  lemma ExpandTiled(d: nat, sl: Slots, nSub: nat, nInfo: nat, rest: seq<Item>, item: Item, g: Groups,
                    n: nat, sl': Slots, stack': seq<Item>)
    requires Tiled(d, sl, nSub, nInfo, rest + [item])
    requires n == |sl.paths| && item.node < n && item.depth < d
    requires sl' == AddChildren(sl, item.node, item.depth + 1, g)
    requires stack' == rest + [Item(n + 1, g.right, g.yr, item.depth + 1), Item(n, g.left, g.yl, item.depth + 1)]
    ensures Tiled(d, sl', nSub, nInfo + 1, stack')
  {
    var s := rest + [item];
    var right, left := stack'[|rest|], stack'[|rest| + 1];
    assert s[|rest|] == item;
    var p := sl.paths[item.node];
    HalfRange(d, p, item.depth);
    assert sl'.paths[left.node] == p + ['0'] && sl'.paths[right.node] == p + ['1'];
    assert ItemLo(d, sl', left) == ItemLo(d, sl, item);
    assert ItemLo(d, sl', right) == ItemLo(d, sl', left) + Span(d, left.depth);
    forall k | 0 <= k < |rest| ensures stack'[k] == s[k] && ItemLo(d, sl', s[k]) == ItemLo(d, sl, s[k])
    {
      assert sl'.paths[s[k].node] == sl.paths[s[k].node];
    }
    PushDebt(d, rest, item, right, left);
    if rest != [] {
      assert stack'[0] == s[0];
    }
    forall k | 0 <= k < |stack'| - 1
      ensures ItemLo(d, sl', stack'[k]) == ItemLo(d, sl', stack'[k + 1]) + Span(d, stack'[k + 1].depth)
    {
      if k + 1 < |rest| {
      } else if k + 1 == |rest| {
        assert s[k + 1] == item;
      }
    }
  }

  /** Registering the popped frontier item's subtree keeps the invariant. */
  lemma TopPlant(tc: TopConfig, root: seq<nat>, rootLabels: seq<nat>,
                 tree: seq<NodeRec>, nodesInfo: seq<NodeInfo>, subtrees: seq<seq<NodeRec>>,
                 sl: Slots, splits: seq<SplitRec>, subs: seq<SubRecord>, rest: seq<Item>, item: Item,
                 nodes: seq<NodeRec>, sr: SubRecord, tree': seq<NodeRec>, subtrees': seq<seq<NodeRec>>, subs': seq<SubRecord>)
    requires TopInv(tc, root, rootLabels, tree, nodesInfo, subtrees, sl, splits, subs, rest + [item])
    requires item.node < |tree| && item.depth == tc.distrDepth
    requires sr.sample == sl.samples[item.node] && sr.ys == sl.labels[item.node]
    requires SubtreeRecord(tc, nodes, sr)
    requires tree' == tree[item.node := NodeRec(Handle(|subtrees|), None, None)]
    requires subtrees' == subtrees + [nodes] && subs' == subs + [sr]
    ensures TopInv(tc, root, rootLabels, tree', nodesInfo, subtrees', sl, splits, subs', rest)
  {
    var s := rest + [item];
    assert s[|rest|] == item;
    PlantTiled(tc.distrDepth, sl, |subtrees|, |nodesInfo|, rest, item);
    SubtreesGrow(tc, subtrees, subs, nodes, sr);
    PlantTopSlots(tc.distrDepth, tree, sl, splits, subs, rest, item, sr, tree', subs');
    PlantTopStack(tree, sl, rest, item, tree');
  }

  lemma SubtreesGrow(tc: TopConfig, subtrees: seq<seq<NodeRec>>, subs: seq<SubRecord>, nodes: seq<NodeRec>, sr: SubRecord)
    requires SubtreesGrown(tc, subtrees, subs) && SubtreeRecord(tc, nodes, sr)
    ensures SubtreesGrown(tc, subtrees + [nodes], subs + [sr])
  {
    forall h | 0 <= h < |subs| + 1 ensures SubtreeRecord(tc, (subtrees + [nodes])[h], (subs + [sr])[h])
    {
      if h < |subs| {
        assert (subtrees + [nodes])[h] == subtrees[h] && (subs + [sr])[h] == subs[h];
      }
    }
  }

  lemma PlantTiled(d: nat, sl: Slots, nSub: nat, nInfo: nat, rest: seq<Item>, item: Item)
    requires Tiled(d, sl, nSub, nInfo, rest + [item])
    requires item.node < |sl.paths| && item.depth == d
    ensures BinValue(sl.paths[item.node]) == nSub
    ensures Tiled(d, sl, nSub + 1, nInfo, rest)
  {
    var s := rest + [item];
    assert s[|rest|] == item;
    assert s[..|s| - 1] == rest;
    forall k | 0 <= k < |rest| ensures rest[k] == s[k] {}
    if rest != [] {
      assert ItemLo(d, sl, s[|rest| - 1]) == ItemLo(d, sl, item) + Span(d, item.depth);
    }
  }

  lemma PlantTopSlots(d: nat, tree: seq<NodeRec>, sl: Slots, splits: seq<SplitRec>, subs: seq<SubRecord>,
                      rest: seq<Item>, item: Item, sr: SubRecord, tree': seq<NodeRec>, subs': seq<SubRecord>)
    requires Lengths(tree, sl)
    requires TopSlots(d, tree, sl, splits, subs, rest + [item])
    requires TopStack(tree, sl, rest + [item])
    requires item.node < |tree| && item.depth == d && item.depth == sl.depths[item.node]
    requires sr.sample == sl.samples[item.node] && sr.ys == sl.labels[item.node]
    requires BinValue(sl.paths[item.node]) == |subs|
    requires tree' == tree[item.node := NodeRec(Handle(|subs|), None, None)]
    requires subs' == subs + [sr]
    ensures Lengths(tree', sl) && TopSlots(d, tree', sl, splits, subs', rest)
  {
    var s, j := rest + [item], item.node;
    assert s[|rest|] == item;
    assert subs == subs'[..|subs|] && subs'[|subs|] == sr;
    assert sl.depths == sl.depths[..|tree|] && sl.paths == sl.paths[..|tree|];
    assert sl.samples == sl.samples[..|tree|] && sl.labels == sl.labels[..|tree|];
    assert splits == splits[..|splits|];
    assert FrontierBuilt(tree', sl, subs', j);
    forall i | 0 <= i < |tree'| && i != j
      ensures if tree'[i].content.NoContent? then tree'[i] == Unset() && i in StackNodes(rest)
              else TopBuilt(d, tree', sl, splits, subs', i)
    {
      if tree[i].content.NoContent? {
        var k :| 0 <= k < |s| && s[k].node == i;
        assert k < |rest| && rest[k] == s[k];
      } else {
        TopBuiltFrame(d, tree, sl, splits, subs, tree', sl, splits, subs', i);
      }
    }
  }

  lemma PlantTopStack(tree: seq<NodeRec>, sl: Slots, rest: seq<Item>, item: Item, tree': seq<NodeRec>)
    requires Lengths(tree, sl) && item.node < |tree|
    requires TopStack(tree, sl, rest + [item])
    requires |tree'| == |tree| && forall i | 0 <= i < |tree| && i != item.node :: tree'[i] == tree[i]
    ensures Lengths(tree', sl) && TopStack(tree', sl, rest)
  {
    var s := rest + [item];
    assert s[|rest|] == item;
    forall k | 0 <= k < |rest| ensures rest[k] == s[k] && rest[k].node != item.node
    {
      assert rest[k] == s[k];
    }
    forall k, k' | 0 <= k < k' < |rest| ensures rest[k].node != rest[k'].node
    {
      assert rest[k] == s[k] && rest[k'] == s[k'];
    }
  }

  // ---------------------------------------------------------------- the finished top tree

  /** Once the worklist is empty, every slot is finished. */
  lemma AllBuilt(tc: TopConfig, root: seq<nat>, rootLabels: seq<nat>, tree: seq<NodeRec>,
                 nodesInfo: seq<NodeInfo>, subtrees: seq<seq<NodeRec>>,
                 sl: Slots, splits: seq<SplitRec>, subs: seq<SubRecord>, s: nat)
    requires TopInv(tc, root, rootLabels, tree, nodesInfo, subtrees, sl, splits, subs, []) && s < |tree|
    ensures TopBuilt(tc.distrDepth, tree, sl, splits, subs, s)
  {
    assert StackNodes([]) == {};
  }

  /** Slot `s` has two children one level deeper, whose paths add '0' and '1' to its own. */
  ghost predicate Forks(tree: seq<NodeRec>, sl: Slots, s: nat)
    requires Lengths(tree, sl) && s < |tree|
  {
    tree[s].left.Some? && tree[s].right.Some? &&
    var l, r := tree[s].left.value, tree[s].right.value;
    l < |tree| && r < |tree| &&
    sl.depths[l] == sl.depths[s] + 1 && sl.depths[r] == sl.depths[s] + 1 &&
    sl.paths[l] == sl.paths[s] + ['0'] && sl.paths[r] == sl.paths[s] + ['1']
  }

  /** The forks above the frontier, with the root's records: all that walking down needs. */
  ghost predicate Spine(d: nat, tree: seq<NodeRec>, sl: Slots)
  {
    Lengths(tree, sl) && |tree| > 0 && sl.paths[0] == [] && sl.depths[0] == 0 &&
    forall s | 0 <= s < |tree| && sl.depths[s] < d :: Forks(tree, sl, s)
  }

  lemma TopSpine(tc: TopConfig, root: seq<nat>, rootLabels: seq<nat>, tree: seq<NodeRec>,
                 nodesInfo: seq<NodeInfo>, subtrees: seq<seq<NodeRec>>,
                 sl: Slots, splits: seq<SplitRec>, subs: seq<SubRecord>)
    requires TopInv(tc, root, rootLabels, tree, nodesInfo, subtrees, sl, splits, subs, [])
    ensures Spine(tc.distrDepth, tree, sl)
  {
    forall s | 0 <= s < |tree| && sl.depths[s] < tc.distrDepth ensures Forks(tree, sl, s)
    {
      AllBuilt(tc, root, rootLabels, tree, nodesInfo, subtrees, sl, splits, subs, s);
    }
  }

  /** The walk to `p` ends at the slot created for `p`. */
  ghost predicate Placed(tree: seq<NodeRec>, sl: Slots, p: string)
  {
    Lengths(tree, sl) && Walk(tree, p).Some? && sl.paths[Walk(tree, p).value] == p && sl.depths[Walk(tree, p).value] == |p|
  }

  /** Dropping the last digit of a non-empty bit path leaves a bit path. */
  lemma LastDigit(p: string) returns (q: string, c: char)
    requires IsBits(p) && p != []
    ensures IsBits(q) && (c == '0' || c == '1') && p == q + [c] && |q| == |p| - 1
  {
    q, c := p[..|p| - 1], p[|p| - 1];
    assert forall k | 0 <= k < |q| :: q[k] == p[k];
  }

  /**
   * Following a bit path of at most `distr_depth` digits from the root of
   * the finished top tree, '0' to the left and '1' to the right, reaches
   * the node created for that path.
   */
  lemma {:induction false} TopWalk(d: nat, tree: seq<NodeRec>, sl: Slots, p: string)
    requires Spine(d, tree, sl) && IsBits(p) && |p| <= d
    ensures Placed(tree, sl, p)
    decreases |p|
  {
    if p != [] {
      var q, c := LastDigit(p);
      TopWalk(d, tree, sl, q);
      WalkStep(tree, sl, q, c);
    }
  }

  /** One step down from the node created for `q` reaches the node created for `q` plus that digit. */
  lemma WalkStep(tree: seq<NodeRec>, sl: Slots, q: string, c: char)
    requires Placed(tree, sl, q) && Forks(tree, sl, Walk(tree, q).value)
    requires c == '0' || c == '1'
    ensures Placed(tree, sl, q + [c])
    ensures Walk(tree, q + [c]) == if c == '0' then tree[Walk(tree, q).value].left else tree[Walk(tree, q).value].right
  {
    assert (q + [c])[..|q|] == q;
  }

  /** The node a path of `d` digits or fewer reaches: above the frontier, a split with two children; at it, the subtree the path spells. */
  predicate NodeAt(tree: seq<NodeRec>, nodesInfo: seq<NodeInfo>, d: nat, p: string, s: nat)
    requires s < |tree|
  {
    if |p| < d then
      tree[s].content.Handle? && tree[s].content.handle < |nodesInfo| && tree[s].left.Some? && tree[s].right.Some?
    else
      tree[s].content == Handle(BinValue(p)) && tree[s].left.None? && tree[s].right.None?
  }

  /** The path leads to a node, and that node is as `NodeAt` says. */
  predicate Reaches(tree: seq<NodeRec>, nodesInfo: seq<NodeInfo>, d: nat, p: string)
  {
    Walk(tree, p).Some? && NodeAt(tree, nodesInfo, d, p, Walk(tree, p).value)
  }

  /**
   * The top tree as `fit` leaves it: `2^d - 1` entries in `nodes_info`,
   * `2^d` subtrees, every bit path of at most `d` digits leads to a node,
   * those above the frontier hold a handle into `nodes_info` and the ones
   * at the frontier the index of their subtree; every split reads an
   * existing feature, and every subtree is well formed and reads only
   * existing features.
   */
  ghost predicate Fitted(tree: seq<NodeRec>, nodesInfo: seq<NodeInfo>, subtrees: seq<seq<NodeRec>>, d: nat, nFeatures: nat)
  {
    |nodesInfo| == Pow2(d) - 1 && |subtrees| == Pow2(d) &&
    (forall p: string {:trigger Reaches(tree, nodesInfo, d, p)} | IsBits(p) && |p| <= d :: Reaches(tree, nodesInfo, d, p)) &&
    (forall h | 0 <= h < |nodesInfo| && nodesInfo[h].InnerNodeInfo? :: nodesInfo[h].index < nFeatures) &&
    (forall h | 0 <= h < |subtrees| :: SubtreeWF(subtrees[h]) && ReadsBelow(subtrees[h], nFeatures))
  }

  /** The finished worklist leaves a fitted top tree. */
  lemma TopFitted(tc: TopConfig, root: seq<nat>, rootLabels: seq<nat>, tree: seq<NodeRec>,
                  nodesInfo: seq<NodeInfo>, subtrees: seq<seq<NodeRec>>,
                  sl: Slots, splits: seq<SplitRec>, subs: seq<SubRecord>)
    requires TopInv(tc, root, rootLabels, tree, nodesInfo, subtrees, sl, splits, subs, [])
    ensures Fitted(tree, nodesInfo, subtrees, tc.distrDepth, tc.nFeatures)
  {
    var d := tc.distrDepth;
    TopSpine(tc, root, rootLabels, tree, nodesInfo, subtrees, sl, splits, subs);
    forall p: string | IsBits(p) && |p| <= d
      ensures Reaches(tree, nodesInfo, d, p)
    {
      TopWalk(d, tree, sl, p);
      AllBuilt(tc, root, rootLabels, tree, nodesInfo, subtrees, sl, splits, subs, Walk(tree, p).value);
    }
    forall h | 0 <= h < |nodesInfo| && nodesInfo[h].InnerNodeInfo? ensures nodesInfo[h].index < tc.nFeatures
    {
      assert SplitRecord(tc, nodesInfo[h], splits[h]);
    }
    forall h | 0 <= h < |subtrees| ensures SubtreeWF(subtrees[h]) && ReadsBelow(subtrees[h], tc.nFeatures)
    {
      assert SubtreeRecord(tc, subtrees[h], subs[h]);
    }
  }

  /**
   * Subtree `i` hangs at the end of `get_subtree_path(i, d)`, in the node
   * whose content is `i`, and was grown with `max_depth - d` levels from
   * the sample and labels that reached that node.
   */
  lemma SubtreeAt(tc: TopConfig, root: seq<nat>, rootLabels: seq<nat>, tree: seq<NodeRec>,
                  nodesInfo: seq<NodeInfo>, subtrees: seq<seq<NodeRec>>,
                  sl: Slots, splits: seq<SplitRec>, subs: seq<SubRecord>, i: nat)
    requires TopInv(tc, root, rootLabels, tree, nodesInfo, subtrees, sl, splits, subs, [])
    requires i < Pow2(tc.distrDepth)
    ensures Walk(tree, SubtreePath(i, tc.distrDepth)).Some?
    ensures var s := Walk(tree, SubtreePath(i, tc.distrDepth)).value;
            tree[s].content == Handle(i) && i < |subtrees| &&
            subs[i].sample == sl.samples[s] && subs[i].ys == sl.labels[s] && SubtreeRecord(tc, subtrees[i], subs[i])
  {
    var p := SubtreePath(i, tc.distrDepth);
    TopSpine(tc, root, rootLabels, tree, nodesInfo, subtrees, sl, splits, subs);
    TopWalk(tc.distrDepth, tree, sl, p);
    AllBuilt(tc, root, rootLabels, tree, nodesInfo, subtrees, sl, splits, subs, Walk(tree, p).value);
  }

  /**
   * The node at the end of a path shorter than `d` holds the handle of the
   * `nodes_info` entry that `compute_split` produced for the sample that
   * reached it, and its two children received that split's groups.
   */
  lemma SplitAtPath(tc: TopConfig, root: seq<nat>, rootLabels: seq<nat>, tree: seq<NodeRec>,
                    nodesInfo: seq<NodeInfo>, subtrees: seq<seq<NodeRec>>,
                    sl: Slots, splits: seq<SplitRec>, subs: seq<SubRecord>, p: string)
    requires TopInv(tc, root, rootLabels, tree, nodesInfo, subtrees, sl, splits, subs, [])
    requires IsBits(p) && |p| < tc.distrDepth
    ensures Walk(tree, p).Some? && Walk(tree, p + ['0']).Some? && Walk(tree, p + ['1']).Some?
    ensures var s := Walk(tree, p).value;
            tree[s].content.Handle? && tree[s].content.handle < |nodesInfo| &&
            var h := tree[s].content.handle;
            SplitRecord(tc, nodesInfo[h], splits[h]) &&
            splits[h].sample == sl.samples[s] && splits[h].ys == sl.labels[s] &&
            splits[h].groups.left == sl.samples[Walk(tree, p + ['0']).value] &&
            splits[h].groups.right == sl.samples[Walk(tree, p + ['1']).value]
  {
    TopSpine(tc, root, rootLabels, tree, nodesInfo, subtrees, sl, splits, subs);
    TopWalk(tc.distrDepth, tree, sl, p);
    var s := Walk(tree, p).value;
    AllBuilt(tc, root, rootLabels, tree, nodesInfo, subtrees, sl, splits, subs, s);
    assert SplitBuilt(tree, sl, splits, s);
    WalkStep(tree, sl, p, '0');
    WalkStep(tree, sl, p, '1');
    assert SplitRecord(tc, nodesInfo[tree[s].content.handle], splits[tree[s].content.handle]);
  }

  /** Every `nodes_info` entry is an inner split, the only kind prediction can read. */
  predicate AllInner(nodesInfo: seq<NodeInfo>)
  {
    forall h | 0 <= h < |nodesInfo| :: nodesInfo[h].InnerNodeInfo?
  }

  /** In a fitted top tree whose splits all succeeded, `get_predicted_indices` can follow every bit path. */
  lemma {:induction false} FittedRoutes(tree: seq<NodeRec>, nodesInfo: seq<NodeInfo>, subtrees: seq<seq<NodeRec>>,
                                        d: nat, nFeatures: nat, p: string)
    requires Fitted(tree, nodesInfo, subtrees, d, nFeatures) && AllInner(nodesInfo)
    requires IsBits(p) && |p| <= d
    ensures Routes(tree, nodesInfo, p)
    decreases |p|
  {
    if p != [] {
      var q := p[..|p| - 1];
      assert IsBits(q) by {
        forall k | 0 <= k < |q| ensures q[k] == '0' || q[k] == '1' { assert q[k] == p[k]; }
      }
      FittedRoutes(tree, nodesInfo, subtrees, d, nFeatures, q);
      assert Reaches(tree, nodesInfo, d, q) && Reaches(tree, nodesInfo, d, p);
    }
  }

  lemma FittedComplete(tree: seq<NodeRec>, nodesInfo: seq<NodeInfo>, subtrees: seq<seq<NodeRec>>, d: nat, nFeatures: nat)
    requires Fitted(tree, nodesInfo, subtrees, d, nFeatures) && AllInner(nodesInfo)
    ensures Routing.Complete(tree, nodesInfo, d)
  {
    forall p: string | IsBits(p) && |p| <= d ensures Routes(tree, nodesInfo, p)
    {
      FittedRoutes(tree, nodesInfo, subtrees, d, nFeatures, p);
    }
  }
}
