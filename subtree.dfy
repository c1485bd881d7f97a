/**
 * `build_subtree_in`: grows one subtree below the distributed top levels,
 * depth first, with an explicit stack of `(node, sample, labels, depth)`
 * items. A node at or below the depth limit becomes a leaf; above it, a
 * node whose sample is small enough is handed to the delegated dense-tree
 * solver; otherwise it is split with `compute_split`, and an accepted split
 * pushes the right child and then the left one.
 *
 * The nodes live in an arena (see `Nodes`): a new node is an `Unset()` slot
 * appended at the end. Ghost sequences record, for every slot, the depth,
 * the sample and the labels it was created with.
 */
module Subtree {
  import opened Wrappers
  import opened Nodes
  import opened Split

  /** A pending entry of `tree_traversal`. */
  datatype Item = Item(node: nat, sample: seq<nat>, labels: seq<nat>, depth: nat)

  /** The parameters `build_subtree_in` passes down unchanged. */
  datatype Config = Config(features: seq<seq<int>>, nFeatures: nat, maxDepth: int, nClasses: nat,
                           mTry: nat, test: SplitTest, useSklearn: bool, sklearnMax: int)

  /** `use_sklearn and n_features * len(sample) <= sklearn_max`, above the depth limit. */
  predicate Delegates(c: Config, depth: nat, size: nat)
  {
    depth < c.maxDepth && c.useSklearn && c.nFeatures * size <= c.sklearnMax
  }

  /** Every row of `s` is a row of the subtree's sample. */
  predicate Within(s: seq<nat>, root: seq<nat>)
  {
    forall x | x in s :: x in root
  }

  lemma WithinFits(c: Config, s: seq<nat>, root: seq<nat>)
    requires Fits(c.features, c.nFeatures, root) && Within(s, root)
    ensures Fits(c.features, c.nFeatures, s)
  {
  }

  /** `info` is a node `compute_split` can return for this sample and these labels. */
  ghost predicate Chosen(c: Config, sample: seq<nat>, ys: seq<nat>, info: NodeInfo)
  {
    Concludes(sample, ys, c.features, c.nFeatures, c.nClasses, c.mTry, c.test, info)
  }

  /** The slot records line up with the arena, and every slot holds a non-empty part of the sample. */
  ghost predicate Records(c: Config, root: seq<nat>, rootLabels: seq<nat>, nodes: seq<NodeRec>,
                          depths: seq<nat>, samples: seq<seq<nat>>, labels: seq<seq<nat>>)
  {
    |depths| == |nodes| && |samples| == |nodes| && |labels| == |nodes| &&
    Fits(c.features, c.nFeatures, root) &&
    forall i | 0 <= i < |nodes| ::
      |labels[i]| == |samples[i]| && |samples[i]| > 0 &&
      Within(samples[i], root) && Within(labels[i], rootLabels)
  }

  /**
   * What the builder left in finished slot `i`, given the depth, sample and
   * labels it was created with.
   */
  ghost predicate Built(c: Config, root: seq<nat>, rootLabels: seq<nat>, nodes: seq<NodeRec>,
                        depths: seq<nat>, samples: seq<seq<nat>>, labels: seq<seq<nat>>, i: nat)
    requires Records(c, root, rootLabels, nodes, depths, samples, labels) && i < |nodes|
  {
    var n, d := nodes[i], depths[i];
    if c.maxDepth <= d then
      n == NodeRec(Info(ComputeLeafInfo(labels[i], c.nClasses)), None, None)
    else if Delegates(c, d, |samples[i]|) then
      n == NodeRec(SkTree(DelegateFit(samples[i], labels[i], c.maxDepth - d, c.mTry)), None, None)
    else
      n == NodeRec(Info(ComputeLeafInfo(labels[i], c.nClasses)), None, None) ||
      (IsInner(n.content) && SplitChildren(c, root, rootLabels, nodes, depths, samples, labels, i))
  }

  /**
   * A slot that `compute_split` fills (above the depth limit, not delegated)
   * holds a node `compute_split` can return for the slot's sample and labels.
   */
  ghost predicate SlotChosen(c: Config, nodes: seq<NodeRec>, depths: seq<nat>, samples: seq<seq<nat>>,
                             labels: seq<seq<nat>>, i: nat)
    requires |depths| == |nodes| && |samples| == |nodes| && |labels| == |nodes| && i < |nodes|
  {
    depths[i] < c.maxDepth && !Delegates(c, depths[i], |samples[i]|) && nodes[i].content.Info? ==>
      Chosen(c, samples[i], labels[i], nodes[i].content.info)
  }

  ghost predicate SplitsChosen(c: Config, nodes: seq<NodeRec>, depths: seq<nat>, samples: seq<seq<nat>>,
                               labels: seq<seq<nat>>)
    requires |depths| == |nodes| && |samples| == |nodes| && |labels| == |nodes|
  {
    forall i | 0 <= i < |nodes| :: SlotChosen(c, nodes, depths, samples, labels, i)
  }

  /**
   * An inner slot `i`: its two children come after it, one level deeper, and
   * were created with the two groups of its split.
   */
  ghost predicate SplitChildren(c: Config, root: seq<nat>, rootLabels: seq<nat>, nodes: seq<NodeRec>,
                                depths: seq<nat>, samples: seq<seq<nat>>, labels: seq<seq<nat>>, i: nat)
    requires Records(c, root, rootLabels, nodes, depths, samples, labels) && i < |nodes|
    requires IsInner(nodes[i].content)
  {
    var n, info := nodes[i], nodes[i].content.info;
    info.index < c.nFeatures && n.left.Some? && n.right.Some? &&
    var l, r := n.left.value, n.right.value;
    i < l < |nodes| && i < r < |nodes| && l != r &&
    depths[l] == depths[i] + 1 && depths[r] == depths[i] + 1 &&
    (WithinFits(c, samples[i], root);
     var g := GetGroups(samples[i], labels[i], c.features, Some(info.index), Some(info.value));
     samples[l] == g.left && labels[l] == g.yl && samples[r] == g.right && labels[r] == g.yr)
  }

  /** The slots the stack still has to fill. */
  function StackNodes(stack: seq<Item>): set<nat>
  {
    set k | 0 <= k < |stack| :: stack[k].node
  }

  /** Every slot is either still waiting on the stack or built. */
  ghost predicate SlotsDone(c: Config, root: seq<nat>, rootLabels: seq<nat>, nodes: seq<NodeRec>,
                            depths: seq<nat>, samples: seq<seq<nat>>, labels: seq<seq<nat>>, stack: seq<Item>)
    requires Records(c, root, rootLabels, nodes, depths, samples, labels)
  {
    forall i | 0 <= i < |nodes| ::
      if nodes[i].content.NoContent? then nodes[i] == Unset() && i in StackNodes(stack)
      else Built(c, root, rootLabels, nodes, depths, samples, labels, i)
  }

  /** Every stacked item names a distinct empty slot and carries that slot's records. */
  ghost predicate StackMatches(nodes: seq<NodeRec>, depths: seq<nat>, samples: seq<seq<nat>>, labels: seq<seq<nat>>,
                               stack: seq<Item>)
    requires |depths| == |nodes| && |samples| == |nodes| && |labels| == |nodes|
  {
    (forall k | 0 <= k < |stack| ::
       stack[k].node < |nodes| && nodes[stack[k].node].content.NoContent? &&
       stack[k].sample == samples[stack[k].node] && stack[k].labels == labels[stack[k].node] &&
       stack[k].depth == depths[stack[k].node]) &&
    (forall k, k' | 0 <= k < k' < |stack| :: stack[k].node != stack[k'].node)
  }

  /** The builder's loop invariant. */
  ghost predicate BuildInv(c: Config, root: seq<nat>, rootLabels: seq<nat>, nodes: seq<NodeRec>,
                           depths: seq<nat>, samples: seq<seq<nat>>, labels: seq<seq<nat>>, stack: seq<Item>)
  {
    Records(c, root, rootLabels, nodes, depths, samples, labels) &&
    |nodes| > 0 && depths[0] == 0 && samples[0] == root && labels[0] == rootLabels &&
    SplitsChosen(c, nodes, depths, samples, labels) &&
    SlotsDone(c, root, rootLabels, nodes, depths, samples, labels, stack) &&
    StackMatches(nodes, depths, samples, labels, stack)
  }

  /** A finished subtree: the root slot holds the whole sample at depth 0 and every slot is built. */
  ghost predicate BuiltTree(c: Config, root: seq<nat>, rootLabels: seq<nat>, nodes: seq<NodeRec>,
                            depths: seq<nat>, samples: seq<seq<nat>>, labels: seq<seq<nat>>)
  {
    Records(c, root, rootLabels, nodes, depths, samples, labels) && |nodes| > 0 &&
    depths[0] == 0 && samples[0] == root && labels[0] == rootLabels &&
    SplitsChosen(c, nodes, depths, samples, labels) &&
    forall i | 0 <= i < |nodes| :: Built(c, root, rootLabels, nodes, depths, samples, labels, i)
  }

  // ---------------------------------------------------------------- termination

  /** The most slots an item at depth `d` can still cause to be visited. */
  function Weight(maxDepth: int, d: nat): nat
    decreases if d < maxDepth then maxDepth - d else 0
  {
    if maxDepth <= d then 1 else 2 * Weight(maxDepth, d + 1) + 1
  }

  function StackWeight(maxDepth: int, stack: seq<Item>): nat
  {
    if stack == [] then 0
    else StackWeight(maxDepth, stack[..|stack| - 1]) + Weight(maxDepth, stack[|stack| - 1].depth)
  }

  /** Replacing an item above the depth limit by its two children lowers the weight. */
  lemma PushChildren(maxDepth: int, init: seq<Item>, right: Item, left: Item, d: nat)
    requires d < maxDepth && right.depth == d + 1 && left.depth == d + 1
    ensures StackWeight(maxDepth, init + [right, left]) < StackWeight(maxDepth, init) + Weight(maxDepth, d)
  {
    var s := init + [right, left];
    assert s[..|s| - 1] == init + [right];
    assert (init + [right])[..|init|] == init;
  }

  // ---------------------------------------------------------------- the builder

  /**
   * `build_subtree_in`: `[]` for an empty sample; otherwise a finished
   * subtree whose root holds the whole sample. Every slot is built as
   * `Built` describes, so in particular a slot at or below the depth limit is
   * the leaf of its labels, and a split's children sit one level deeper; and
   * every slot `compute_split` filled holds a node it can return for the
   * slot's sample (`SplitsChosen`).
   */
  method BuildSubtreeIn(sample: seq<nat>, ys: seq<nat>, nFeatures: nat, maxDepth: int, nClasses: nat, mTry: nat,
                        features: seq<seq<int>>, test: SplitTest, useSklearn: bool, sklearnMax: int)
    returns (nodes: seq<NodeRec>, ghost depths: seq<nat>, ghost samples: seq<seq<nat>>, ghost labels: seq<seq<nat>>)
    requires |ys| == |sample| && mTry >= 1
    requires Fits(features, nFeatures, sample)
    ensures |sample| == 0 <==> nodes == []
    ensures SubtreeWF(nodes)
    ensures |sample| > 0 ==>
              BuiltTree(Config(features, nFeatures, maxDepth, nClasses, mTry, test, useSklearn, sklearnMax),
                        sample, ys, nodes, depths, samples, labels)
  {
    var c := Config(features, nFeatures, maxDepth, nClasses, mTry, test, useSklearn, sklearnMax);
    if |sample| == 0 {
      return [], [], [], [];
    }
    nodes, depths, samples, labels := [Unset()], [0], [sample], [ys];
    var stack := [Item(0, sample, ys, 0)];
    assert Within(sample, sample) && Within(ys, ys);
    assert stack[0].node == 0 && 0 in StackNodes(stack);
    while stack != []
      invariant BuildInv(c, sample, ys, nodes, depths, samples, labels, stack)
      decreases StackWeight(maxDepth, stack)
    {
      nodes, depths, samples, labels, stack := Visit(c, sample, ys, nodes, depths, samples, labels, stack);
    }
    Complete(c, sample, ys, nodes, depths, samples, labels);
  }

  /**
   * One turn of `build_subtree_in`'s loop: pop the last item and fill its
   * slot with a leaf, a delegated solver, or a split whose children are
   * pushed right first, so that the left one is visited next.
   */
  method Visit(c: Config, ghost root: seq<nat>, ghost rootLabels: seq<nat>, nodes: seq<NodeRec>,
               ghost depths: seq<nat>, ghost samples: seq<seq<nat>>, ghost labels: seq<seq<nat>>, stack: seq<Item>)
    returns (nodes': seq<NodeRec>, ghost depths': seq<nat>, ghost samples': seq<seq<nat>>, ghost labels': seq<seq<nat>>,
             stack': seq<Item>)
    requires BuildInv(c, root, rootLabels, nodes, depths, samples, labels, stack) && stack != [] && c.mTry >= 1
    ensures BuildInv(c, root, rootLabels, nodes', depths', samples', labels', stack')
    ensures StackWeight(c.maxDepth, stack') < StackWeight(c.maxDepth, stack)
  {
    var item := stack[|stack| - 1];
    stack' := stack[..|stack| - 1];
    assert stack == stack' + [item];
    if item.depth < c.maxDepth && !(c.useSklearn && c.nFeatures * |item.sample| <= c.sklearnMax) {
      ghost var info;
      nodes', depths', samples', labels', stack', info :=
        SplitSlot(c, root, rootLabels, nodes, depths, samples, labels, stack', item);
    } else {
      var rec;
      if item.depth < c.maxDepth {
        rec := NodeRec(SkTree(DelegateFit(item.sample, item.labels, c.maxDepth - item.depth, c.mTry)), None, None);
      } else {
        rec := NodeRec(Info(ComputeLeafInfo(item.labels, c.nClasses)), None, None);
      }
      Finish(c, root, rootLabels, nodes, depths, samples, labels, stack', item, rec);
      nodes', depths', samples', labels' := nodes[item.node := rec], depths, samples, labels;
    }
  }

  /**
   * The `compute_split` branch of the loop: a leaf fills the slot; a split
   * fills it and appends the two children, whose items are pushed right
   * first.
   */
  method SplitSlot(c: Config, ghost root: seq<nat>, ghost rootLabels: seq<nat>, nodes: seq<NodeRec>,
                   ghost depths: seq<nat>, ghost samples: seq<seq<nat>>, ghost labels: seq<seq<nat>>,
                   rest: seq<Item>, item: Item)
    returns (nodes': seq<NodeRec>, ghost depths': seq<nat>, ghost samples': seq<seq<nat>>, ghost labels': seq<seq<nat>>,
             stack': seq<Item>, ghost info: NodeInfo)
    requires BuildInv(c, root, rootLabels, nodes, depths, samples, labels, rest + [item]) && c.mTry >= 1
    requires item.node < |nodes| && item.depth < c.maxDepth && !Delegates(c, item.depth, |item.sample|)
    ensures BuildInv(c, root, rootLabels, nodes', depths', samples', labels', stack')
    ensures StackWeight(c.maxDepth, stack') < StackWeight(c.maxDepth, rest) + Weight(c.maxDepth, item.depth)
    ensures Chosen(c, item.sample, item.labels, info)
    ensures info.LeafInfo? ==> nodes' == nodes[item.node := NodeRec(Info(info), None, None)] && stack' == rest
    ensures info.InnerNodeInfo? ==>
              nodes' == nodes[item.node := NodeRec(Info(info), Some(|nodes|), Some(|nodes| + 1))] + [Unset(), Unset()] &&
              stack' == rest + [Item(|nodes| + 1, samples'[|nodes| + 1], labels'[|nodes| + 1], item.depth + 1),
                                Item(|nodes|, samples'[|nodes|], labels'[|nodes|], item.depth + 1)]
  {
    PopFacts(c, root, rootLabels, nodes, depths, samples, labels, rest, item);
    var split: NodeInfo, g: Groups;
    ghost var tried, rounds, index, value;
    split, g, tried, rounds, index, value :=
      ComputeSplit(item.sample, c.nFeatures, item.labels, c.nClasses, c.mTry, c.features, c.test);
    YieldsConcludes(item.sample, item.labels, c.features, c.nFeatures, c.nClasses, c.mTry, c.test, split, index, value);
    info := split;
    if split.InnerNodeInfo? {
      var l, r, d: nat := |nodes|, |nodes| + 1, item.depth + 1;
      var right, left := Item(r, g.right, g.yr, d), Item(l, g.left, g.yl, d);
      PushChildren(c.maxDepth, rest, right, left, item.depth);
      nodes' := nodes[item.node := NodeRec(Info(split), Some(l), Some(r))] + [Unset(), Unset()];
      depths', samples', labels' := depths + [d, d], samples + [g.left, g.right], labels + [g.yl, g.yr];
      stack' := rest + [right, left];
      Expand(c, root, rootLabels, nodes, depths, samples, labels, rest, item, split, g, nodes', depths', samples', labels', stack');
    } else {
      var rec := NodeRec(Info(split), None, None);
      Finish(c, root, rootLabels, nodes, depths, samples, labels, rest, item, rec);
      nodes', depths', samples', labels', stack' := nodes[item.node := rec], depths, samples, labels, rest;
    }
  }

  /** What the invariant says about the popped item. */
  lemma PopFacts(c: Config, root: seq<nat>, rootLabels: seq<nat>, nodes: seq<NodeRec>,
                 depths: seq<nat>, samples: seq<seq<nat>>, labels: seq<seq<nat>>, rest: seq<Item>, item: Item)
    requires BuildInv(c, root, rootLabels, nodes, depths, samples, labels, rest + [item])
    ensures item.node < |nodes| && item.sample == samples[item.node] && item.labels == labels[item.node]
    ensures |item.labels| == |item.sample| > 0
    ensures Fits(c.features, c.nFeatures, item.sample)
  {
    var s := rest + [item];
    assert s[|rest|] == item;
    WithinFits(c, item.sample, root);
  }

  /** The node `build_subtree_in` puts in a slot that gets no children. */
  ghost predicate FinishedAs(c: Config, item: Item, rec: NodeRec)
    requires |item.labels| > 0
  {
    if c.maxDepth <= item.depth then
      rec == NodeRec(Info(ComputeLeafInfo(item.labels, c.nClasses)), None, None)
    else if Delegates(c, item.depth, |item.sample|) then
      rec == NodeRec(SkTree(DelegateFit(item.sample, item.labels, c.maxDepth - item.depth, c.mTry)), None, None)
    else
      rec == NodeRec(Info(ComputeLeafInfo(item.labels, c.nClasses)), None, None) &&
      Chosen(c, item.sample, item.labels, rec.content.info)
  }

  /**
   * A finished slot stays finished when other slots change and new slots are
   * appended: what `Built` reads of the arena is the slot itself and the
   * records of the children it already has.
   */
  lemma BuiltFrame(c: Config, root: seq<nat>, rootLabels: seq<nat>,
                   nodes: seq<NodeRec>, depths: seq<nat>, samples: seq<seq<nat>>, labels: seq<seq<nat>>,
                   nodes': seq<NodeRec>, depths': seq<nat>, samples': seq<seq<nat>>, labels': seq<seq<nat>>, i: nat)
    requires Records(c, root, rootLabels, nodes, depths, samples, labels)
    requires Records(c, root, rootLabels, nodes', depths', samples', labels')
    requires i < |nodes| <= |nodes'| && nodes'[i] == nodes[i]
    requires depths == depths'[..|nodes|] && samples == samples'[..|nodes|] && labels == labels'[..|nodes|]
    requires Built(c, root, rootLabels, nodes, depths, samples, labels, i)
    ensures Built(c, root, rootLabels, nodes', depths', samples', labels', i)
  {
    assert depths'[i] == depths[i] && samples'[i] == samples[i] && labels'[i] == labels[i];
    var n := nodes[i];
    if c.maxDepth > depths[i] && !Delegates(c, depths[i], |samples[i]|) && IsInner(n.content) &&
       SplitChildren(c, root, rootLabels, nodes, depths, samples, labels, i) {
      var l, r := n.left.value, n.right.value;
      assert depths'[l] == depths[l] && samples'[l] == samples[l] && labels'[l] == labels[l];
      assert depths'[r] == depths[r] && samples'[r] == samples[r] && labels'[r] == labels[r];
    }
  }

  /** Filling the popped slot with a node that has no children keeps the invariant. */
  lemma Finish(c: Config, root: seq<nat>, rootLabels: seq<nat>, nodes: seq<NodeRec>,
               depths: seq<nat>, samples: seq<seq<nat>>, labels: seq<seq<nat>>,
               stack: seq<Item>, item: Item, rec: NodeRec)
    requires BuildInv(c, root, rootLabels, nodes, depths, samples, labels, stack + [item])
    requires item.node < |nodes| && |item.labels| > 0
    requires FinishedAs(c, item, rec)
    ensures BuildInv(c, root, rootLabels, nodes[item.node := rec], depths, samples, labels, stack)
  {
    var s := stack + [item];
    assert s[|stack|] == item;
    ChooseSlot(c, nodes, depths, samples, labels, item.node, rec, nodes[item.node := rec], depths, samples, labels);
    FinishSlots(c, root, rootLabels, nodes, depths, samples, labels, stack, item, rec);
    PopStack(nodes, depths, samples, labels, stack, item, rec);
  }

  lemma FinishSlots(c: Config, root: seq<nat>, rootLabels: seq<nat>, nodes: seq<NodeRec>,
                    depths: seq<nat>, samples: seq<seq<nat>>, labels: seq<seq<nat>>,
                    stack: seq<Item>, item: Item, rec: NodeRec)
    requires Records(c, root, rootLabels, nodes, depths, samples, labels)
    requires SlotsDone(c, root, rootLabels, nodes, depths, samples, labels, stack + [item])
    requires StackMatches(nodes, depths, samples, labels, stack + [item])
    requires item.node < |nodes| && item.depth == depths[item.node]
    requires item.sample == samples[item.node] && item.labels == labels[item.node]
    requires FinishedAs(c, item, rec)
    ensures SlotsDone(c, root, rootLabels, nodes[item.node := rec], depths, samples, labels, stack)
  {
    var s, j, nodes' := stack + [item], item.node, nodes[item.node := rec];
    assert s[|stack|] == item;
    forall i | 0 <= i < |nodes'|
      ensures if nodes'[i].content.NoContent? then nodes'[i] == Unset() && i in StackNodes(stack)
              else Built(c, root, rootLabels, nodes', depths, samples, labels, i)
    {
      if i == j {
        assert Built(c, root, rootLabels, nodes', depths, samples, labels, i);
      } else if nodes[i].content.NoContent? {
        StillStacked(stack, item, [], i);
      } else {
        BuiltFrame(c, root, rootLabels, nodes, depths, samples, labels, nodes', depths, samples, labels, i);
      }
    }
  }

  /** Popping `item`, and pushing `pushed` after, leaves every other stacked slot on the stack. */
  lemma StillStacked(stack: seq<Item>, item: Item, pushed: seq<Item>, i: nat)
    requires i in StackNodes(stack + [item]) && i != item.node
    ensures i in StackNodes(stack) && i in StackNodes(stack + pushed)
  {
    var s := stack + [item];
    var k :| 0 <= k < |s| && s[k].node == i;
    assert k < |stack| && stack[k] == s[k] && (stack + pushed)[k] == s[k];
  }

  /**
   * Filling slot `j` with a node `compute_split` can return there, and
   * appending empty slots, keeps every filled slot chosen.
   */
  lemma ChooseSlot(c: Config, nodes: seq<NodeRec>, depths: seq<nat>, samples: seq<seq<nat>>, labels: seq<seq<nat>>,
                   j: nat, rec: NodeRec,
                   nodes': seq<NodeRec>, depths': seq<nat>, samples': seq<seq<nat>>, labels': seq<seq<nat>>)
    requires |depths| == |nodes| && |samples| == |nodes| && |labels| == |nodes| && j < |nodes|
    requires |depths'| == |nodes'| && |samples'| == |nodes'| && |labels'| == |nodes'| && |nodes| <= |nodes'|
    requires depths == depths'[..|nodes|] && samples == samples'[..|nodes|] && labels == labels'[..|nodes|]
    requires nodes'[..|nodes|] == nodes[j := rec] && forall i | |nodes| <= i < |nodes'| :: nodes'[i] == Unset()
    requires SplitsChosen(c, nodes, depths, samples, labels)
    requires depths[j] < c.maxDepth && !Delegates(c, depths[j], |samples[j]|) && rec.content.Info? ==>
               Chosen(c, samples[j], labels[j], rec.content.info)
    ensures SplitsChosen(c, nodes', depths', samples', labels')
  {
    forall i | 0 <= i < |nodes'| ensures SlotChosen(c, nodes', depths', samples', labels', i)
    {
      if i < |nodes| {
        assert nodes'[i] == nodes[j := rec][i];
        assert depths'[i] == depths[i] && samples'[i] == samples[i] && labels'[i] == labels[i];
        if i != j {
          assert SlotChosen(c, nodes, depths, samples, labels, i);
        }
      }
    }
  }

  /** Popping an item and filling its slot leaves the rest of the stack matching. */
  lemma PopStack(nodes: seq<NodeRec>, depths: seq<nat>, samples: seq<seq<nat>>, labels: seq<seq<nat>>,
                 stack: seq<Item>, item: Item, rec: NodeRec)
    requires |depths| == |nodes| && |samples| == |nodes| && |labels| == |nodes|
    requires StackMatches(nodes, depths, samples, labels, stack + [item])
    requires item.node < |nodes|
    ensures StackMatches(nodes[item.node := rec], depths, samples, labels, stack)
  {
    var s := stack + [item];
    assert s[|stack|] == item;
    forall k | 0 <= k < |stack| ensures stack[k] == s[k] && stack[k].node != item.node
    {
      assert stack[k] == s[k];
    }
    forall k, k' | 0 <= k < k' < |stack| ensures stack[k].node != stack[k'].node
    {
      assert stack[k] == s[k] && stack[k'] == s[k'];
    }
  }

  /** The two groups of an accepted split are non-empty parts of the sample and of its labels. */
  lemma ChildRecords(c: Config, root: seq<nat>, rootLabels: seq<nat>, item: Item, info: NodeInfo, g: Groups)
    requires Fits(c.features, c.nFeatures, root) && Within(item.sample, root) && Within(item.labels, rootLabels)
    requires info.InnerNodeInfo? && info.index < c.nFeatures && |g.left| > 0 && |g.right| > 0
    requires Fits(c.features, c.nFeatures, item.sample) && |item.labels| == |item.sample|
    requires g == GetGroups(item.sample, item.labels, c.features, Some(info.index), Some(info.value))
    ensures |g.yl| == |g.left| > 0 && |g.yr| == |g.right| > 0
    ensures Within(g.left, root) && Within(g.right, root) && Within(g.yl, rootLabels) && Within(g.yr, rootLabels)
  {
    GroupsPartition(item.sample, item.labels, c.features, Some(info.index), Some(info.value));
    forall x | x in g.yl ensures x in rootLabels
    {
      assert x in multiset(g.yl) + multiset(g.yr);
    }
    forall x | x in g.yr ensures x in rootLabels
    {
      assert x in multiset(g.yl) + multiset(g.yr);
    }
  }

  /** Splitting the popped slot and pushing its two new children keeps the invariant. */
  lemma Expand(c: Config, root: seq<nat>, rootLabels: seq<nat>, nodes: seq<NodeRec>,
               depths: seq<nat>, samples: seq<seq<nat>>, labels: seq<seq<nat>>,
               stack: seq<Item>, item: Item, info: NodeInfo, g: Groups,
               nodes': seq<NodeRec>, depths': seq<nat>, samples': seq<seq<nat>>, labels': seq<seq<nat>>, stack': seq<Item>)
    requires BuildInv(c, root, rootLabels, nodes, depths, samples, labels, stack + [item])
    requires item.node < |nodes|
    requires item.depth < c.maxDepth && !Delegates(c, item.depth, |item.sample|)
    requires info.InnerNodeInfo? && info.index < c.nFeatures && |g.left| > 0 && |g.right| > 0
    requires Chosen(c, item.sample, item.labels, info)
    requires Fits(c.features, c.nFeatures, item.sample) && |item.labels| == |item.sample|
    requires g == GetGroups(item.sample, item.labels, c.features, Some(info.index), Some(info.value))
    requires nodes' == nodes[item.node := NodeRec(Info(info), Some(|nodes|), Some(|nodes| + 1))] + [Unset(), Unset()]
    requires depths' == depths + [item.depth + 1, item.depth + 1]
    requires samples' == samples + [g.left, g.right] && labels' == labels + [g.yl, g.yr]
    requires stack' == stack + [Item(|nodes| + 1, g.right, g.yr, item.depth + 1), Item(|nodes|, g.left, g.yl, item.depth + 1)]
    ensures BuildInv(c, root, rootLabels, nodes', depths', samples', labels', stack')
  {
    var s := stack + [item];
    assert s[|stack|] == item;
    ChildRecords(c, root, rootLabels, item, info, g);
    ChooseSlot(c, nodes, depths, samples, labels, item.node, NodeRec(Info(info), Some(|nodes|), Some(|nodes| + 1)),
               nodes', depths', samples', labels');
    ExpandRecords(c, root, rootLabels, nodes, depths, samples, labels, g, nodes', depths', samples', labels');
    ExpandSlots(c, root, rootLabels, nodes, depths, samples, labels, stack, item, info, g,
                nodes', depths', samples', labels', stack');
    PushStack(nodes, depths, samples, labels, stack, item, info, g, nodes', depths', samples', labels', stack');
  }

  lemma ExpandRecords(c: Config, root: seq<nat>, rootLabels: seq<nat>, nodes: seq<NodeRec>,
                      depths: seq<nat>, samples: seq<seq<nat>>, labels: seq<seq<nat>>, g: Groups,
                      nodes': seq<NodeRec>, depths': seq<nat>, samples': seq<seq<nat>>, labels': seq<seq<nat>>)
    requires Records(c, root, rootLabels, nodes, depths, samples, labels)
    requires |g.yl| == |g.left| > 0 && |g.yr| == |g.right| > 0
    requires Within(g.left, root) && Within(g.right, root) && Within(g.yl, rootLabels) && Within(g.yr, rootLabels)
    requires |nodes'| == |nodes| + 2 && |depths'| == |nodes| + 2
    requires samples' == samples + [g.left, g.right] && labels' == labels + [g.yl, g.yr]
    ensures Records(c, root, rootLabels, nodes', depths', samples', labels')
  {
    forall i | 0 <= i < |nodes'|
      ensures |labels'[i]| == |samples'[i]| && |samples'[i]| > 0 &&
              Within(samples'[i], root) && Within(labels'[i], rootLabels)
    {
      if i < |nodes| {
        assert samples'[i] == samples[i] && labels'[i] == labels[i];
      }
    }
  }

  lemma ExpandSlots(c: Config, root: seq<nat>, rootLabels: seq<nat>, nodes: seq<NodeRec>,
                    depths: seq<nat>, samples: seq<seq<nat>>, labels: seq<seq<nat>>,
                    stack: seq<Item>, item: Item, info: NodeInfo, g: Groups,
                    nodes': seq<NodeRec>, depths': seq<nat>, samples': seq<seq<nat>>, labels': seq<seq<nat>>, stack': seq<Item>)
    requires Records(c, root, rootLabels, nodes, depths, samples, labels)
    requires Records(c, root, rootLabels, nodes', depths', samples', labels')
    requires SlotsDone(c, root, rootLabels, nodes, depths, samples, labels, stack + [item])
    requires StackMatches(nodes, depths, samples, labels, stack + [item])
    requires item.node < |nodes| && item.depth == depths[item.node]
    requires item.sample == samples[item.node] && item.labels == labels[item.node]
    requires item.depth < c.maxDepth && !Delegates(c, item.depth, |item.sample|)
    requires info.InnerNodeInfo? && info.index < c.nFeatures
    requires Fits(c.features, c.nFeatures, item.sample)
    requires g == GetGroups(item.sample, item.labels, c.features, Some(info.index), Some(info.value))
    requires nodes' == nodes[item.node := NodeRec(Info(info), Some(|nodes|), Some(|nodes| + 1))] + [Unset(), Unset()]
    requires depths' == depths + [item.depth + 1, item.depth + 1]
    requires samples' == samples + [g.left, g.right] && labels' == labels + [g.yl, g.yr]
    requires stack' == stack + [Item(|nodes| + 1, g.right, g.yr, item.depth + 1), Item(|nodes|, g.left, g.yl, item.depth + 1)]
    ensures SlotsDone(c, root, rootLabels, nodes', depths', samples', labels', stack')
  {
    var s, j, l, r := stack + [item], item.node, |nodes|, |nodes| + 1;
    assert depths == depths'[..|nodes|] && samples == samples'[..|nodes|] && labels == labels'[..|nodes|];
    assert l in StackNodes(stack') by { assert stack'[|stack| + 1].node == l; }
    assert r in StackNodes(stack') by { assert stack'[|stack|].node == r; }
    forall i | 0 <= i < |nodes'|
      ensures if nodes'[i].content.NoContent? then nodes'[i] == Unset() && i in StackNodes(stack')
              else Built(c, root, rootLabels, nodes', depths', samples', labels', i)
    {
      if i == j {
        assert SplitChildren(c, root, rootLabels, nodes', depths', samples', labels', i);
      } else if i >= |nodes| {
      } else if nodes[i].content.NoContent? {
        StillStacked(stack, item, stack'[|stack|..], i);
        assert stack' == stack + stack'[|stack|..];
      } else {
        BuiltFrame(c, root, rootLabels, nodes, depths, samples, labels, nodes', depths', samples', labels', i);
      }
    }
  }

  /** Popping an item, filling its slot and pushing its two new child slots leaves the stack matching. */
  lemma PushStack(nodes: seq<NodeRec>, depths: seq<nat>, samples: seq<seq<nat>>, labels: seq<seq<nat>>,
                  stack: seq<Item>, item: Item, info: NodeInfo, g: Groups,
                  nodes': seq<NodeRec>, depths': seq<nat>, samples': seq<seq<nat>>, labels': seq<seq<nat>>, stack': seq<Item>)
    requires |depths| == |nodes| && |samples| == |nodes| && |labels| == |nodes|
    requires StackMatches(nodes, depths, samples, labels, stack + [item])
    requires item.node < |nodes|
    requires nodes' == nodes[item.node := NodeRec(Info(info), Some(|nodes|), Some(|nodes| + 1))] + [Unset(), Unset()]
    requires depths' == depths + [item.depth + 1, item.depth + 1]
    requires samples' == samples + [g.left, g.right] && labels' == labels + [g.yl, g.yr]
    requires stack' == stack + [Item(|nodes| + 1, g.right, g.yr, item.depth + 1), Item(|nodes|, g.left, g.yl, item.depth + 1)]
    ensures StackMatches(nodes', depths', samples', labels', stack')
  {
    var rec := NodeRec(Info(info), Some(|nodes|), Some(|nodes| + 1));
    PopStack(nodes, depths, samples, labels, stack, item, rec);
    forall k | 0 <= k < |stack'|
      ensures stack'[k].node < |nodes'| && nodes'[stack'[k].node].content.NoContent? &&
              stack'[k].sample == samples'[stack'[k].node] && stack'[k].labels == labels'[stack'[k].node] &&
              stack'[k].depth == depths'[stack'[k].node]
    {
      if k < |stack| {
        assert stack'[k] == stack[k];
      }
    }
    forall k, k' | 0 <= k < k' < |stack'| ensures stack'[k].node != stack'[k'].node
    {
      if k < |stack| {
        assert stack'[k] == stack[k];
        if k' < |stack| {
          assert stack'[k'] == stack[k'];
        }
      }
    }
  }

  /** With nothing left on the stack every slot is built. */
  lemma Complete(c: Config, root: seq<nat>, rootLabels: seq<nat>, nodes: seq<NodeRec>,
                 depths: seq<nat>, samples: seq<seq<nat>>, labels: seq<seq<nat>>)
    requires BuildInv(c, root, rootLabels, nodes, depths, samples, labels, [])
    ensures SubtreeWF(nodes)
    ensures BuiltTree(c, root, rootLabels, nodes, depths, samples, labels)
  {
    forall i | 0 <= i < |nodes| ensures NodeWF(nodes, i)
    {
      assert Built(c, root, rootLabels, nodes, depths, samples, labels, i);
    }
  }

  // ---------------------------------------------------------------- properties of a built subtree

  /** A slot at depth `d` has at most `maxDepth - d` levels below it, and none at or past the limit. */
  lemma {:induction false} HeightBound(c: Config, root: seq<nat>, rootLabels: seq<nat>, nodes: seq<NodeRec>,
                                       depths: seq<nat>, samples: seq<seq<nat>>, labels: seq<seq<nat>>, i: nat)
    requires BuiltTree(c, root, rootLabels, nodes, depths, samples, labels) && SubtreeWF(nodes) && i < |nodes|
    ensures Height(nodes, i) <= if depths[i] < c.maxDepth then c.maxDepth - depths[i] else 0
    decreases |nodes| - i
  {
    assert Built(c, root, rootLabels, nodes, depths, samples, labels, i);
    assert NodeWF(nodes, i);
    if IsInner(nodes[i].content) {
      var l, r := nodes[i].left.value, nodes[i].right.value;
      HeightBound(c, root, rootLabels, nodes, depths, samples, labels, l);
      HeightBound(c, root, rootLabels, nodes, depths, samples, labels, r);
    }
  }

  /** The subtree is never deeper than `maxDepth` levels below its root. */
  lemma DepthLimit(c: Config, root: seq<nat>, rootLabels: seq<nat>, nodes: seq<NodeRec>,
                   depths: seq<nat>, samples: seq<seq<nat>>, labels: seq<seq<nat>>)
    requires BuiltTree(c, root, rootLabels, nodes, depths, samples, labels) && SubtreeWF(nodes)
    ensures Height(nodes, 0) <= if 0 < c.maxDepth then c.maxDepth else 0
  {
    HeightBound(c, root, rootLabels, nodes, depths, samples, labels, 0);
  }

  /**
   * A root that is neither at the depth limit nor delegated, whose sample
   * every feature's split test separates, is split: the loop never leaves
   * it a leaf.
   */
  lemma BuiltRootSplits(c: Config, root: seq<nat>, rootLabels: seq<nat>, nodes: seq<NodeRec>,
                        depths: seq<nat>, samples: seq<seq<nat>>, labels: seq<seq<nat>>)
    requires BuiltTree(c, root, rootLabels, nodes, depths, samples, labels)
    requires 0 < c.maxDepth && !Delegates(c, 0, |root|)
    requires c.nFeatures <= |c.features| && c.nFeatures > 0 && c.mTry >= 1
    requires AllSeparate(root, rootLabels, c.features, c.nFeatures, c.nClasses, c.test)
    ensures IsInner(nodes[0].content)
  {
    assert Built(c, root, rootLabels, nodes, depths, samples, labels, 0);
    assert SlotChosen(c, nodes, depths, samples, labels, 0);
    if nodes[0].content.Info? {
      SeparableSplits(root, rootLabels, c.features, c.nFeatures, c.nClasses, c.mTry, c.test, nodes[0].content.info);
    }
  }

  /** Every split reads one of the `nFeatures` columns, so rows that wide can be predicted. */
  lemma ReadsFeatures(c: Config, root: seq<nat>, rootLabels: seq<nat>, nodes: seq<NodeRec>,
                      depths: seq<nat>, samples: seq<seq<nat>>, labels: seq<seq<nat>>)
    requires BuiltTree(c, root, rootLabels, nodes, depths, samples, labels)
    ensures ReadsBelow(nodes, c.nFeatures)
  {
    forall i | 0 <= i < |nodes| && IsInner(nodes[i].content)
      ensures nodes[i].content.info.index < c.nFeatures
    {
      assert Built(c, root, rootLabels, nodes, depths, samples, labels, i);
    }
  }

  /**
   * A subtree grown from labels that all say `y` predicts `y` for every row,
   * provided the delegated solver, fitted on labels that all say `y`,
   * answers `y`.
   */
  lemma UniformSubtree(c: Config, root: seq<nat>, rootLabels: seq<nat>, nodes: seq<NodeRec>,
                       depths: seq<nat>, samples: seq<seq<nat>>, labels: seq<seq<nat>>,
                       y: nat, rows: seq<seq<int>>, sk: SkPredict)
    requires BuiltTree(c, root, rootLabels, nodes, depths, samples, labels) && SubtreeWF(nodes)
    requires ColumnsFit(nodes, rows)
    requires forall l | l in rootLabels :: l == y
    requires forall f: DelegateFit, r | (forall l | l in f.labels :: l == y) :: sk(f, r) == y
    ensures forall k | 0 <= k < |rows| :: Predict(nodes, 0, rows, sk)[k] == y
  {
    forall i | 0 <= i < |nodes| && IsLeaf(nodes[i].content) ensures nodes[i].content.info.mode == y
    {
      assert Built(c, root, rootLabels, nodes, depths, samples, labels, i);
      UniformLeaf(labels[i], c.nClasses, y);
    }
    forall i, r | 0 <= i < |nodes| && r in rows && nodes[i].content.SkTree?
      ensures sk(nodes[i].content.fit, r) == y
    {
      assert Built(c, root, rootLabels, nodes, depths, samples, labels, i);
    }
    PredictConstant(nodes, 0, rows, sk, y);
  }
}
