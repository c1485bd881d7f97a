/**
 * Tree nodes and the recursive `Node.predict`.
 *
 * A `Node` object (fields `content`, `left`, `right`) is a slot of an arena
 * `seq<NodeRec>`; `left` and `right` hold the slots of the children. The
 * builders only ever append children after their parent, so a child's slot
 * is always larger than its parent's, which is what makes the recursive
 * walks below terminate.
 */
module Nodes {
  import opened Wrappers
  import opened Masks

  /** `InnerNodeInfo` and `LeafInfo`: what a split attempt leaves in a node. */
  datatype NodeInfo =
    | InnerNodeInfo(index: nat, value: int)
    | LeafInfo(size: nat, frequencies: seq<nat>, mode: nat)

  /** What the delegated dense-tree solver (`SkTreeWrapper`) was fitted on. */
  datatype DelegateFit = DelegateFit(sample: seq<nat>, labels: seq<nat>, maxDepth: int, maxFeatures: nat)

  /**
   * `Node.content`: `None` until assigned, then split or leaf information, a
   * delegated solver, or (in the top tree) an integer handle into a registry.
   */
  datatype Content =
    | NoContent
    | Info(info: NodeInfo)
    | SkTree(fit: DelegateFit)
    | Handle(handle: nat)

  datatype NodeRec = NodeRec(content: Content, left: Option<nat>, right: Option<nat>)

  /** The delegated solver's `predict`, one row at a time. */
  type SkPredict = (DelegateFit, seq<int>) -> nat

  function Unset(): NodeRec
  {
    NodeRec(NoContent, None, None)
  }

  predicate IsInner(c: Content)
  {
    c.Info? && c.info.InnerNodeInfo?
  }

  predicate IsLeaf(c: Content)
  {
    c.Info? && c.info.LeafInfo?
  }

  /**
   * A finished node of a subtree: an inner split has two children stored
   * after it; a leaf or a delegated solver has none.
   */
  predicate NodeWF(nodes: seq<NodeRec>, i: nat)
    requires i < |nodes|
  {
    var n := nodes[i];
    if IsInner(n.content) then
      n.left.Some? && n.right.Some? &&
      i < n.left.value < |nodes| && i < n.right.value < |nodes|
    else
      (IsLeaf(n.content) || n.content.SkTree?) && n.left.None? && n.right.None?
  }

  /** A fully built subtree rooted at slot 0 (an empty arena is the `[]` of an empty sample). */
  predicate SubtreeWF(nodes: seq<NodeRec>)
  {
    forall i | 0 <= i < |nodes| :: NodeWF(nodes, i)
  }

  /** Every row is wide enough for every column an inner node reads. */
  predicate ColumnsFit(nodes: seq<NodeRec>, rows: seq<seq<int>>)
  {
    forall i, r | 0 <= i < |nodes| && r in rows ::
      IsInner(nodes[i].content) ==> nodes[i].content.info.index < |r|
  }

  /** Every inner node reads one of the first `w` columns. */
  predicate ReadsBelow(nodes: seq<NodeRec>, w: nat)
  {
    forall i | 0 <= i < |nodes| && IsInner(nodes[i].content) :: nodes[i].content.info.index < w
  }

  /** Rows with at least `w` columns fit a tree that reads only the first `w`. */
  lemma WideRows(nodes: seq<NodeRec>, w: nat, rows: seq<seq<int>>)
    requires ReadsBelow(nodes, w) && forall r | r in rows :: w <= |r|
    ensures ColumnsFit(nodes, rows)
  {
  }

  /** `sample[:, index] <= value` */
  function GoesLeft(rows: seq<seq<int>>, index: nat, value: int): (m: seq<bool>)
    requires forall r | r in rows :: index < |r|
    ensures |m| == |rows|
  {
    seq(|rows|, k requires 0 <= k < |rows| => rows[k][index] <= value)
  }

  /**
   * `Node.predict(sample)` at slot `i`: a leaf fills every row with its mode,
   * a delegated solver answers for the rows, and an inner node predicts the
   * rows with `sample[:, index] <= value` through its left child and the rest
   * through its right child, writing each group back to its own positions.
   */
  function Predict(nodes: seq<NodeRec>, i: nat, rows: seq<seq<int>>, sk: SkPredict): (pred: seq<nat>)
    requires SubtreeWF(nodes) && i < |nodes| && ColumnsFit(nodes, rows)
    ensures |pred| == |rows|
    decreases |nodes| - i
  {
    assert NodeWF(nodes, i);
    match nodes[i].content
    case SkTree(fit) => seq(|rows|, k requires 0 <= k < |rows| => sk(fit, rows[k]))
    case Info(info) =>
      match info
      case LeafInfo(_, _, mode) => seq(|rows|, _ => mode)
      case InnerNodeInfo(index, value) =>
        var mask := GoesLeft(rows, index, value);
        SelectSubset(rows, mask);
        CountNeg(mask);
        Interleave(mask,
                   Predict(nodes, nodes[i].left.value, Select(rows, mask), sk),
                   Predict(nodes, nodes[i].right.value, Select(rows, Neg(mask)), sk))
  }

  /** The decision path of one row from slot `i`: the same comparisons, one row at a time. */
  function PredictRow(nodes: seq<NodeRec>, i: nat, row: seq<int>, sk: SkPredict): nat
    requires SubtreeWF(nodes) && i < |nodes| && ColumnsFit(nodes, [row])
    decreases |nodes| - i
  {
    assert NodeWF(nodes, i);
    match nodes[i].content
    case SkTree(fit) => sk(fit, row)
    case Info(info) =>
      match info
      case LeafInfo(_, _, mode) => mode
      case InnerNodeInfo(index, value) =>
        assert row in [row];
        if row[index] <= value then PredictRow(nodes, nodes[i].left.value, row, sk)
        else PredictRow(nodes, nodes[i].right.value, row, sk)
  }

  lemma ColumnsFitRow(nodes: seq<NodeRec>, rows: seq<seq<int>>, k: nat)
    requires ColumnsFit(nodes, rows) && k < |rows|
    ensures ColumnsFit(nodes, [rows[k]])
  {
  }

  /**
   * Batch prediction agrees with the per-row walk: the prediction for row `k`
   * of a batch depends on that row only and is the class its decision path
   * ends in.
   */
  lemma {:induction false} PredictPointwise(nodes: seq<NodeRec>, i: nat, rows: seq<seq<int>>, sk: SkPredict, k: nat)
    requires SubtreeWF(nodes) && i < |nodes| && ColumnsFit(nodes, rows) && k < |rows|
    ensures ColumnsFit(nodes, [rows[k]])
    ensures Predict(nodes, i, rows, sk)[k] == PredictRow(nodes, i, rows[k], sk)
    decreases |nodes| - i
  {
    assert NodeWF(nodes, i);
    assert rows[k] in rows;
    var c := nodes[i].content;
    if IsInner(c) {
      var index, value := c.info.index, c.info.value;
      var mask := GoesLeft(rows, index, value);
      SelectSubset(rows, mask);
      CountNeg(mask);
      var l, r := nodes[i].left.value, nodes[i].right.value;
      var lp := Predict(nodes, l, Select(rows, mask), sk);
      var rp := Predict(nodes, r, Select(rows, Neg(mask)), sk);
      assert Predict(nodes, i, rows, sk) == Interleave(mask, lp, rp);
      InterleaveAt(mask, lp, rp, k);
      if mask[k] {
        SelectAt(rows, mask, k);
        PredictPointwise(nodes, l, Select(rows, mask), sk, Rank(mask, k));
      } else {
        SelectNegAt(rows, mask, k);
        PredictPointwise(nodes, r, Select(rows, Neg(mask)), sk, k - Rank(mask, k));
      }
    }
  }

  /** Every leaf says `c`, and every delegated solver answers `c` on these rows. */
  predicate AllAnswer(nodes: seq<NodeRec>, rows: seq<seq<int>>, sk: SkPredict, c: nat)
  {
    (forall i | 0 <= i < |nodes| :: IsLeaf(nodes[i].content) ==> nodes[i].content.info.mode == c) &&
    (forall i, r | 0 <= i < |nodes| && r in rows :: nodes[i].content.SkTree? ==> sk(nodes[i].content.fit, r) == c)
  }

  /** A tree whose leaves all share the mode `c` predicts `c` for every row. */
  lemma {:induction false} PredictConstant(nodes: seq<NodeRec>, i: nat, rows: seq<seq<int>>, sk: SkPredict, c: nat)
    requires SubtreeWF(nodes) && i < |nodes| && ColumnsFit(nodes, rows)
    requires AllAnswer(nodes, rows, sk, c)
    ensures forall k | 0 <= k < |rows| :: Predict(nodes, i, rows, sk)[k] == c
    decreases |nodes| - i
  {
    assert NodeWF(nodes, i);
    var c0 := nodes[i].content;
    if IsInner(c0) {
      var mask := GoesLeft(rows, c0.info.index, c0.info.value);
      SelectSubset(rows, mask);
      CountNeg(mask);
      var l, r := nodes[i].left.value, nodes[i].right.value;
      var lp := Predict(nodes, l, Select(rows, mask), sk);
      var rp := Predict(nodes, r, Select(rows, Neg(mask)), sk);
      PredictConstant(nodes, l, Select(rows, mask), sk, c);
      PredictConstant(nodes, r, Select(rows, Neg(mask)), sk, c);
      forall k | 0 <= k < |rows| ensures Predict(nodes, i, rows, sk)[k] == c {
        InterleaveAt(mask, lp, rp, k);
      }
    } else if c0.SkTree? {
      forall k | 0 <= k < |rows| ensures Predict(nodes, i, rows, sk)[k] == c {
        assert rows[k] in rows;
      }
    }
  }

  /** Number of edges on the longest path down from slot `i`. */
  function Height(nodes: seq<NodeRec>, i: nat): nat
    requires SubtreeWF(nodes) && i < |nodes|
    decreases |nodes| - i
  {
    assert NodeWF(nodes, i);
    if IsInner(nodes[i].content) then
      var hl := Height(nodes, nodes[i].left.value);
      var hr := Height(nodes, nodes[i].right.value);
      1 + if hl < hr then hr else hl
    else 0
  }
}
