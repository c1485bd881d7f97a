/**
 * Prediction routing through the distributed top tree.
 *
 * The top tree is an arena of `NodeRec`s whose contents are `Handle`s: an
 * inner top node's handle indexes `nodesInfo`, a frontier node's handle
 * indexes the list of subtrees. `get_predicted_indices` narrows a mask over
 * the batch one path digit at a time, and `merge_branches` writes each
 * branch's predictions back to the positions its mask selects.
 */
module Routing {
  import opened Wrappers
  import opened Nodes
  import opened Masks
  import opened BinaryPath

  /**
   * The slot reached from the root (slot 0) by following `path`: '0' takes
   * `left`, any other digit takes `right`.
   */
  function Walk(tree: seq<NodeRec>, path: string): (s: Option<nat>)
    ensures s.Some? ==> s.value < |tree|
  {
    if path == [] then (if |tree| > 0 then Some(0) else None)
    else
      match Walk(tree, path[..|path| - 1])
      case None => None
      case Some(s) =>
        var child := if path[|path| - 1] == '0' then tree[s].left else tree[s].right;
        if child.Some? && child.value < |tree| then child else None
  }

  /** Slot `s` holds a handle to an inner split, the only kind whose `.index` can be read. */
  predicate SplitAt(tree: seq<NodeRec>, nodesInfo: seq<NodeInfo>, s: nat)
    requires s < |tree|
  {
    tree[s].content.Handle? && tree[s].content.handle < |nodesInfo| &&
    nodesInfo[tree[s].content.handle].InnerNodeInfo?
  }

  function InfoAt(tree: seq<NodeRec>, nodesInfo: seq<NodeInfo>, s: nat): (info: NodeInfo)
    requires s < |tree| && SplitAt(tree, nodesInfo, s)
    ensures info.InnerNodeInfo? && info in nodesInfo
  {
    nodesInfo[tree[s].content.handle]
  }

  /**
   * `get_predicted_indices` can follow `path`: each slot it leaves holds an
   * inner split and has the child it goes to.
   */
  predicate Routes(tree: seq<NodeRec>, nodesInfo: seq<NodeInfo>, path: string)
  {
    if path == [] then |tree| > 0
    else
      var p := path[..|path| - 1];
      Routes(tree, nodesInfo, p) && Walk(tree, p).Some? &&
      SplitAt(tree, nodesInfo, Walk(tree, p).value) && Walk(tree, path).Some?
  }

  /** Every inner split reads a column the row has. */
  predicate Wide(nodesInfo: seq<NodeInfo>, row: seq<int>)
  {
    forall h | 0 <= h < |nodesInfo| && nodesInfo[h].InnerNodeInfo? :: nodesInfo[h].index < |row|
  }

  /** Direction '0' keeps the rows with `row[index] <= value`, any other digit those with `row[index] > value`. */
  predicate Goes(row: seq<int>, info: NodeInfo, dir: char)
    requires info.InnerNodeInfo? && info.index < |row|
  {
    if dir == '0' then row[info.index] <= info.value else row[info.index] > info.value
  }

  /** The row passes every comparison along `path`. */
  predicate Follows(row: seq<int>, tree: seq<NodeRec>, nodesInfo: seq<NodeInfo>, path: string)
    requires Routes(tree, nodesInfo, path) && Wide(nodesInfo, row)
  {
    if path == [] then true
    else
      var p := path[..|path| - 1];
      Follows(row, tree, nodesInfo, p) &&
      Goes(row, InfoAt(tree, nodesInfo, Walk(tree, p).value), path[|path| - 1])
  }

  lemma {:induction false} RoutesPrefix(tree: seq<NodeRec>, nodesInfo: seq<NodeInfo>, path: string, j: nat)
    requires Routes(tree, nodesInfo, path) && j <= |path|
    ensures Routes(tree, nodesInfo, path[..j])
    decreases |path| - j
  {
    if j < |path| {
      var p := path[..|path| - 1];
      RoutesPrefix(tree, nodesInfo, p, j);
      assert p[..j] == path[..j];
    } else {
      assert path[..j] == path;
    }
  }

  lemma {:induction false} FollowsPrefix(row: seq<int>, tree: seq<NodeRec>, nodesInfo: seq<NodeInfo>, path: string, j: nat)
    requires Routes(tree, nodesInfo, path) && Wide(nodesInfo, row) && j <= |path|
    requires Follows(row, tree, nodesInfo, path)
    ensures Routes(tree, nodesInfo, path[..j]) && Follows(row, tree, nodesInfo, path[..j])
    decreases |path| - j
  {
    RoutesPrefix(tree, nodesInfo, path, j);
    if j < |path| {
      var p := path[..|path| - 1];
      FollowsPrefix(row, tree, nodesInfo, p, j);
      assert p[..j] == path[..j];
    } else {
      assert path[..j] == path;
    }
  }

  // ---------------------------------------------------------------- get_predicted_indices

  /**
   * `get_predicted_indices`: starting from an all-true mask, each path digit
   * clears the rows that fail that node's comparison, so a row stays
   * selected exactly when it follows the whole path.
   */
  method GetPredictedIndices(samples: seq<seq<int>>, tree: seq<NodeRec>, nodesInfo: seq<NodeInfo>, path: string)
    returns (mask: seq<bool>)
    requires Routes(tree, nodesInfo, path)
    requires forall r | r in samples :: Wide(nodesInfo, r)
    ensures |mask| == |samples|
    ensures forall k | 0 <= k < |samples| :: mask[k] == Follows(samples[k], tree, nodesInfo, path)
  {
    var m := new bool[|samples|](_ => true);
    var node := 0;
    var j := 0;
    assert path[..0] == [];
    while j < |path|
      invariant 0 <= j <= |path|
      invariant Routes(tree, nodesInfo, path[..j]) && Walk(tree, path[..j]) == Some(node)
      invariant forall k | 0 <= k < m.Length :: Wide(nodesInfo, samples[k]) &&
                  m[k] == Follows(samples[k], tree, nodesInfo, path[..j])
    {
      RoutesPrefix(tree, nodesInfo, path, j + 1);
      assert path[..j + 1][..j] == path[..j];
      var info := InfoAt(tree, nodesInfo, node);
      Narrow(m, samples, nodesInfo, info, path[j]);
      node := if path[j] == '0' then tree[node].left.value else tree[node].right.value;
      j := j + 1;
    }
    assert path[..j] == path;
    mask := m[..];
  }

  /**
   * `indices_mask[indices_mask] = samples[indices_mask, col] <= value` (or
   * `> value`): a selected row stays selected when it goes the way `dir` says.
   */
  method Narrow(m: array<bool>, samples: seq<seq<int>>, ghost nodesInfo: seq<NodeInfo>, info: NodeInfo, dir: char)
    modifies m
    requires m.Length == |samples| && info.InnerNodeInfo? && info in nodesInfo
    requires forall k | 0 <= k < |samples| :: Wide(nodesInfo, samples[k])
    ensures forall k | 0 <= k < |samples| :: info.index < |samples[k]| && m[k] == (old(m[k]) && Goes(samples[k], info, dir))
  {
    var k := 0;
    while k < |samples|
      invariant 0 <= k <= |samples|
      invariant forall k' | 0 <= k' < k :: info.index < |samples[k']| && m[k'] == (old(m[k']) && Goes(samples[k'], info, dir))
      invariant forall k' | k <= k' < |samples| :: m[k'] == old(m[k'])
    {
      assert Wide(nodesInfo, samples[k]);
      if m[k] {
        m[k] := if dir == '0' then samples[k][info.index] <= info.value else samples[k][info.index] > info.value;
      }
      k := k + 1;
    }
  }

  // ---------------------------------------------------------------- one path per row

  /** The top tree can be followed along every digit string of length at most `d`. */
  ghost predicate Complete(tree: seq<NodeRec>, nodesInfo: seq<NodeInfo>, d: nat)
  {
    forall p: string | IsBits(p) && |p| <= d :: Routes(tree, nodesInfo, p)
  }

  /** The path a row takes through the first `n` levels of a complete top tree. */
  ghost function RouteOf(row: seq<int>, tree: seq<NodeRec>, nodesInfo: seq<NodeInfo>, d: nat, n: nat): (p: string)
    requires Complete(tree, nodesInfo, d) && Wide(nodesInfo, row) && n <= d
    ensures |p| == n && IsBits(p)
  {
    if n == 0 then []
    else
      var p := RouteOf(row, tree, nodesInfo, d, n - 1);
      assert IsBits(p + ['0']) && Routes(tree, nodesInfo, p + ['0']);
      assert (p + ['0'])[..n - 1] == p;
      var info := InfoAt(tree, nodesInfo, Walk(tree, p).value);
      p + [if Goes(row, info, '0') then '0' else '1']
  }

  /** A row follows the path it takes. */
  lemma {:induction false} RouteFollows(row: seq<int>, tree: seq<NodeRec>, nodesInfo: seq<NodeInfo>, d: nat, n: nat)
    requires Complete(tree, nodesInfo, d) && Wide(nodesInfo, row) && n <= d
    ensures Routes(tree, nodesInfo, RouteOf(row, tree, nodesInfo, d, n))
    ensures Follows(row, tree, nodesInfo, RouteOf(row, tree, nodesInfo, d, n))
  {
    if n > 0 {
      RouteFollows(row, tree, nodesInfo, d, n - 1);
      var p := RouteOf(row, tree, nodesInfo, d, n);
      assert p[..n - 1] == RouteOf(row, tree, nodesInfo, d, n - 1);
    }
  }

  /** No row follows two different digit strings of the same length. */
  lemma PathsExclusive(row: seq<int>, tree: seq<NodeRec>, nodesInfo: seq<NodeInfo>, p: string, q: string)
    requires IsBits(p) && IsBits(q) && |p| == |q| && p != q
    requires Routes(tree, nodesInfo, p) && Routes(tree, nodesInfo, q) && Wide(nodesInfo, row)
    ensures !(Follows(row, tree, nodesInfo, p) && Follows(row, tree, nodesInfo, q))
  {
    var j :| 0 <= j < |p| && p[j] != q[j] && p[..j] == q[..j] by {
      FirstDifference(p, q);
    }
    if Follows(row, tree, nodesInfo, p) && Follows(row, tree, nodesInfo, q) {
      assert p[..j + 1][..j] == p[..j] && q[..j + 1][..j] == q[..j];
      assert p[..j + 1][j] == p[j] && q[..j + 1][j] == q[j];
      FollowsPrefix(row, tree, nodesInfo, p, j + 1);
      FollowsPrefix(row, tree, nodesInfo, q, j + 1);
      assert false;
    }
  }

  lemma FirstDifference(p: string, q: string)
    requires |p| == |q| && p != q
    ensures exists j :: 0 <= j < |p| && p[j] != q[j] && p[..j] == q[..j]
  {
    var j := 0;
    while p[j] == q[j]
      invariant 0 <= j < |p| && p[..j] == q[..j]
      decreases |p| - j
    {
      assert p[..j + 1] == p[..j] + [p[j]] && q[..j + 1] == q[..j] + [q[j]];
      j := j + 1;
    }
  }

  /**
   * In a top tree complete to depth `d`, a row follows the path of
   * subtree `b` exactly when `b` is the value of the path the row takes:
   * the masks of the `2^d` paths are pairwise disjoint and together select
   * every row.
   */
  lemma OnePathPerRow(row: seq<int>, tree: seq<NodeRec>, nodesInfo: seq<NodeInfo>, d: nat, b: nat)
    requires Complete(tree, nodesInfo, d) && Wide(nodesInfo, row) && b < Pow2(d)
    ensures Routes(tree, nodesInfo, SubtreePath(b, d))
    ensures Follows(row, tree, nodesInfo, SubtreePath(b, d)) <==> b == BinValue(RouteOf(row, tree, nodesInfo, d, d))
  {
    var r := RouteOf(row, tree, nodesInfo, d, d);
    var p := SubtreePath(b, d);
    RouteFollows(row, tree, nodesInfo, d, d);
    PathOfValue(r);
    if b != BinValue(r) {
      assert p != r;
      PathsExclusive(row, tree, nodesInfo, p, r);
    }
  }

  // ---------------------------------------------------------------- merge_branches

  /** One `(indices_mask, prediction)` pair from `predict_branch`. */
  datatype Branch = Branch(selected: seq<bool>, prediction: seq<int>)

  /** Every mask covers the batch, and every prediction has one entry per selected row. */
  predicate Shaped(n: nat, branches: seq<Branch>)
  {
    forall b | 0 <= b < |branches| ::
      |branches[b].selected| == n && |branches[b].prediction| == Count(branches[b].selected)
  }

  /** The value `merged[selected] = prediction` writes at a selected position `k`. */
  function Written(br: Branch, k: nat): int
    requires k < |br.selected| && br.selected[k] && |br.prediction| == Count(br.selected)
  {
    RankBound(br.selected, k);
    br.prediction[Rank(br.selected, k)]
  }

  /** The last branch whose mask selects position `k`, if any. */
  function LastWriter(branches: seq<Branch>, k: nat): (w: Option<nat>)
    requires forall b | 0 <= b < |branches| :: k < |branches[b].selected|
    ensures w.Some? ==> w.value < |branches| && branches[w.value].selected[k] &&
                        forall b | w.value < b < |branches| :: !branches[b].selected[k]
    ensures w.None? ==> forall b | 0 <= b < |branches| :: !branches[b].selected[k]
  {
    if branches == [] then None
    else if branches[|branches| - 1].selected[k] then Some(|branches| - 1)
    else LastWriter(branches[..|branches| - 1], k)
  }

  /**
   * `merge_branches`: writes each branch's predictions, in branch order, to
   * the positions its mask selects. A position some mask selects ends up
   * with the value of the last branch selecting it.
   */
  method MergeBranches(n: nat, branches: seq<Branch>) returns (merged: seq<int>)
    requires Shaped(n, branches)
    ensures |merged| == n
    ensures forall k | 0 <= k < n :: LastWriter(branches, k).Some? ==>
              merged[k] == Written(branches[LastWriter(branches, k).value], k)
  {
    var out := new int[n];
    for b := 0 to |branches|
      invariant forall k | 0 <= k < n :: LastWriter(branches[..b], k).Some? ==>
                  out[k] == Written(branches[LastWriter(branches[..b], k).value], k)
    {
      Scatter(out, branches[b]);
      forall k | 0 <= k < n
        ensures LastWriter(branches[..b + 1], k).Some? ==>
                  out[k] == Written(branches[LastWriter(branches[..b + 1], k).value], k)
      {
        assert branches[..b + 1][..b] == branches[..b];
      }
    }
    assert branches[..|branches|] == branches;
    merged := out[..];
  }

  /** `merged_prediction[selected] = prediction` for one branch. */
  method Scatter(out: array<int>, br: Branch)
    modifies out
    requires |br.selected| == out.Length && |br.prediction| == Count(br.selected)
    ensures forall k | 0 <= k < out.Length :: out[k] == if br.selected[k] then Written(br, k) else old(out[k])
  {
    var j := 0;
    for k := 0 to out.Length
      invariant j == Rank(br.selected, k)
      invariant forall k' | 0 <= k' < k :: out[k'] == if br.selected[k'] then Written(br, k') else old(out[k'])
      invariant forall k' | k <= k' < out.Length :: out[k'] == old(out[k'])
    {
      RankNext(br.selected, k);
      if br.selected[k] {
        RankBound(br.selected, k);
        out[k] := br.prediction[j];
        j := j + 1;
      }
    }
  }

  /**
   * When no two masks select the same position, the branch that selects a
   * position is the one whose value it gets, wherever that branch stands in
   * the list: the merged result does not depend on the order of the branches.
   */
  lemma WriterUnique(branches: seq<Branch>, k: nat, b: nat)
    requires forall b' | 0 <= b' < |branches| :: k < |branches[b'].selected|
    requires forall b1, b2 | 0 <= b1 < b2 < |branches| :: !(branches[b1].selected[k] && branches[b2].selected[k])
    requires b < |branches| && branches[b].selected[k]
    ensures LastWriter(branches, k) == Some(b)
  {
  }

  /**
   * `merge_branches` on the same branches in another order, with masks that
   * never select a position twice: a position is written in one order
   * exactly when it is in the other, and with the same value.
   */
  lemma MergeOrderFree(n: nat, branches: seq<Branch>, others: seq<Branch>, k: nat)
    requires Shaped(n, branches) && Shaped(n, others) && k < n
    requires multiset(branches) == multiset(others)
    requires forall b1, b2 | 0 <= b1 < b2 < |branches| :: !(branches[b1].selected[k] && branches[b2].selected[k])
    requires forall b1, b2 | 0 <= b1 < b2 < |others| :: !(others[b1].selected[k] && others[b2].selected[k])
    ensures LastWriter(branches, k).Some? <==> LastWriter(others, k).Some?
    ensures LastWriter(branches, k).Some? ==>
              Written(branches[LastWriter(branches, k).value], k) == Written(others[LastWriter(others, k).value], k)
  {
    var w := LastWriter(branches, k);
    if w.Some? {
      var br := branches[w.value];
      assert br in multiset(others) by { assert br in multiset(branches); }
      var c :| 0 <= c < |others| && others[c] == br;
      WriterUnique(others, k, c);
    }
    var v := LastWriter(others, k);
    if v.Some? {
      var br := others[v.value];
      assert br in multiset(branches) by { assert br in multiset(others); }
      var b :| 0 <= b < |branches| && branches[b] == br;
      WriterUnique(branches, k, b);
    }
  }
}
