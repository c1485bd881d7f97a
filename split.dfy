/**
 * Split search for one node: draw untried features, score each with the
 * split test, keep the first strictly lowest score, and accept the split
 * when it leaves both sides non-empty; once every feature has been tried
 * without such a split, the node becomes a leaf.
 *
 * The split test itself (`test_split`) is not part of this model: it is the
 * parameter `test`, about which nothing is assumed. Scores are integers;
 * the starting best score is the exact integer value of `sys.float_info.max`.
 */
module Split {
  import opened Wrappers
  import opened Masks
  import opened Nodes

  /** `sys.float_info.max`, (2 - 2^-52) * 2^1023. */
  const FloatMax: int := 179769313486231570814527423731704356798070567525844996598917476803157260780028538760589558632766878171540458953514382464234321326889464182768467546703537516986049910576551282076245490090389328944075868508455133942304583236903222948165808559332123348274797826204144723168738177180919299881250404026184124858368

  /** `test_split(sample, y_s, feature, n_classes)`, returning `(score, value)`. */
  type SplitTest = (seq<nat>, seq<nat>, seq<int>, nat) -> (int, int)

  /** `(left, y_l, right, y_r)` as returned by `get_groups`. */
  datatype Groups = Groups(left: seq<nat>, yl: seq<nat>, right: seq<nat>, yr: seq<nat>)

  predicate Distinct(s: seq<nat>)
  {
    forall i, j | 0 <= i < j < |s| :: s[i] != s[j]
  }

  /** The columns of features `0 .. nFeatures-1` exist and cover every row of the sample. */
  predicate Fits(features: seq<seq<int>>, nFeatures: nat, sample: seq<nat>)
  {
    nFeatures <= |features| &&
    forall f, s | 0 <= f < nFeatures && s in sample :: s < |features[f]|
  }

  /**
   * The groups split the sample and its labels between them, each label
   * staying beside its row.
   */
  predicate IsPartition(sample: seq<nat>, ys: seq<nat>, g: Groups)
  {
    |g.yl| == |g.left| && |g.yr| == |g.right| &&
    multiset(g.left) + multiset(g.right) == multiset(sample) &&
    multiset(g.yl) + multiset(g.yr) == multiset(ys)
  }

  // ---------------------------------------------------------------- leaf info

  function Sum(s: seq<nat>): nat
  {
    if s == [] then 0 else s[0] + Sum(s[1..])
  }

  /** One more than the largest label, 0 for no labels. */
  function MaxPlusOne(ys: seq<nat>): (r: nat)
    ensures forall y | y in ys :: y < r
  {
    if ys == [] then 0
    else
      var m := MaxPlusOne(ys[..|ys| - 1]);
      assert forall y | y in ys :: y in ys[..|ys| - 1] || y == ys[|ys| - 1];
      if ys[|ys| - 1] + 1 > m then ys[|ys| - 1] + 1 else m
  }

  /** `np.bincount(y_s, minlength=n)`: how often each class code occurs. */
  function BinCount(ys: seq<nat>, minlength: nat): (f: seq<nat>)
    ensures |f| == if minlength < MaxPlusOne(ys) then MaxPlusOne(ys) else minlength
  {
    var len := if minlength < MaxPlusOne(ys) then MaxPlusOne(ys) else minlength;
    seq(len, c requires 0 <= c < len => multiset(ys)[c])
  }

  /** `np.argmax`: the first position of the largest entry. */
  function ArgMax(s: seq<nat>): (k: nat)
    requires |s| > 0
    ensures k < |s|
    ensures forall j | 0 <= j < |s| :: s[j] <= s[k]
    ensures forall j | 0 <= j < k :: s[j] < s[k]
  {
    if |s| == 1 then 0
    else
      var k := ArgMax(s[..|s| - 1]);
      if s[|s| - 1] > s[k] then |s| - 1 else k
  }

  /**
   * `compute_leaf_info`: the class histogram of the labels (at least
   * `nClasses` long), their number, and the first most frequent class.
   * `LeafInfoMeaning` states what these are.
   */
  function ComputeLeafInfo(ys: seq<nat>, nClasses: nat): (leaf: NodeInfo)
    requires |ys| > 0 || nClasses > 0
    ensures leaf.LeafInfo? && leaf.size == |ys| && |leaf.frequencies| >= nClasses
  {
    var freq := BinCount(ys, nClasses);
    LeafInfo(|ys|, freq, ArgMax(freq))
  }

  /**
   * The leaf's frequencies count each class among the labels and add up to
   * the size; its mode is a most frequent class, and no smaller class code
   * is as frequent.
   */
  lemma LeafInfoMeaning(ys: seq<nat>, nClasses: nat)
    requires |ys| > 0 || nClasses > 0
    ensures var leaf := ComputeLeafInfo(ys, nClasses);
            Sum(leaf.frequencies) == leaf.size &&
            (forall c | 0 <= c < |leaf.frequencies| :: leaf.frequencies[c] == multiset(ys)[c]) &&
            (forall c :: multiset(ys)[c] <= multiset(ys)[leaf.mode]) &&
            (forall c | 0 <= c < leaf.mode :: multiset(ys)[c] < multiset(ys)[leaf.mode])
  {
    var freq := BinCount(ys, nClasses);
    var mode := ArgMax(freq);
    HistogramSum(ys, |freq|);
    assert Histogram(ys, |freq|) == freq;
    assert freq[mode] == multiset(ys)[mode];
    forall c: nat ensures multiset(ys)[c] <= multiset(ys)[mode] {
      if c < |freq| {
        assert freq[c] == multiset(ys)[c];
      } else {
        assert c !in ys;
      }
    }
    forall c | 0 <= c < mode ensures multiset(ys)[c] < multiset(ys)[mode] {
      assert freq[c] == multiset(ys)[c];
    }
  }

  function Histogram(ys: seq<nat>, len: nat): (f: seq<nat>)
    ensures |f| == len
  {
    seq(len, c requires 0 <= c < len => multiset(ys)[c])
  }

  lemma {:induction false} SumIncrement(s: seq<nat>, i: nat)
    requires i < |s|
    ensures Sum(s[i := s[i] + 1]) == Sum(s) + 1
    decreases |s|
  {
    if i > 0 {
      assert s[i := s[i] + 1][1..] == s[1..][i - 1 := s[i] + 1];
      SumIncrement(s[1..], i - 1);
    }
  }

  lemma {:induction false} SumZero(s: seq<nat>)
    requires forall k | 0 <= k < |s| :: s[k] == 0
    ensures Sum(s) == 0
    decreases |s|
  {
    if s != [] {
      SumZero(s[1..]);
    }
  }

  /** Every label is counted exactly once. */
  lemma {:induction false} HistogramSum(ys: seq<nat>, len: nat)
    requires forall y | y in ys :: y < len
    ensures Sum(Histogram(ys, len)) == |ys|
    decreases |ys|
  {
    if ys == [] {
      SumZero(Histogram(ys, len));
    } else {
      var init, y := ys[..|ys| - 1], ys[|ys| - 1];
      assert ys == init + [y];
      assert forall x | x in init :: x in ys;
      assert y in ys;
      assert multiset(ys) == multiset(init) + multiset{y};
      HistogramSum(init, len);
      assert Histogram(ys, len) == Histogram(init, len)[y := Histogram(init, len)[y] + 1];
      SumIncrement(Histogram(init, len), y);
    }
  }

  /** A leaf over labels that are all `c` has mode `c`. */
  lemma UniformLeaf(ys: seq<nat>, nClasses: nat, c: nat)
    requires |ys| > 0 && forall y | y in ys :: y == c
    ensures ComputeLeafInfo(ys, nClasses).mode == c
  {
    var m := ComputeLeafInfo(ys, nClasses).mode;
    LeafInfoMeaning(ys, nClasses);
    assert ys[0] in ys;
    assert multiset(ys)[c] >= 1;
    assert m in multiset(ys);
    assert m in ys;
  }

  // ---------------------------------------------------------------- groups

  /** `features_mmap[index][sample] < value` */
  function LessMask(sample: seq<nat>, column: seq<int>, value: int): (m: seq<bool>)
    requires forall s | s in sample :: s < |column|
    ensures |m| == |sample|
  {
    seq(|sample|, k requires 0 <= k < |sample| => assert sample[k] in sample; column[sample[k]] < value)
  }

  /**
   * `get_groups`: without a feature the whole sample stays on the left;
   * otherwise the rows whose feature value is below the threshold go left
   * and the others go right, each side keeping the sample's order and
   * carrying its labels along (`GroupsPartition`, `GroupsInOrder`).
   */
  function GetGroups(sample: seq<nat>, ys: seq<nat>, features: seq<seq<int>>,
                     index: Option<nat>, value: Option<int>): (g: Groups)
    requires |ys| == |sample|
    requires index.Some? ==> value.Some? && index.value < |features| &&
                             forall s | s in sample :: s < |features[index.value]|
    ensures |g.yl| == |g.left| && |g.yr| == |g.right| && |g.left| + |g.right| == |sample|
    ensures index.None? ==> g == Groups(sample, ys, [], [])
  {
    if index.None? then
      Groups(sample, ys, [], [])
    else
      var mask := LessMask(sample, features[index.value], value.value);
      CountNeg(mask);
      Groups(Select(sample, mask), Select(ys, mask), Select(sample, Neg(mask)), Select(ys, Neg(mask)))
  }

  /**
   * The groups split the sample and its labels between them; with a
   * feature, every row on the left is below the threshold and every row on
   * the right is not.
   */
  lemma GroupsPartition(sample: seq<nat>, ys: seq<nat>, features: seq<seq<int>>,
                        index: Option<nat>, value: Option<int>)
    requires |ys| == |sample|
    requires index.Some? ==> value.Some? && index.value < |features| &&
                             forall s | s in sample :: s < |features[index.value]|
    ensures IsPartition(sample, ys, GetGroups(sample, ys, features, index, value))
    ensures var g := GetGroups(sample, ys, features, index, value);
            index.Some? ==> (forall x | x in g.left :: x in sample && features[index.value][x] < value.value) &&
                            (forall x | x in g.right :: x in sample && value.value <= features[index.value][x])
  {
    if index.None? {
      assert multiset(sample) + multiset([]) == multiset(sample);
      assert multiset(ys) + multiset([]) == multiset(ys);
    } else {
      var column := features[index.value];
      var mask := LessMask(sample, column, value.value);
      SelectPartition(sample, mask);
      SelectPartition(ys, mask);
      SidesOfThreshold(sample, column, value.value);
    }
  }

  /** Some row of the sample lies below the threshold in `column`, and some row does not. */
  predicate Separates(sample: seq<nat>, column: seq<int>, value: int)
  {
    (exists s | s in sample && s < |column| :: column[s] < value) &&
    (exists s | s in sample && s < |column| :: value <= column[s])
  }

  /** Both groups of a split are non-empty exactly when the threshold separates the sample. */
  lemma SeparatesGroups(sample: seq<nat>, ys: seq<nat>, features: seq<seq<int>>, index: nat, value: int)
    requires |ys| == |sample| && index < |features| && forall s | s in sample :: s < |features[index]|
    ensures var g := GetGroups(sample, ys, features, Some(index), Some(value));
            |g.left| > 0 && |g.right| > 0 <==> Separates(sample, features[index], value)
  {
    var column := features[index];
    var mask := LessMask(sample, column, value);
    var g := GetGroups(sample, ys, features, Some(index), Some(value));
    SidesOfThreshold(sample, column, value);
    if |g.left| > 0 && |g.right| > 0 {
      assert g.left[0] in g.left && g.right[0] in g.right;
    }
    if Separates(sample, column, value) {
      var s :| s in sample && s < |column| && column[s] < value;
      var k :| 0 <= k < |sample| && sample[k] == s;
      SelectAt(sample, mask, k);
      var s' :| s' in sample && s' < |column| && value <= column[s'];
      var k' :| 0 <= k' < |sample| && sample[k'] == s';
      SelectNegAt(sample, mask, k');
    }
  }

  lemma SidesOfThreshold(sample: seq<nat>, column: seq<int>, value: int)
    requires forall s | s in sample :: s < |column|
    ensures forall x | x in Select(sample, LessMask(sample, column, value)) :: x in sample && column[x] < value
    ensures forall x | x in Select(sample, Neg(LessMask(sample, column, value))) :: x in sample && value <= column[x]
  {
    var mask := LessMask(sample, column, value);
    forall x | x in Select(sample, mask) ensures x in sample && column[x] < value {
      var t :| 0 <= t < |Select(sample, mask)| && Select(sample, mask)[t] == x;
      var k := SelectSource(sample, mask, t);
    }
    forall x | x in Select(sample, Neg(mask)) ensures x in sample && value <= column[x] {
      var t :| 0 <= t < |Select(sample, Neg(mask))| && Select(sample, Neg(mask))[t] == x;
      var k := SelectSource(sample, Neg(mask), t);
    }
  }

  /**
   * Both groups keep the sample's order, and each label stays beside its
   * row: positions `t < u` of one side come from sample positions `k < k'`.
   */
  lemma GroupsInOrder(sample: seq<nat>, ys: seq<nat>, features: seq<seq<int>>,
                      index: nat, value: int, leftSide: bool, t: nat, u: nat) returns (k: nat, k': nat)
    requires |ys| == |sample| && index < |features| && forall s | s in sample :: s < |features[index]|
    requires var g := GetGroups(sample, ys, features, Some(index), Some(value));
             t < u < |if leftSide then g.left else g.right|
    ensures k < k' < |sample|
    ensures var g := GetGroups(sample, ys, features, Some(index), Some(value));
            var side := if leftSide then g.left else g.right;
            var labels := if leftSide then g.yl else g.yr;
            side[t] == sample[k] && labels[t] == ys[k] && side[u] == sample[k'] && labels[u] == ys[k']
  {
    var mask := LessMask(sample, features[index], value);
    var m := if leftSide then mask else Neg(mask);
    k := SelectSource(sample, m, t);
    k' := SelectSource(sample, m, u);
    SelectAt(ys, m, k);
    SelectAt(ys, m, k');
    if k' <= k {
      RankMonotone(m, k', k);
    }
  }

  lemma RankMonotone(m: seq<bool>, a: nat, b: nat)
    requires a <= b <= |m|
    ensures Rank(m, a) <= Rank(m, b)
  {
    assert m[..b] == m[..a] + m[a..b];
    CountAppend(m[..a], m[a..b]);
  }

  // ---------------------------------------------------------------- feature selection

  /** `np.setdiff1d(np.arange(n), tried)`: the features not tried yet, ascending. */
  function Untried(n: nat, tried: seq<nat>): (u: seq<nat>)
    ensures forall x: nat :: x in u <==> x < n && x !in tried
    ensures forall i, j | 0 <= i < j < |u| :: u[i] < u[j]
  {
    if n == 0 then []
    else
      var u := Untried(n - 1, tried);
      assert forall i | 0 <= i < |u| :: u[i] in u;
      u + (if n - 1 in tried then [] else [n - 1])
  }

  /**
   * `feature_selection`: `min(m_try, len(untried))` of the untried indices,
   * drawn at random without replacement. The draw is a nondeterministic
   * choice: no entry is taken more often than it occurs.
   */
  method FeatureSelection(untried: seq<nat>, mTry: nat) returns (sel: seq<nat>)
    ensures |sel| == if mTry < |untried| then mTry else |untried|
    ensures multiset(sel) <= multiset(untried)
  {
    var k := if mTry < |untried| then mTry else |untried|;
    assert untried == untried[..k] + untried[k..];
    assert multiset(untried[..k]) <= multiset(untried);
    sel :| |sel| == k && multiset(sel) <= multiset(untried);
  }

  /** A draw without replacement from distinct indices gives distinct indices among them. */
  lemma DrawDistinct(sel: seq<nat>, from: seq<nat>)
    requires multiset(sel) <= multiset(from) && Distinct(from)
    ensures Distinct(sel) && forall x | x in sel :: x in from
  {
    forall x | x in sel ensures x in from {
      assert x in multiset(sel);
    }
    forall i, j | 0 <= i < j < |sel| ensures sel[i] != sel[j] {
      if sel[i] == sel[j] {
        var x := sel[i];
        assert sel == sel[..i] + [x] + sel[i + 1..j] + [x] + sel[j + 1..];
        assert multiset(sel)[x] >= 2;
        DistinctOnce(from, x);
      }
    }
  }

  lemma {:induction false} DistinctOnce(s: seq<nat>, x: nat)
    requires Distinct(s)
    ensures multiset(s)[x] <= 1
    decreases |s|
  {
    if s != [] {
      var init := s[..|s| - 1];
      assert s == init + [s[|s| - 1]];
      assert Distinct(init);
      DistinctOnce(init, x);
      if s[|s| - 1] == x {
        assert x !in init;
      }
    }
  }

  /** How many of the indices below `n` occur in `tried`. */
  function CountBelow(n: nat, tried: seq<nat>): nat
  {
    if n == 0 then 0 else CountBelow(n - 1, tried) + (if n - 1 in tried then 1 else 0)
  }

  /** The untried indices and the distinct tried ones together number exactly `n`. */
  lemma UntriedCount(n: nat, tried: seq<nat>)
    requires Distinct(tried) && forall f | f in tried :: f < n
    ensures |Untried(n, tried)| + |tried| == n
  {
    UntriedCountBelow(n, tried);
    CountBelowAll(n, tried);
  }

  lemma {:induction false} UntriedCountBelow(n: nat, tried: seq<nat>)
    ensures |Untried(n, tried)| + CountBelow(n, tried) == n
  {
    if n > 0 {
      UntriedCountBelow(n - 1, tried);
    }
  }

  lemma {:induction false} CountBelowAll(n: nat, tried: seq<nat>)
    requires Distinct(tried) && forall f | f in tried :: f < n
    ensures CountBelow(n, tried) == |tried|
    decreases |tried|
  {
    if tried != [] {
      var init, y := tried[..|tried| - 1], tried[|tried| - 1];
      assert tried == init + [y];
      assert y !in init && y in tried;
      assert Distinct(init) && forall f | f in init :: f in tried;
      CountBelowAll(n, init);
      CountBelowSnoc(n, init, y);
    } else {
      CountBelowNone(n, tried);
    }
  }

  lemma {:induction false} CountBelowNone(n: nat, tried: seq<nat>)
    requires tried == []
    ensures CountBelow(n, tried) == 0
  {
    if n > 0 {
      CountBelowNone(n - 1, tried);
    }
  }

  lemma {:induction false} CountBelowSnoc(n: nat, tried: seq<nat>, y: nat)
    requires y !in tried
    ensures CountBelow(n, tried + [y]) == CountBelow(n, tried) + (if y < n then 1 else 0)
  {
    if n > 0 {
      CountBelowSnoc(n - 1, tried, y);
      assert (n - 1 in tried + [y]) <==> (n - 1 in tried || n - 1 == y);
    }
  }

  /**
   * One unsuccessful round: the drawn features join the tried ones, which
   * stay distinct; either every feature has now been tried, or a full
   * `mTry` were drawn.
   */
  lemma ExtendTried(n: nat, tried: seq<nat>, selection: seq<nat>, mTry: nat)
    requires Distinct(tried) && forall f | f in tried :: f < n
    requires Drawn(n, mTry, tried, selection)
    ensures Distinct(tried + selection) && forall f | f in tried + selection :: f < n
    ensures |tried + selection| == n ==> forall f | 0 <= f < n :: f in tried + selection
    ensures |tried + selection| != n ==> |selection| == mTry && |tried + selection| < n
  {
    forall x | x in selection ensures x !in tried && x < n {
      var t :| 0 <= t < |selection| && selection[t] == x;
    }
    DistinctAppend(tried, selection);
    var t := tried + selection;
    assert forall f | f in t :: f in tried || f in selection;
    UntriedCount(n, t);
    if |t| == n {
      AllTried(n, t);
    }
  }

  lemma UntriedDistinct(n: nat, tried: seq<nat>)
    ensures Distinct(Untried(n, tried))
  {
    var u := Untried(n, tried);
    assert forall i, j | 0 <= i < j < |u| :: u[i] < u[j];
  }

  /** Joining two distinct lists with nothing in common keeps them distinct. */
  lemma DistinctAppend(a: seq<nat>, b: seq<nat>)
    requires Distinct(a) && Distinct(b) && forall x | x in b :: x !in a
    ensures Distinct(a + b)
  {
    var t := a + b;
    forall i, j | 0 <= i < j < |t| ensures t[i] != t[j] {
      if i < |a| <= j {
        assert t[j] == b[j - |a|] && t[j] in b;
        assert t[i] in a;
      }
    }
  }

  /** With nothing left untried, every index below `n` has been tried. */
  lemma AllTried(n: nat, t: seq<nat>)
    requires |Untried(n, t)| == 0
    ensures forall f | 0 <= f < n :: f in t
  {
    forall f | 0 <= f < n ensures f in t {
      assert f !in Untried(n, t);
    }
  }

  // ---------------------------------------------------------------- best split

  /** The score the split test gives each candidate feature. */
  function Scores(sample: seq<nat>, ys: seq<nat>, nClasses: nat, indices: seq<nat>,
                  features: seq<seq<int>>, test: SplitTest): (s: seq<int>)
    requires forall t | 0 <= t < |indices| :: indices[t] < |features|
    ensures |s| == |indices|
  {
    seq(|indices|, t requires 0 <= t < |indices| => test(sample, ys, features[indices[t]], nClasses).0)
  }

  /** Position `t` holds the lowest score, below the starting bound, and no earlier position ties it. */
  predicate IsFirstMin(scores: seq<int>, t: nat)
  {
    t < |scores| && scores[t] < FloatMax &&
    (forall j | 0 <= j < |scores| :: scores[t] <= scores[j]) &&
    (forall j | 0 <= j < t :: scores[t] < scores[j])
  }

  /**
   * The outcome of scoring `indices`: no candidate when none scores below
   * `float_info.max`; otherwise the first candidate with the strictly lowest
   * score, with its score and the threshold the split test gave it.
   */
  predicate BestSplit(sample: seq<nat>, ys: seq<nat>, nClasses: nat, indices: seq<nat>,
                     features: seq<seq<int>>, test: SplitTest,
                     minScore: int, bValue: Option<int>, bIndex: Option<nat>, pos: nat)
    requires forall t | 0 <= t < |indices| :: indices[t] < |features|
  {
    var scores := Scores(sample, ys, nClasses, indices, features, test);
    (bIndex.None? <==> forall j | 0 <= j < |indices| :: FloatMax <= scores[j]) &&
    (bIndex.None? ==> minScore == FloatMax && bValue.None?) &&
    (bIndex.Some? ==>
       IsFirstMin(scores, pos) && bIndex == Some(indices[pos]) && minScore == scores[pos] &&
       bValue == Some(test(sample, ys, features[indices[pos]], nClasses).1))
  }

  /**
   * `test_splits` (and the inner loop of `compute_split`): score every
   * candidate and keep the first one with the strictly lowest score; no
   * candidate is kept when none scores below `float_info.max`.
   */
  method TestSplits(sample: seq<nat>, ys: seq<nat>, nClasses: nat, indices: seq<nat>,
                    features: seq<seq<int>>, test: SplitTest)
    returns (minScore: int, bValue: Option<int>, bIndex: Option<nat>, ghost pos: nat)
    requires forall t | 0 <= t < |indices| :: indices[t] < |features|
    ensures bIndex.Some? ==> bValue.Some? && bIndex.value in indices
    ensures BestSplit(sample, ys, nClasses, indices, features, test, minScore, bValue, bIndex, pos)
  {
    ghost var scores := Scores(sample, ys, nClasses, indices, features, test);
    minScore, bValue, bIndex := FloatMax, None, None;
    pos := 0;
    for t := 0 to |indices|
      invariant bIndex.None? <==> forall j | 0 <= j < t :: FloatMax <= scores[j]
      invariant bIndex.None? ==> minScore == FloatMax && bValue.None?
      invariant bIndex.Some? ==>
                  IsFirstMin(scores[..t], pos) && bIndex == Some(indices[pos]) && minScore == scores[pos] &&
                  bValue == Some(test(sample, ys, features[indices[pos]], nClasses).1)
    {
      var feature := features[indices[t]];
      var (score, value) := test(sample, ys, feature, nClasses);
      if score < minScore {
        minScore, bValue, bIndex := score, Some(value), Some(indices[t]);
        pos := t;
      }
    }
    assert scores[..|indices|] == scores;
    if bIndex.Some? {
      assert indices[pos] in indices;
    }
  }

  // ---------------------------------------------------------------- the last round

  /**
   * One round of a `compute_split` call: the features tried before it, the
   * features it drew, and the position in the draw of the best-scoring one
   * (`None` when none scored below `float_info.max`).
   */
  datatype Round = Round(tried: seq<nat>, selection: seq<nat>, best: Option<nat>)

  /**
   * A draw `feature_selection` can make once the distinct features `tried`
   * have been tried: `min(mTry, n - |tried|)` distinct features below `n`,
   * none of them tried.
   */
  predicate Drawn(n: nat, mTry: nat, tried: seq<nat>, selection: seq<nat>)
  {
    |selection| == (if mTry < n - |tried| then mTry else n - |tried|) && Distinct(selection) &&
    forall t | 0 <= t < |selection| :: selection[t] < n && selection[t] !in tried
  }

  /** A draw from `Untried` is `Drawn`. */
  lemma UntriedDrawn(n: nat, mTry: nat, tried: seq<nat>, selection: seq<nat>)
    requires Distinct(tried) && forall f | f in tried :: f < n
    requires multiset(selection) <= multiset(Untried(n, tried))
    requires |selection| == if mTry < |Untried(n, tried)| then mTry else |Untried(n, tried)|
    ensures Drawn(n, mTry, tried, selection)
  {
    var untried := Untried(n, tried);
    UntriedCount(n, tried);
    UntriedDistinct(n, tried);
    DrawDistinct(selection, untried);
    forall t | 0 <= t < |selection| ensures selection[t] < n && selection[t] !in tried {
      assert selection[t] in selection;
    }
  }

  /**
   * Round `r` of a `compute_split` call as the loop body plays it: a draw
   * `feature_selection` can make after `r.tried`, scored with the split
   * test; `r.best` is the position of the first strictly lowest score, and
   * `None` when no score is below `float_info.max`.
   */
  ghost predicate Scoring(sample: seq<nat>, ys: seq<nat>, features: seq<seq<int>>, nFeatures: nat,
                          nClasses: nat, mTry: nat, test: SplitTest, r: Round)
  {
    |ys| == |sample| && (|ys| > 0 || nClasses >= 1) && Fits(features, nFeatures, sample) &&
    Distinct(r.tried) && (forall f | f in r.tried :: f < nFeatures) &&
    Drawn(nFeatures, mTry, r.tried, r.selection) &&
    (forall t | 0 <= t < |r.selection| :: r.selection[t] < nFeatures) &&
    var scores := Scores(sample, ys, nClasses, r.selection, features, test);
    (r.best.None? <==> forall j | 0 <= j < |scores| :: FloatMax <= scores[j]) &&
    (r.best.Some? ==> IsFirstMin(scores, r.best.value))
  }

  /** The round's best split leaves a row on each side of its threshold. */
  ghost predicate Accepts(sample: seq<nat>, ys: seq<nat>, features: seq<seq<int>>, nClasses: nat,
                          test: SplitTest, r: Round)
  {
    r.best.Some? && r.best.value < |r.selection| && r.selection[r.best.value] < |features| &&
    var column := features[r.selection[r.best.value]];
    Separates(sample, column, test(sample, ys, column, nClasses).1)
  }

  /**
   * `info` is what `compute_split` returns when `r` is its last round: the
   * inner node of the best feature and the threshold the split test gave
   * it when that split is accepted; otherwise (also when no score was below
   * the bound) the round used up the last untried features and the node is
   * the leaf of its labels.
   */
  ghost predicate FromRound(sample: seq<nat>, ys: seq<nat>, features: seq<seq<int>>, nFeatures: nat,
                            nClasses: nat, mTry: nat, test: SplitTest, info: NodeInfo, r: Round)
  {
    Scoring(sample, ys, features, nFeatures, nClasses, mTry, test, r) &&
    if Accepts(sample, ys, features, nClasses, test, r) then
      var index := r.selection[r.best.value];
      info == InnerNodeInfo(index, test(sample, ys, features[index], nClasses).1)
    else
      info == ComputeLeafInfo(ys, nClasses) && |r.tried| + |r.selection| == nFeatures
  }

  /** A round that does not end the loop: its split is rejected and features remain untried. */
  ghost predicate Rejected(sample: seq<nat>, ys: seq<nat>, features: seq<seq<int>>, nFeatures: nat,
                           nClasses: nat, mTry: nat, test: SplitTest, r: Round)
  {
    Scoring(sample, ys, features, nFeatures, nClasses, mTry, test, r) &&
    !Accepts(sample, ys, features, nClasses, test, r) && |r.tried| + |r.selection| < nFeatures
  }

  /** The tried list after the rounds `rs`: each round adds its draw to what the one before left. */
  function TriedAfter(rs: seq<Round>): seq<nat>
  {
    if rs == [] then [] else rs[|rs| - 1].tried + rs[|rs| - 1].selection
  }

  /** Round `k` starts from what the rounds before it left. */
  predicate StartsAfter(rs: seq<Round>, k: nat)
    requires k < |rs|
  {
    rs[k].tried == TriedAfter(rs[..k])
  }

  /** Rounds that follow one another: the first starts from nothing tried. */
  predicate Chained(rs: seq<Round>)
  {
    forall k | 0 <= k < |rs| :: StartsAfter(rs, k)
  }

  /** Round `k` of `rs` was played and rejected. */
  ghost predicate RejectedAt(sample: seq<nat>, ys: seq<nat>, features: seq<seq<int>>, nFeatures: nat,
                             nClasses: nat, mTry: nat, test: SplitTest, rs: seq<Round>, k: nat)
    requires k < |rs|
  {
    Rejected(sample, ys, features, nFeatures, nClasses, mTry, test, rs[k])
  }

  /** The rounds `rs` have all been played and none of them ended the loop; `tried` is what they left. */
  ghost predicate Ongoing(sample: seq<nat>, ys: seq<nat>, features: seq<seq<int>>, nFeatures: nat,
                          nClasses: nat, mTry: nat, test: SplitTest, rs: seq<Round>, tried: seq<nat>)
  {
    Chained(rs) && tried == TriedAfter(rs) &&
    forall k | 0 <= k < |rs| :: RejectedAt(sample, ys, features, nFeatures, nClasses, mTry, test, rs, k)
  }

  /**
   * A whole `compute_split` loop that returns `info`: rounds played from an
   * empty tried list, every one but the last rejected, and the last one
   * giving `info`.
   */
  ghost predicate Run(sample: seq<nat>, ys: seq<nat>, features: seq<seq<int>>, nFeatures: nat,
                      nClasses: nat, mTry: nat, test: SplitTest, info: NodeInfo, rs: seq<Round>)
  {
    |rs| >= 1 &&
    Ongoing(sample, ys, features, nFeatures, nClasses, mTry, test, rs[..|rs| - 1], rs[|rs| - 1].tried) &&
    FromRound(sample, ys, features, nFeatures, nClasses, mTry, test, info, rs[|rs| - 1])
  }

  /** `info` is a node `compute_split` can return: what some run of its loop gives. */
  ghost predicate Concludes(sample: seq<nat>, ys: seq<nat>, features: seq<seq<int>>, nFeatures: nat,
                            nClasses: nat, mTry: nat, test: SplitTest, info: NodeInfo)
  {
    exists rs: seq<Round> :: Run(sample, ys, features, nFeatures, nClasses, mTry, test, info, rs)
  }

  /**
   * The feature and threshold round `r` keeps, which `get_groups` then
   * splits the sample by: none when no score was below `float_info.max`,
   * and otherwise the best feature with the threshold the split test gave it.
   */
  ghost predicate Picks(sample: seq<nat>, ys: seq<nat>, features: seq<seq<int>>, nClasses: nat, test: SplitTest,
                        r: Round, index: Option<nat>, value: Option<int>)
  {
    if r.best.None? then index.None? && value.None?
    else
      r.best.value < |r.selection| && r.selection[r.best.value] < |features| &&
      index == Some(r.selection[r.best.value]) &&
      value == Some(test(sample, ys, features[r.selection[r.best.value]], nClasses).1)
  }

  /** The run `rs` returns `info`, and its last round kept `index` and `value`. */
  ghost predicate RunPicks(sample: seq<nat>, ys: seq<nat>, features: seq<seq<int>>, nFeatures: nat,
                           nClasses: nat, mTry: nat, test: SplitTest, info: NodeInfo,
                           index: Option<nat>, value: Option<int>, rs: seq<Round>)
  {
    Run(sample, ys, features, nFeatures, nClasses, mTry, test, info, rs) &&
    Picks(sample, ys, features, nClasses, test, rs[|rs| - 1], index, value)
  }

  /**
   * `info` is what some run of the loop returns, and `index` and `value`
   * are what the last round of that same run kept.
   */
  ghost predicate Yields(sample: seq<nat>, ys: seq<nat>, features: seq<seq<int>>, nFeatures: nat,
                         nClasses: nat, mTry: nat, test: SplitTest, info: NodeInfo,
                         index: Option<nat>, value: Option<int>)
  {
    exists rs: seq<Round> :: RunPicks(sample, ys, features, nFeatures, nClasses, mTry, test, info, index, value, rs)
  }

  /** The node of a run, with what its last round kept, is a node `compute_split` can return. */
  lemma YieldsConcludes(sample: seq<nat>, ys: seq<nat>, features: seq<seq<int>>, nFeatures: nat,
                        nClasses: nat, mTry: nat, test: SplitTest, info: NodeInfo,
                        index: Option<nat>, value: Option<int>)
    requires Yields(sample, ys, features, nFeatures, nClasses, mTry, test, info, index, value)
    ensures Concludes(sample, ys, features, nFeatures, nClasses, mTry, test, info)
  {
    var rs: seq<Round> :| RunPicks(sample, ys, features, nFeatures, nClasses, mTry, test, info, index, value, rs);
    assert Run(sample, ys, features, nFeatures, nClasses, mTry, test, info, rs);
  }

  /** A rejected round after rounds that did not end the loop leaves one more such round. */
  lemma OngoingSnoc(sample: seq<nat>, ys: seq<nat>, features: seq<seq<int>>, nFeatures: nat,
                    nClasses: nat, mTry: nat, test: SplitTest, played: seq<Round>, tried: seq<nat>, r: Round)
    requires Ongoing(sample, ys, features, nFeatures, nClasses, mTry, test, played, tried)
    requires r.tried == tried && Rejected(sample, ys, features, nFeatures, nClasses, mTry, test, r)
    ensures Ongoing(sample, ys, features, nFeatures, nClasses, mTry, test, played + [r], r.tried + r.selection)
  {
    ChainedSnoc(played, r);
    var rs := played + [r];
    forall k | 0 <= k < |rs|
      ensures RejectedAt(sample, ys, features, nFeatures, nClasses, mTry, test, rs, k)
    {
      if k < |played| {
        assert RejectedAt(sample, ys, features, nFeatures, nClasses, mTry, test, played, k);
      }
    }
  }

  /** A last round after rounds that did not end the loop completes a run. */
  lemma RunSnoc(sample: seq<nat>, ys: seq<nat>, features: seq<seq<int>>, nFeatures: nat,
                nClasses: nat, mTry: nat, test: SplitTest, played: seq<Round>, tried: seq<nat>, info: NodeInfo, r: Round,
                index: Option<nat>, value: Option<int>)
    requires Ongoing(sample, ys, features, nFeatures, nClasses, mTry, test, played, tried)
    requires r.tried == tried && FromRound(sample, ys, features, nFeatures, nClasses, mTry, test, info, r)
    requires Picks(sample, ys, features, nClasses, test, r, index, value)
    ensures Run(sample, ys, features, nFeatures, nClasses, mTry, test, info, played + [r])
    ensures Yields(sample, ys, features, nFeatures, nClasses, mTry, test, info, index, value)
  {
    ChainedSnoc(played, r);
    var rs := played + [r];
    assert rs[|rs| - 1] == r;
    assert RunPicks(sample, ys, features, nFeatures, nClasses, mTry, test, info, index, value, rs);
  }

  /** Every feature's split test scores below `float_info.max` with a threshold that leaves rows on both sides. */
  predicate AllSeparate(sample: seq<nat>, ys: seq<nat>, features: seq<seq<int>>, nFeatures: nat, nClasses: nat,
                        test: SplitTest)
    requires nFeatures <= |features|
  {
    forall f | 0 <= f < nFeatures ::
      test(sample, ys, features[f], nClasses).0 < FloatMax &&
      Separates(sample, features[f], test(sample, ys, features[f], nClasses).1)
  }

  /** A first round over features that all separate accepts its best split. */
  lemma FirstRoundAccepts(sample: seq<nat>, ys: seq<nat>, features: seq<seq<int>>, nFeatures: nat,
                          nClasses: nat, mTry: nat, test: SplitTest, r: Round)
    requires Scoring(sample, ys, features, nFeatures, nClasses, mTry, test, r) && r.tried == []
    requires nFeatures > 0 && mTry >= 1 && AllSeparate(sample, ys, features, nFeatures, nClasses, test)
    ensures Accepts(sample, ys, features, nClasses, test, r)
  {
    var scores := Scores(sample, ys, nClasses, r.selection, features, test);
    assert |r.selection| >= 1 && r.selection[0] < nFeatures;
    assert scores[0] < FloatMax;
    var p := r.best.value;
    assert r.selection[p] < nFeatures;
  }

  /**
   * When every feature's split test scores below `float_info.max` and
   * separates the sample, `compute_split` returns an inner node: its first
   * round already accepts a split.
   */
  lemma SeparableSplits(sample: seq<nat>, ys: seq<nat>, features: seq<seq<int>>, nFeatures: nat,
                        nClasses: nat, mTry: nat, test: SplitTest, info: NodeInfo)
    requires nFeatures <= |features| && nFeatures > 0 && mTry >= 1
    requires AllSeparate(sample, ys, features, nFeatures, nClasses, test)
    requires Concludes(sample, ys, features, nFeatures, nClasses, mTry, test, info)
    ensures info.InnerNodeInfo?
  {
    var rs: seq<Round> :| Run(sample, ys, features, nFeatures, nClasses, mTry, test, info, rs);
    var before := rs[..|rs| - 1];
    assert rs[0].tried == [] && Scoring(sample, ys, features, nFeatures, nClasses, mTry, test, rs[0]) by {
      if |rs| > 1 {
        assert StartsAfter(before, 0) && before[..0] == [];
        assert RejectedAt(sample, ys, features, nFeatures, nClasses, mTry, test, before, 0);
      }
    }
    FirstRoundAccepts(sample, ys, features, nFeatures, nClasses, mTry, test, rs[0]);
    if |rs| > 1 {
      assert false;
    }
  }

  /** One more round after `rs`, started from what they left, keeps the rounds chained. */
  lemma ChainedSnoc(rs: seq<Round>, r: Round)
    requires Chained(rs) && r.tried == TriedAfter(rs)
    ensures Chained(rs + [r]) && (rs + [r])[..|rs|] == rs
  {
    var rs' := rs + [r];
    assert rs'[..|rs|] == rs;
    forall k | 0 <= k < |rs'|
      ensures StartsAfter(rs', k)
    {
      if k < |rs| {
        assert rs'[..k] == rs[..k];
        assert StartsAfter(rs, k);
      }
    }
  }

  // ---------------------------------------------------------------- compute_split

  /** What `compute_split` returns once its loop has ended: an accepted split, or a leaf after every feature was tried. */
  predicate SplitOutcome(sample: seq<nat>, ys: seq<nat>, features: seq<seq<int>>, nFeatures: nat, nClasses: nat,
                         info: NodeInfo, g: Groups, tried: seq<nat>)
    requires |ys| == |sample| && (|ys| > 0 || nClasses >= 1) && Fits(features, nFeatures, sample)
  {
    (info.InnerNodeInfo? ==>
       info.index < nFeatures && |g.left| > 0 && |g.right| > 0 &&
       g == GetGroups(sample, ys, features, Some(info.index), Some(info.value))) &&
    (info.LeafInfo? ==>
       info == ComputeLeafInfo(ys, nClasses) && (g.left == [] || g.right == []) &&
       forall f | 0 <= f < nFeatures :: f in tried)
  }

  lemma LeafOutcome(sample: seq<nat>, ys: seq<nat>, features: seq<seq<int>>, nFeatures: nat, nClasses: nat,
                    g: Groups, tried: seq<nat>)
    requires |ys| == |sample| && (|ys| > 0 || nClasses >= 1) && Fits(features, nFeatures, sample)
    requires (g.left == [] || g.right == []) && forall f | 0 <= f < nFeatures :: f in tried
    ensures SplitOutcome(sample, ys, features, nFeatures, nClasses, ComputeLeafInfo(ys, nClasses), g, tried)
  {
  }

  lemma InnerOutcome(sample: seq<nat>, ys: seq<nat>, features: seq<seq<int>>, nFeatures: nat, nClasses: nat,
                     index: nat, value: int, g: Groups, tried: seq<nat>)
    requires |ys| == |sample| && (|ys| > 0 || nClasses >= 1) && Fits(features, nFeatures, sample)
    requires index < nFeatures && |g.left| > 0 && |g.right| > 0
    requires g == GetGroups(sample, ys, features, Some(index), Some(value))
    ensures SplitOutcome(sample, ys, features, nFeatures, nClasses, InnerNodeInfo(index, value), g, tried)
  {
  }

  /**
   * `compute_split`: rounds of feature selection and scoring until the best
   * split of a round leaves both groups non-empty, which gives an inner
   * node; otherwise the drawn features join the tried ones, and once all
   * `nFeatures` have been tried the node becomes a leaf. With `mTry >= 1`
   * the loop ends after at most `ceil(nFeatures / mTry)` rounds (one round
   * when there are no features). `Settled` states the result: the node is
   * what a run of the loop gives, and `g` are the groups of the split the
   * last round of that same run kept (`index`, `value`; `Yields`).
   */
  method ComputeSplit(sample: seq<nat>, nFeatures: nat, ys: seq<nat>, nClasses: nat, mTry: nat,
                      features: seq<seq<int>>, test: SplitTest)
    returns (info: NodeInfo, g: Groups, ghost tried: seq<nat>, ghost rounds: nat,
             ghost index: Option<nat>, ghost value: Option<int>)
    requires |ys| == |sample| && mTry >= 1 && (|ys| > 0 || nClasses >= 1)
    requires Fits(features, nFeatures, sample)
    ensures Settled(sample, ys, features, nFeatures, nClasses, mTry, test, info, g, tried, index, value)
    ensures Distinct(tried) && forall f | f in tried :: f < nFeatures
    ensures rounds >= 1 && (rounds == 1 || Times(rounds - 1, mTry) < nFeatures)
  {
    var triedIndices: seq<nat> := [];
    ghost var played: seq<Round> := [];
    rounds := 0;
    while true
      invariant TriedInv(nFeatures, mTry, triedIndices, false, rounds)
      invariant Ongoing(sample, ys, features, nFeatures, nClasses, mTry, test, played, triedIndices)
      decreases nFeatures - |triedIndices|
    {
      var ended, next, lastIndex, lastValue;
      ended, info, g, next, lastIndex, lastValue, played :=
        SplitStep(sample, nFeatures, ys, nClasses, mTry, features, test, triedIndices, rounds, played);
      rounds := rounds + 1;
      if ended {
        tried, index, value := next, lastIndex, lastValue;
        return;
      }
      triedIndices := next;
    }
  }

  /**
   * What holds once `compute_split`'s loop has ended: `info` is both a
   * `SplitOutcome` and what the last round gives, and `g` groups the sample
   * by the split that round kept.
   */
  ghost predicate Settled(sample: seq<nat>, ys: seq<nat>, features: seq<seq<int>>, nFeatures: nat, nClasses: nat,
                          mTry: nat, test: SplitTest, info: NodeInfo, g: Groups, tried: seq<nat>,
                          index: Option<nat>, value: Option<int>)
  {
    |ys| == |sample| && (|ys| > 0 || nClasses >= 1) && Fits(features, nFeatures, sample) &&
    (index.Some? ==> value.Some? && index.value < nFeatures) &&
    g == GetGroups(sample, ys, features, index, value) &&
    SplitOutcome(sample, ys, features, nFeatures, nClasses, info, g, tried) &&
    Yields(sample, ys, features, nFeatures, nClasses, mTry, test, info, index, value)
  }

  /**
   * When no feature scores below `float_info.max`, the last round keeps no
   * feature, so the node is a leaf and the whole sample is in the left group.
   */
  lemma UnscoredStaysLeft(sample: seq<nat>, ys: seq<nat>, features: seq<seq<int>>, nFeatures: nat, nClasses: nat,
                          mTry: nat, test: SplitTest, info: NodeInfo, g: Groups, tried: seq<nat>,
                          index: Option<nat>, value: Option<int>)
    requires Settled(sample, ys, features, nFeatures, nClasses, mTry, test, info, g, tried, index, value)
    requires forall f | 0 <= f < nFeatures :: FloatMax <= test(sample, ys, features[f], nClasses).0
    ensures info.LeafInfo? && g == Groups(sample, ys, [], [])
  {
    var rs: seq<Round> :| RunPicks(sample, ys, features, nFeatures, nClasses, mTry, test, info, index, value, rs);
    assert Run(sample, ys, features, nFeatures, nClasses, mTry, test, info, rs);
    var r := rs[|rs| - 1];
    var scores := Scores(sample, ys, nClasses, r.selection, features, test);
    forall j | 0 <= j < |scores| ensures FloatMax <= scores[j] {
      assert r.selection[j] < nFeatures;
    }
  }

  /**
   * The bookkeeping of `compute_split`'s loop: the tried features are
   * distinct and exist; while it runs, every finished round added exactly
   * `mTry` of them; once it has ended, every round before the last one left
   * features untried.
   */
  predicate TriedInv(n: nat, mTry: nat, tried: seq<nat>, ended: bool, rounds: nat)
  {
    Distinct(tried) && (forall f | f in tried :: f < n) && |tried| <= n &&
    (!ended ==> |tried| == Times(rounds, mTry) && (rounds == 0 || |tried| < n)) &&
    (ended ==> rounds >= 1 && (rounds == 1 || Times(rounds - 1, mTry) < n))
  }

  /** A round that accepts its split ends the loop. */
  lemma StepAccept(n: nat, mTry: nat, tried: seq<nat>, rounds: nat)
    requires TriedInv(n, mTry, tried, false, rounds)
    ensures TriedInv(n, mTry, tried, true, rounds + 1)
  {
  }

  /** A round whose split is rejected adds its drawn features to the tried ones. */
  lemma StepReject(n: nat, mTry: nat, tried: seq<nat>, selection: seq<nat>, rounds: nat)
    requires TriedInv(n, mTry, tried, false, rounds) && mTry >= 1
    requires Drawn(n, mTry, tried, selection)
    ensures TriedInv(n, mTry, tried + selection, |tried + selection| == n, rounds + 1)
    ensures |tried + selection| == n ==> forall f | 0 <= f < n :: f in tried + selection
    ensures |tried + selection| != n ==> |tried + selection| > |tried|
  {
    ExtendTried(n, tried, selection, mTry);
    assert Times(rounds + 1, mTry) == Times(rounds, mTry) + mTry;
  }

  /** `r * m` counted out round by round. */
  function Times(r: nat, m: nat): nat
  {
    if r == 0 then 0 else Times(r - 1, m) + m
  }

  /**
   * One round of `compute_split`: draw up to `mTry` untried features, keep
   * the best-scoring one, and group the sample by its threshold.
   */
  method SplitRound(sample: seq<nat>, nFeatures: nat, ys: seq<nat>, nClasses: nat, mTry: nat,
                    features: seq<seq<int>>, test: SplitTest, tried: seq<nat>)
    returns (selection: seq<nat>, minScore: int, bValue: Option<int>, bIndex: Option<nat>, ghost pos: nat, g: Groups)
    requires |ys| == |sample| && Fits(features, nFeatures, sample)
    requires Distinct(tried) && forall f | f in tried :: f < nFeatures
    ensures Scored(sample, ys, features, nFeatures, nClasses, mTry, test, tried, selection, minScore, bValue, bIndex, pos, g)
  {
    var untried := Untried(nFeatures, tried);
    selection := FeatureSelection(untried, mTry);
    UntriedDrawn(nFeatures, mTry, tried, selection);
    minScore, bValue, bIndex, pos := TestSplits(sample, ys, nClasses, selection, features, test);
    g := GetGroups(sample, ys, features, bIndex, bValue);
  }

  /**
   * What one round of `compute_split` produced: a legal draw, its best
   * split, and the groups of that split.
   */
  ghost predicate Scored(sample: seq<nat>, ys: seq<nat>, features: seq<seq<int>>, nFeatures: nat, nClasses: nat,
                         mTry: nat, test: SplitTest, tried: seq<nat>, selection: seq<nat>,
                         minScore: int, value: Option<int>, index: Option<nat>, pos: nat, g: Groups)
  {
    |ys| == |sample| && Fits(features, nFeatures, sample) &&
    Distinct(tried) && (forall f | f in tried :: f < nFeatures) && Drawn(nFeatures, mTry, tried, selection) &&
    (forall t | 0 <= t < |selection| :: selection[t] < nFeatures) &&
    (index.Some? ==> value.Some? && index.value < nFeatures) &&
    BestSplit(sample, ys, nClasses, selection, features, test, minScore, value, index, pos) &&
    g == GetGroups(sample, ys, features, index, value)
  }

  /**
   * The body of `compute_split`'s loop: one round, then either the split is
   * accepted (both groups non-empty), or the drawn features join the tried
   * ones and the node becomes a leaf once every feature has been tried.
   */
  method SplitStep(sample: seq<nat>, nFeatures: nat, ys: seq<nat>, nClasses: nat, mTry: nat,
                   features: seq<seq<int>>, test: SplitTest, tried: seq<nat>, ghost rounds: nat,
                   ghost played: seq<Round>)
    returns (ended: bool, info: NodeInfo, g: Groups, tried': seq<nat>, index: Option<nat>, value: Option<int>,
             ghost played': seq<Round>)
    requires |ys| == |sample| && mTry >= 1 && (|ys| > 0 || nClasses >= 1) && Fits(features, nFeatures, sample)
    requires TriedInv(nFeatures, mTry, tried, false, rounds)
    requires Ongoing(sample, ys, features, nFeatures, nClasses, mTry, test, played, tried)
    ensures TriedInv(nFeatures, mTry, tried', ended, rounds + 1)
    ensures |tried| <= |tried'| && (!ended ==> |tried| < |tried'|)
    ensures !ended ==> Ongoing(sample, ys, features, nFeatures, nClasses, mTry, test, played', tried')
    ensures ended ==> Settled(sample, ys, features, nFeatures, nClasses, mTry, test, info, g, tried', index, value)
  {
    var selection, minScore;
    ghost var pos;
    selection, minScore, value, index, pos, g := SplitRound(sample, nFeatures, ys, nClasses, mTry, features, test, tried);
    info := LeafInfo(0, [], 0);
    tried' := tried;
    played' := played + [Round(tried, selection, if index.Some? then Some(pos) else None)];
    if |g.left| > 0 && |g.right| > 0 {
      ended := true;
      RoundAccepted(sample, ys, features, nFeatures, nClasses, mTry, test, played, tried, selection,
                    minScore, value, index, pos, g);
      info := InnerNodeInfo(index.value, value.value);
      StepAccept(nFeatures, mTry, tried, rounds);
    } else {
      StepReject(nFeatures, mTry, tried, selection, rounds);
      tried' := tried + selection;
      ended := |tried'| == nFeatures;
      if ended {
        info := ComputeLeafInfo(ys, nClasses);
        RoundExhausted(sample, ys, features, nFeatures, nClasses, mTry, test, played, tried, selection,
                       minScore, value, index, pos, g);
      } else {
        RoundRejected(sample, ys, features, nFeatures, nClasses, mTry, test, played, tried, selection,
                      minScore, value, index, pos, g);
      }
    }
  }

  /** A round whose best split leaves both groups non-empty settles on that split. */
  lemma RoundAccepted(sample: seq<nat>, ys: seq<nat>, features: seq<seq<int>>, nFeatures: nat, nClasses: nat,
                      mTry: nat, test: SplitTest, played: seq<Round>, tried: seq<nat>, selection: seq<nat>,
                      minScore: int, value: Option<int>, index: Option<nat>, pos: nat, g: Groups)
    requires Scored(sample, ys, features, nFeatures, nClasses, mTry, test, tried, selection, minScore, value, index, pos, g)
    requires Ongoing(sample, ys, features, nFeatures, nClasses, mTry, test, played, tried)
    requires |ys| > 0 || nClasses >= 1
    requires |g.left| > 0 && |g.right| > 0
    ensures index.Some? && value.Some?
    ensures Settled(sample, ys, features, nFeatures, nClasses, mTry, test, InnerNodeInfo(index.value, value.value),
                    g, tried, index, value)
  {
    InnerOutcome(sample, ys, features, nFeatures, nClasses, index.value, value.value, g, tried);
    SeparatesGroups(sample, ys, features, index.value, value.value);
    var r := Round(tried, selection, Some(pos));
    assert FromRound(sample, ys, features, nFeatures, nClasses, mTry, test, InnerNodeInfo(index.value, value.value), r);
    RunSnoc(sample, ys, features, nFeatures, nClasses, mTry, test, played, tried, InnerNodeInfo(index.value, value.value), r,
            index, value);
  }

  /** A round that uses up the last untried features without a usable split settles on the leaf. */
  lemma RoundExhausted(sample: seq<nat>, ys: seq<nat>, features: seq<seq<int>>, nFeatures: nat, nClasses: nat,
                       mTry: nat, test: SplitTest, played: seq<Round>, tried: seq<nat>, selection: seq<nat>,
                       minScore: int, value: Option<int>, index: Option<nat>, pos: nat, g: Groups)
    requires Scored(sample, ys, features, nFeatures, nClasses, mTry, test, tried, selection, minScore, value, index, pos, g)
    requires Ongoing(sample, ys, features, nFeatures, nClasses, mTry, test, played, tried)
    requires |ys| > 0 || nClasses >= 1
    requires g.left == [] || g.right == []
    requires |tried + selection| == nFeatures && forall f | 0 <= f < nFeatures :: f in tried + selection
    ensures Settled(sample, ys, features, nFeatures, nClasses, mTry, test, ComputeLeafInfo(ys, nClasses),
                    g, tried + selection, index, value)
  {
    LeafOutcome(sample, ys, features, nFeatures, nClasses, g, tried + selection);
    if index.Some? {
      SeparatesGroups(sample, ys, features, index.value, value.value);
    }
    var r := Round(tried, selection, if index.Some? then Some(pos) else None);
    assert FromRound(sample, ys, features, nFeatures, nClasses, mTry, test, ComputeLeafInfo(ys, nClasses), r);
    RunSnoc(sample, ys, features, nFeatures, nClasses, mTry, test, played, tried, ComputeLeafInfo(ys, nClasses), r,
            index, value);
  }

  /** A round whose best split leaves a group empty while features remain untried is one more rejected round. */
  lemma RoundRejected(sample: seq<nat>, ys: seq<nat>, features: seq<seq<int>>, nFeatures: nat, nClasses: nat,
                      mTry: nat, test: SplitTest, played: seq<Round>, tried: seq<nat>, selection: seq<nat>,
                      minScore: int, value: Option<int>, index: Option<nat>, pos: nat, g: Groups)
    requires Scored(sample, ys, features, nFeatures, nClasses, mTry, test, tried, selection, minScore, value, index, pos, g)
    requires Ongoing(sample, ys, features, nFeatures, nClasses, mTry, test, played, tried)
    requires |ys| > 0 || nClasses >= 1
    requires g.left == [] || g.right == []
    requires |tried + selection| != nFeatures
    ensures Ongoing(sample, ys, features, nFeatures, nClasses, mTry, test,
                    played + [Round(tried, selection, if index.Some? then Some(pos) else None)], tried + selection)
  {
    ExtendTried(nFeatures, tried, selection, mTry);
    if index.Some? {
      SeparatesGroups(sample, ys, features, index.value, value.value);
    }
    var r := Round(tried, selection, if index.Some? then Some(pos) else None);
    assert Rejected(sample, ys, features, nFeatures, nClasses, mTry, test, r);
    OngoingSnoc(sample, ys, features, nFeatures, nClasses, mTry, test, played, tried, r);
  }
}
