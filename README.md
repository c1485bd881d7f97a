# dislib decision tree, modelled in Dafny

This project models the decision-tree engine of dislib's random forest
(`dislib/classification/rf/decision_tree.py`). It covers four parts, taken
as sequential code (the pyCOMPSs tasks become plain calls):

- **Split search.**
  - `feature_selection` draws untried features.
  - `test_splits` and the inner loop of `compute_split` keep the first
    strictly lowest score.
  - `get_groups` partitions a sample at a threshold.
  - `compute_leaf_info` builds the class histogram and its mode.
  - `compute_split` retries until a split leaves both sides non-empty, or
    until every feature has been tried.
- **The local subtree builder.** `build_subtree_in` grows a subtree with
  an explicit worklist.
- **The distributed top tree.** `DecisionTreeClassifier.fit` splits every
  node shallower than `distr_depth`. At `distr_depth` it hands the node to
  a subtree builder with `max_depth - distr_depth` levels left.
- **Prediction.**
  - `Node.predict`;
  - `get_subtree_path`, the zero-padded binary path of a subtree index;
  - `get_predicted_indices`, which narrows a row mask one level at a time;
  - `predict_branch`;
  - `merge_branches`;
  - `DecisionTreeClassifier.predict`.

## Modelling choices

**Node arena.** A tree of `Node` objects is a node arena: a `seq<NodeRec>`
whose `left`/`right` fields are slot indices. Every node's `content` is one
of four things:
- nothing yet;
- a split or leaf record (`InnerNodeInfo` / `LeafInfo`);
- a fitted scikit-learn delegate (`SkTree`);
- an integer handle into `nodes_info` or `subtrees` (top tree).

**The builders are imperative methods.** `build_subtree_in` and `fit` pop
and push an explicit stack of `(node, sample, labels, depth)` items. They
fill the slots the way the source assigns `node.content`, `node.left` and
`node.right`. Ghost records, one per slot, remember each slot's sample,
labels, depth and path; the loop invariants are stated over them.

**Opaque pieces.**
- `test_split`, whose body is not part of this model, is a function
  parameter `SplitTest` returning `(score, value)`.
- Random draws (the bootstrap, `np.random.choice` of features) are free
  choices, constrained only by what the source guarantees about them.
- The scikit-learn tree is opaque. A delegated node records the sample,
  labels and depth bound it was fitted with, and its predictions come from
  a parameter `SkPredict`.

**Data.**
- The feature store is feature-major: `features[f][s]` is feature `f` of
  sample `s`.
- Feature values and scores are integers. Thresholds only need an order.
  `float_info.max` is its exact integer value.

**Threshold asymmetry, kept as written.**
- `get_groups` sends `feature < value` to the left.
- `Node.predict` and `get_predicted_indices` send `value <= threshold` to
  the left.

**Failed top-level splits.** A failed split above `distr_depth` still gets
two children and stores a `LeafInfo` in `nodes_info`, exactly as `fit`
does. Prediction therefore requires every `nodes_info` entry to be an
inner split (`AllInner`), because `get_predicted_indices` reads `.index`
from it.

## Model

| member | source | states |
|---|---|---|
| BinaryPath.SubtreePath | dislib/classification/rf/decision_tree.py:268-271 | with depth 0 the path is empty; for `i < 2^d` it is exactly `d` binary digits whose value is `i` |
| BinaryPath.BinRoundTrip | dislib/classification/rf/decision_tree.py:271 | reading back the digits `bin` writes gives the number |
| BinaryPath.PaddedValue | dislib/classification/rf/decision_tree.py:271 | left-padding `bin(i)` with zeros keeps it binary and keeps its value `i` |
| BinaryPath.BinLength | dislib/classification/rf/decision_tree.py:271 | `bin(n)` fits in `d` digits exactly when `n < 2^d`, so `zfill(d)` never lengthens it for a subtree index |
| BinaryPath.BinValueInjective | dislib/classification/rf/decision_tree.py:268-271 | two binary strings of equal length with equal value are equal |
| BinaryPath.PathOfValue | dislib/classification/rf/decision_tree.py:268-271 | every binary path of length `d` is the subtree path of its own value (the inverse round trip) |
| BinaryPath.PathsDistinct | dislib/classification/rf/decision_tree.py:268-271 | distinct subtree indices get distinct paths |
| Masks.SelectAt | dislib/classification/rf/decision_tree.py:29-30 | `s[mask]` holds every selected element at the position given by the number of selected elements before it |
| Masks.SelectPartition | dislib/classification/rf/decision_tree.py:124-127 | `s[mask]` and `s[~mask]` together hold exactly the elements of `s` (as multisets) |
| Masks.InterleaveAt | dislib/classification/rf/decision_tree.py:29-30 | writing `a` into the masked positions and `b` into the others puts each masked position's value from `a` and each other from `b`, in order |
| Nodes.Predict | dislib/classification/rf/decision_tree.py:20-32 | the prediction has one entry per input row |
| Nodes.PredictPointwise | dislib/classification/rf/decision_tree.py:20-32 | predicting a batch gives every row what predicting that row alone gives, so masking, predicting each side and interleaving the results loses no row and mixes none up |
| Nodes.PredictConstant | dislib/classification/rf/decision_tree.py:20-32 | a subtree whose every leaf and delegate answers `c` predicts `c` for every row |
| Split.ComputeLeafInfo | dislib/classification/rf/decision_tree.py:131-134 | the result is a `LeafInfo` whose size is the number of labels, with at least `n_classes` frequencies |
| Split.LeafInfoMeaning | dislib/classification/rf/decision_tree.py:131-134 | frequencies count each class, sum to the size, and the mode is the first class with the highest count |
| Split.HistogramSum | dislib/classification/rf/decision_tree.py:132 | the class counts of `bincount` add up to the number of labels |
| Split.UniformLeaf | dislib/classification/rf/decision_tree.py:131-134 | a leaf built from labels that are all `c` has mode `c` |
| Split.GetGroups | dislib/classification/rf/decision_tree.py:117-128 | group sizes add up to the sample size, labels align with each group, and with no feature everything goes left and right is empty |
| Split.GroupsPartition | dislib/classification/rf/decision_tree.py:117-128 | left and right partition the sample with aligned labels; left holds exactly the samples with feature value below the threshold, right the rest |
| Split.SidesOfThreshold | dislib/classification/rf/decision_tree.py:123-125 | every sample kept by the `<` mask lies below the threshold, every other one at or above it |
| Split.GroupsInOrder | dislib/classification/rf/decision_tree.py:124-127 | both groups keep the sample's original order, and each label stays with its sample |
| Split.SeparatesGroups | dislib/classification/rf/decision_tree.py:117-128 | a split on an existing feature leaves both groups non-empty exactly when the sample has a value below the threshold and one at or above it |
| Split.Untried | dislib/classification/rf/decision_tree.py:169 | the untried features are exactly those below `n_features` not yet tried, in increasing order |
| Split.FeatureSelection | dislib/classification/rf/decision_tree.py:97-99 | draws `min(m_try, len(untried))` features from the untried ones, without replacement (no feature more often than it occurs there) |
| Split.DrawDistinct | dislib/classification/rf/decision_tree.py:97-99 | a draw without replacement from distinct features has no repeats and only untried features |
| Split.UntriedCount | dislib/classification/rf/decision_tree.py:169 | with distinct tried features, tried and untried add up to `n_features` |
| Split.UntriedDrawn | dislib/classification/rf/decision_tree.py:97-99 | a draw from `setdiff1d(arange(n_features), tried)` of `min(m_try, len(untried))` features without replacement has no repeats and holds only existing, untried features |
| Split.ExtendTried | dislib/classification/rf/decision_tree.py:185-186 | after a failed round the tried list stays duplicate-free; its length reaches `n_features` exactly when every feature was tried, and otherwise the round drew a full `m_try` |
| Split.TestSplits | dislib/classification/rf/decision_tree.py:103-114 | the chosen feature is the first one with the strictly lowest score, with its threshold; with no score below `float_info.max` none is chosen |
| Split.ComputeSplit | dislib/classification/rf/decision_tree.py:164-190 | returns a node that some run of the loop gives (`Concludes`): rounds start from nothing tried, each draws `min(m_try, #untried)` untried features and keeps the first strictly lowest score with the threshold the split test gave it; every round but the last keeps a split that leaves a group empty and leaves features untried, and adds its draw to the tried list; the last round gives the inner node of its split when that split leaves both groups non-empty, and otherwise the `compute_leaf_info` leaf once every feature was tried; the groups are those of the feature and threshold that same last round kept (`Yields`), with the whole sample on the left when it kept none; at most `ceil(n_features / m_try)` rounds run |
| Split.SplitRound | dislib/classification/rf/decision_tree.py:169-179 | one round draws a valid selection (`Drawn`), keeps its first strictly lowest-scoring feature with the threshold the split test gave it, and groups the sample by that split |
| Split.SplitStep | dislib/classification/rf/decision_tree.py:169-188 | given the rejected rounds so far and the tried list they left, one round either ends the loop with what the run of those rounds plus this one gives (`Settled`), or is one more rejected round and strictly grows the tried list by a full `m_try` |
| Split.RoundAccepted | dislib/classification/rf/decision_tree.py:180-183 | after rejected rounds, a round whose best split leaves both groups non-empty completes a run that returns that feature and threshold as the inner node |
| Split.RoundExhausted | dislib/classification/rf/decision_tree.py:184-188 | after rejected rounds, a round whose best split leaves a group empty and that used up the last untried features completes a run that returns the `compute_leaf_info` leaf |
| Split.RoundRejected | dislib/classification/rf/decision_tree.py:184-188 | a round whose best split leaves a group empty while features stay untried is one more rejected round, and its draw joins the tried list |
| Split.UnscoredStaysLeft | dislib/classification/rf/decision_tree.py:115-121 | when no feature's split test scores below `float_info.max`, the settled node is a leaf and the whole sample is in the left group, the right one empty |
| Split.SeparableSplits | dislib/classification/rf/decision_tree.py:164-183 | when every feature's split test scores below `float_info.max` and leaves rows on both sides, every node `compute_split` can return is an inner node: the first round already accepts |
| Split.StepReject | dislib/classification/rf/decision_tree.py:184-188 | a failed round keeps the tried list valid and either has tried every feature, which ends the loop, or has grown it |
| Subtree.BuildSubtreeIn | dislib/classification/rf/decision_tree.py:217-260 | an empty sample gives `[]`; otherwise a well-formed arena where each slot is what the loop makes of the sample that reached it: the `compute_leaf_info` leaf at the depth limit, the fitted delegate where delegation applies, and otherwise a node `compute_split` can return for that sample (`SplitsChosen`), a split's children having received its two groups one level deeper |
| Subtree.Visit | dislib/classification/rf/decision_tree.py:229-259 | one turn of the worklist keeps the builder's invariant and shrinks the outstanding work |
| Subtree.SplitSlot | dislib/classification/rf/decision_tree.py:247-257 | the slot stores a node `compute_split` can return for its sample and labels; a leaf closes the slot and pushes nothing; a split appends two slots and pushes the right item, then the left item, one level deeper |
| Subtree.BuiltRootSplits | dislib/classification/rf/decision_tree.py:229-257 | a built subtree whose root is neither at the depth limit nor delegated, and whose sample every feature's split test separates, has a split at the root, never a leaf |
| Subtree.Complete | dislib/classification/rf/decision_tree.py:229-260 | when the worklist is empty every node of the subtree is built |
| Subtree.HeightBound | dislib/classification/rf/decision_tree.py:231-259 | below a node at depth `t` the subtree is at most `max_depth - t` levels high |
| Subtree.DepthLimit | dislib/classification/rf/decision_tree.py:229-259 | no node of a built subtree lies deeper than `max_depth` |
| Subtree.ReadsFeatures | dislib/classification/rf/decision_tree.py:247-250 | every split of a built subtree reads an existing feature |
| Subtree.UniformSubtree | dislib/classification/rf/decision_tree.py:217-260 | a subtree grown from labels that are all `y` predicts `y` for every row, if the delegate answers `y` when fitted on such labels |
| Routing.GetPredictedIndices | dislib/classification/rf/decision_tree.py:274-286 | a row is marked exactly when it follows the path: `<=` at every '0', `>` at every '1' |
| Routing.Narrow | dislib/classification/rf/decision_tree.py:280-285 | one step clears bits and never sets one: a row stays marked only if it was marked and goes the step's way |
| Routing.RoutesPrefix | dislib/classification/rf/decision_tree.py:276-285 | a path that can be walked can be walked up to any prefix |
| Routing.FollowsPrefix | dislib/classification/rf/decision_tree.py:276-285 | a row following a path follows each of its prefixes |
| Routing.RouteFollows | dislib/classification/rf/decision_tree.py:274-286 | in a complete top tree every row follows some binary path of full depth |
| Routing.PathsExclusive | dislib/classification/rf/decision_tree.py:274-286 | no row follows two different paths of the same length |
| Routing.OnePathPerRow | dislib/classification/rf/decision_tree.py:268-286 | of the `2^d` subtree paths a row follows exactly one: the masks are disjoint and cover every row |
| Routing.MergeBranches | dislib/classification/rf/decision_tree.py:308-316 | every output position written by some branch holds the value of the last branch whose mask holds it |
| Routing.Scatter | dislib/classification/rf/decision_tree.py:315 | `merged[selected] = prediction` writes the branch's predictions, in order, to its marked positions and leaves the rest |
| Routing.WriterUnique | dislib/classification/rf/decision_tree.py:314-315 | with disjoint masks the position is written by exactly the branch that marks it |
| Routing.MergeOrderFree | dislib/classification/rf/decision_tree.py:308-316 | with disjoint masks the merged value does not depend on the order of the branches |
| TopTree.TopStart | dislib/classification/rf/decision_tree.py:360-363 | the root slot with the whole sample satisfies the worklist invariant |
| TopTree.TopVisit | dislib/classification/rf/decision_tree.py:364-389 | one turn keeps the worklist invariant and shrinks the outstanding work |
| TopTree.SplitTop | dislib/classification/rf/decision_tree.py:366-380 | the node gets the next `nodes_info` handle and two new slots; `nodes_info` grows by a node `compute_split` can return for the node's sample (`SplitRecord`), whether or not the split succeeded; the right child, then the left child is pushed one level deeper with the two groups of the feature and threshold the last round of that same run kept |
| TopTree.TopExpand | dislib/classification/rf/decision_tree.py:366-380 | after a split above the frontier, with the new slots, records and stack, the worklist invariant holds again and the outstanding work shrinks |
| TopTree.PlantSubtree | dislib/classification/rf/decision_tree.py:381-389 | a frontier node stores the next `subtrees` handle, and that subtree was grown from the node's sample |
| TopTree.TopWalk | dislib/classification/rf/decision_tree.py:363-380 | following any bit path of at most `distr_depth` digits reaches the node created for that path, because a left child gets its parent's path plus '0' and a right child plus '1' |
| TopTree.TopFitted | dislib/classification/rf/decision_tree.py:363-389 | the finished top tree has `2^d - 1` `nodes_info` entries and `2^d` subtrees; every path reaches a node, with a `nodes_info` handle above the frontier and its own subtree index at it |
| TopTree.SubtreeAt | dislib/classification/rf/decision_tree.py:363-389 | because the left child is popped first, subtrees are registered in path order: subtree `i` hangs at the end of `get_subtree_path(i, d)` and was grown from the sample that reached that node |
| TopTree.SplitAtPath | dislib/classification/rf/decision_tree.py:366-380 | the node at a shorter path holds its own `nodes_info` entry, made from the sample that reached it; its children received the groups of the feature and threshold the last round of that split's run kept |
| TopTree.FittedRoutes | dislib/classification/rf/decision_tree.py:274-286 | when every `nodes_info` entry is an inner split, `get_predicted_indices` can follow every bit path of a fitted top tree |
| Classifier.SampleSelection | dislib/classification/rf/decision_tree.py:87-94 | `n_samples` sorted indices below `n_samples` with their class codes; without bootstrap, every index once in order and the labels unchanged |
| Classifier.LandingFollowed | dislib/classification/rf/decision_tree.py:268-293 | a row follows the path of subtree `i` exactly when `i` is the subtree its comparisons lead it to |
| Classifier.PredictBranch | dislib/classification/rf/decision_tree.py:290-295 | the mask marks exactly the rows following subtree `i`'s path, and each marked row gets that subtree's own prediction |
| Classifier.BranchAt | dislib/classification/rf/decision_tree.py:399-402 | the branch of subtree `i` marks exactly the rows that land in it and gives them their class |
| Classifier.PredictBranches | dislib/classification/rf/decision_tree.py:398-402 | one branch per subtree, in order, each meaning what `BranchAt` says |
| Classifier.PredictTop | dislib/classification/rf/decision_tree.py:398-403 | every row gets the class of the subtree it lands in, the same as routing it alone down the whole tree |
| Classifier.GrowTop | dislib/classification/rf/decision_tree.py:360-389 | the worklist ends with a fitted top tree, and the records of every split and subtree hold |
| Classifier.DecisionTreeClassifier.constructor | dislib/classification/rf/decision_tree.py:321-343 | stores the parameters; the tree starts unfitted |
| Classifier.DecisionTreeClassifier.Fit | dislib/classification/rf/decision_tree.py:345-390 | records the numbers of features and classes and leaves a fitted top tree |
| Classifier.DecisionTreeClassifier.Predict | dislib/classification/rf/decision_tree.py:392-403 | refused when unfitted; otherwise one class per row, the class of the subtree the row lands in |

## Left out

- `predict_proba` (`Node.predict_proba`, `predict_branch_proba`, `DecisionTreeClassifier.predict_proba`): float division truncated into `int64` arrays, and recursive calls without their `n_classes` argument, so it cannot be modelled as written.
- pyCOMPSs plumbing: the `@task` decorators, `compss_delete_object`, `collect`, and the `split_node` / `build_subtree` dispatchers between the two storage layouts. Tasks are plain synchronous calls, and storage is one feature-major column store.
- File and memory-map I/O (`get_sample_attributes`, `get_feature_mmap`, `get_features_mmap`, `np.load`): the data arrive as sequences.
- The scikit-learn delegate's fitting and prediction (`np.unique` with sample weights, `fit`, `predict`): an opaque `SkTree` record and a `SkPredict` parameter.
- The body of `test_split`: `dislib/classification/rf/test_split.py` is not part of this model; it is the `SplitTest` parameter.
- Random number generation and reseeding: every draw is an unconstrained choice among the values the source can return.
- `max_depth == np.inf`: depths are integers, so the unbounded sklearn depth is not modelled.
- Floating-point features, scores and thresholds: integers stand in, because only their order matters.
- Node objects and their aliasing: slots of an arena with index links.
- `n_features`, `n_classes` and `tree` being `None` before `fit`: zero, zero and an empty arena.
- The uninitialised `np.empty` entries of `merge_branches` for rows no branch marks: unspecified; with the masks of a fitted tree there are none.
- The fit/predict threshold asymmetry is modelled but no fit/predict agreement lemma is stated, because it needs the extra hypothesis that no training value equals its threshold.
- Classifier.DecisionTreeClassifier.Fit: states only that a fitted top tree results; how its splits and subtrees follow from the drawn sample is stated by `GrowTop`, `SubtreeAt` and `SplitAtPath`. Carrying those ghost records through the object's fields made the proof too expensive. It requires `try_features >= 1`, for the reason given under `Split.ComputeSplit`, and `n_classes >= 1`, for the reason given under `Classifier.GrowTop`.
- Classifier.DecisionTreeClassifier.Predict: requires every `nodes_info` entry to be an inner split and every subtree to be non-empty, because the source fails there (a `LeafInfo` has no `.index`, and `[]` has no `predict`). An unfitted tree returns `None`, where the source raises an `AssertionError`. The `ValueError` scikit-learn raises for a delegate that receives no row is not modelled (see `Nodes.Predict`).
- Classifier.SampleSelection: with `bootstrap` the draw is only constrained to be sorted indices below `n_samples`; the distribution of `np.random.choice` is not modelled.
- Split.FeatureSelection: the draw is any selection of the right size without repeats; its distribution is not modelled.
- Classifier.GrowTop: requires `n_classes >= 1`. A failed top split (either group empty) at a depth below `distr_depth - 1` hands an empty group to `split_node` one level down (374-380), as does an empty drawn sample at the root. With `n_classes` 0, `compute_leaf_info` there takes `np.argmax` of an empty histogram and raises `ValueError` (line 133). The model excludes `n_classes` 0 in the top tree altogether, also for inputs where no top split fails.
- Split.ComputeSplit: requires non-empty labels or `n_classes >= 1`, the inputs on which `compute_leaf_info` (131-134) does not raise `ValueError`; `build_subtree_in` only reaches it with a non-empty sample, so `Subtree.BuildSubtreeIn` asks nothing of `n_classes`.
- Split.ComputeSplit: requires `m_try >= 1`. With `try_features` 0, every draw at 170 is empty, so `tried_indices` never grows; for any `n_features > 0` the loop at 168-188 never ends. A non-terminating call is not modelled.
- Nodes.Predict: a delegate reached by no row is still asked to predict (line 25, reached through 29-30). scikit-learn refuses a batch of zero rows, so the source raises there. The model hands such a delegate the empty batch and gets an empty prediction back.
- Classifier.PredictBranch: a subtree that no row lands in still gets `predict` called on zero rows at 294. The source raises there whenever that subtree contains a delegate; the model returns an empty prediction.
- Nodes.Predict: requires every row to be wide enough for every split's column (`ColumnsFit`). On a narrower row the source raises `IndexError` at `sample[:, node_content.index]` (line 28); that error is not modelled.
- Classifier.DecisionTreeClassifier.Predict: requires every row to have at least `n_features` columns. On a narrower row the source raises `IndexError` in `get_predicted_indices` (`samples[indices_mask, col]`, 280-285) or in `Node.predict` (28); that error is not modelled.
