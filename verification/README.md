# Rejoice core in Dafny

Rejoice trains a PPO agent to pick rewrite rules for an e-graph. This
project models two parts of it:

- **E-graph encoding** (`rejoice/lib.py`). A node is turned into a feature
  row `[is_eclass, is_enode, is_scalar, scalar_val, one-hot operator…]`.
  The row is decoded back into a description. A whole e-graph becomes a
  feature matrix plus a list of edges. Each edge runs from an eclass row to
  an enode row, or from an enode row to a child eclass. A self-loop is then
  added on every row.
- **The arithmetic and index parts of the PPO training loop** (`ppo.py`):
  - batch and minibatch sizes and the number of updates;
  - the episode window read back from the rollout buffer;
  - GAE advantages and plain discounted returns;
  - flattening the `[steps][envs]` buffers into one batch;
  - cutting shuffled indices into minibatches, and the epoch loop with its
    KL early stop;
  - the clipped policy and value loss terms and the clip fraction;
  - the explained-variance diagnostic.

Modules, one per file:

| file | module | contents |
|---|---|---|
| `wrappers.dfy` | `Wrappers` | `Option` and `Result` |
| `seq_ops.dfy` | `SeqOps` | concatenation, row-major flattening, sums and means, Python slicing |
| `node_features.dfy` | `NodeFeatures` | `num_node_features`, `feature_names`, `encode_node`, `encode_eclass`, `decode_node` |
| `egraph_encoder.dfy` | `EGraphEncoder` | `encode_egraph`, including the library's `add_remaining_self_loops` |
| `batching.dfy` | `Batching` | sizes, Python `//` and `range`, minibatch chunking, the epoch loop |
| `rollout_buffer.dfy` | `RolloutBuffer` | episode slice, flattening, gathering minibatch rows |
| `advantages.dfy` | `Advantages` | the GAE loop and the plain-returns loop |
| `losses.dfy` | `Losses` | policy loss, value loss, clip fraction |
| `diagnostics.dfy` | `Diagnostics` | explained variance |

Modelling choices:

- Real numbers are Dafny `real`. A NaN result (the mean of an empty tensor,
  or explained variance with constant returns) is `None`.
- Exceptions are `Err` values:
  - `encode_node` on an unknown operator;
  - a child eclass with no row (`KeyError`);
  - `torch.stack` of an empty list;
  - `//` by zero;
  - `range` with step 0;
  - `approx_kl` read before it was assigned.
- The e-graph's `classes()` dictionary is a sequence of `(id, enodes)` pairs
  in iteration order.
- `np.random.shuffle` is an arbitrary permutation passed in.
- The probability ratios and per-minibatch KL values are inputs.

Behaviour of the code worth knowing, each stated by a lemma:

- **Divisibility.** The code never checks that `num_minibatches` divides
  the batch. The loop then runs more minibatches than requested
  (`Batching.MinibatchCount`).
- **When the KL check runs.** The code compares `approx_kl` with
  `target_kl` only after a whole epoch, using the value left by that epoch's
  last minibatch (`Batching.EpochsEarlyStop`).
- **Scalar leaves.** A scalar leaf's row sets only `is_scalar` and
  `scalar_val`, not `is_enode` (`NodeFeatures.EncodeScalar`), so decoding it
  reports no operator.
- **Constant rewards.** In one concrete four-step example, with reward 1
  at every step and zero value estimates, the GAE advantages are not equal
  across steps: they grow moving backward
  (`Advantages.StationaryAdvantagesGrow`). This is a worked example, not a
  general theorem.

## Model

| member | source | states |
|---|---|---|
| `NodeFeatures.FeatureNames` | rejoice/lib.py:75-82 | there are `num_node_features` labels: the four header names, then the operator names in vocabulary order |
| `NodeFeatures.FirstIndexOf` | rejoice/lib.py:68-71 | the `isinstance` scan finds the first vocabulary entry of the kind, and none exactly when the kind is absent |
| `NodeFeatures.EncodeEClass` | rejoice/lib.py:94-97 | an eclass row has `num_node_features` entries; only `is_eclass` is 1 and every other entry is 0 |
| `NodeFeatures.EncodeNode` | rejoice/lib.py:56-73 | encoding fails exactly for an operator whose kind is not in the vocabulary, with that error; otherwise the row has `num_node_features` entries |
| `NodeFeatures.EncodeScalar` | rejoice/lib.py:60-63 | a scalar row sets `is_scalar` to 1 and `scalar_val` to the value; everything else is 0, including `is_enode` |
| `NodeFeatures.EncodeOperator` | rejoice/lib.py:65-71 | an operator row sets `is_enode` and exactly the slot of the first vocabulary entry of its kind |
| `NodeFeatures.OperatorRowOneHot` | rejoice/lib.py:68-71 | exactly one operator slot of an operator row is hot |
| `NodeFeatures.EncodedSlotName` | rejoice/lib.py:70 | the column label of the hot slot is the operator's name, linking `encode_node` to `feature_names` |
| `NodeFeatures.Argmax` | rejoice/lib.py:89 | `argmax` gives the first position holding the maximum |
| `NodeFeatures.DecodeNodeOutcome` | rejoice/lib.py:84-92 | decoding fails exactly on a row shorter than the header, or on an enode row whose operator slots are missing or point past the vocabulary; an operator is reported exactly when `is_enode` is set (a summary of `decode_node`'s branches; `NodeFeatures.DecodeEncodedNode` is the round trip) |
| `NodeFeatures.DecodedOpIsFeatureName` | rejoice/lib.py:87-91 | a reported operator is the column label of the largest operator slot |
| `NodeFeatures.DecodeEncodedEClass` | rejoice/lib.py:85 | decoding an eclass row gives type "eclass", no scalar flag and no operator |
| `NodeFeatures.ArgmaxOneHot` | rejoice/lib.py:89 | `argmax` of a one-hot segment is the hot position |
| `NodeFeatures.DecodeEncodedNode` | rejoice/lib.py:56-92 | round trip: every node that encodes decodes to its classification, meaning the scalar value, or the operator name of an operator node |
| `EGraphEncoder.IndexMap` | rejoice/lib.py:104-109 | every row in `eclass_to_ind` is an eclass row |
| `EGraphEncoder.IndexMapSpec` | rejoice/lib.py:107-109 | `eclass_to_ind` has exactly the e-graph's ids as keys; each maps to an eclass of that id, and no later eclass has it |
| `EGraphEncoder.IndexMapOwner` | rejoice/lib.py:109 | the row an id maps to holds an eclass of that id |
| `EGraphEncoder.IndexMapDistinct` | rejoice/lib.py:107-109 | with unique ids, eclass `i` sits at row `i` |
| `EGraphEncoder.SlotsPosition` | rejoice/lib.py:111-113 | node `k` of eclass `i` is visited at position `Offset(i) + k` |
| `EGraphEncoder.SlotsCount` | rejoice/lib.py:111-113 | the loop visits as many enodes as the eclasses list |
| `EGraphEncoder.SlotsOwner` | rejoice/lib.py:111-113 | every visited enode is node `k` of some eclass `i`, at position `Offset(i) + k` |
| `EGraphEncoder.SlotClassIds` | rejoice/lib.py:111-116 | every visited enode's eclass id has a row |
| `EGraphEncoder.ArgumentEdges` | rejoice/lib.py:120-123 | the argument edges succeed exactly when every child has a row, and otherwise report the first missing child |
| `EGraphEncoder.EncodeSlotsSucceeds` | rejoice/lib.py:111-123 | the enode loop succeeds exactly when every enode encodes and all its children have rows |
| `EGraphEncoder.EncodeSlotsRows` | rejoice/lib.py:113 | on success there is one row per enode, and it is that enode's `encode_node` row |
| `EGraphEncoder.EncodeSlotsError` | rejoice/lib.py:111-123 | a failing loop reports the exception of the first enode that cannot be encoded: an unknown operator first, else the first missing child |
| `EGraphEncoder.EncodeSlotsEdges` | rejoice/lib.py:115-123 | a successful loop resolved every child, and its edges are the membership and argument edges in loop order |
| `EGraphEncoder.SlotEdgesCount` | rejoice/lib.py:115-123 | one membership edge per enode, plus one argument edge per child |
| `EGraphEncoder.SlotEdgesPlaced` | rejoice/lib.py:115-123 | every edge is a membership edge from the owner eclass row into an enode row, or an argument edge from an enode row to a child's row |
| `EGraphEncoder.SlotEdgesMembership` | rejoice/lib.py:115-117 | every enode row gets exactly one membership edge |
| `EGraphEncoder.SlotEdgesArgument` | rejoice/lib.py:120-123 | every child of every enode yields an argument edge from the enode's row to the child's row |
| `EGraphEncoder.MaxNode` | rejoice/lib.py:128 | the largest endpoint the edges mention, from which the library infers the node count: no edge mentions a larger one and some edge mentions it |
| `EGraphEncoder.NonLoopsSpec` | rejoice/lib.py:128 | dropping self-loops removes all of them and keeps every other edge |
| `EGraphEncoder.NonLoopsKeepsAll` | rejoice/lib.py:128 | with no self-loops, every edge is kept in order |
| `EGraphEncoder.LoopAttrFill` | rejoice/lib.py:128 | with no existing self-loops, every new loop gets the fill attribute |
| `EGraphEncoder.LoopEdgesSpec` | rejoice/lib.py:128 | one self-loop on each node below the count, in node order, and no others |
| `EGraphEncoder.AddRemainingSelfLoopsSpec` | rejoice/lib.py:128 | afterwards every node below the count has exactly one self-loop; non-loop edges are kept and nothing else is added |
| `EGraphEncoder.AddSelfLoopsToLoopFree` | rejoice/lib.py:128 | on loop-free edges the result is the input, then loops `0..n-1` with the fill attribute |
| `EGraphEncoder.SlotsIndexed` | rejoice/lib.py:104-116 | the eclass id of every enode has a row |
| `EGraphEncoder.EnodeLoopOk` | rejoice/lib.py:111-123 | a successful enode loop resolved every child and emitted the graph's edges, with one row per enode |
| `EGraphEncoder.GraphEdgesCount` | rejoice/lib.py:115-123 | the graph's own edges: one per enode plus one per child |
| `EGraphEncoder.GraphEdgesPlaced` | rejoice/lib.py:115-123 | each of the graph's own edges is a placed membership or argument edge |
| `EGraphEncoder.GraphEdgesBounded` | rejoice/lib.py:115-123 | none of those edges is a self-loop, and every endpoint is a row |
| `EGraphEncoder.GraphNodeCount` | rejoice/lib.py:116-128 | the last enode row is mentioned, so the inferred node count is the number of rows |
| `EGraphEncoder.GraphMembershipInto` | rejoice/lib.py:115-117 | enode row `d` gets exactly one membership edge, from the row its eclass id maps to |
| `EGraphEncoder.GraphMembership` | rejoice/lib.py:111-117 | with unique ids, node `k` of eclass `i` gets exactly one membership edge, and it comes from row `i` |
| `EGraphEncoder.GraphArgument` | rejoice/lib.py:120-123 | each child of an enode gets an argument edge to the row of an eclass with the child's id |
| `EGraphEncoder.EncodeEGraphOutcome` | rejoice/lib.py:99-130 | `encode_egraph` succeeds exactly when there is an enode and every enode encodes with resolved children; the empty-stack error happens exactly when there is no enode |
| `EGraphEncoder.EncodeEGraphError` | rejoice/lib.py:111-123 | any other error is the exception of the first enode, in loop order, that cannot be encoded |
| `EGraphEncoder.EncodeEGraphUnfold` | rejoice/lib.py:125-128 | the result stacks eclass rows on enode rows, and adds self-loops to the graph's own edges |
| `EGraphEncoder.EnodeLoopRows` | rejoice/lib.py:113 | the enode rows are each enode's `encode_node` row, in loop order |
| `EGraphEncoder.StackedRows` | rejoice/lib.py:125 | eclass rows stacked on enode rows form the feature matrix |
| `EGraphEncoder.EncodeEGraphRows` | rejoice/lib.py:107-125 | the feature matrix has one eclass row per eclass, then one `encode_node` row per enode |
| `EGraphEncoder.EncodeEGraphDecodes` | rejoice/lib.py:84-125 | round trip: the first rows decode as eclasses and each later row decodes to its enode's classification |
| `EGraphEncoder.EncodeEGraphEdgeLayout` | rejoice/lib.py:115-128 | the edge list is the graph's own edges unchanged, then a self-loop with the fill attribute on every row, in row order |
| `EGraphEncoder.EncodeEGraphEdgeShape` | rejoice/lib.py:115-128 | every row has exactly one self-loop; every endpoint is a row; every other edge is a placed membership or argument edge |
| `EGraphEncoder.EncodeEGraphKeepsEdges` | rejoice/lib.py:116-128 | every edge the graph emits itself survives the self-loop step |
| `EGraphEncoder.EncodeEGraphMembership` | rejoice/lib.py:111-117 | with unique ids, node `k` of eclass `i` keeps its membership edge from row `i` |
| `EGraphEncoder.EncodeEGraphArgument` | rejoice/lib.py:120-123 | each child keeps its argument edge to the row of an eclass with the child's id |
| `Batching.FloorDiv` | ppo.py:84 | Python `//` rounds toward negative infinity for both divisor signs |
| `Batching.FloorDivIsFloor` | ppo.py:84 | `//` is the floor of the exact quotient |
| `Batching.ComputeSizes` | ppo.py:83-84 | the sizes are computed exactly when neither divisor is zero; otherwise the result is `ZeroDivision`, raised at ppo.py:84 for `num_minibatches == 0` and at ppo.py:222 for a zero batch; the batch size is `num_envs * num_steps` |
| `Batching.SizesAreFloors` | ppo.py:222 | the minibatch size and the update count are floors of the exact quotients |
| `Batching.PyRange` | ppo.py:320 | `range` fails exactly on step 0 |
| `Batching.RangeFromUp` | ppo.py:320 | an ascending `range` yields `start + k * step` for `ceil((stop - start) / step)` values of `k` |
| `Batching.Minibatches` | ppo.py:316-322 | a zero minibatch size fails, and a negative one gives no minibatches |
| `Batching.SlicesFrom` | ppo.py:320-322 | the slices at the `range` starts are the consecutive chunks of the indices |
| `Batching.MinibatchesAreChunks` | ppo.py:316-322 | with a positive size, the minibatches are the consecutive chunks of the shuffled indices |
| `Batching.ChunksConcat` | ppo.py:320-322 | concatenating the chunks gives back the sequence |
| `Batching.MinibatchSizes` | ppo.py:320-322 | there are `ceil(len / mb)` minibatches, all of size `mb` except a shorter, non-empty last one |
| `Batching.MinibatchesConcat` | ppo.py:316-322 | concatenating an epoch's minibatches gives back the permutation |
| `Batching.ExactlyOneMinibatch` | ppo.py:316-322 | each batch index falls in exactly one minibatch of an epoch, and occurs once among them |
| `Batching.CeilDivOfFloor` | ppo.py:84 | blocks of `b // m` cover `b` in at least `m` steps, and in exactly `m` when `m` divides `b` |
| `Batching.MinibatchCount` | ppo.py:83-84 | the minibatch loop runs only if `num_minibatches <= batch`; it then runs at least `num_minibatches` times, exactly that many when they divide the batch |
| `Batching.ScheduleSnoc` | ppo.py:318-320 | one more epoch appends all of its steps |
| `Batching.ScheduleIndex` | ppo.py:318-320 | step `e * n + j` of the schedule is minibatch `j` of epoch `e` |
| `Batching.ScheduleLength` | ppo.py:318-320 | `ran` epochs make `ran * n` gradient steps |
| `Batching.RunEpochs` | ppo.py:318-370 | given `n` minibatches per epoch, the epoch loop fails only when `approx_kl` is read unbound; otherwise it performs exactly the minibatch steps of the epochs that ran, in order |
| `Batching.RunUpdate` | ppo.py:316-370 | one whole update fails with the zero-step `range` error exactly when `minibatch_size == 0` and an epoch starts; otherwise the chunking gives `ceil(batch / minibatch_size)` minibatches (none for a negative size), and the update fails only on an unbound `approx_kl` and performs the minibatch steps of the epochs that ran |
| `Batching.EpochsWithoutTarget` | ppo.py:318-370 | without `target_kl`, every epoch runs |
| `Batching.UpdateStepCount` | ppo.py:316-322 | without `target_kl`, an update takes `update_epochs * ceil(batch / minibatch_size)` gradient steps |
| `Batching.EpochsEarlyStop` | ppo.py:368-370 | with `target_kl`, epochs run until the first one whose last minibatch's KL exceeds the target, that epoch included, or until all have run |
| `Batching.EpochsWithoutMinibatches` | ppo.py:318-370 | with `target_kl` and no minibatch, the loop fails exactly when no earlier update left an `approx_kl` |
| `Batching.EpochsWithoutMinibatchesOk` | ppo.py:318-370 | with a previous `approx_kl`, the loop runs every epoch |
| `SeqOps.Slice` | ppo.py:265-268 | Python slicing: within bounds it is the plain subsequence, an end past the sequence stops at its end, and it never yields more than the sequence |
| `SeqOps.SliceBound` | ppo.py:265 | a negative slice bound counts from the end; a bound past the end becomes the length, and one before the start becomes 0 |
| `RolloutBuffer.EpisodeWindow` | ppo.py:261-269 | an episode no longer than the buffer is read whole and in order: entry `k` is buffer entry `start + k`, taken cyclically, and the last is the step that ended it |
| `RolloutBuffer.EpisodeWraps` | ppo.py:262-266 | a wrapping episode is the buffer tail from `num_steps + start` then the head up to `step`, and the two do not overlap |
| `RolloutBuffer.EpisodeContiguous` | ppo.py:267-269 | an episode that began in this rollout is the contiguous range `start..step` |
| `RolloutBuffer.EpisodeOverlong` | ppo.py:261-266 | an episode longer than the buffer still yields `len` entries, but its first `len - num_steps` entries repeat later ones |
| `RolloutBuffer.FlattenSizes` | ppo.py:303-313 | every flattened field has `num_steps * num_envs` entries |
| `RolloutBuffer.FlattenCell` | ppo.py:303-313 | cell `(t, e)` of every buffer lands at batch index `t * num_envs + e` |
| `RolloutBuffer.FlattenEntry` | ppo.py:303-313 | batch entry `i` of every field comes from cell `(i / num_envs, i % num_envs)`, so each observation stays paired with its action, log-probability, advantage, return and value |
| `RolloutBuffer.Gather` | ppo.py:324-327 | fancy indexing succeeds exactly when every index is in range; each result entry is the indexed entry |
| `RolloutBuffer.GatherBatch` | ppo.py:324-349 | gathering a minibatch succeeds exactly when every index is in every field; row `j` of each field is row `inds[j]` |
| `RolloutBuffer.MinibatchInRange` | ppo.py:316-322 | every index of a minibatch cut from a permutation of the batch is inside the batch |
| `RolloutBuffer.GatheredRow` | ppo.py:324-327 | a gathered row at an in-batch index is the buffer cell that index names |
| `RolloutBuffer.GatherCells` | ppo.py:324-336 | gathering in-batch indices succeeds, and each row is the cell its index names |
| `RolloutBuffer.MinibatchRows` | ppo.py:316-349 | gathering a minibatch of the shuffled indices never fails; row `j` of every field is the buffer cell its index names |
| `Advantages.GaeRow` | ppo.py:281-288 | one step of the `lastgaelam` loop turns row `t + 1`'s advantages (zeros after the last step) into row `t`'s GAE advantages |
| `Advantages.GaeLoop` | ppo.py:278-288 | the backward loop fills every cell with its GAE advantage, as the recursive definition gives it |
| `Advantages.ReturnsLoop` | ppo.py:291-299 | the backward loop fills every cell with its discounted return, bootstrapped from `next_value` |
| `Advantages.EstimateAdvantages` | ppo.py:275-300 | in both branches returns equal advantages plus values; with `gae` the advantages are the GAE ones, and without it the returns are the discounted returns |
| `Advantages.GaeDoneCutoff` | ppo.py:285-288 | a done flag on the following step cuts the recursion: the advantage is reward minus value |
| `Advantages.GaeLambdaZero` | ppo.py:287-288 | with `gae_lambda = 0` the advantage is the one-step TD error |
| `Advantages.GaeLambdaOne` | ppo.py:280-299 | with `gae_lambda = 1`, GAE advantage plus value is the discounted return |
| `Advantages.BranchesAgree` | ppo.py:277-300 | with `gae_lambda = 1`, both branches compute the same advantages |
| `Advantages.StationaryAdvantagesGrow` | ppo.py:280-288 | one concrete example only: on four steps of reward 1 with zero values, the advantages are 1, 1.9405, … and grow moving backward |
| `Losses.Clamp` | ppo.py:349-353 | `torch.clamp` stays in `[lo, hi]` when `lo <= hi`, fixes points of the interval, and gives `hi` when `hi < lo` |
| `Losses.ClampIsNearest` | ppo.py:342 | clamping is the nearest point of the interval |
| `Losses.PolicyTermIsClippedObjective` | ppo.py:341-343 | the max of the two policy losses is the negated clipped surrogate objective, and is at least each of them |
| `Losses.PolicyTermCases` | ppo.py:341-343 | for a non-negative coefficient, clipping only caps the incentive: at `1 + eps` for a positive advantage, at `1 - eps` for a negative one; it is inactive inside the interval |
| `Losses.PolicyLoss` | ppo.py:341-343 | `pg_loss` of an empty minibatch is NaN (`None`); any other minibatch gives a value |
| `Losses.UnclippedPolicyLoss` | ppo.py:341 | the unclipped surrogate loss of an empty minibatch is NaN (`None`); any other minibatch gives a value |
| `Losses.PolicyLossPessimistic` | ppo.py:341-343 | the clipped policy loss is never below the unclipped one |
| `Losses.ClipFraction` | ppo.py:334 | the clip fraction of an empty minibatch is NaN (`None`); any other minibatch gives a value |
| `Losses.ClipFractionBounds` | ppo.py:334 | the clip fraction lies in `[0, 1]` |
| `Losses.ClipFractionZero` | ppo.py:334 | a zero clip fraction means every ratio stayed within `clip_coef` of 1 |
| `Losses.PolicyTermUnclipped` | ppo.py:341-343 | a ratio within `clip_coef` of 1 leaves the policy term unclipped |
| `Losses.NoClippingMeansUnclipped` | ppo.py:334-343 | a zero clip fraction makes the policy loss equal the unclipped surrogate loss |
| `Losses.ClippedValue` | ppo.py:349-353 | `v_clipped` stays within `clip_coef` of the old value, and equals the new value when that is already within |
| `Losses.ValueTermBounds` | ppo.py:347-358 | a sample's value term is at least the plain squared error, and equals it when the estimate stayed within `clip_coef` |
| `Losses.ValueLoss` | ppo.py:347-358 | `v_loss` of an empty minibatch is NaN (`None`); any other minibatch gives a value |
| `Losses.ValueLossClippedAtLeast` | ppo.py:347-358 | the value loss is non-negative, and clipping can only raise it |
| `Losses.ValueLossClipInactive` | ppo.py:347-358 | when no estimate moved farther than `clip_coef`, clipping leaves the value loss unchanged |
| `Diagnostics.VarNonNegative` | ppo.py:373 | `np.var` is non-negative |
| `Diagnostics.VarOfConstant` | ppo.py:373-374 | constant returns have zero variance |
| `Diagnostics.VarShift` | ppo.py:374 | shifting every entry by the same amount leaves the variance unchanged |
| `Diagnostics.ExplainedVarianceUndefined` | ppo.py:372-374 | the diagnostic is NaN for an empty batch and for constant returns, whatever the predictions |
| `Diagnostics.ExplainedVarianceAtMostOne` | ppo.py:374 | a defined explained variance is at most 1 |
| `Diagnostics.PerfectPrediction` | ppo.py:374 | predicting the returns exactly explains all of their variance |
| `Diagnostics.ConstantPrediction` | ppo.py:374 | a constant prediction explains none of the variance |

## Left out

- The neural networks (`get_action_and_value`, `get_value`), the optimizer, gradient clipping and the entropy term. They are not index or arithmetic logic.
- `exp`, `log` and the two KL estimators. The ratio and each minibatch's `approx_kl` are inputs.
- Advantage normalisation (`norm_adv`), learning-rate annealing, logging, printing and the environments.
- `viz_egraph` and `op_tuple`.
- float32 rounding. All arithmetic is over the reals.
- The total loss, `pg_loss - ent_coef * entropy + vf_coef * v_loss`. It needs the entropy, which comes from the network.
- The attribute the graph library gives a new self-loop. It is the parameter `fill`.
- The eclass analysis data. `encode_eclass` ignores it.
- The `str(ecid)` conversion. Children hold eclass ids already.
- Negative `num_envs` and `num_steps`. The sizes at ppo.py:83-84 are computed from them, but the run then aborts during setup (ppo.py:197-210: an empty environment list, or storage of negative size) before any modelled loop.
- `Batching.ComputeSizes`: with `num_envs == 0` and `num_minibatches != 0` the model reports `ZeroDivision` for the zero batch, but the run aborts earlier, building the vector environment from an empty list (ppo.py:197-200), before ppo.py:222 is reached.
- `np.random.shuffle`. The model takes any permutation instead.
- `approx_kl` from an earlier update. It is the parameter `prior` of `Batching.RunEpochs`.
- `Diagnostics.ExplainedVarianceUndefined`: only one direction is proved. Constant or empty returns give NaN. The converse is not proved: that returns which vary give a value. It needs a square to be positive when its argument is non-zero, and the solver's nonlinear real arithmetic does not establish that here.
- `RolloutBuffer.EpisodeOverlong`: episodes longer than `num_steps + step + 1` are not characterised. There, `start_before` is itself negative, and the tail slice counts from the end a second time.
