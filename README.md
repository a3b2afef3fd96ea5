# Incident-to-adjacent rewriting, orders and the filter pipe of Apache TinkerPop's Gremlin

This project models three pieces of the Gremlin graph traversal machine in Dafny and proves what they promise.

- **`IncidentToAdjacentStrategy`** is an optimization strategy. It rewrites a traversal's step list. An
  edge-returning `outE()`, `inE()` or `bothE()` step that carries no label, directly followed by `inV()`,
  `outV()` or `otherV()` respectively, becomes the single vertex-returning step `out()`, `in()` or
  `both()`. It keeps the direction and edge labels of the first step.
  - The strategy first walks the steps left to right and records every fusable pair.
  - A path step or a lambda step stops the walk (line 66 of `IncidentToAdjacentStrategy.java`) and
    cancels the rewrite: no pair is applied.
  - Otherwise every recorded pair is fused in order. The first step is replaced and the second removed.
  - `bothE().bothV()` is not fused: after a Both step, lines 92-93 accept only an `EdgeOtherVertexStep`,
    although `Direction.BOTH.opposite()` is BOTH.
  - The model has two layers:
    - Step lists are values (`Traversals.Step`). `Rewrite` is the effect of the strategy as a function of
      the step list.
    - `Apply` is the procedure on a mutable `Traversal` object. It is proved to leave exactly
      `Rewrite(old steps)` behind.
- **`Order`** is the comparator enumeration: `incr`, `decr`, `keyIncr`, `valueIncr`, `keyDecr`,
  `valueDecr` and `shuffle`. Each has its `compare` and `opposite`.
- **`FilterPipe.processNextStart`** is a pull-based filter. It pulls holders from its upstream until its
  predicate accepts one. It then sets that holder's pipe label to the next pipe's label, or `"NONE"` when
  there is no next pipe, and returns it.

Files:

- `wrappers.dfy`: `Option`.
- `structure.dfy`: `Direction`, `Order`.
- `traversal.dfy`: steps and the `Traversal` object.
- `incident_to_adjacent.dfy`: the strategy.
- `pipes.dfy`: holders and the filter pipe.

## Model

| member | source | states |
|---|---|---|
| IncidentToAdjacentStrategy.Apply | gremlin-core/src/main/java/org/apache/tinkerpop/gremlin/process/traversal/strategy/optimization/IncidentToAdjacentStrategy.java:61-79 | `apply` leaves the traversal's steps equal to `Rewrite` of the old steps: every fusable pair fused if no path or lambda step occurs, the steps unchanged otherwise |
| IncidentToAdjacentStrategy.Walk | gremlin-core/src/main/java/org/apache/tinkerpop/gremlin/process/traversal/strategy/optimization/IncidentToAdjacentStrategy.java:62-73 | the walk reports the traversal optimizable exactly when no step is a path or lambda step, and then has recorded exactly the positions of all fusable pairs, left to right |
| IncidentToAdjacentStrategy.OptimizeSteps | gremlin-core/src/main/java/org/apache/tinkerpop/gremlin/process/traversal/strategy/optimization/IncidentToAdjacentStrategy.java:108-112 | the first step of the pair becomes a vertex-returning step with its direction and edge labels and no labels, and the second step is gone; nothing else changes |
| IncidentToAdjacentStrategy.OptimizeRecorded | gremlin-core/src/main/java/org/apache/tinkerpop/gremlin/process/traversal/strategy/optimization/IncidentToAdjacentStrategy.java:74-78 | fusing the recorded pairs one after the other, each where it sits once the earlier ones are fused, yields `FuseAll` of the steps |
| IncidentToAdjacentStrategy.OptimizeRecordedPair | gremlin-core/src/main/java/org/apache/tinkerpop/gremlin/process/traversal/strategy/optimization/IncidentToAdjacentStrategy.java:75-77 | the j-th recorded pair, found at original position p, is still intact at position p - j, and fusing it there extends the fused prefix by that pair |
| IncidentToAdjacentStrategy.IsOptimizable | gremlin-core/src/main/java/org/apache/tinkerpop/gremlin/process/traversal/strategy/optimization/IncidentToAdjacentStrategy.java:89-98 | `isOptimizable`: a pair can fuse only when the first step is an unlabeled edge-returning vertex step and the second a vertex-returning endpoint step |
| IncidentToAdjacentStrategy.Blocks | gremlin-core/src/main/java/org/apache/tinkerpop/gremlin/process/traversal/strategy/optimization/IncidentToAdjacentStrategy.java:71 | the path and lambda steps that cancel the rewrite; such a step is never part of a fusable pair |
| IncidentToAdjacentStrategy.IsOptimizableCases | gremlin-core/src/main/java/org/apache/tinkerpop/gremlin/process/traversal/strategy/optimization/IncidentToAdjacentStrategy.java:89-98 | a pair fuses if and only if the first step is an unlabeled edge-returning vertex step and it is Out then In-endpoint, In then Out-endpoint, or Both then other-endpoint |
| IncidentToAdjacentStrategy.PairsDisjoint | gremlin-core/src/main/java/org/apache/tinkerpop/gremlin/process/traversal/strategy/optimization/IncidentToAdjacentStrategy.java:89-98 | recorded pairs never overlap: the second step of a pair neither starts a pair nor ends one that starts before |
| IncidentToAdjacentStrategy.PairsPrefixStep | gremlin-core/src/main/java/org/apache/tinkerpop/gremlin/process/traversal/strategy/optimization/IncidentToAdjacentStrategy.java:66-70 | visiting one more step records one more pair exactly when that step completes a pair with the previous one |
| IncidentToAdjacentStrategy.PairsFacts | gremlin-core/src/main/java/org/apache/tinkerpop/gremlin/process/traversal/strategy/optimization/IncidentToAdjacentStrategy.java:64-73 | the recorded positions are exactly the positions where a pair starts, in strictly increasing order |
| IncidentToAdjacentStrategy.PairsCountGrowth | gremlin-core/src/main/java/org/apache/tinkerpop/gremlin/process/traversal/strategy/optimization/IncidentToAdjacentStrategy.java:66-70 | between two points of the walk the number of recorded pairs grows by at most the number of steps visited |
| IncidentToAdjacentStrategy.FuseAllLength | gremlin-core/src/main/java/org/apache/tinkerpop/gremlin/process/traversal/strategy/optimization/IncidentToAdjacentStrategy.java:108-112 | the fused traversal is shorter by exactly one step per pair |
| IncidentToAdjacentStrategy.FuseAllGap | gremlin-core/src/main/java/org/apache/tinkerpop/gremlin/process/traversal/strategy/optimization/IncidentToAdjacentStrategy.java:75-77 | a stretch of steps without a pair passes through fusion unchanged |
| IncidentToAdjacentStrategy.FuseAllThroughPair | gremlin-core/src/main/java/org/apache/tinkerpop/gremlin/process/traversal/strategy/optimization/IncidentToAdjacentStrategy.java:108-112 | a pair contributes exactly its fused step to the fused traversal |
| IncidentToAdjacentStrategy.FuseNextPair | gremlin-core/src/main/java/org/apache/tinkerpop/gremlin/process/traversal/strategy/optimization/IncidentToAdjacentStrategy.java:75-77 | after j pairs are fused, the next pair at original position p sits at p - j, and fusing it there gives the fused prefix up to p + 2 |
| IncidentToAdjacentStrategy.NextRecordedPair | gremlin-core/src/main/java/org/apache/tinkerpop/gremlin/process/traversal/strategy/optimization/IncidentToAdjacentStrategy.java:75-77 | the same for the j-th recorded pair, whose predecessors have all been fused |
| IncidentToAdjacentStrategy.FuseAfterLastPair | gremlin-core/src/main/java/org/apache/tinkerpop/gremlin/process/traversal/strategy/optimization/IncidentToAdjacentStrategy.java:75-78 | once the last recorded pair is fused, the steps after it are already in their final form |
| IncidentToAdjacentStrategy.NoPairBetween | gremlin-core/src/main/java/org/apache/tinkerpop/gremlin/process/traversal/strategy/optimization/IncidentToAdjacentStrategy.java:66-70 | no pair starts between two consecutive recorded pairs, nor after the last one |
| IncidentToAdjacentStrategy.FuseAllAt | gremlin-core/src/main/java/org/apache/tinkerpop/gremlin/process/traversal/strategy/optimization/IncidentToAdjacentStrategy.java:108-112 | each step that is not the second of a pair lands, shifted left by the number of earlier pairs, as itself or, when it starts a pair, as its fused step |
| IncidentToAdjacentStrategy.FuseAllOutput | gremlin-core/src/main/java/org/apache/tinkerpop/gremlin/process/traversal/strategy/optimization/IncidentToAdjacentStrategy.java:89-112 | the fused traversal holds no fusable pair, holds no path or lambda step when the input held none, and ends with the input's last step or a vertex-returning step |
| IncidentToAdjacentStrategy.RewriteLength | gremlin-core/src/main/java/org/apache/tinkerpop/gremlin/process/traversal/strategy/optimization/IncidentToAdjacentStrategy.java:61-79 | the rewritten traversal is shorter by the number of pairs when nothing blocks, and as long as before otherwise |
| IncidentToAdjacentStrategy.RewriteAt | gremlin-core/src/main/java/org/apache/tinkerpop/gremlin/process/traversal/strategy/optimization/IncidentToAdjacentStrategy.java:61-79 | every step that survives the rewrite is found at its new position, unchanged or fused |
| IncidentToAdjacentStrategy.RewriteKeepsOrder | gremlin-core/src/main/java/org/apache/tinkerpop/gremlin/process/traversal/strategy/optimization/IncidentToAdjacentStrategy.java:61-79 | surviving steps keep their relative order |
| IncidentToAdjacentStrategy.RewriteBlocked | gremlin-core/src/main/java/org/apache/tinkerpop/gremlin/process/traversal/strategy/optimization/IncidentToAdjacentStrategy.java:71-74 | a path or lambda step anywhere leaves the traversal as it is |
| IncidentToAdjacentStrategy.RewriteWithoutPairs | gremlin-core/src/main/java/org/apache/tinkerpop/gremlin/process/traversal/strategy/optimization/IncidentToAdjacentStrategy.java:74 | without a fusable pair the traversal is left as it is |
| IncidentToAdjacentStrategy.LabeledStepNeverFused | gremlin-core/src/main/java/org/apache/tinkerpop/gremlin/process/traversal/strategy/optimization/IncidentToAdjacentStrategy.java:90 | a labeled vertex step never starts a pair and survives unchanged |
| IncidentToAdjacentStrategy.RewriteIdempotent | gremlin-core/src/main/java/org/apache/tinkerpop/gremlin/process/traversal/strategy/optimization/IncidentToAdjacentStrategy.java:61-112 | applying the strategy to its own result changes nothing |
| IncidentToAdjacentStrategy.ExampleRewrites | gremlin-core/src/main/java/org/apache/tinkerpop/gremlin/process/traversal/strategy/optimization/IncidentToAdjacentStrategy.java:40-41 | `outE().inV()`, `inE().outV()` and `bothE().otherV()` become `out()`, `in()` and `both()` with the same edge labels |
| IncidentToAdjacentStrategy.ExampleLabelsAndPaths | gremlin-core/src/main/java/org/apache/tinkerpop/gremlin/process/traversal/strategy/optimization/IncidentToAdjacentStrategy.java:42-47 | a labeled edge step is not fused, a label on the vertex step is dropped by fusion, and a path step cancels the rewrite |
| Traversals.Traversal.ReplaceStep | gremlin-core/src/main/java/org/apache/tinkerpop/gremlin/process/traversal/strategy/optimization/IncidentToAdjacentStrategy.java:110 | the step at the position is replaced and nothing else changes |
| Traversals.Traversal.RemoveStep | gremlin-core/src/main/java/org/apache/tinkerpop/gremlin/process/traversal/strategy/optimization/IncidentToAdjacentStrategy.java:111 | the step at the position is removed and the others close up in order |
| Structure.Direction.Opposite | gremlin-core/src/main/java/org/apache/tinkerpop/gremlin/process/traversal/strategy/optimization/IncidentToAdjacentStrategy.java:95 | `step1Dir.opposite()`: Both is the only direction that is its own opposite |
| Structure.DirectionOppositeInvolution | gremlin-core/src/main/java/org/apache/tinkerpop/gremlin/process/traversal/strategy/optimization/IncidentToAdjacentStrategy.java:95 | the opposite of the opposite direction is the direction itself |
| Structure.Order.Compare | gremlin-core/src/main/java/org/apache/tinkerpop/gremlin/structure/Order.java:30-94 | each variant's `compare` answers -1, 0 or 1; every variant but shuffle ties an item with itself; shuffle never ties |
| Structure.Order.Opposite | gremlin-core/src/main/java/org/apache/tinkerpop/gremlin/structure/Order.java:30-100 | each variant's `opposite`: shuffle is the only variant that is its own opposite, and every other opposite sorts the same part of an item in the other direction |
| Structure.CompareBySortedPart | gremlin-core/src/main/java/org/apache/tinkerpop/gremlin/structure/Order.java:30-89 | every variant but shuffle compares the part of the items it sorts by (whole value, entry key or entry value) in natural order, with the arguments swapped for the descending variants |
| Structure.OppositeInvolution | gremlin-core/src/main/java/org/apache/tinkerpop/gremlin/structure/Order.java:30-100 | `opposite()` of `opposite()` is the order itself, for every variant |
| Structure.IncrIsNaturalOrder | gremlin-core/src/main/java/org/apache/tinkerpop/gremlin/structure/Order.java:30-34 | `incr` is negative, zero or positive exactly when the first value is smaller, equal or larger |
| Structure.DecrSwapsIncr | gremlin-core/src/main/java/org/apache/tinkerpop/gremlin/structure/Order.java:40-44 | `decr.compare(a, b)` equals `incr.compare(b, a)` |
| Structure.KeyOrdersIgnoreValues | gremlin-core/src/main/java/org/apache/tinkerpop/gremlin/structure/Order.java:50-74 | `keyIncr` and `keyDecr` depend on the entry keys only and tie exactly on equal keys |
| Structure.ValueOrdersIgnoreKeys | gremlin-core/src/main/java/org/apache/tinkerpop/gremlin/structure/Order.java:60-84 | `valueIncr` and `valueDecr` depend on the entry values only and tie exactly on equal values |
| Structure.OppositeSwapsArguments | gremlin-core/src/main/java/org/apache/tinkerpop/gremlin/structure/Order.java:30-89 | for every variant but shuffle, the opposite compares the swapped arguments, which negates the result |
| Structure.OrderedVariantsAreComparators | gremlin-core/src/main/java/org/apache/tinkerpop/gremlin/structure/Order.java:30-89 | every variant but shuffle is reflexive, antisymmetric in sign and transitive |
| Pipes.PipeLabel | gremlin/gremlin-java/src/main/java/com/tinkerpop/gremlin/pipes/FilterPipe.java:24 | the label given to a returned holder is the next pipe's label when there is one, and "NONE" otherwise |
| Pipes.FilterPipe.constructor | gremlin/gremlin-java/src/main/java/com/tinkerpop/gremlin/pipes/FilterPipe.java:15-18 | the pipe keeps its predicate and the next pipe's label, starts at the head of its upstream and has emitted nothing |
| Pipes.FilterPipe.ProcessNextStart | gremlin/gremlin-java/src/main/java/com/tinkerpop/gremlin/pipes/FilterPipe.java:20-28 | returns the first holder from the cursor on that the predicate accepts, relabelled with the next pipe's label or "NONE", with the cursor just past it; returns nothing with the upstream drained when none is accepted; keeps the output equal to the accepted holders so far, relabelled, in order |
| Pipes.FirstMatch | gremlin/gremlin-java/src/main/java/com/tinkerpop/gremlin/pipes/FilterPipe.java:21-23 | the position found is accepted by the predicate, or the end, and every position skipped before it is rejected |
| Pipes.FilterSnoc | gremlin/gremlin-java/src/main/java/com/tinkerpop/gremlin/pipes/FilterPipe.java:22-23 | pulling one more holder adds it to the output exactly when the predicate accepts it |
| Pipes.TagSnoc | gremlin/gremlin-java/src/main/java/com/tinkerpop/gremlin/pipes/FilterPipe.java:24 | relabelling the output commutes with appending one holder |
| Pipes.TagKeepsValues | gremlin/gremlin-java/src/main/java/com/tinkerpop/gremlin/pipes/FilterPipe.java:24-25 | relabelling changes only the label: values, order and count are kept |
| Pipes.FilterAppend | gremlin/gremlin-java/src/main/java/com/tinkerpop/gremlin/pipes/FilterPipe.java:20-28 | the output for an upstream split in two is the output for the first part followed by the output for the second |
| Pipes.FilterMultiplicity | gremlin/gremlin-java/src/main/java/com/tinkerpop/gremlin/pipes/FilterPipe.java:20-28 | an accepted holder comes out as often as it goes in, a rejected one never |
| Pipes.SkippedAddNothing | gremlin/gremlin-java/src/main/java/com/tinkerpop/gremlin/pipes/FilterPipe.java:21-23 | the holders skipped before the first accepted one add nothing to the output |
| Pipes.DrainedEmitsAllAccepted | gremlin/gremlin-java/src/main/java/com/tinkerpop/gremlin/pipes/FilterPipe.java:20-28 | once the upstream is drained, the pipe has emitted exactly the accepted holders, relabelled, each once and in upstream order |

## Left out

- Steps are data values with the fields the strategy inspects: kind, direction, edge labels, whether edges are returned, and labels. Their traversal back-reference and their behaviour when executed are not modelled.
- Java identifies the recorded pairs by object identity. The model uses positions instead: the j-th recorded pair, found at original position p, sits at p - j when it is fused.
- The implementations of `TraversalHelper.replaceStep` and `Traversal.removeStep` are not shown; the model uses the sequence edits `ReplaceStep` and `RemoveStep`.
- The implementation of `Direction.opposite` is not shown; the model uses `Direction.Opposite`, which swaps Out and In and keeps Both.
- `Order` compares integers only, as `Scalar` values or as entry keys and values. Other `Comparable` types are not modelled.
- The `ClassCastException` that a wrongly shaped argument raises is not modelled. `Compare` instead requires the argument shapes that each variant's casts accept.
- The `Random` draw of `shuffle` is a `coin` parameter of `Compare`.
- `Holder` is modelled as a value. `setPipe` mutates the shared holder object in place, and the model instead returns a relabelled copy, so aliasing of holders is not captured.
- The upstream iterator is a sequence with a cursor. Its exhaustion, signalled in Java by `next()` throwing, is a `None` result.
- The implementation of `PipelineHelper.getNextPipeLabel` is not shown; the model uses an `Option<string>` fixed when the pipe is built.
- Exceptions thrown by the predicate are not modelled. The predicate is a total function of the holder.
- `Neo4jGraphVariables` and `ComputerDataStrategyTest` are not modelled.
