/**
 * The rewrite that replaces `outE().inV()`, `inE().outV()` and
 * `bothE().otherV()` by `out()`, `in()` and `both()`.
 *
 * The strategy walks the steps once, left to right, recording every adjacent
 * pair that fuses; the walk ends early at the first path or lambda step, which
 * cancels the rewrite altogether. If nothing cancelled it, every recorded pair
 * is then fused: its first step is replaced by a vertex-returning `VertexStep`
 * with the same direction and edge labels, and its second step is removed.
 *
 * `Rewrite` below is the whole effect as a function of the step sequence;
 * `Apply` is the two-phase procedure, proved to have exactly that effect.
 */
module IncidentToAdjacentStrategy {
  import opened Wrappers
  import opened Structure
  import opened Traversals

  // ---------------------------------------------------------------------------
  // The pair predicate and the specification of the rewrite
  // ---------------------------------------------------------------------------

  /**
   * `isOptimizable(step1, step2)`: step1 is an unlabeled `VertexStep` that
   * returns edges; after a Both step the partner must be an
   * `EdgeOtherVertexStep`, otherwise an `EdgeVertexStep` taking the endpoint
   * opposite to step1's direction. A missing previous step (null in the
   * walk) is not a `VertexStep`, so callers only ask with two steps.
   */
  predicate IsOptimizable(step1: Step, step2: Step)
    ensures IsOptimizable(step1, step2) ==>
      && step1.VertexStep? && step1.returnsEdge && step1.labels == {}
      && (step2.EdgeVertexStep? || step2.EdgeOtherVertexStep?)
  {
    if step1.VertexStep? && step1.returnsEdge && step1.labels == {} then
      if step1.dir == Both then step2.EdgeOtherVertexStep?
      else step2.EdgeVertexStep? && step2.dir == step1.dir.Opposite()
    else false
  }

  /** A path step or a lambda holder: either one cancels the rewrite, and neither is part of a pair. */
  predicate Blocks(s: Step)
    ensures Blocks(s) ==> forall t :: !IsOptimizable(s, t) && !IsOptimizable(t, s)
  {
    s.PathStep? || s.LambdaStep?
  }

  predicate NoBlocker(steps: seq<Step>) {
    forall i :: 0 <= i < |steps| ==> !Blocks(steps[i])
  }

  /** Positions k and k + 1 form a fusable pair. */
  predicate IsPairAt(steps: seq<Step>, k: int) {
    0 <= k && k + 1 < |steps| && IsOptimizable(steps[k], steps[k + 1])
  }

  /** The step at position i is the second step of a fusable pair. */
  predicate IsSecond(steps: seq<Step>, i: int) {
    IsPairAt(steps, i - 1)
  }

  /** The positions of the first steps of all fusable pairs, left to right. */
  function Pairs(steps: seq<Step>): seq<nat>
    decreases |steps|
  {
    if |steps| < 2 then []
    else
      Pairs(steps[..|steps| - 1])
      + (if IsOptimizable(steps[|steps| - 2], steps[|steps| - 1]) then [|steps| - 2] else [])
  }

  /** The step that replaces a fused pair: same direction and edge labels, returns vertices, no labels. */
  function Fuse(s: Step): Step
    requires s.VertexStep?
  {
    VertexStep(s.dir, s.edgeLabels, false, {})
  }

  /** The sequence with the pair at positions i and i + 1 replaced by its fused step. */
  function FusedAt(steps: seq<Step>, i: nat): seq<Step>
    requires i + 1 < |steps| && steps[i].VertexStep?
  {
    steps[..i] + [Fuse(steps[i])] + steps[i + 2..]
  }

  /** Every fusable pair of `steps` fused, everything else left as it is. */
  function FuseAll(steps: seq<Step>): seq<Step>
    decreases |steps|
  {
    if |steps| < 2 then steps
    else if IsOptimizable(steps[|steps| - 2], steps[|steps| - 1]) then
      FuseAll(steps[..|steps| - 2]) + [Fuse(steps[|steps| - 2])]
    else
      FuseAll(steps[..|steps| - 1]) + [steps[|steps| - 1]]
  }

  /** What the step at position i becomes: its fused step when a pair starts there, itself otherwise. */
  function Landed(steps: seq<Step>, i: nat): Step
    requires i < |steps|
  {
    if IsPairAt(steps, i) then Fuse(steps[i]) else steps[i]
  }

  /** The effect of the strategy on a step sequence. */
  function Rewrite(steps: seq<Step>): seq<Step> {
    if NoBlocker(steps) then FuseAll(steps) else steps
  }

  /** Where the step at position i of `steps` ends up in `Rewrite(steps)`. */
  function Position(steps: seq<Step>, i: nat): int
    requires i <= |steps|
  {
    if NoBlocker(steps) then i - |Pairs(steps[..i])| else i
  }

  // ---------------------------------------------------------------------------
  // The procedure: the walk, one fusion, and apply
  // ---------------------------------------------------------------------------

  /**
   * The first phase of `apply`: the left-to-right walk that records the pairs
   * and stops at the first path or lambda step. It reports whether the
   * traversal is optimizable and, when it is, the positions of all pairs.
   */
  method Walk(steps: seq<Step>) returns (optimizable: bool, pairs: seq<nat>)
    ensures optimizable == NoBlocker(steps)
    ensures optimizable ==> pairs == Pairs(steps)
  {
    optimizable := true;
    pairs := [];
    var prev: Option<Step> := None;
    var i := 0;
    while i < |steps| && optimizable
      invariant 0 <= i <= |steps|
      invariant prev == if i == 0 then None else Some(steps[i - 1])
      invariant optimizable == NoBlocker(steps[..i])
      invariant pairs == Pairs(steps[..i])
    {
      var curr := steps[i];
      if prev.Some? && IsOptimizable(prev.value, curr) {
        pairs := pairs + [i - 1];
      }
      PairsPrefixStep(steps, i);
      assert steps[..i + 1] == steps[..i] + [curr];
      optimizable := !Blocks(curr);
      prev := Some(curr);
      i := i + 1;
    }
    assert steps[..|steps|] == steps;
  }

  /**
   * `optimizeSteps`: the pair at positions i and i + 1 becomes the single
   * fused step at position i.
   */
  method OptimizeSteps(t: Traversal, i: nat)
    requires i + 1 < |t.steps| && t.steps[i].VertexStep?
    modifies t
    ensures t.steps == FusedAt(old(t.steps), i)
  {
    var newStep := Fuse(t.steps[i]);
    t.ReplaceStep(i, newStep);
    t.RemoveStep(i + 1);
  }

  /**
   * The second phase of `apply`: fuse the recorded pairs in order. The k-th
   * pair, found at original position p, sits at p - k once the k earlier
   * second steps are gone.
   */
  method OptimizeRecorded(t: Traversal, pairs: seq<nat>)
    requires pairs == Pairs(t.steps)
    modifies t
    ensures t.steps == FuseAll(old(t.steps))
  {
    ghost var original := t.steps;
    ghost var cut := 0;
    var j := 0;
    while j < |pairs|
      invariant 0 <= j <= |pairs|
      invariant cut == if j == 0 then 0 else pairs[j - 1] + 2
      invariant cut <= |original| && |FuseAll(original[..cut])| == cut - j
      invariant t.steps == FuseAll(original[..cut]) + original[cut..]
    {
      OptimizeRecordedPair(t, original, pairs, j, cut);
      cut := pairs[j] + 2;
      j := j + 1;
    }
    GapBeforeNextPair(original, pairs, j, cut, |original|);
    FuseAfterLastPair(original, cut);
  }

  /**
   * One `optimizeSteps` call of the second phase: the j-th recorded pair,
   * found at original position p, is fused where it now sits, at p - j,
   * given that the pairs before it are fused and nothing after them has moved.
   */
  method OptimizeRecordedPair(t: Traversal, ghost original: seq<Step>, pairs: seq<nat>, j: nat, ghost cut: nat)
    requires pairs == Pairs(original) && j < |pairs|
    requires cut == if j == 0 then 0 else pairs[j - 1] + 2
    requires cut <= |original| && |FuseAll(original[..cut])| == cut - j
    requires t.steps == FuseAll(original[..cut]) + original[cut..]
    modifies t
    ensures pairs[j] + 2 <= |original| && |FuseAll(original[..pairs[j] + 2])| == pairs[j] + 2 - (j + 1)
    ensures t.steps == FuseAll(original[..pairs[j] + 2]) + original[pairs[j] + 2..]
  {
    NextRecordedPair(original, pairs, j, cut, t.steps);
    OptimizeSteps(t, pairs[j] - j);
  }

  /** `apply`: the walk, then, unless a path or lambda step was met, the fusion of the recorded pairs. */
  method Apply(t: Traversal)
    modifies t
    ensures t.steps == Rewrite(old(t.steps))
  {
    ghost var original := t.steps;
    var optimizable, pairs := Walk(t.steps);
    if optimizable && |pairs| > 0 {
      OptimizeRecorded(t, pairs);
    } else if optimizable {
      PairsFacts(original);
      RewriteWithoutPairs(original);
    }
  }

  // ---------------------------------------------------------------------------
  // Properties
  // ---------------------------------------------------------------------------

  /**
   * The three shapes that fuse, and no other: an unlabeled edge-returning
   * Out step followed by an In-endpoint step, In followed by Out, and Both
   * followed by an other-endpoint step. In particular `bothE().bothV()` does
   * not fuse, although Both is its own opposite.
   */
  lemma IsOptimizableCases(step1: Step, step2: Step)
    ensures IsOptimizable(step1, step2) <==>
      && step1.VertexStep? && step1.returnsEdge && step1.labels == {}
      && (|| (step1.dir == Out && step2.EdgeVertexStep? && step2.dir == In)
          || (step1.dir == In && step2.EdgeVertexStep? && step2.dir == Out)
          || (step1.dir == Both && step2.EdgeOtherVertexStep?))
  {
  }

  /**
   * Pairs never overlap: a pair's second step is not a `VertexStep`, so it
   * neither starts a pair nor is its first step the end of another.
   */
  lemma PairsDisjoint(steps: seq<Step>, k: int)
    requires IsPairAt(steps, k)
    ensures !IsPairAt(steps, k + 1) && !IsSecond(steps, k)
  {
  }

  /** Extending a prefix by one step adds a pair exactly when that step ends one. */
  lemma PairsPrefixStep(steps: seq<Step>, i: nat)
    requires i < |steps|
    ensures Pairs(steps[..i + 1]) == Pairs(steps[..i]) + (if IsSecond(steps, i) then [i - 1] else [])
  {
    if i + 1 >= 2 {
      assert steps[..i + 1][..i] == steps[..i];
    }
  }

  /** The recorded positions are exactly the pair positions, in increasing order. */
  lemma {:induction false} PairsFacts(steps: seq<Step>)
    ensures forall k :: k in Pairs(steps) <==> IsPairAt(steps, k)
    ensures forall a, b :: 0 <= a < b < |Pairs(steps)| ==> Pairs(steps)[a] < Pairs(steps)[b]
    decreases |steps|
  {
    var n := |steps|;
    if n >= 2 {
      var prefix := steps[..n - 1];
      PairsFacts(prefix);
      var before := Pairs(prefix);
      assert forall k :: IsPairAt(steps, k) <==> IsPairAt(prefix, k) || (k == n - 2 && IsPairAt(steps, k));
      forall a | 0 <= a < |before|
        ensures before[a] < n - 2
      {
        assert before[a] in before;
      }
    }
  }

  /** Up to position j, each step adds at most one pair. */
  lemma {:induction false} PairsCountGrowth(steps: seq<Step>, i: nat, j: nat)
    requires i <= j <= |steps|
    ensures |Pairs(steps[..i])| <= |Pairs(steps[..j])| <= |Pairs(steps[..i])| + (j - i)
    decreases j - i
  {
    if i < j {
      PairsPrefixStep(steps, j - 1);
      PairsCountGrowth(steps, i, j - 1);
    }
  }

  /** The fused result is shorter by one step per pair. */
  lemma {:induction false} FuseAllLength(steps: seq<Step>)
    ensures |FuseAll(steps)| == |steps| - |Pairs(steps)|
    decreases |steps|
  {
    var n := |steps|;
    if n >= 2 {
      if IsOptimizable(steps[n - 2], steps[n - 1]) {
        FuseAllLength(steps[..n - 2]);
        PairsPrefixStep(steps, n - 2);
        assert steps[..n - 2 + 1] == steps[..n - 1];
      } else {
        FuseAllLength(steps[..n - 1]);
      }
    }
  }

  /** A stretch free of pairs is copied as it is. */
  lemma {:induction false} FuseAllGap(steps: seq<Step>, c: nat, p: nat)
    requires c <= p <= |steps|
    requires forall k :: c - 1 <= k < p - 1 ==> !IsPairAt(steps, k)
    ensures FuseAll(steps[..p]) == FuseAll(steps[..c]) + steps[c..p]
    decreases p
  {
    if c < p {
      FuseAllGap(steps, c, p - 1);
      assert steps[..p][..p - 1] == steps[..p - 1];
      if p >= 2 {
        assert !IsPairAt(steps, p - 2);
      }
      assert steps[c..p] == steps[c..p - 1] + [steps[p - 1]];
    }
  }

  /** A pair ending a prefix becomes its fused step. */
  lemma FuseAllThroughPair(steps: seq<Step>, p: nat)
    requires IsPairAt(steps, p)
    ensures FuseAll(steps[..p + 2]) == FuseAll(steps[..p]) + [Fuse(steps[p])]
  {
    assert steps[..p + 2][..p] == steps[..p];
  }

  /**
   * One step of the edit phase: with the steps before `cut` fused (j pairs
   * among them) and no pair between `cut` and the pair at p, that pair sits
   * at p - j, and fusing it there extends the fused prefix past it.
   */
  lemma FuseNextPair(steps: seq<Step>, cut: nat, p: nat, j: nat)
    requires cut <= p && IsPairAt(steps, p)
    requires forall k :: cut - 1 <= k < p - 1 ==> !IsPairAt(steps, k)
    requires |FuseAll(steps[..cut])| == cut - j
    ensures var cur := FuseAll(steps[..cut]) + steps[cut..];
            && j <= p && p - j + 1 < |cur| && cur[p - j].VertexStep?
            && FusedAt(cur, p - j) == FuseAll(steps[..p + 2]) + steps[p + 2..]
            && |FuseAll(steps[..p + 2])| == p + 2 - (j + 1)
  {
    FuseAllGap(steps, cut, p);
    FuseAllThroughPair(steps, p);
    var done := FuseAll(steps[..cut]);
    SliceAround(done, steps, cut, p);
    FusedAtSplice(done + steps[cut..p], steps[p], steps[p + 1], steps[p + 2..]);
  }

  /** Where the j-th recorded pair sits once the pairs before it are fused, and what fusing it there gives. */
  lemma NextRecordedPair(steps: seq<Step>, pairs: seq<nat>, j: nat, cut: nat, cur: seq<Step>)
    requires pairs == Pairs(steps) && j < |pairs|
    requires cut == if j == 0 then 0 else pairs[j - 1] + 2
    requires cut <= |steps| && |FuseAll(steps[..cut])| == cut - j
    requires cur == FuseAll(steps[..cut]) + steps[cut..]
    ensures j <= pairs[j] && pairs[j] + 2 <= |steps|
    ensures pairs[j] - j + 1 < |cur| && cur[pairs[j] - j].VertexStep?
    ensures FusedAt(cur, pairs[j] - j) == FuseAll(steps[..pairs[j] + 2]) + steps[pairs[j] + 2..]
    ensures |FuseAll(steps[..pairs[j] + 2])| == pairs[j] + 2 - (j + 1)
  {
    GapBeforeNextPair(steps, pairs, j, cut, pairs[j]);
    FuseNextPair(steps, cut, pairs[j], j);
  }

  /** Cutting a sequence around the two elements at p and p + 1. */
  lemma SliceAround(front: seq<Step>, s: seq<Step>, c: nat, p: nat)
    requires c <= p && p + 1 < |s|
    ensures front + s[c..] == front + s[c..p] + [s[p], s[p + 1]] + s[p + 2..]
  {
    assert s[c..] == s[c..p] + [s[p], s[p + 1]] + s[p + 2..];
  }

  /** Fusing the pair that follows a prefix leaves the prefix and the suffix alone. */
  lemma FusedAtSplice(prefix: seq<Step>, first: Step, second: Step, suffix: seq<Step>)
    requires first.VertexStep?
    ensures FusedAt(prefix + [first, second] + suffix, |prefix|) == prefix + [Fuse(first)] + suffix
  {
    var whole := prefix + [first, second] + suffix;
    assert whole[..|prefix|] == prefix;
    assert whole[|prefix| + 2..] == suffix;
  }

  /** Once the last pair is fused, the rest of the sequence is copied. */
  lemma FuseAfterLastPair(steps: seq<Step>, cut: nat)
    requires cut <= |steps|
    requires forall k :: cut - 1 <= k < |steps| - 1 ==> !IsPairAt(steps, k)
    ensures FuseAll(steps[..cut]) + steps[cut..] == FuseAll(steps)
  {
    FuseAllGap(steps, cut, |steps|);
    assert steps[..|steps|] == steps;
    assert steps[cut..] == steps[cut..|steps|];
  }

  /**
   * Between the end of the j-th recorded pair and the start of the next one
   * (or the end of the sequence) there is no pair.
   */
  lemma GapBeforeNextPair(steps: seq<Step>, pairs: seq<nat>, j: nat, c: nat, p: nat)
    requires pairs == Pairs(steps) && j <= |pairs|
    requires c == if j == 0 then 0 else pairs[j - 1] + 2
    requires p == if j == |pairs| then |steps| else pairs[j]
    ensures c <= p <= |steps|
    ensures j < |pairs| ==> IsPairAt(steps, p)
    ensures forall k :: c - 1 <= k < p - 1 ==> !IsPairAt(steps, k)
  {
    NoPairBetween(steps, j);
  }

  /** The let-bound form of the gap facts, which `GapBeforeNextPair` passes on with `c` and `p` as parameters. */
  lemma NoPairBetween(steps: seq<Step>, j: nat)
    requires j <= |Pairs(steps)|
    ensures var c := if j == 0 then 0 else Pairs(steps)[j - 1] + 2;
            var p := if j == |Pairs(steps)| then |steps| else Pairs(steps)[j];
            && c <= p <= |steps|
            && (j < |Pairs(steps)| ==> IsPairAt(steps, p))
            && forall k :: c - 1 <= k < p - 1 ==> !IsPairAt(steps, k)
  {
    PairsFacts(steps);
    var pairs := Pairs(steps);
    var c := if j == 0 then 0 else pairs[j - 1] + 2;
    var p := if j == |pairs| then |steps| else pairs[j];
    if j > 0 {
      assert pairs[j - 1] in pairs;
      assert !steps[c - 1].VertexStep?;
    }
    if j < |pairs| {
      assert pairs[j] in pairs;
      assert steps[p].VertexStep?;
    }
    forall k | c - 1 <= k < p - 1
      ensures !IsPairAt(steps, k)
    {
      if k >= c {
        forall m | 0 <= m < |pairs|
          ensures pairs[m] != k
        {
          if m < j {
            assert pairs[m] <= pairs[j - 1];
          } else {
            assert pairs[j] <= pairs[m];
          }
        }
        assert k !in pairs;
      }
    }
  }

  /**
   * Where each step that is not the second of a pair ends up in the fused
   * sequence: shifted left by the number of pairs completed before it, and
   * replaced by the vertex-returning step when it starts a pair.
   */
  lemma {:induction false} FuseAllAt(steps: seq<Step>, i: nat)
    requires i < |steps| && !IsSecond(steps, i)
    ensures |Pairs(steps[..i])| <= i < |steps|
    ensures i - |Pairs(steps[..i])| < |FuseAll(steps)|
    ensures FuseAll(steps)[i - |Pairs(steps[..i])|] == Landed(steps, i)
    decreases |steps|
  {
    var n := |steps|;
    if n >= 2 {
      // FuseAll peels off the last pair or the last step and recurses on steps[..m].
      var m := if IsOptimizable(steps[n - 2], steps[n - 1]) then n - 2 else n - 1;
      if i < m {
        FuseAllAt(steps[..m], i);
        FuseAllAtFront(steps, m, i);
      } else {
        FuseAllAtBack(steps, m, i);
      }
    } else {
      assert steps[..i] == [];
    }
  }

  /** FuseAllAt for a step before the peeled-off end, from the same fact about the prefix. */
  lemma FuseAllAtFront(steps: seq<Step>, m: nat, i: nat)
    requires |steps| >= 2
    requires m == if IsOptimizable(steps[|steps| - 2], steps[|steps| - 1]) then |steps| - 2 else |steps| - 1
    requires i < m && !IsSecond(steps, i)
    requires |Pairs(steps[..m][..i])| <= i
    requires i - |Pairs(steps[..m][..i])| < |FuseAll(steps[..m])|
    requires FuseAll(steps[..m])[i - |Pairs(steps[..m][..i])|] == Landed(steps[..m], i)
    ensures |Pairs(steps[..i])| <= i < |steps|
    ensures i - |Pairs(steps[..i])| < |FuseAll(steps)|
    ensures FuseAll(steps)[i - |Pairs(steps[..i])|] == Landed(steps, i)
  {
    var prefix := steps[..m];
    assert prefix[..i] == steps[..i];
    if m == |steps| - 2 {
      PairsDisjoint(steps, m);
    }
    assert IsPairAt(prefix, i) == IsPairAt(steps, i);
    assert Landed(prefix, i) == Landed(steps, i);
  }

  /** FuseAllAt for the peeled-off end: it lands right after the fused prefix. */
  lemma FuseAllAtBack(steps: seq<Step>, m: nat, i: nat)
    requires |steps| >= 2
    requires m == if IsOptimizable(steps[|steps| - 2], steps[|steps| - 1]) then |steps| - 2 else |steps| - 1
    requires m <= i < |steps| && !IsSecond(steps, i)
    ensures |Pairs(steps[..i])| <= i
    ensures i - |Pairs(steps[..i])| < |FuseAll(steps)|
    ensures FuseAll(steps)[i - |Pairs(steps[..i])|] == Landed(steps, i)
  {
    assert i == m;
    assert steps[..i] == steps[..m];
    FuseAllLength(steps[..m]);
  }

  /** The fused sequence holds no pair, no blocker the input did not hold, and ends in an unfusable way. */
  lemma {:induction false} FuseAllOutput(steps: seq<Step>)
    ensures forall k :: !IsPairAt(FuseAll(steps), k)
    ensures NoBlocker(steps) ==> NoBlocker(FuseAll(steps))
    ensures |steps| > 0 ==>
      var out := FuseAll(steps);
      && |out| > 0
      && (out[|out| - 1] == steps[|steps| - 1] || (out[|out| - 1].VertexStep? && !out[|out| - 1].returnsEdge))
    decreases |steps|
  {
    var n := |steps|;
    if n >= 2 {
      var pair := IsOptimizable(steps[n - 2], steps[n - 1]);
      var m := if pair then n - 2 else n - 1;
      var prefix := steps[..m];
      var tail := if pair then Fuse(steps[n - 2]) else steps[n - 1];
      var before := FuseAll(prefix);
      var out := before + [tail];
      assert FuseAll(steps) == out;
      FuseAllOutput(prefix);
      assert NoBlocker(steps) ==> NoBlocker(prefix);
      assert NoBlocker(steps) ==> !Blocks(tail);
      if |before| > 0 {
        assert !IsOptimizable(before[|before| - 1], tail);
      }
      forall k
        ensures !IsPairAt(out, k)
      {
        if 0 <= k && k + 2 < |out| {
          assert out[k] == before[k] && out[k + 1] == before[k + 1];
          assert !IsPairAt(before, k);
        }
      }
    }
  }

  /** The output of the rewrite is one step shorter per fused pair. */
  lemma RewriteLength(steps: seq<Step>)
    ensures |Rewrite(steps)| == |steps| - (if NoBlocker(steps) then |Pairs(steps)| else 0)
  {
    FuseAllLength(steps);
  }

  /**
   * Each step that survives sits at `Position` in the output; the first step
   * of a pair is there replaced by a vertex-returning `VertexStep` with the
   * same direction and edge labels, every other survivor keeps its value.
   */
  lemma RewriteAt(steps: seq<Step>, i: nat)
    requires i < |steps| && !(NoBlocker(steps) && IsSecond(steps, i))
    ensures 0 <= Position(steps, i) < |Rewrite(steps)|
    ensures NoBlocker(steps) && IsPairAt(steps, i) ==>
      Rewrite(steps)[Position(steps, i)] == VertexStep(steps[i].dir, steps[i].edgeLabels, false, {})
    ensures !(NoBlocker(steps) && IsPairAt(steps, i)) ==> Rewrite(steps)[Position(steps, i)] == steps[i]
  {
    if NoBlocker(steps) {
      FuseAllAt(steps, i);
    }
  }

  /** Surviving steps keep their relative order. */
  lemma RewriteKeepsOrder(steps: seq<Step>, i: nat, j: nat)
    requires i < j < |steps|
    requires !(NoBlocker(steps) && IsSecond(steps, i))
    ensures Position(steps, i) < Position(steps, j)
  {
    if NoBlocker(steps) {
      PairsPrefixStep(steps, i);
      PairsCountGrowth(steps, i + 1, j);
    }
  }

  /** A path step or lambda holder anywhere leaves the traversal as it is. */
  lemma RewriteBlocked(steps: seq<Step>, i: nat)
    requires i < |steps| && Blocks(steps[i])
    ensures Rewrite(steps) == steps
  {
  }

  /** Without a fusable pair the traversal is left as it is. */
  lemma RewriteWithoutPairs(steps: seq<Step>)
    requires forall k :: !IsPairAt(steps, k)
    ensures Rewrite(steps) == steps
  {
    FuseAllGap(steps, 0, |steps|);
    assert steps[..|steps|] == steps;
  }

  /** A labeled `VertexStep` is never fused: it survives unchanged. */
  lemma LabeledStepNeverFused(steps: seq<Step>, i: nat)
    requires i < |steps| && steps[i].VertexStep? && steps[i].labels != {}
    ensures !IsPairAt(steps, i)
    ensures 0 <= Position(steps, i) < |Rewrite(steps)| && Rewrite(steps)[Position(steps, i)] == steps[i]
  {
    RewriteAt(steps, i);
  }

  /** Rewriting a rewritten traversal changes nothing. */
  lemma RewriteIdempotent(steps: seq<Step>)
    ensures Rewrite(Rewrite(steps)) == Rewrite(steps)
  {
    if NoBlocker(steps) {
      FuseAllOutput(steps);
      RewriteWithoutPairs(FuseAll(steps));
    }
  }

  /** `outE().inV()` becomes `out()`, and likewise `inE().outV()` and `bothE().otherV()`. */
  lemma ExampleRewrites(edgeLabels: seq<string>)
    ensures Rewrite([VertexStep(Out, edgeLabels, true, {}), EdgeVertexStep(In, {})])
            == [VertexStep(Out, edgeLabels, false, {})]
    ensures Rewrite([VertexStep(In, edgeLabels, true, {}), EdgeVertexStep(Out, {})])
            == [VertexStep(In, edgeLabels, false, {})]
    ensures Rewrite([VertexStep(Both, edgeLabels, true, {}), EdgeOtherVertexStep({})])
            == [VertexStep(Both, edgeLabels, false, {})]
  {
    var dirs := [Out, In, Both];
    forall d | d in dirs
      ensures var first := VertexStep(d, edgeLabels, true, {});
              var second := if d == Both then EdgeOtherVertexStep({}) else EdgeVertexStep(d.Opposite(), {});
              Rewrite([first, second]) == [VertexStep(d, edgeLabels, false, {})]
    {
      var steps := [VertexStep(d, edgeLabels, true, {}), if d == Both then EdgeOtherVertexStep({}) else EdgeVertexStep(d.Opposite(), {})];
      assert steps[..0] == [];
      assert FuseAll(steps) == FuseAll(steps[..0]) + [Fuse(steps[0])];
    }
  }

  /**
   * A label on the second step does not prevent fusion and is lost; a label on
   * the first step does prevent it; a path step later on cancels the fusion.
   */
  lemma ExampleLabelsAndPaths(x: string)
    ensures Rewrite([VertexStep(Out, [], true, {}), EdgeVertexStep(In, {x})]) == [VertexStep(Out, [], false, {})]
    ensures Rewrite([VertexStep(Out, [], true, {x}), EdgeVertexStep(In, {})])
            == [VertexStep(Out, [], true, {x}), EdgeVertexStep(In, {})]
    ensures Rewrite([VertexStep(Out, [], true, {}), EdgeVertexStep(In, {}), PathStep({})])
            == [VertexStep(Out, [], true, {}), EdgeVertexStep(In, {}), PathStep({})]
  {
    var fused := [VertexStep(Out, [], true, {}), EdgeVertexStep(In, {x})];
    assert fused[..0] == [];
    assert FuseAll(fused) == FuseAll(fused[..0]) + [Fuse(fused[0])];
    var labeled := [VertexStep(Out, [], true, {x}), EdgeVertexStep(In, {})];
    assert labeled[..1] == [labeled[0]];
    assert FuseAll(labeled) == FuseAll(labeled[..1]) + [labeled[1]];
    var withPath := [VertexStep(Out, [], true, {}), EdgeVertexStep(In, {}), PathStep({})];
    assert Blocks(withPath[2]);
  }
}
