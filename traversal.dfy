/**
 * Steps and the mutable step sequence of a traversal, as the rewrite
 * strategies see them.
 */
module Traversals {
  import opened Structure

  /**
   * One traversal step. Every step carries the set of labels bound to its
   * output; the kinds the fusion rule distinguishes are spelled out, all
   * others are `Other`.
   */
  datatype Step =
    | VertexStep(dir: Direction, edgeLabels: seq<string>, returnsEdge: bool, labels: set<string>)
    | EdgeVertexStep(dir: Direction, labels: set<string>)
    | EdgeOtherVertexStep(labels: set<string>)
    | PathStep(labels: set<string>)
    | LambdaStep(labels: set<string>)
    | Other(name: string, labels: set<string>)

  /**
   * A traversal owns its step sequence; strategies edit it in place. Steps
   * are addressed by position where the implementation finds them by identity.
   */
  class Traversal {
    var steps: seq<Step>

    constructor (steps: seq<Step>)
      ensures this.steps == steps
    {
      this.steps := steps;
    }

    /** Puts `s` in place of the step at position `i`. */
    method ReplaceStep(i: nat, s: Step)
      requires i < |steps|
      modifies this
      ensures steps == old(steps)[i := s]
    {
      steps := steps[i := s];
    }

    /** Removes the step at position `i`; the others keep their order. */
    method RemoveStep(i: nat)
      requires i < |steps|
      modifies this
      ensures steps == old(steps)[..i] + old(steps)[i + 1..]
    {
      steps := steps[..i] + steps[i + 1..];
    }
  }
}
