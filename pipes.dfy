/**
 * The pull-based filter pipe of the Gremlin pipes layer.
 *
 * A pipe pulls holders from its upstream (`starts`) on demand. The filter
 * pipe skips holders its predicate rejects; the first one it accepts gets the
 * label of the next pipe (or "NONE" when there is none) and is handed on.
 * The upstream iterator is a sequence plus a cursor, its exhaustion a `None`
 * result, and the next pipe's label an optional string fixed at construction.
 */
module Pipes {
  import opened Wrappers

  /** A traverser: the value it carries and the label of the pipe it belongs to. */
  datatype Holder<S> = Holder(value: S, pipe: string)

  /** The label a holder gets: the next pipe's label, or "NONE" when this is the last pipe. */
  function PipeLabel(next: Option<string>): (tag: string)
    ensures next.Some? ==> tag == next.value
    ensures next.None? ==> tag == "NONE"
  {
    next.GetOr("NONE")
  }

  // ---------------------------------------------------------------------------
  // Specification functions
  // ---------------------------------------------------------------------------

  /** The holders of `s` the predicate accepts, in upstream order. */
  function Filter<S>(test: Holder<S> -> bool, s: seq<Holder<S>>): seq<Holder<S>>
    decreases |s|
  {
    if |s| == 0 then []
    else Filter(test, s[..|s| - 1]) + (if test(s[|s| - 1]) then [s[|s| - 1]] else [])
  }

  /** The holders of `hs`, each relabelled with `name`. */
  function Tag<S>(hs: seq<Holder<S>>, name: string): seq<Holder<S>>
    decreases |hs|
  {
    if |hs| == 0 then []
    else Tag(hs[..|hs| - 1], name) + [hs[|hs| - 1].(pipe := name)]
  }

  /**
   * The position of the first holder at or after `from` that the predicate
   * accepts, or |s| when there is none.
   */
  function FirstMatch<S>(test: Holder<S> -> bool, s: seq<Holder<S>>, from: nat): (k: nat)
    requires from <= |s|
    ensures from <= k <= |s|
    ensures k < |s| ==> test(s[k])
    ensures forall m :: from <= m < k ==> !test(s[m])
    decreases |s| - from
  {
    if from == |s| then |s|
    else if test(s[from]) then from
    else FirstMatch(test, s, from + 1)
  }

  // ---------------------------------------------------------------------------
  // The pipe
  // ---------------------------------------------------------------------------

  /**
   * `FilterPipe`: the predicate and the next pipe's label are fixed; the
   * cursor into the upstream advances. `emitted` records every holder handed
   * on so far.
   */
  class FilterPipe<S> {
    const test: Holder<S> -> bool
    const nextPipeLabel: Option<string>
    const starts: seq<Holder<S>>
    var cursor: nat
    ghost var emitted: seq<Holder<S>>

    /** Everything pulled so far was filtered: what was handed on is exactly the accepted holders, relabelled, in order. */
    ghost predicate Valid()
      reads this
    {
      cursor <= |starts| && emitted == Tag(Filter(test, starts[..cursor]), PipeLabel(nextPipeLabel))
    }

    constructor (test: Holder<S> -> bool, nextPipeLabel: Option<string>, starts: seq<Holder<S>>)
      ensures this.test == test && this.nextPipeLabel == nextPipeLabel
      ensures this.starts == starts && cursor == 0 && emitted == []
      ensures Valid()
    {
      this.test := test;
      this.nextPipeLabel := nextPipeLabel;
      this.starts := starts;
      cursor := 0;
      emitted := [];
    }

    /**
     * `processNextStart`: pull holders until the predicate accepts one, label
     * it and return it; when the upstream runs out first, return `None` with
     * all of it consumed.
     */
    method ProcessNextStart() returns (r: Option<Holder<S>>)
      requires Valid()
      modifies this
      ensures Valid()
      ensures r.Some? <==> FirstMatch(test, starts, old(cursor)) < |starts|
      ensures r.Some? ==> cursor == FirstMatch(test, starts, old(cursor)) + 1
      ensures r.Some? ==> test(starts[cursor - 1]) && r.value == starts[cursor - 1].(pipe := PipeLabel(nextPipeLabel))
      ensures r.Some? ==> emitted == old(emitted) + [r.value]
      ensures r.None? ==> cursor == |starts| && emitted == old(emitted)
    {
      while cursor < |starts|
        invariant old(cursor) <= cursor <= |starts|
        invariant FirstMatch(test, starts, old(cursor)) == FirstMatch(test, starts, cursor)
        invariant Valid() && emitted == old(emitted)
      {
        var h := starts[cursor];
        ghost var here := FirstMatch(test, starts, cursor);
        ghost var accepted := Filter(test, starts[..cursor]);
        FilterSnoc(test, starts, cursor);
        cursor := cursor + 1;
        if test(h) {
          var labelled := h.(pipe := PipeLabel(nextPipeLabel));
          TagSnoc(accepted, h, PipeLabel(nextPipeLabel));
          emitted := emitted + [labelled];
          assert here == cursor - 1;
          return Some(labelled);
        }
        assert Filter(test, starts[..cursor]) == accepted;
      }
      return None;
    }
  }

  // ---------------------------------------------------------------------------
  // Properties
  // ---------------------------------------------------------------------------

  /** One more upstream holder adds itself to the filtered prefix exactly when the predicate accepts it. */
  lemma FilterSnoc<S>(test: Holder<S> -> bool, s: seq<Holder<S>>, i: nat)
    requires i < |s|
    ensures Filter(test, s[..i + 1]) == Filter(test, s[..i]) + (if test(s[i]) then [s[i]] else [])
  {
    assert s[..i + 1][..i] == s[..i];
  }

  /** Relabelling commutes with appending one holder. */
  lemma TagSnoc<S>(hs: seq<Holder<S>>, h: Holder<S>, name: string)
    ensures Tag(hs + [h], name) == Tag(hs, name) + [h.(pipe := name)]
  {
    assert (hs + [h])[..|hs|] == hs;
  }

  /** Relabelling keeps the values and their order, and sets every label. */
  lemma {:induction false} TagKeepsValues<S>(hs: seq<Holder<S>>, name: string)
    ensures |Tag(hs, name)| == |hs|
    ensures forall i :: 0 <= i < |hs| ==> Tag(hs, name)[i] == Holder(hs[i].value, name)
    decreases |hs|
  {
    if |hs| > 0 {
      TagKeepsValues(hs[..|hs| - 1], name);
    }
  }

  /** The filter keeps the accepted holders, in order: splitting the upstream splits the output. */
  lemma {:induction false} FilterAppend<S>(test: Holder<S> -> bool, a: seq<Holder<S>>, b: seq<Holder<S>>)
    ensures Filter(test, a + b) == Filter(test, a) + Filter(test, b)
    decreases |b|
  {
    if |b| > 0 {
      assert (a + b)[..|a + b| - 1] == a + b[..|b| - 1];
      FilterAppend(test, a, b[..|b| - 1]);
    } else {
      assert a + b == a;
    }
  }

  /** Each accepted holder comes out as often as it went in, a rejected one never. */
  lemma {:induction false} FilterMultiplicity<S>(test: Holder<S> -> bool, s: seq<Holder<S>>, h: Holder<S>)
    ensures multiset(Filter(test, s))[h] == if test(h) then multiset(s)[h] else 0
    decreases |s|
  {
    if |s| > 0 {
      FilterMultiplicity(test, s[..|s| - 1], h);
      assert s == s[..|s| - 1] + [s[|s| - 1]];
    }
  }

  /**
   * Between two calls the pipe consumes exactly the upstream up to and
   * including the first accepted holder: the rejected holders before it add
   * nothing to the output.
   */
  lemma {:induction false} SkippedAddNothing<S>(test: Holder<S> -> bool, s: seq<Holder<S>>, from: nat)
    requires from <= |s|
    ensures Filter(test, s[..FirstMatch(test, s, from)]) == Filter(test, s[..from])
    decreases |s| - from
  {
    if from < |s| && !test(s[from]) {
      FilterSnoc(test, s, from);
      SkippedAddNothing(test, s, from + 1);
    }
  }

  /** Once the upstream is drained, the pipe has handed on exactly the accepted holders, relabelled, each once and in order. */
  lemma DrainedEmitsAllAccepted<S>(p: FilterPipe<S>)
    requires p.Valid() && p.cursor == |p.starts|
    ensures p.emitted == Tag(Filter(p.test, p.starts), PipeLabel(p.nextPipeLabel))
  {
    assert p.starts[..p.cursor] == p.starts;
  }
}
