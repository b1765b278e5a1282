/** The stage chain of dvgutils/pipeline/pipeline.py. A stream is modelled as the finite sequence of
    items it yields; a stage as the function it applies to that sequence. */
module Pipeline {
  import opened Wrappers

  /** A stage as `Pipeline` composes it. A map stage may keep state between items (a moving average,
      a counter): items reach it one at a time in stream order, so what it returns for an item is a
      function of the items it has already been given and of the item itself. */
  datatype Stage<!T> =
    | MapStage(f: (seq<T>, T) -> T)
    | FilterStage(p: T -> bool)
    | IterStage(g: seq<T> -> seq<T>)

  /** An entry of `pipes`: the source or an accepted stage, and whether that object has a `close`. */
  datatype Pipe<!T> =
    | SourcePipe(items: seq<T>, hasClose: bool)
    | StagePipe(stage: Stage<T>, hasClose: bool)

  /** An object handed to the pipeline: what it computes, and whether it has a `close`. */
  datatype Callable<F> = Callable(call: F, hasClose: bool)

  /** `map(f, xs)` for a stage that sees the items one at a time, in order. */
  function Mapped<T>(f: (seq<T>, T) -> T, xs: seq<T>): seq<T>
  {
    seq(|xs|, i requires 0 <= i < |xs| => f(xs[..i], xs[i]))
  }

  /** `filter(p, xs)`. */
  function Filtered<T>(p: T -> bool, xs: seq<T>): seq<T>
    decreases |xs|
  {
    if |xs| == 0 then []
    else Filtered(p, xs[..|xs| - 1]) + (if p(xs[|xs| - 1]) then [xs[|xs| - 1]] else [])
  }

  function Apply<T>(st: Stage<T>, xs: seq<T>): seq<T>
  {
    match st
    case MapStage(f) => Mapped(f, xs)
    case FilterStage(p) => Filtered(p, xs)
    case IterStage(g) => g(xs)
  }

  /** The shape `pipes` always has: the source first, then stages. */
  predicate WellFormed<T>(pipes: seq<Pipe<T>>)
  {
    |pipes| >= 1 && pipes[0].SourcePipe? && forall i :: 1 <= i < |pipes| ==> pipes[i].StagePipe?
  }

  /** What the composed stream yields: the source's items pushed through every stage in order. */
  function Flow<T>(pipes: seq<Pipe<T>>): seq<T>
    requires WellFormed(pipes)
    decreases |pipes|
  {
    if |pipes| == 1 then pipes[0].items
    else
      var init := pipes[..|pipes| - 1];
      assert WellFormed(init) by {
        forall i | 1 <= i < |init| ensures init[i].StagePipe? { assert init[i] == pipes[i]; }
      }
      Apply(pipes[|pipes| - 1].stage, Flow(init))
  }

  /** The indices of the pipes whose `close` is called, in the order `close()` reaches them. */
  function ClosingOrder<T>(pipes: seq<Pipe<T>>): seq<nat>
    decreases |pipes|
  {
    if |pipes| == 0 then []
    else (if pipes[|pipes| - 1].hasClose then [|pipes| - 1] else []) + ClosingOrder(pipes[..|pipes| - 1])
  }

  /** `close` is called on exactly the pipes that have one, each once, last registered first. */
  lemma ClosingOrderExactly<T>(pipes: seq<Pipe<T>>)
    ensures forall k :: 0 <= k < |ClosingOrder(pipes)| ==>
              ClosingOrder(pipes)[k] < |pipes| && pipes[ClosingOrder(pipes)[k]].hasClose
    ensures forall i :: 0 <= i < |pipes| && pipes[i].hasClose ==> i in ClosingOrder(pipes)
    ensures forall k, l :: 0 <= k < l < |ClosingOrder(pipes)| ==> ClosingOrder(pipes)[k] > ClosingOrder(pipes)[l]
  {
    ClosingOrderSound(pipes);
    ClosingOrderComplete(pipes);
    ClosingOrderDescending(pipes);
  }

  lemma {:induction false} ClosingOrderSound<T>(pipes: seq<Pipe<T>>)
    ensures forall k :: 0 <= k < |ClosingOrder(pipes)| ==>
              ClosingOrder(pipes)[k] < |pipes| && pipes[ClosingOrder(pipes)[k]].hasClose
    decreases |pipes|
  {
    if |pipes| > 0 {
      var n := |pipes| - 1;
      var init := pipes[..n];
      ClosingOrderSound(init);
      var rest := ClosingOrder(init);
      var head: seq<nat> := if pipes[n].hasClose then [n] else [];
      var order := ClosingOrder(pipes);
      assert order == head + rest;
      forall k | 0 <= k < |order| ensures order[k] < |pipes| && pipes[order[k]].hasClose {
        if k >= |head| {
          assert order[k] == rest[k - |head|];
          assert init[rest[k - |head|]] == pipes[rest[k - |head|]];
        }
      }
    }
  }

  lemma {:induction false} ClosingOrderComplete<T>(pipes: seq<Pipe<T>>)
    ensures forall i :: 0 <= i < |pipes| && pipes[i].hasClose ==> i in ClosingOrder(pipes)
    decreases |pipes|
  {
    if |pipes| > 0 {
      var n := |pipes| - 1;
      var init := pipes[..n];
      ClosingOrderComplete(init);
      var rest := ClosingOrder(init);
      var head: seq<nat> := if pipes[n].hasClose then [n] else [];
      assert ClosingOrder(pipes) == head + rest;
      forall i | 0 <= i < |pipes| && pipes[i].hasClose ensures i in ClosingOrder(pipes) {
        if i < n {
          assert init[i] == pipes[i];
          assert i in rest;
        }
      }
    }
  }

  lemma {:induction false} ClosingOrderDescending<T>(pipes: seq<Pipe<T>>)
    ensures forall k, l :: 0 <= k < l < |ClosingOrder(pipes)| ==> ClosingOrder(pipes)[k] > ClosingOrder(pipes)[l]
    decreases |pipes|
  {
    if |pipes| > 0 {
      var n := |pipes| - 1;
      var init := pipes[..n];
      ClosingOrderDescending(init);
      ClosingOrderSound(init);
      var rest := ClosingOrder(init);
      var head: seq<nat> := if pipes[n].hasClose then [n] else [];
      var order := ClosingOrder(pipes);
      assert order == head + rest;
      forall k, l | 0 <= k < l < |order| ensures order[k] > order[l] {
        if k >= |head| {
          assert order[k] == rest[k - |head|] && order[l] == rest[l - |head|];
        } else {
          assert order[l] == rest[l - 1] && rest[l - 1] < n;
        }
      }
    }
  }

  class Pipeline<T> {
    /** `self.pipeline`: the composed stream. */
    var pipeline: seq<T>
    /** `self.pipes`: the source and the accepted stages, in registration order. */
    var pipes: seq<Pipe<T>>

    ghost predicate Valid()
      reads this
    {
      WellFormed(pipes) && pipeline == Flow(pipes)
    }

    constructor (source: Callable<seq<T>>)
      ensures Valid()
      ensures pipes == [SourcePipe(source.call, source.hasClose)]
      ensures pipeline == source.call
    {
      pipes := [SourcePipe(source.call, source.hasClose)];
      pipeline := source.call;
    }

    /** Adds the stage at the end of `pipes` and of the stream. */
    method Push(st: Stage<T>, hasClose: bool)
      requires Valid()
      modifies this
      ensures Valid()
      ensures pipes == old(pipes) + [StagePipe(st, hasClose)]
      ensures pipeline == Apply(st, old(pipeline))
    {
      var before := pipes;
      pipes := pipes + [StagePipe(st, hasClose)];
      assert pipes[..|pipes| - 1] == before;
      pipeline := Apply(st, pipeline);
    }

    /** `map(pipe)`: a missing stage (None) changes nothing; the pipeline itself is returned. */
    method Map(pipe: Option<Callable<(seq<T>, T) -> T>>) returns (self: Pipeline<T>)
      requires Valid()
      modifies this
      ensures self == this && Valid()
      ensures pipe.None? ==> pipes == old(pipes) && pipeline == old(pipeline)
      ensures pipe.Some? ==> pipes == old(pipes) + [StagePipe(MapStage(pipe.value.call), pipe.value.hasClose)]
      ensures pipe.Some? ==> pipeline == Mapped(pipe.value.call, old(pipeline))
    {
      if pipe.Some? {
        Push(MapStage(pipe.value.call), pipe.value.hasClose);
      }
      self := this;
    }

    /** `filter(pipe)`: a missing stage (None) changes nothing; the pipeline itself is returned. */
    method Filter(pipe: Option<Callable<T -> bool>>) returns (self: Pipeline<T>)
      requires Valid()
      modifies this
      ensures self == this && Valid()
      ensures pipe.None? ==> pipes == old(pipes) && pipeline == old(pipeline)
      ensures pipe.Some? ==> pipes == old(pipes) + [StagePipe(FilterStage(pipe.value.call), pipe.value.hasClose)]
      ensures pipe.Some? ==> pipeline == Filtered(pipe.value.call, old(pipeline))
    {
      if pipe.Some? {
        Push(FilterStage(pipe.value.call), pipe.value.hasClose);
      }
      self := this;
    }

    /** `iter(pipe)`: the stage replaces the whole stream by what it makes of it; a missing stage
        (None) changes nothing; the pipeline itself is returned. */
    method Iter(pipe: Option<Callable<seq<T> -> seq<T>>>) returns (self: Pipeline<T>)
      requires Valid()
      modifies this
      ensures self == this && Valid()
      ensures pipe.None? ==> pipes == old(pipes) && pipeline == old(pipeline)
      ensures pipe.Some? ==> pipes == old(pipes) + [StagePipe(IterStage(pipe.value.call), pipe.value.hasClose)]
      ensures pipe.Some? ==> pipeline == pipe.value.call(old(pipeline))
    {
      if pipe.Some? {
        Push(IterStage(pipe.value.call), pipe.value.hasClose);
      }
      self := this;
    }

    /** `run()`: pulls every item through the chain; gives the items in the order they leave it. */
    method Run() returns (drained: seq<T>)
      requires Valid()
      ensures drained == Flow(pipes)
    {
      drained := [];
      var i := 0;
      while i < |pipeline|
        invariant 0 <= i <= |pipeline|
        invariant drained == pipeline[..i]
      {
        drained := drained + [pipeline[i]];
        i := i + 1;
      }
      assert pipeline[..i] == pipeline;
    }

    /** `close()`: walks `pipes` backwards and closes each pipe that has a `close`; gives the
        indices of the pipes closed, in call order. */
    method Close() returns (closed: seq<nat>)
      ensures closed == ClosingOrder(pipes)
    {
      var ps := pipes;
      closed := [];
      var i := |ps|;
      assert ps[..i] == ps;
      while i > 0
        invariant 0 <= i <= |ps|
        invariant closed + ClosingOrder(ps[..i]) == ClosingOrder(ps)
      {
        i := i - 1;
        ClosingOrderPrefix(ps, i);
        if ps[i].hasClose {
          assert (closed + [i]) + ClosingOrder(ps[..i]) == closed + ([i] + ClosingOrder(ps[..i]));
          closed := closed + [i];
        }
      }
    }
  }

  lemma ClosingOrderPrefix<T>(pipes: seq<Pipe<T>>, i: nat)
    requires i < |pipes|
    ensures ClosingOrder(pipes[..i + 1]) == (if pipes[i].hasClose then [i] else []) + ClosingOrder(pipes[..i])
  {
    assert pipes[..i + 1][..i] == pipes[..i];
  }

  // ---------------------------------------------------------------- properties of the stages

  /** A map stage gives one output per input, and output i is computed from input i and, as the
      history the stage has seen, exactly the inputs before it. */
  lemma MappedOnceInOrder<T>(f: (seq<T>, T) -> T, xs: seq<T>)
    ensures |Mapped(f, xs)| == |xs|
    ensures forall i :: 0 <= i < |xs| ==> Mapped(f, xs)[i] == f(xs[..i], xs[i])
    ensures forall k :: 0 <= k <= |xs| ==> Mapped(f, xs)[..k] == Mapped(f, xs[..k])
  {
    forall k | 0 <= k <= |xs| ensures Mapped(f, xs)[..k] == Mapped(f, xs[..k]) {
      forall i | 0 <= i < k ensures xs[..k][..i] == xs[..i] {
      }
    }
  }

  /** A map stage written as a state machine: `step(state, item)` gives the next state and the
      stage's output for the item. The run feeds the items one at a time, in stream order. */
  function StatefulRun<S, T>(step: (S, T) -> (S, T), s0: S, xs: seq<T>): (r: (S, seq<T>))
    ensures |r.1| == |xs|
    decreases |xs|
  {
    if |xs| == 0 then (s0, [])
    else
      var prev := StatefulRun(step, s0, xs[..|xs| - 1]);
      var next := step(prev.0, xs[|xs| - 1]);
      (next.0, prev.1 + [next.1])
  }

  /** The history-dependent map stage a state machine amounts to. */
  function StateMachineStage<S, T>(step: (S, T) -> (S, T), s0: S): (seq<T>, T) -> T
  {
    (h: seq<T>, x: T) => step(StatefulRun(step, s0, h).0, x).1
  }

  /** Running a stateful map stage item by item agrees with the map stage model: each item is seen
      once, after exactly the items before it. */
  lemma {:induction false} StatefulRunIsMapped<S, T>(step: (S, T) -> (S, T), s0: S, xs: seq<T>)
    ensures StatefulRun(step, s0, xs).1 == Mapped(StateMachineStage(step, s0), xs)
    decreases |xs|
  {
    if |xs| > 0 {
      var init := xs[..|xs| - 1];
      StatefulRunIsMapped(step, s0, init);
      var m := Mapped(StateMachineStage(step, s0), xs);
      var r := StatefulRun(step, s0, xs).1;
      forall i | 0 <= i < |xs| ensures r[i] == m[i] {
        if i < |xs| - 1 {
          assert init[..i] == xs[..i];
          assert Mapped(StateMachineStage(step, s0), init)[i] == m[i];
        } else {
          assert xs[..i] == init;
        }
      }
    }
  }

  /** Filtering distributes over concatenation, so the kept items stay in their original order. */
  lemma {:induction false} FilteredConcat<T>(p: T -> bool, a: seq<T>, b: seq<T>)
    ensures Filtered(p, a + b) == Filtered(p, a) + Filtered(p, b)
    decreases |b|
  {
    if |b| == 0 {
      assert a + b == a;
    } else {
      var b' := b[..|b| - 1];
      assert (a + b)[..|a + b| - 1] == a + b';
      assert (a + b)[|a + b| - 1] == b[|b| - 1];
      FilteredConcat(p, a, b');
    }
  }

  /** An item is kept iff it is in the stream and the predicate holds of it. */
  lemma {:induction false} FilteredMembers<T>(p: T -> bool, xs: seq<T>)
    ensures forall x :: x in Filtered(p, xs) <==> x in xs && p(x)
    ensures |Filtered(p, xs)| <= |xs|
    decreases |xs|
  {
    if |xs| > 0 {
      var init := xs[..|xs| - 1];
      FilteredMembers(p, init);
      assert xs == init + [xs[|xs| - 1]];
      forall x ensures x in xs <==> x in init || x == xs[|xs| - 1] {
      }
    }
  }

  /** A filter drops nothing when the predicate holds everywhere, and keeps nothing when it holds
      nowhere. */
  lemma {:induction false} FilteredExtremes<T>(p: T -> bool, xs: seq<T>)
    ensures (forall i :: 0 <= i < |xs| ==> p(xs[i])) ==> Filtered(p, xs) == xs
    ensures (forall i :: 0 <= i < |xs| ==> !p(xs[i])) ==> Filtered(p, xs) == []
    decreases |xs|
  {
    if |xs| > 0 {
      var init := xs[..|xs| - 1];
      FilteredExtremes(p, init);
      assert forall i :: 0 <= i < |init| ==> init[i] == xs[i];
      assert init + [xs[|xs| - 1]] == xs;
    }
  }

  /** Accepting a stage extends the stream by applying that stage to what came before. */
  lemma FlowPush<T>(pipes: seq<Pipe<T>>, st: Stage<T>, hasClose: bool)
    requires WellFormed(pipes)
    ensures WellFormed(pipes + [StagePipe(st, hasClose)])
    ensures Flow(pipes + [StagePipe(st, hasClose)]) == Apply(st, Flow(pipes))
  {
    var ps := pipes + [StagePipe(st, hasClose)];
    assert ps[..|ps| - 1] == pipes;
  }
}
