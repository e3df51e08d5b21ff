/** Runs of a command loop that print one item per step and stop at the first Go runtime panic
    (the loops of cmd/decode/command.go:98-106 and cmd/encode/command.go:100-108). */
module Runs {
  import opened Types

  /** The items a run prints when its steps have the outcomes `outcomes`: the run panics exactly
      when some step panics; otherwise it prints one item per step, in order. */
  function Collect<T>(outcomes: seq<Checked<T>>): (r: Checked<seq<T>>)
    ensures r == IndexPanic <==> exists k :: 0 <= k < |outcomes| && outcomes[k] == IndexPanic
    ensures r.Ok? ==> |r.value| == |outcomes| && forall k :: 0 <= k < |outcomes| ==> outcomes[k] == Ok(r.value[k])
  {
    if outcomes == [] then Ok([])
    else
      var front := Collect(outcomes[..|outcomes| - 1]);
      var last := outcomes[|outcomes| - 1];
      if front.IndexPanic? || last.IndexPanic? then IndexPanic else Ok(front.value + [last.value])
  }

  /** A panic in the first `n` steps is a panic of the whole run. */
  lemma PanicPersists<T>(outcomes: seq<Checked<T>>, n: nat)
    requires n <= |outcomes| && Collect(outcomes[..n]) == IndexPanic
    ensures Collect(outcomes) == IndexPanic
  {
    var k :| 0 <= k < n && outcomes[..n][k] == IndexPanic;
    assert outcomes[k] == IndexPanic;
  }

  /** One more step that prints `x` extends what the run prints by `x`. */
  lemma CollectSnoc<T>(outcomes: seq<Checked<T>>, i: nat, printed: seq<T>, x: T)
    requires i < |outcomes| && Collect(outcomes[..i]) == Ok(printed) && outcomes[i] == Ok(x)
    ensures Collect(outcomes[..i + 1]) == Ok(printed + [x])
  {
    assert outcomes[..i + 1][..i] == outcomes[..i];
  }

  /** The printing side of a loop: items are printed in order until the first panic. */
  method PrintUntilPanic<T>(outcomes: seq<Checked<T>>) returns (out: Checked<seq<T>>)
    ensures out == Collect(outcomes)
  {
    var printed: seq<T> := [];
    var i := 0;
    while i < |outcomes|
      invariant i <= |outcomes|
      invariant Collect(outcomes[..i]) == Ok(printed)
    {
      var item := outcomes[i];
      if item.IndexPanic? {
        assert outcomes[..i + 1][..i] == outcomes[..i];
        PanicPersists(outcomes, i + 1);
        return IndexPanic;
      }
      CollectSnoc(outcomes, i, printed, item.value);
      printed := printed + [item.value];
      i := i + 1;
    }
    assert outcomes[..i] == outcomes;
    out := Ok(printed);
  }

  // ---------------------------------------------------------------------------------------
  // Loops that thread a state through their steps

  /** The state a loop has reached after the inputs `xs`, when `step` maps a state and an input to
      what is printed and the next state. */
  function StateAfter<S, X, T>(xs: seq<X>, step: (S, X) -> (Checked<T>, S), s0: S): S
  {
    if xs == [] then s0 else step(StateAfter(xs[..|xs| - 1], step, s0), xs[|xs| - 1]).1
  }

  /** The outcome of each input: input `k` is stepped from the state the inputs before it left. */
  function Outcomes<S, X, T>(xs: seq<X>, step: (S, X) -> (Checked<T>, S), s0: S): (os: seq<Checked<T>>)
    ensures |os| == |xs|
  {
    seq(|xs|, k requires 0 <= k < |xs| => step(StateAfter(xs[..k], step, s0), xs[k]).0)
  }

  /** One input further: the state after `xs[..i + 1]` is the step from the state after `xs[..i]`. */
  lemma StateStep<S, X, T>(xs: seq<X>, i: nat, step: (S, X) -> (Checked<T>, S), s0: S)
    requires i < |xs|
    ensures StateAfter(xs[..i + 1], step, s0) == step(StateAfter(xs[..i], step, s0), xs[i]).1
    ensures Outcomes(xs, step, s0)[i] == step(StateAfter(xs[..i], step, s0), xs[i]).0
  {
    assert xs[..i + 1][..i] == xs[..i];
  }

  /** The loop: each input is stepped from the current state; what the step prints is printed and
      its state kept, until the first panic. */
  method Thread<S, X, T>(xs: seq<X>, step: (S, X) -> (Checked<T>, S), s0: S) returns (out: Checked<seq<T>>, s: S)
    ensures out == Collect(Outcomes(xs, step, s0))
    ensures out.Ok? ==> s == StateAfter(xs, step, s0)
  {
    ghost var all := Outcomes(xs, step, s0);
    s := s0;
    var printed: seq<T> := [];
    var i := 0;
    while i < |xs|
      invariant i <= |xs|
      invariant s == StateAfter(xs[..i], step, s0)
      invariant Collect(all[..i]) == Ok(printed)
    {
      StateStep(xs, i, step, s0);
      var (o, next) := step(s, xs[i]);
      if o.IndexPanic? {
        assert all[..i + 1][..i] == all[..i];
        PanicPersists(all, i + 1);
        return IndexPanic, s;
      }
      CollectSnoc(all, i, printed, o.value);
      printed := printed + [o.value];
      s := next;
      i := i + 1;
    }
    assert all[..i] == all;
    assert xs[..i] == xs;
    out := Ok(printed);
  }
}
