/** Runs of a deterministic step function: the state reached, the log of outcomes and what every run keeps. */
module Runs {

  function After<S, O, R>(step: (S, O) -> (S, R), s: S, ops: seq<O>): S
    decreases ops
  {
    if ops == [] then s else After(step, step(s, ops[0]).0, ops[1..])
  }

  /** Every operation with its outcome. */
  function Log<S, O, R>(step: (S, O) -> (S, R), s: S, ops: seq<O>): seq<(O, R)>
    decreases ops
  {
    if ops == [] then [] else [(ops[0], step(s, ops[0]).1)] + Log(step, step(s, ops[0]).0, ops[1..])
  }

  /** Every operation is allowed in the state in which it is applied. */
  ghost predicate Legal<S, O, R>(step: (S, O) -> (S, R), allowed: (S, O) -> bool, s: S, ops: seq<O>)
    decreases ops
  {
    ops == [] || (allowed(s, ops[0]) && Legal(step, allowed, step(s, ops[0]).0, ops[1..]))
  }

  /** What every single step keeps, every run keeps. */
  lemma {:induction false} Keeps<S(!new), O(!new), R(!new)>(
      step: (S, O) -> (S, R), allowed: (S, O) -> bool, inv: (S, seq<(O, R)>) -> bool, s: S, log: seq<(O, R)>,
      ops: seq<O>)
    requires inv(s, log) && Legal(step, allowed, s, ops)
    requires forall s, log, op :: inv(s, log) && allowed(s, op) ==> inv(step(s, op).0, log + [(op, step(s, op).1)])
    ensures inv(After(step, s, ops), log + Log(step, s, ops))
    decreases ops
  {
    if ops == [] {
      assert log + Log(step, s, ops) == log;
    } else {
      var (s', r) := step(s, ops[0]);
      var log' := log + [(ops[0], r)];
      Keeps(step, allowed, inv, s', log', ops[1..]);
      assert log + Log(step, s, ops) == log' + Log(step, s', ops[1..]);
    }
  }

  /** The same for an invariant of the state alone. */
  lemma {:induction false} KeepsState<S(!new), O(!new), R(!new)>(
      step: (S, O) -> (S, R), allowed: (S, O) -> bool, inv: S -> bool, s: S, ops: seq<O>)
    requires inv(s) && Legal(step, allowed, s, ops)
    requires forall s, op :: inv(s) && allowed(s, op) ==> inv(step(s, op).0)
    ensures inv(After(step, s, ops))
    decreases ops
  {
    if ops != [] {
      KeepsState(step, allowed, inv, step(s, ops[0]).0, ops[1..]);
    }
  }
}
