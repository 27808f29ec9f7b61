/**
 The evaluation driver (`evaluate(exp, print_step)`): apply `step` until the
 expression is a value.

 The driver has no bound of its own, so a diverging program runs forever. Here
 the number of steps is a parameter (`fuel`), and running out of it is an
 outcome of its own; so is reaching a non-value that no rule applies to, where
 the program gives up with an internal error. The store is threaded through
 the loop. The driver only ever calls the step function, so it is stated for
 any step function; `StepWith(fo)` is the language's own.
 */
module Evaluation {
  import opened Wrappers
  import opened Syntax
  import opened Substitution
  import opened Semantics

  /** A step function: the next configuration, or None when no rule applies. */
  type Stepper = (Exp, Store) -> Option<Config>

  /** The language's step function, for the given double arithmetic. */
  function StepWith(fo: FloatOps): Stepper {
    (e, s) => Step(e, s, fo)
  }

  /** How a run ends: at a value, at a non-value no rule applies to, or with
      steps still to take when the fuel is spent. */
  datatype Outcome =
    | Done(value: Exp, store: Store)
    | Stuck(e: Exp, store: Store)
    | OutOfFuel(e: Exp, store: Store)

  /** The outcome of taking up to `fuel` steps from `e` against `s`. */
  function Run(step: Stepper, e: Exp, s: Store, fuel: nat): (o: Outcome)
    ensures o.Done? ==> IsValue(o.value)
    ensures o.Stuck? ==> !IsValue(o.e) && step(o.e, o.store) == None
    ensures o.OutOfFuel? ==> !IsValue(o.e)
    ensures IsValue(e) ==> o == Done(e, s)
    decreases fuel
  {
    if IsValue(e) then Done(e, s)
    else if fuel == 0 then OutOfFuel(e, s)
    else
      match step(e, s)
      case None => Stuck(e, s)
      case Some(c) => Run(step, c.e, c.store, fuel - 1)
  }

  /** `evaluate`: applies `step` to `e` until it is a value, at most `fuel`
      times. The language's evaluator is `Evaluate(StepWith(fo), ...)`. */
  method Evaluate(step: Stepper, e: Exp, s: Store, fuel: nat) returns (o: Outcome)
    ensures o == Run(step, e, s, fuel)
  {
    var cur, store, left := e, s, fuel;
    while !IsValue(cur) && left > 0
      invariant Run(step, cur, store, left) == Run(step, e, s, fuel)
      decreases left
    {
      var next := step(cur, store);
      if next.None? {
        return Stuck(cur, store);
      }
      cur, store, left := next.value.e, next.value.store, left - 1;
    }
    if IsValue(cur) {
      o := Done(cur, store);
    } else {
      o := OutOfFuel(cur, store);
    }
  }

  /** The step function never shrinks the store. */
  ghost predicate KeepsStore(step: Stepper) {
    forall e, s :: step(e, s).Some? ==> |s| <= |step(e, s).value.store|
  }

  /** The language's step function keeps the store. */
  lemma StepWithKeepsStore(fo: FloatOps)
    ensures KeepsStore(StepWith(fo))
  {
    forall e, s | StepWith(fo)(e, s).Some?
      ensures |s| <= |StepWith(fo)(e, s).value.store|
    {
      StepStoreEffect(e, s, fo);
    }
  }

  /** A run never shrinks the store, so every address handed out during the
      run is still live at its end. */
  lemma {:induction false} RunKeepsStore(step: Stepper, e: Exp, s: Store, fuel: nat)
    requires KeepsStore(step)
    ensures |s| <= |Run(step, e, s, fuel).store|
    decreases fuel
  {
    if !IsValue(e) && fuel > 0 && step(e, s).Some? {
      var c := step(e, s).value;
      RunKeepsStore(step, c.e, c.store, fuel - 1);
    }
  }

  /** More fuel does not change a run that already finished or got stuck. */
  lemma {:induction false} RunMoreFuel(step: Stepper, e: Exp, s: Store, fuel: nat, more: nat)
    requires !Run(step, e, s, fuel).OutOfFuel?
    requires fuel <= more
    ensures Run(step, e, s, more) == Run(step, e, s, fuel)
    decreases fuel
  {
    if !IsValue(e) && fuel > 0 && step(e, s).Some? {
      var c := step(e, s).value;
      RunMoreFuel(step, c.e, c.store, fuel - 1, more - 1);
    }
  }

  /** Binding a value with `let` and substituting it directly run alike, one
      step apart. */
  lemma LetRunsAsSubstitution(x: string, t: Types.Typ, v: Exp, body: Exp, s: Store, fuel: nat,
                              fo: FloatOps)
    requires IsValue(v)
    ensures Run(StepWith(fo), ELet(x, t, v, body), s, fuel + 1) ==
            Run(StepWith(fo), Substitute(body, x, v), s, fuel)
  {
    LetSubstitutes(x, t, v, body, s, fo);
  }
}
