/**
 Concrete runs of the checker and the evaluator on small programs. Each run
 starts from an empty store, and the double arithmetic is left arbitrary,
 since none of these programs uses doubles.
 */
module Scenarios {
  import opened Wrappers
  import opened Types
  import opened Syntax
  import opened Semantics
  import opened Evaluation
  import opened Typing
  import opened Shape

  /** One step of a run: a non-value that steps to `c` runs on from `c`. */
  lemma RunStep(fo: FloatOps, e: Exp, s: Store, fuel: nat, c: Config)
    requires !IsValue(e) && Step(e, s, fo) == Some(c)
    ensures Run(StepWith(fo), e, s, fuel + 1) == Run(StepWith(fo), c.e, c.store, fuel)
  {
  }

  /** `if true then 1 else 2` checks as Int. */
  lemma CheckConditional()
    ensures Typecheck(EIf(EBool(true), IntLit(1), IntLit(2)), map[]) == Ok(Plain(TInt))
  {
  }

  /** `{a = a}` with `a` declared Int: the field's own name is not in scope
      in the field, which is checked in the enclosing context. */
  const SelfField := EStruct(map["a" := EVar("a")], map["a" := TInt])

  /** In the empty context the field's variable is unbound, and the error is
      that lookup. */
  lemma FieldNamesAreNotBound()
    ensures Typecheck(SelfField, map[]) == Fail(EVar("a"), Bound, None)
  {
    var e := SelfField;
    assert !FieldChecks(e, map[], "a");
    assert BadFields(e, map[]) == {"a"};
  }

  /** With `a` bound to Int by the enclosing context, the literal checks. */
  lemma FieldsSeeEnclosingContext()
    ensures Typecheck(SelfField, map["a" := TInt]) == Ok(Record(map["a" := TInt]))
  {
    var e := SelfField;
    assert FieldChecks(e, map["a" := TInt], "a");
    assert BadFields(e, map["a" := TInt]) == {};
  }

  /** `if true then 1 else 2` evaluates to 1 in one step. */
  lemma EvaluateConditional(fo: FloatOps)
    ensures Run(StepWith(fo), EIf(EBool(true), IntLit(1), IntLit(2)), [], 1) == Done(IntLit(1), [])
  {
    IfReducesGuardOnly(EBool(true), IntLit(1), IntLit(2), [], fo);
    RunStep(fo, EIf(EBool(true), IntLit(1), IntLit(2)), [], 0, Config(IntLit(1), []));
  }

  /** `let x: Int = 3 in x + 4` evaluates to 7. */
  lemma EvaluateLet(fo: FloatOps)
    ensures Run(StepWith(fo), ELet("x", TInt, IntLit(3), EOperator(Plus, EVar("x"), IntLit(4))), [], 2)
         == Done(IntLit(7), [])
  {
    var body := EOperator(Plus, EVar("x"), IntLit(4));
    var e1 := EOperator(Plus, IntLit(3), IntLit(4));
    assert Substitution.Substitute(body, "x", IntLit(3)) == e1;
    LetSubstitutes("x", TInt, IntLit(3), body, [], fo);
    RunStep(fo, ELet("x", TInt, IntLit(3), body), [], 1, Config(e1, []));
    assert Step(e1, [], fo) == Some(Config(IntLit(7), []));
    RunStep(fo, e1, [], 0, Config(IntLit(7), []));
  }

  /** `1 / 0` evaluates to the integer NaN marker rather than failing. */
  lemma EvaluateDivisionByZero(fo: FloatOps)
    ensures Run(StepWith(fo), EOperator(Divide, IntLit(1), IntLit(0)), [], 1) == Done(NaNLit(true), [])
  {
    IntDivisionByZero(Divide, 1, [], fo);
    RunStep(fo, EOperator(Divide, IntLit(1), IntLit(0)), [], 0, Config(NaNLit(true), []));
  }

  /** Adding a pair to an integer is rejected: Int was expected of the pair,
      which has type Pair(Int, Int). */
  lemma CheckOperandMismatch()
    ensures Typecheck(EOperator(Plus, IntLit(1), EPair(IntLit(1), IntLit(2))), map[]) ==
      Err(TypeError(EPair(IntLit(1), IntLit(2)), Exactly(Plain(TInt)), Some(Plain(TPair(TInt, TInt)))))
  {
    PairChecks();
    var e := EOperator(Plus, IntLit(1), EPair(IntLit(1), IntLit(2)));
    var rs := CheckChildren(e, map[]);
    assert rs == [Ok(Plain(TInt)), Ok(Plain(TPair(TInt, TInt)))];
    assert FirstError(rs) == 2;
  }

  /** `(1, 2)` checks as Pair(Int, Int). */
  lemma PairChecks()
    ensures Typecheck(EPair(IntLit(1), IntLit(2)), map[]) == Ok(Plain(TPair(TInt, TInt)))
  {
    var rs := CheckChildren(EPair(IntLit(1), IntLit(2)), map[]);
    assert rs == [Ok(Plain(TInt)), Ok(Plain(TInt))];
    assert FirstError(rs) == 2;
  }

  /** A step of the first part of a sequence is a step of the sequence. */
  lemma SeqStepsFirst(fo: FloatOps, a: Exp, b: Exp, s: Store, c: Config)
    requires !IsValue(a) && Step(a, s, fo) == Some(c)
    ensures Step(ESeq(a, b), s, fo) == Some(Config(ESeq(c.e, b), c.store))
  {
    FirstOperandFirst(ESeq(a, b), s, fo);
  }

  /** `e` in store `s` is `k` steps ahead of `e'` in store `s'`: given `k`
      more fuel, a run from the first ends exactly as a run from the second. */
  ghost predicate Leads(fo: FloatOps, e: Exp, s: Store, e': Exp, s': Store, k: nat) {
    forall fuel: nat :: Run(StepWith(fo), e, s, fuel + k) == Run(StepWith(fo), e', s', fuel)
  }

  /** A step is one step ahead. */
  lemma StepLeads(fo: FloatOps, e: Exp, s: Store, c: Config)
    requires !IsValue(e) && Step(e, s, fo) == Some(c)
    ensures Leads(fo, e, s, c.e, c.store, 1)
  {
    forall fuel: nat
      ensures Run(StepWith(fo), e, s, fuel + 1) == Run(StepWith(fo), c.e, c.store, fuel)
    {
      RunStep(fo, e, s, fuel, c);
    }
  }

  /** A step of the first part of a sequence is a step of the sequence. */
  lemma FirstLeads(fo: FloatOps, a: Exp, b: Exp, s: Store, c: Config)
    requires !IsValue(a) && Step(a, s, fo) == Some(c)
    ensures Leads(fo, ESeq(a, b), s, ESeq(c.e, b), c.store, 1)
  {
    SeqStepsFirst(fo, a, b, s, c);
    StepLeads(fo, ESeq(a, b), s, Config(ESeq(c.e, b), c.store));
  }

  /** Being ahead adds up. */
  lemma LeadsTrans(fo: FloatOps, e1: Exp, s1: Store, e2: Exp, s2: Store, e3: Exp, s3: Store, j: nat, k: nat)
    requires Leads(fo, e1, s1, e2, s2, j) && Leads(fo, e2, s2, e3, s3, k)
    ensures Leads(fo, e1, s1, e3, s3, j + k)
  {
    forall fuel: nat
      ensures Run(StepWith(fo), e1, s1, fuel + (j + k)) == Run(StepWith(fo), e3, s3, fuel)
    {
      assert Run(StepWith(fo), e1, s1, (fuel + k) + j) == Run(StepWith(fo), e2, s2, fuel + k);
    }
  }

  /** The one cell the reference programs below allocate. */
  const Cell := EPtr(0)

  /** `!p + 1`. */
  function Incremented(p: Exp): Exp {
    EOperator(Plus, EDeref(p), IntLit(1))
  }

  /** `p := !p + 1`. */
  function Increment(p: Exp): Exp {
    EAssign(p, Incremented(p))
  }

  /** Substitution into the nodes the programs below are built from rebuilds
      the node around its substituted children: a dereference... */
  lemma SubstituteUnary(a: Exp, x: string, r: Exp)
    ensures Substitution.Substitute(EDeref(a), x, r) == EDeref(Substitution.Substitute(a, x, r))
  {
    var cs := Substitution.SubstituteAll(Children(EDeref(a)), EDeref(a), x, r);
    assert Children(EDeref(a)) == [a];
    assert cs[0] == Substitution.Substitute(a, x, r);
  }

  /** ...an addition... */
  lemma SubstitutePlus(a: Exp, b: Exp, x: string, r: Exp)
    ensures Substitution.Substitute(EOperator(Plus, a, b), x, r) ==
            EOperator(Plus, Substitution.Substitute(a, x, r), Substitution.Substitute(b, x, r))
  {
    var e := EOperator(Plus, a, b);
    var cs := Substitution.SubstituteAll(Children(e), e, x, r);
    assert Children(e) == [a, b];
    assert cs[0] == Substitution.Substitute(a, x, r) && cs[1] == Substitution.Substitute(b, x, r);
  }

  /** ...a comparison... */
  lemma SubstituteLess(a: Exp, b: Exp, x: string, r: Exp)
    ensures Substitution.Substitute(EComp(Less, a, b), x, r) ==
            EComp(Less, Substitution.Substitute(a, x, r), Substitution.Substitute(b, x, r))
  {
    var e := EComp(Less, a, b);
    var cs := Substitution.SubstituteAll(Children(e), e, x, r);
    assert Children(e) == [a, b];
    assert cs[0] == Substitution.Substitute(a, x, r) && cs[1] == Substitution.Substitute(b, x, r);
  }

  /** ...an assignment... */
  lemma SubstituteAssign(a: Exp, b: Exp, x: string, r: Exp)
    ensures Substitution.Substitute(EAssign(a, b), x, r) ==
            EAssign(Substitution.Substitute(a, x, r), Substitution.Substitute(b, x, r))
  {
    var e := EAssign(a, b);
    var cs := Substitution.SubstituteAll(Children(e), e, x, r);
    assert Children(e) == [a, b];
    assert cs[0] == Substitution.Substitute(a, x, r) && cs[1] == Substitution.Substitute(b, x, r);
  }

  /** ...a sequence... */
  lemma SubstituteSeq(a: Exp, b: Exp, x: string, r: Exp)
    ensures Substitution.Substitute(ESeq(a, b), x, r) ==
            ESeq(Substitution.Substitute(a, x, r), Substitution.Substitute(b, x, r))
  {
    var e := ESeq(a, b);
    var cs := Substitution.SubstituteAll(Children(e), e, x, r);
    assert Children(e) == [a, b];
    assert cs[0] == Substitution.Substitute(a, x, r) && cs[1] == Substitution.Substitute(b, x, r);
  }

  /** ...and a loop, in its guard, its body and its template alike. */
  lemma SubstituteWhile(a: Exp, b: Exp, c: Exp, x: string, r: Exp)
    ensures Substitution.Substitute(EWhile(a, b, c), x, r) ==
            EWhile(Substitution.Substitute(a, x, r), Substitution.Substitute(b, x, r), Substitution.Substitute(c, x, r))
  {
    var w := EWhile(a, b, c);
    var cs := Substitution.SubstituteAll(Children(w), w, x, r);
    assert Children(w) == [a, b, c];
    assert cs[0] == Substitution.Substitute(a, x, r) && cs[1] == Substitution.Substitute(b, x, r);
    assert cs[2] == Substitution.Substitute(c, x, r);
  }

  /** Substituting the cell for the name in `!x`... */
  lemma SubstituteDeref(x: string)
    ensures Substitution.Substitute(EDeref(EVar(x)), x, Cell) == EDeref(Cell)
  {
    SubstituteUnary(EVar(x), x, Cell);
  }

  /** ...in `!x + 1`... */
  lemma SubstituteIncremented(x: string)
    ensures Substitution.Substitute(Incremented(EVar(x)), x, Cell) == Incremented(Cell)
  {
    SubstituteDeref(x);
    SubstitutePlus(EDeref(EVar(x)), IntLit(1), x, Cell);
  }

  /** ...and in the increment `x := !x + 1`. */
  lemma SubstituteIncrement(x: string)
    ensures Substitution.Substitute(Increment(EVar(x)), x, Cell) == Increment(Cell)
  {
    SubstituteIncremented(x);
    SubstituteAssign(EVar(x), Incremented(EVar(x)), x, Cell);
  }

  /** The increment reads the cell first... */
  lemma IncrementReads(fo: FloatOps)
    ensures Step(Increment(Cell), [IntLit(0)], fo) == Some(Config(Adding, [IntLit(0)]))
  {
    DerefReads(0, [IntLit(0)], fo);
    FirstOperandFirst(Incremented(Cell), [IntLit(0)], fo);
    SecondOperandNext(Increment(Cell), [IntLit(0)], fo);
  }

  /** ...then adds one... */
  lemma IncrementAdds(fo: FloatOps)
    ensures Step(Adding, [IntLit(0)], fo) == Some(Config(Writing, [IntLit(0)]))
  {
    OperatorOnLiterals(Plus, IntLit(0), IntLit(1), [IntLit(0)], fo);
    assert ArithLit(Plus, IntLit(0), IntLit(1), fo) == IntLit(1);
    SecondOperandNext(Adding, [IntLit(0)], fo);
  }

  /** ...then writes the sum back. */
  lemma IncrementWrites(fo: FloatOps)
    ensures Step(Writing, [IntLit(0)], fo) == Some(Config(EUnit, [IntLit(1)]))
  {
    AssignWrites(0, IntLit(1), [IntLit(0)], fo);
    assert [IntLit(0)][0 := IntLit(1)] == [IntLit(1)];
  }

  /** A sequence ending in `!p`, whose first part is done, reads the cell. */
  lemma ReadsBack(fo: FloatOps)
    ensures Run(StepWith(fo), ESeq(EUnit, EDeref(Cell)), [IntLit(1)], 2) == Done(IntLit(1), [IntLit(1)])
  {
    SeqDropsValue(EUnit, EDeref(Cell), [IntLit(1)], fo);
    RunStep(fo, ESeq(EUnit, EDeref(Cell)), [IntLit(1)], 1, Config(EDeref(Cell), [IntLit(1)]));
    DerefReads(0, [IntLit(1)], fo);
    RunStep(fo, EDeref(Cell), [IntLit(1)], 0, Config(IntLit(1), [IntLit(1)]));
  }

  /** A `let` whose bound expression is `ref 0` first allocates the cell... */
  lemma LetAllocates(fo: FloatOps, x: string, body: Exp)
    ensures Leads(fo, ELet(x, TRef(TInt), ERef(IntLit(0)), body), [], ELet(x, TRef(TInt), Cell, body), [IntLit(0)], 1)
  {
    var e := ELet(x, TRef(TInt), ERef(IntLit(0)), body);
    RefAllocates(IntLit(0), [], fo);
    FirstOperandFirst(e, [], fo);
    StepLeads(fo, e, [], Config(ELet(x, TRef(TInt), Cell, body), [IntLit(0)]));
  }

  /** ...then steps to its body with the cell substituted. */
  lemma LetBindsCell(fo: FloatOps, x: string, body: Exp, body': Exp)
    requires Substitution.Substitute(body, x, Cell) == body'
    ensures Leads(fo, ELet(x, TRef(TInt), Cell, body), [IntLit(0)], body', [IntLit(0)], 1)
  {
    LetSubstitutes(x, TRef(TInt), Cell, body, [IntLit(0)], fo);
    StepLeads(fo, ELet(x, TRef(TInt), Cell, body), [IntLit(0)], Config(body', [IntLit(0)]));
  }

  /** A `let` that allocates the cell holding 0 for `x` reaches its body, with
      the cell substituted, in two steps. */
  lemma AllocateAndBind(fo: FloatOps, x: string, body: Exp, body': Exp)
    requires Substitution.Substitute(body, x, Cell) == body'
    ensures Leads(fo, ELet(x, TRef(TInt), ERef(IntLit(0)), body), [], body', [IntLit(0)], 2)
  {
    LetAllocates(fo, x, body);
    LetBindsCell(fo, x, body, body');
    LeadsTrans(fo, ELet(x, TRef(TInt), ERef(IntLit(0)), body), [], ELet(x, TRef(TInt), Cell, body), [IntLit(0)],
               body', [IntLit(0)], 1, 1);
  }

  /** `0 + 1` about to be written to the cell. */
  const Adding := EAssign(Cell, EOperator(Plus, IntLit(0), IntLit(1)))

  /** `1` about to be written to the cell. */
  const Writing := EAssign(Cell, IntLit(1))

  /** `let p: Ref Int = ref 0 in (p := !p + 1; !p)`. */
  const Counter := ELet("p", TRef(TInt), ERef(IntLit(0)), ESeq(Increment(EVar("p")), EDeref(EVar("p"))))

  /** The increment in `Counter`, inside its sequence: read... */
  lemma CounterReads(fo: FloatOps)
    ensures Leads(fo, ESeq(Increment(Cell), EDeref(Cell)), [IntLit(0)], ESeq(Adding, EDeref(Cell)), [IntLit(0)], 1)
  {
    IncrementReads(fo);
    FirstLeads(fo, Increment(Cell), EDeref(Cell), [IntLit(0)], Config(Adding, [IntLit(0)]));
  }

  /** ...add... */
  lemma CounterAdds(fo: FloatOps)
    ensures Leads(fo, ESeq(Adding, EDeref(Cell)), [IntLit(0)], ESeq(Writing, EDeref(Cell)), [IntLit(0)], 1)
  {
    IncrementAdds(fo);
    FirstLeads(fo, Adding, EDeref(Cell), [IntLit(0)], Config(Writing, [IntLit(0)]));
  }

  /** ...write. */
  lemma CounterWrites(fo: FloatOps)
    ensures Leads(fo, ESeq(Writing, EDeref(Cell)), [IntLit(0)], ESeq(EUnit, EDeref(Cell)), [IntLit(1)], 1)
  {
    IncrementWrites(fo);
    FirstLeads(fo, Writing, EDeref(Cell), [IntLit(0)], Config(EUnit, [IntLit(1)]));
  }

  /** Binding the name to the cell in the body of `Counter`. */
  lemma SubstituteCounterBody(x: string)
    ensures Substitution.Substitute(ESeq(Increment(EVar(x)), EDeref(EVar(x))), x, Cell) ==
            ESeq(Increment(Cell), EDeref(Cell))
  {
    SubstituteIncrement(x);
    SubstituteDeref(x);
    SubstituteSeq(Increment(EVar(x)), EDeref(EVar(x)), x, Cell);
  }

  /** `Counter` allocates its cell and binds `p` to it. */
  lemma CounterAllocates(fo: FloatOps)
    ensures Leads(fo, Counter, [], ESeq(Increment(Cell), EDeref(Cell)), [IntLit(0)], 2)
  {
    SubstituteCounterBody("p");
    AllocateAndBind(fo, "p", ESeq(Increment(EVar("p")), EDeref(EVar("p"))), ESeq(Increment(Cell), EDeref(Cell)));
  }

  /** The increment in `Counter` takes three steps and changes the cell from 0
      to 1. */
  lemma CounterIncrements(fo: FloatOps)
    ensures Leads(fo, ESeq(Increment(Cell), EDeref(Cell)), [IntLit(0)], ESeq(EUnit, EDeref(Cell)), [IntLit(1)], 3)
  {
    CounterReads(fo);
    CounterAdds(fo);
    CounterWrites(fo);
    LeadsTrans(fo, ESeq(Increment(Cell), EDeref(Cell)), [IntLit(0)], ESeq(Adding, EDeref(Cell)), [IntLit(0)],
               ESeq(Writing, EDeref(Cell)), [IntLit(0)], 1, 1);
    LeadsTrans(fo, ESeq(Increment(Cell), EDeref(Cell)), [IntLit(0)], ESeq(Writing, EDeref(Cell)), [IntLit(0)],
               ESeq(EUnit, EDeref(Cell)), [IntLit(1)], 2, 1);
  }

  /** `let p: Ref Int = ref 0 in (p := !p + 1; !p)` allocates one cell, reads
      it inside the assignment, writes the sum back and reads the new contents:
      the result is 1 and the store is the one cell holding 1. */
  lemma EvaluateCounter(fo: FloatOps)
    ensures Run(StepWith(fo), Counter, [], 7) == Done(IntLit(1), [IntLit(1)])
  {
    CounterAllocates(fo);
    CounterIncrements(fo);
    LeadsTrans(fo, Counter, [], ESeq(Increment(Cell), EDeref(Cell)), [IntLit(0)],
               ESeq(EUnit, EDeref(Cell)), [IntLit(1)], 2, 3);
    ReadsBack(fo);
    assert Run(StepWith(fo), Counter, [], 2 + 5) == Run(StepWith(fo), ESeq(EUnit, EDeref(Cell)), [IntLit(1)], 2);
  }

  /** `!p < 1`. */
  function Guard(p: Exp): Exp {
    EComp(Less, EDeref(p), IntLit(1))
  }

  /** `while !p < 1 do p := !p + 1`, with the increment as both its current
      body and its template. */
  function Loop(p: Exp): Exp {
    EWhile(Guard(p), Increment(p), Increment(p))
  }

  /** One unrolled round of `Loop(p)`. */
  function Round(p: Exp): Exp {
    EIf(Guard(p), ESeq(Increment(p), Loop(p)), EUnit)
  }

  /** The loop over the cell followed by reading the cell. */
  const LoopThenRead := ESeq(Loop(Cell), EDeref(Cell))

  /** `let r: Ref Int = ref 0 in (while !r < 1 do r := !r + 1; !r)`. */
  const CounterLoop := ELet("r", TRef(TInt), ERef(IntLit(0)), ESeq(Loop(EVar("r")), EDeref(EVar("r"))))

  /** Substituting the cell for the name in the guard `!x < 1`... */
  lemma SubstituteGuard(x: string)
    ensures Substitution.Substitute(Guard(EVar(x)), x, Cell) == Guard(Cell)
  {
    SubstituteDeref(x);
    SubstituteLess(EDeref(EVar(x)), IntLit(1), x, Cell);
  }

  /** ...and in the whole loop, template included. */
  lemma SubstituteLoop(x: string)
    ensures Substitution.Substitute(Loop(EVar(x)), x, Cell) == Loop(Cell)
  {
    SubstituteGuard(x);
    SubstituteIncrement(x);
    SubstituteWhile(Guard(EVar(x)), Increment(EVar(x)), Increment(EVar(x)), x, Cell);
  }

  /** The loop unrolls into a round... */
  lemma LoopUnrolls(fo: FloatOps, s: Store)
    ensures Leads(fo, LoopThenRead, s, ESeq(Round(Cell), EDeref(Cell)), s, 1)
  {
    WhileUnrollsTemplate(Guard(Cell), Increment(Cell), Increment(Cell), s, fo);
    FirstLeads(fo, Loop(Cell), EDeref(Cell), s, Config(Round(Cell), s));
  }

  /** ...whose guard reads the cell, which holds `n`... */
  lemma RoundReadsGuard(fo: FloatOps, n: Int32, s: Store)
    requires s == [IntLit(n)]
    ensures Leads(fo, ESeq(Round(Cell), EDeref(Cell)), s,
                  ESeq(EIf(EComp(Less, IntLit(n), IntLit(1)), ESeq(Increment(Cell), Loop(Cell)), EUnit), EDeref(Cell)), s, 1)
  {
    var body := ESeq(Increment(Cell), Loop(Cell));
    DerefReads(0, s, fo);
    FirstOperandFirst(Guard(Cell), s, fo);
    IfReducesGuardOnly(Guard(Cell), body, EUnit, s, fo);
    FirstLeads(fo, Round(Cell), EDeref(Cell), s, Config(EIf(EComp(Less, IntLit(n), IntLit(1)), body, EUnit), s));
  }

  /** ...and compares it with 1, which gives `b`. */
  lemma RoundCompares(fo: FloatOps, n: Int32, b: bool, s: Store)
    requires b == (n < 1)
    ensures Leads(fo, ESeq(EIf(EComp(Less, IntLit(n), IntLit(1)), ESeq(Increment(Cell), Loop(Cell)), EUnit), EDeref(Cell)), s,
                  ESeq(EIf(EBool(b), ESeq(Increment(Cell), Loop(Cell)), EUnit), EDeref(Cell)), s, 1)
  {
    var body := ESeq(Increment(Cell), Loop(Cell));
    ComparisonOnLiterals(Less, IntLit(n), IntLit(1), s, fo);
    IfReducesGuardOnly(EComp(Less, IntLit(n), IntLit(1)), body, EUnit, s, fo);
    FirstLeads(fo, EIf(EComp(Less, IntLit(n), IntLit(1)), body, EUnit), EDeref(Cell), s,
               Config(EIf(EBool(b), body, EUnit), s));
  }

  /** With the cell holding `n`, a round evaluates the guard to `b`, which is
      `n < 1`. */
  lemma RoundTestsGuard(fo: FloatOps, n: Int32, b: bool, s: Store)
    requires s == [IntLit(n)] && b == (n < 1)
    ensures Leads(fo, LoopThenRead, s, ESeq(EIf(EBool(b), ESeq(Increment(Cell), Loop(Cell)), EUnit), EDeref(Cell)), s, 3)
  {
    var body := ESeq(Increment(Cell), Loop(Cell));
    var tested := ESeq(EIf(EComp(Less, IntLit(n), IntLit(1)), body, EUnit), EDeref(Cell));
    LoopUnrolls(fo, s);
    RoundReadsGuard(fo, n, s);
    RoundCompares(fo, n, b, s);
    LeadsTrans(fo, LoopThenRead, s, ESeq(Round(Cell), EDeref(Cell)), s, tested, s, 1, 1);
    LeadsTrans(fo, LoopThenRead, s, tested, s, ESeq(EIf(EBool(b), body, EUnit), EDeref(Cell)), s, 2, 1);
  }

  /** The round's body taken: the guard was true. */
  lemma RoundTakesBody(fo: FloatOps, b: bool, s: Store)
    requires b
    ensures Leads(fo, ESeq(EIf(EBool(b), ESeq(Increment(Cell), Loop(Cell)), EUnit), EDeref(Cell)), s,
                  ESeq(ESeq(Increment(Cell), Loop(Cell)), EDeref(Cell)), s, 1)
  {
    var body := ESeq(Increment(Cell), Loop(Cell));
    IfReducesGuardOnly(EBool(b), body, EUnit, s, fo);
    FirstLeads(fo, EIf(EBool(b), body, EUnit), EDeref(Cell), s, Config(body, s));
  }

  /** The round's body skipped: the guard was false. */
  lemma RoundSkipsBody(fo: FloatOps, b: bool, s: Store)
    requires !b
    ensures Leads(fo, ESeq(EIf(EBool(b), ESeq(Increment(Cell), Loop(Cell)), EUnit), EDeref(Cell)), s,
                  ESeq(EUnit, EDeref(Cell)), s, 1)
  {
    var body := ESeq(Increment(Cell), Loop(Cell));
    IfReducesGuardOnly(EBool(b), body, EUnit, s, fo);
    FirstLeads(fo, EIf(EBool(b), body, EUnit), EDeref(Cell), s, Config(EUnit, s));
  }

  /** With the cell holding `n`, a round goes on with its body when `n < 1`
      and finishes the loop otherwise. */
  lemma RoundDecides(fo: FloatOps, n: Int32, b: bool, s: Store)
    requires s == [IntLit(n)] && b == (n < 1)
    ensures Leads(fo, LoopThenRead, s,
                  if b then ESeq(ESeq(Increment(Cell), Loop(Cell)), EDeref(Cell)) else ESeq(EUnit, EDeref(Cell)), s, 4)
  {
    var tested := ESeq(EIf(EBool(b), ESeq(Increment(Cell), Loop(Cell)), EUnit), EDeref(Cell));
    RoundTestsGuard(fo, n, b, s);
    if b {
      RoundTakesBody(fo, b, s);
      LeadsTrans(fo, LoopThenRead, s, tested, s, ESeq(ESeq(Increment(Cell), Loop(Cell)), EDeref(Cell)), s, 3, 1);
    } else {
      RoundSkipsBody(fo, b, s);
      LeadsTrans(fo, LoopThenRead, s, tested, s, ESeq(EUnit, EDeref(Cell)), s, 3, 1);
    }
  }

  /** The increment inside a round, in its two sequences: read... */
  lemma RoundReads(fo: FloatOps)
    ensures Leads(fo, ESeq(ESeq(Increment(Cell), Loop(Cell)), EDeref(Cell)), [IntLit(0)],
                  ESeq(ESeq(Adding, Loop(Cell)), EDeref(Cell)), [IntLit(0)], 1)
  {
    IncrementReads(fo);
    SeqStepsFirst(fo, Increment(Cell), Loop(Cell), [IntLit(0)], Config(Adding, [IntLit(0)]));
    FirstLeads(fo, ESeq(Increment(Cell), Loop(Cell)), EDeref(Cell), [IntLit(0)],
               Config(ESeq(Adding, Loop(Cell)), [IntLit(0)]));
  }

  /** ...add... */
  lemma RoundAdds(fo: FloatOps)
    ensures Leads(fo, ESeq(ESeq(Adding, Loop(Cell)), EDeref(Cell)), [IntLit(0)],
                  ESeq(ESeq(Writing, Loop(Cell)), EDeref(Cell)), [IntLit(0)], 1)
  {
    IncrementAdds(fo);
    SeqStepsFirst(fo, Adding, Loop(Cell), [IntLit(0)], Config(Writing, [IntLit(0)]));
    FirstLeads(fo, ESeq(Adding, Loop(Cell)), EDeref(Cell), [IntLit(0)], Config(ESeq(Writing, Loop(Cell)), [IntLit(0)]));
  }

  /** ...write... */
  lemma RoundWrites(fo: FloatOps)
    ensures Leads(fo, ESeq(ESeq(Writing, Loop(Cell)), EDeref(Cell)), [IntLit(0)],
                  ESeq(ESeq(EUnit, Loop(Cell)), EDeref(Cell)), [IntLit(1)], 1)
  {
    IncrementWrites(fo);
    SeqStepsFirst(fo, Writing, Loop(Cell), [IntLit(0)], Config(EUnit, [IntLit(1)]));
    FirstLeads(fo, ESeq(Writing, Loop(Cell)), EDeref(Cell), [IntLit(0)], Config(ESeq(EUnit, Loop(Cell)), [IntLit(1)]));
  }

  /** ...and the loop is back exactly as it was, over the untouched template. */
  lemma RoundRestarts(fo: FloatOps)
    ensures Leads(fo, ESeq(ESeq(EUnit, Loop(Cell)), EDeref(Cell)), [IntLit(1)], LoopThenRead, [IntLit(1)], 1)
  {
    SeqDropsValue(EUnit, Loop(Cell), [IntLit(1)], fo);
    FirstLeads(fo, ESeq(EUnit, Loop(Cell)), EDeref(Cell), [IntLit(1)], Config(Loop(Cell), [IntLit(1)]));
  }

  /** The increment inside a round takes three steps and changes the cell
      from 0 to 1. */
  lemma RoundIncrements(fo: FloatOps)
    ensures Leads(fo, ESeq(ESeq(Increment(Cell), Loop(Cell)), EDeref(Cell)), [IntLit(0)],
                  ESeq(ESeq(EUnit, Loop(Cell)), EDeref(Cell)), [IntLit(1)], 3)
  {
    var start := ESeq(ESeq(Increment(Cell), Loop(Cell)), EDeref(Cell));
    RoundReads(fo);
    RoundAdds(fo);
    RoundWrites(fo);
    LeadsTrans(fo, start, [IntLit(0)], ESeq(ESeq(Adding, Loop(Cell)), EDeref(Cell)), [IntLit(0)],
               ESeq(ESeq(Writing, Loop(Cell)), EDeref(Cell)), [IntLit(0)], 1, 1);
    LeadsTrans(fo, start, [IntLit(0)], ESeq(ESeq(Writing, Loop(Cell)), EDeref(Cell)), [IntLit(0)],
               ESeq(ESeq(EUnit, Loop(Cell)), EDeref(Cell)), [IntLit(1)], 2, 1);
  }

  /** One round with the guard true changes the cell exactly once and comes
      back to the very same loop: the next round starts from the template,
      whatever the previous round made of its body. */
  lemma LoopRound(fo: FloatOps)
    ensures Leads(fo, LoopThenRead, [IntLit(0)], LoopThenRead, [IntLit(1)], 8)
  {
    var entered := ESeq(ESeq(Increment(Cell), Loop(Cell)), EDeref(Cell));
    var done := ESeq(ESeq(EUnit, Loop(Cell)), EDeref(Cell));
    RoundDecides(fo, 0, true, [IntLit(0)]);
    RoundIncrements(fo);
    RoundRestarts(fo);
    LeadsTrans(fo, LoopThenRead, [IntLit(0)], entered, [IntLit(0)], done, [IntLit(1)], 4, 3);
    LeadsTrans(fo, LoopThenRead, [IntLit(0)], done, [IntLit(1)], LoopThenRead, [IntLit(1)], 7, 1);
  }

  /** With the guard false, the loop finishes with unit and the cell is read. */
  lemma LoopExits(fo: FloatOps)
    ensures Run(StepWith(fo), LoopThenRead, [IntLit(1)], 6) == Done(IntLit(1), [IntLit(1)])
  {
    RoundDecides(fo, 1, false, [IntLit(1)]);
    ReadsBack(fo);
    assert Run(StepWith(fo), LoopThenRead, [IntLit(1)], 2 + 4) ==
           Run(StepWith(fo), ESeq(EUnit, EDeref(Cell)), [IntLit(1)], 2);
  }

  /** Binding the name to the cell in the body of `CounterLoop`. */
  lemma SubstituteLoopBody(x: string)
    ensures Substitution.Substitute(ESeq(Loop(EVar(x)), EDeref(EVar(x))), x, Cell) == LoopThenRead
  {
    SubstituteLoop(x);
    SubstituteDeref(x);
    SubstituteSeq(Loop(EVar(x)), EDeref(EVar(x)), x, Cell);
  }

  /** `CounterLoop` allocates its cell and binds `r` to it. */
  lemma CounterLoopAllocates(fo: FloatOps)
    ensures Leads(fo, CounterLoop, [], LoopThenRead, [IntLit(0)], 2)
  {
    SubstituteLoopBody("r");
    AllocateAndBind(fo, "r", ESeq(Loop(EVar("r")), EDeref(EVar("r"))), LoopThenRead);
  }

  /** `let r: Ref Int = ref 0 in (while !r < 1 do r := !r + 1; !r)`: the guard
      holds once, so the body runs once and the cell ends holding 1. */
  lemma EvaluateCounterLoop(fo: FloatOps)
    ensures Run(StepWith(fo), CounterLoop, [], 16) == Done(IntLit(1), [IntLit(1)])
  {
    CounterLoopAllocates(fo);
    LoopRound(fo);
    LeadsTrans(fo, CounterLoop, [], LoopThenRead, [IntLit(0)], LoopThenRead, [IntLit(1)], 2, 8);
    LoopExits(fo);
    assert Run(StepWith(fo), CounterLoop, [], 6 + 10) == Run(StepWith(fo), LoopThenRead, [IntLit(1)], 6);
  }

  /** `while false do ()` unrolls once and finishes with unit. */
  lemma EvaluateFalseLoop(fo: FloatOps)
    ensures Run(StepWith(fo), EWhile(EBool(false), EUnit, EUnit), [], 2) == Done(EUnit, [])
  {
    var e1 := EIf(EBool(false), ESeq(EUnit, EWhile(EBool(false), EUnit, EUnit)), EUnit);
    WhileUnrollsTemplate(EBool(false), EUnit, EUnit, [], fo);
    RunStep(fo, EWhile(EBool(false), EUnit, EUnit), [], 1, Config(e1, []));
    IfReducesGuardOnly(EBool(false), ESeq(EUnit, EWhile(EBool(false), EUnit, EUnit)), EUnit, [], fo);
    RunStep(fo, e1, [], 0, Config(EUnit, []));
  }

  /** The context is passed by value: the binding a `let` makes for its body
      is gone for the next component of the pair, where `x` is unbound. */
  lemma ScopesDoNotLeak()
    ensures Typecheck(EPair(ELet("x", TInt, IntLit(1), EVar("x")), EVar("x")), map[]) ==
      Err(TypeError(EVar("x"), Bound, None))
  {
    LetBodySeesBinding();
    var e := EPair(ELet("x", TInt, IntLit(1), EVar("x")), EVar("x"));
    var rs := CheckChildren(e, map[]);
    assert rs[0].Ok? && rs[1] == Err(TypeError(EVar("x"), Bound, None));
    assert FirstError(rs) == 1;
  }

  /** Inside its body, the `let` binding is visible. */
  lemma LetBodySeesBinding()
    ensures Typecheck(ELet("x", TInt, IntLit(1), EVar("x")), map[]) == Ok(Plain(TInt))
  {
    var e := ELet("x", TInt, IntLit(1), EVar("x"));
    var rs := CheckChildren(e, map[]);
    assert rs[0] == Ok(Plain(TInt)) && rs[1] == Ok(Plain(TInt));
    assert FirstError(rs) == 2;
  }
}
