/**
 One reduction step (`Exp::step()`), a design model.

 The header fixes only that `step` returns a new tree and that the reference
 store is reached through `EPtr` addresses. The rules below are the language's
 design: call by value, left to right; a conditional reduces only its guard; a
 `let` substitutes its value into its body; a while loop unrolls into a
 conditional that reinstalls the untouched template for the next round;
 arithmetic propagates the NaN marker and turns division by zero into it;
 references append a cell to the store, dereference reads one, assignment
 overwrites one.

 The store, process-wide in the program, is threaded here explicitly: a step
 takes the store and returns the new one. The double arithmetic is a
 parameter (`FloatOps`), since the model keeps doubles opaque.
 */
module Semantics {
  import opened Wrappers
  import opened Syntax
  import opened Shape
  import opened Substitution
  import opened FieldOrder
  import opened MachineInt

  /** The reference store: cell `n` holds the value `EPtr(n)` points to. */
  type Store = seq<Exp>

  /** An expression together with the store it runs against. */
  datatype Config = Config(e: Exp, store: Store)

  /** The double operations the evaluator needs: the int-to-double conversion,
      the arithmetic operators, the comparisons and the test for zero. */
  datatype FloatOps = FloatOps(
    ofInt: Int32 -> Float,
    arith: (ArithOp, Float, Float) -> Float,
    compare: (CompOp, Float, Float) -> bool,
    isZero: Float -> bool)

  /** `op` on two 32-bit integers. Division and remainder by zero give the
      integer NaN marker instead of failing. */
  function IntArith(op: ArithOp, x: Int32, y: Int32): (r: Exp)
    ensures r.ELit? && r.isInt
    ensures r.isNaN <==> (op == Divide || op == Modulo) && y == 0
    ensures op == Plus ==> r == IntLit(Wrap(x as int + y as int))
    ensures op == Minus ==> r == IntLit(Wrap(x as int - y as int))
    ensures op == Times ==> r == IntLit(Wrap(x as int * y as int))
    ensures op == Divide && y != 0 ==> r == IntLit(Wrap(TruncDiv(x as int, y as int)))
    ensures op == Modulo && y != 0 ==> r == IntLit(Wrap(TruncMod(x as int, y as int)))
  {
    match op
    case Plus => IntLit(Wrap(x as int + y as int))
    case Minus => IntLit(Wrap(x as int - y as int))
    case Times => IntLit(Wrap(x as int * y as int))
    case Divide => if y == 0 then NaNLit(true) else IntLit(Wrap(TruncDiv(x as int, y as int)))
    case Modulo => if y == 0 then NaNLit(true) else IntLit(Wrap(TruncMod(x as int, y as int)))
  }

  /** The one quotient that leaves the 32-bit range: `INT_MIN / -1` wraps back
      to `INT_MIN`, and `INT_MIN % -1` is 0. */
  lemma MinDivMinusOne()
    ensures IntArith(Divide, -0x8000_0000, -1) == IntLit(-0x8000_0000)
    ensures IntArith(Modulo, -0x8000_0000, -1) == IntLit(0)
  {
    assert TruncDiv(-0x8000_0000, -1) == 0x8000_0000;
    assert TruncMod(-0x8000_0000, -1) == 0;
  }

  /** A literal's value as a double: integers are converted. */
  function AsFloat(a: Exp, fo: FloatOps): Float
    requires a.ELit?
  {
    if a.isInt then fo.ofInt(a.intData) else a.floatData
  }

  /** `evaluate_num`: `a op b` on two literals. A NaN operand makes the result
      the NaN marker; two integers give an integer; otherwise the integer side
      is converted and the result is a double, the NaN marker when dividing by
      zero. */
  function ArithLit(op: ArithOp, a: Exp, b: Exp, fo: FloatOps): (r: Exp)
    requires a.ELit? && b.ELit?
    ensures r.ELit?
    ensures r.isInt <==> a.isInt && b.isInt
    ensures a.isNaN || b.isNaN ==> r.isNaN
    ensures !a.isNaN && !b.isNaN && a.isInt && b.isInt ==> r == IntArith(op, a.intData, b.intData)
    ensures !a.isNaN && !b.isNaN && !(a.isInt && b.isInt) ==>
      r == (if (op == Divide || op == Modulo) && fo.isZero(AsFloat(b, fo)) then NaNLit(false)
            else FloatLit(fo.arith(op, AsFloat(a, fo), AsFloat(b, fo))))
  {
    var isInt := a.isInt && b.isInt;
    if a.isNaN || b.isNaN then NaNLit(isInt)
    else if isInt then IntArith(op, a.intData, b.intData)
    else if (op == Divide || op == Modulo) && fo.isZero(AsFloat(b, fo)) then NaNLit(false)
    else FloatLit(fo.arith(op, AsFloat(a, fo), AsFloat(b, fo)))
  }

  /** `c` on two 32-bit integers. */
  function IntCompare(c: CompOp, x: Int32, y: Int32): bool {
    match c
    case Less => x < y
    case LessEq => x <= y
    case Greater => x > y
    case GreaterEq => x >= y
    case Equals => x == y
  }

  /** `evaluate_bool`: `a c b` on two literals. Any comparison with the NaN
      marker is false; two integers compare as integers, anything else as
      doubles. */
  function CompareLit(c: CompOp, a: Exp, b: Exp, fo: FloatOps): (r: bool)
    requires a.ELit? && b.ELit?
    ensures a.isNaN || b.isNaN ==> !r
    ensures !a.isNaN && !b.isNaN && a.isInt && b.isInt ==> r == IntCompare(c, a.intData, b.intData)
  {
    if a.isNaN || b.isNaN then false
    else if a.isInt && b.isInt then IntCompare(c, a.intData, b.intData)
    else fo.compare(c, AsFloat(a, fo), AsFloat(b, fo))
  }

  /** How many leading subexpressions are reduced to values before the node's
      own rule applies: only the guard of a conditional, the bound expression
      of a `let` and the first part of a sequence; nothing of a loop or a
      definition; everything of the other nodes. */
  function Strict(e: Exp): (n: nat)
    ensures n <= |Children(e)|
    ensures e.EIf? || e.ELet? || e.ESeq? ==> n == 1
    ensures e.EWhile? || e.EDef? ==> n == 0
  {
    if e.EIf? || e.ELet? || e.ESeq? then 1
    else if e.EWhile? || e.EDef? then 0
    else |Children(e)|
  }

  /** The first of the first `n` subexpressions that is not a value, or `n`. */
  function FirstPending(cs: seq<Exp>, n: nat): (i: nat)
    requires n <= |cs|
    ensures i <= n
    ensures forall j :: 0 <= j < i ==> IsValue(cs[j])
    ensures i < n ==> !IsValue(cs[i])
  {
    if n == 0 then 0
    else
      var i := FirstPending(cs, n - 1);
      if i < n - 1 || !IsValue(cs[n - 1]) then i else n
  }

  /** The redex rules that neither read nor write the store, for a node whose
      strict subexpressions are values. None when no rule applies (the node is
      a value, or an operand has the wrong kind, or it is a call or a
      definition, whose function table is not part of this model). */
  function Contract(e: Exp, fo: FloatOps): Option<Exp> {
    match e
    case EOperator(op, a, b) => if a.ELit? && b.ELit? then Some(ArithLit(op, a, b, fo)) else None
    case EComp(c, a, b) => if a.ELit? && b.ELit? then Some(EBool(CompareLit(c, a, b, fo))) else None
    case EIf(g, a, b) => if g.EBool? then Some(if g.data then a else b) else None
    case ELet(x, _, v, body) => Some(Substitute(body, x, v))
    case EFst(p) => if p.EPair? then Some(p.e1) else None
    case ESnd(p) => if p.EPair? then Some(p.e2) else None
    case ECons(v, l) => if l.EList? then Some(EList([v] + l.elems, l.t)) else None
    case ECar(l) => if l.EList? && |l.elems| > 0 then Some(l.elems[0]) else None
    case ECdr(l) => if l.EList? && |l.elems| > 0 then Some(EList(l.elems[1..], l.t)) else None
    case EEmpty(l) => if l.EList? then Some(EBool(|l.elems| == 0)) else None
    case ESeq(_, b) => Some(b)
    case EWhile(g, b, t) => Some(EIf(g, ESeq(b, EWhile(g, t, t)), EUnit))
    case EDot(v, f) => if v.EStruct? && f in v.fields then Some(v.fields[f]) else None
    case _ => None
  }

  /** The node's own rule, once its strict subexpressions are values:
      allocation appends a cell and yields its address, dereference reads a
      live cell, assignment overwrites a live cell and yields unit, and every
      other rule leaves the store alone. */
  function Reduce(e: Exp, s: Store, fo: FloatOps): Option<Config> {
    if e.ERef? then Some(Config(EPtr(|s|), s + [e.e]))
    else if e.EDeref? then
      (if e.e.EPtr? && e.e.n < |s| then Some(Config(s[e.e.n], s)) else None)
    else if e.EAssign? then
      (if e.e1.EPtr? && e.e1.n < |s| then Some(Config(EUnit, s[e.e1.n := e.e2])) else None)
    else
      match Contract(e, fo)
      case None => None
      case Some(e') => Some(Config(e', s))
  }

  /** The fields of a struct literal that are not values yet. */
  function PendingFields(m: map<string, Exp>): (ks: set<string>)
    ensures forall k :: k in ks <==> k in m && !IsValue(m[k])
  {
    set k | k in m && !IsValue(m[k])
  }

  /** `step`: one reduction. A struct literal reduces its first pending field
      in name order; any other node reduces its first strict subexpression
      that is not a value, or, when there is none, applies its own rule. None
      when no rule applies. */
  function Step(e: Exp, s: Store, fo: FloatOps): Option<Config> {
    if e.EStruct? then
      var pending := PendingFields(e.fields);
      if pending == {} then None
      else
        var k := Least(pending);
        match Step(e.fields[k], s, fo)
        case None => None
        case Some(c) => Some(Config(EStruct(e.fields[k := c.e], e.fieldTypes), c.store))
    else
      var cs := Children(e);
      var i := FirstPending(cs, Strict(e));
      if i < Strict(e) then
        match Step(cs[i], s, fo)
        case None => None
        case Some(c) => Some(Config(WithChildren(e, cs[i := c.e]), c.store))
      else Reduce(e, s, fo)
  }

  /** The ways one step may change the store: not at all, by appending one
      cell, or by overwriting one existing cell. */
  predicate StoreEffect(s: Store, s': Store) {
    s' == s ||
    (|s'| == |s| + 1 && s'[..|s|] == s) ||
    (|s'| == |s| && exists n :: 0 <= n < |s| && s' == s[n := s'[n]])
  }

  /** A value is a normal form: no rule applies to it. */
  lemma ValuesDoNotStep(e: Exp, s: Store, fo: FloatOps)
    requires IsValue(e)
    ensures Step(e, s, fo) == None
  {
    if !e.EStruct? {
      var cs := Children(e);
      forall i | 0 <= i < |cs| ensures IsValue(cs[i]) {
      }
    }
  }

  /** A step changes the store only as `StoreEffect` allows, so the store never
      shrinks and every address handed out stays live. */
  lemma {:induction false} StepStoreEffect(e: Exp, s: Store, fo: FloatOps)
    requires Step(e, s, fo).Some?
    ensures StoreEffect(s, Step(e, s, fo).value.store)
    ensures |s| <= |Step(e, s, fo).value.store| <= |s| + 1
    decreases e, 1
  {
    if e.EStruct? {
      StoreEffectStruct(e, s, fo);
    } else {
      var cs := Children(e);
      var i := FirstPending(cs, Strict(e));
      if i < Strict(e) {
        StoreEffectInner(e, s, fo);
      } else {
        ReduceStoreEffect(e, s, fo);
      }
    }
  }

  lemma {:induction false} StoreEffectStruct(e: Exp, s: Store, fo: FloatOps)
    requires e.EStruct? && Step(e, s, fo).Some?
    ensures StoreEffect(s, Step(e, s, fo).value.store)
    ensures |s| <= |Step(e, s, fo).value.store| <= |s| + 1
    decreases e, 0
  {
    var k := Least(PendingFields(e.fields));
    StepStoreEffect(e.fields[k], s, fo);
  }

  lemma {:induction false} StoreEffectInner(e: Exp, s: Store, fo: FloatOps)
    requires !e.EStruct? && Step(e, s, fo).Some?
    requires FirstPending(Children(e), Strict(e)) < Strict(e)
    ensures StoreEffect(s, Step(e, s, fo).value.store)
    ensures |s| <= |Step(e, s, fo).value.store| <= |s| + 1
    decreases e, 0
  {
    var cs := Children(e);
    var i := FirstPending(cs, Strict(e));
    StepStoreEffect(cs[i], s, fo);
  }

  /** The node rules append, overwrite, or leave the store. */
  lemma ReduceStoreEffect(e: Exp, s: Store, fo: FloatOps)
    requires Reduce(e, s, fo).Some?
    ensures StoreEffect(s, Reduce(e, s, fo).value.store)
    ensures |s| <= |Reduce(e, s, fo).value.store| <= |s| + 1
  {
    var s' := Reduce(e, s, fo).value.store;
    if e.ERef? {
      assert s'[..|s|] == s;
    } else if e.EAssign? {
      var n := e.e1.n;
      assert s' == s[n := s'[n]];
    }
  }

  /** Arithmetic on the NaN marker gives the NaN marker, leaving the store. */
  lemma NaNPropagates(op: ArithOp, a: Exp, b: Exp, s: Store, fo: FloatOps)
    requires a.ELit? && b.ELit? && (a.isNaN || b.isNaN)
    ensures Step(EOperator(op, a, b), s, fo) == Some(Config(NaNLit(a.isInt && b.isInt), s))
  {
    assert FirstPending(Children(EOperator(op, a, b)), 2) == 2;
  }

  /** Integer division or remainder by the literal zero gives the integer NaN
      marker rather than failing. */
  lemma IntDivisionByZero(op: ArithOp, i: Int32, s: Store, fo: FloatOps)
    requires op == Divide || op == Modulo
    ensures Step(EOperator(op, IntLit(i), IntLit(0)), s, fo) == Some(Config(NaNLit(true), s))
  {
    assert FirstPending(Children(EOperator(op, IntLit(i), IntLit(0))), 2) == 2;
  }

  /** Division or remainder of any literal, the NaN marker included, by a zero
      double gives the double NaN marker. */
  lemma FloatDivisionByZero(op: ArithOp, a: Exp, f: Float, s: Store, fo: FloatOps)
    requires op == Divide || op == Modulo
    requires a.ELit? && fo.isZero(f)
    ensures Step(EOperator(op, a, FloatLit(f)), s, fo) == Some(Config(NaNLit(false), s))
  {
    assert FirstPending(Children(EOperator(op, a, FloatLit(f))), 2) == 2;
  }

  /** The double arithmetic's zero test accepts the conversion of the integer
      0, as IEEE 754 doubles do. */
  predicate ZeroConvertsToZero(fo: FloatOps) {
    fo.isZero(fo.ofInt(0))
  }

  /** A double divided by the integer 0 is converted to a division by the
      double 0, and gives the double NaN marker. */
  lemma MixedDivisionByZero(op: ArithOp, a: Exp, s: Store, fo: FloatOps)
    requires op == Divide || op == Modulo
    requires a.ELit? && !a.isInt && ZeroConvertsToZero(fo)
    ensures Step(EOperator(op, a, IntLit(0)), s, fo) == Some(Config(NaNLit(false), s))
  {
    assert FirstPending(Children(EOperator(op, a, IntLit(0))), 2) == 2;
  }

  /** A comparison of two values yields a boolean, never the NaN marker, and
      a comparison with the NaN marker yields false. */
  lemma ComparisonsYieldBooleans(c: CompOp, a: Exp, b: Exp, s: Store, fo: FloatOps)
    requires IsValue(a) && IsValue(b) && Step(EComp(c, a, b), s, fo).Some?
    ensures Step(EComp(c, a, b), s, fo).value.e.EBool?
    ensures Step(EComp(c, a, b), s, fo).value.store == s
    ensures IsNaN(a) || IsNaN(b) ==> Step(EComp(c, a, b), s, fo).value.e == EBool(false)
  {
    assert FirstPending(Children(EComp(c, a, b)), 2) == 2;
  }

  /** An operator reduces its left operand before it looks at its right one,
      which stays as it is. */
  lemma LeftOperandFirst(op: ArithOp, a: Exp, b: Exp, s: Store, fo: FloatOps)
    requires !IsValue(a)
    ensures Step(EOperator(op, a, b), s, fo) ==
      match Step(a, s, fo)
      case None => None
      case Some(c) => Some(Config(EOperator(op, c.e, b), c.store))
  {
    var cs := Children(EOperator(op, a, b));
    assert FirstPending(cs, 2) == 0;
    assert forall a' :: cs[0 := a'] == [a', b];
  }

  /** The nodes that reduce their first subexpression before anything else:
      the operators and comparisons, pairs, `cons`, assignment, sequencing,
      conditionals and `let`. */
  predicate FirstIsStrict(e: Exp) {
    e.EOperator? || e.EComp? || e.EPair? || e.ECons? || e.EAssign? || e.ESeq? || e.EIf? || e.ELet?
  }

  /** Such a node with its first subexpression replaced by `x`. */
  function WithFirst(e: Exp, x: Exp): (r: Exp)
    requires FirstIsStrict(e)
  {
    match e
    case EOperator(op, _, b) => EOperator(op, x, b)
    case EComp(c, _, b) => EComp(c, x, b)
    case EPair(_, b) => EPair(x, b)
    case ECons(_, b) => ECons(x, b)
    case EAssign(_, b) => EAssign(x, b)
    case ESeq(_, b) => ESeq(x, b)
    case EIf(_, b, c) => EIf(x, b, c)
    case ELet(y, t, _, b) => ELet(y, t, x, b)
  }

  /** Left to right, first part: while the first subexpression of such a node
      is not a value, the node steps exactly when it does, by stepping it in
      place. */
  lemma FirstOperandFirst(e: Exp, s: Store, fo: FloatOps)
    requires FirstIsStrict(e) && !IsValue(e.e1)
    ensures Step(e, s, fo).Some? <==> Step(e.e1, s, fo).Some?
    ensures Step(e.e1, s, fo).Some? ==>
      Step(e, s, fo) == Some(Config(WithFirst(e, Step(e.e1, s, fo).value.e), Step(e.e1, s, fo).value.store))
  {
    var cs := Children(e);
    assert FirstPending(cs, Strict(e)) == 0;
    if Step(e.e1, s, fo).Some? {
      var x := Step(e.e1, s, fo).value.e;
      if e.EIf? {
        assert cs[0 := x] == [x, e.e2, e.e3];
      } else {
        assert cs[0 := x] == [x, e.e2];
      }
    }
  }

  /** The nodes that reduce their second subexpression once the first is a
      value: the operators and comparisons, pairs, `cons` and assignment. */
  predicate BothAreStrict(e: Exp) {
    e.EOperator? || e.EComp? || e.EPair? || e.ECons? || e.EAssign?
  }

  /** Such a node with its second subexpression replaced by `x`. */
  function WithSecond(e: Exp, x: Exp): (r: Exp)
    requires BothAreStrict(e)
  {
    match e
    case EOperator(op, a, _) => EOperator(op, a, x)
    case EComp(c, a, _) => EComp(c, a, x)
    case EPair(a, _) => EPair(a, x)
    case ECons(a, _) => ECons(a, x)
    case EAssign(a, _) => EAssign(a, x)
  }

  /** Left to right, second part: once the first subexpression is a value,
      the second one is stepped in place. */
  lemma SecondOperandNext(e: Exp, s: Store, fo: FloatOps)
    requires BothAreStrict(e) && IsValue(e.e1) && !IsValue(e.e2)
    ensures Step(e, s, fo).Some? <==> Step(e.e2, s, fo).Some?
    ensures Step(e.e2, s, fo).Some? ==>
      Step(e, s, fo) == Some(Config(WithSecond(e, Step(e.e2, s, fo).value.e), Step(e.e2, s, fo).value.store))
  {
    var cs := Children(e);
    assert cs == [e.e1, e.e2] && Strict(e) == 2;
    assert FirstPending(cs, 2) == 1;
    if Step(e.e2, s, fo).Some? {
      var x := Step(e.e2, s, fo).value.e;
      assert cs[1 := x] == [e.e1, x];
      assert WithChildren(e, [e.e1, x]) == WithSecond(e, x);
    }
  }

  /** An operator on two literals reduces by `evaluate_num`, leaving the store. */
  lemma OperatorOnLiterals(op: ArithOp, a: Exp, b: Exp, s: Store, fo: FloatOps)
    requires a.ELit? && b.ELit?
    ensures Step(EOperator(op, a, b), s, fo) == Some(Config(ArithLit(op, a, b, fo), s))
  {
    assert FirstPending(Children(EOperator(op, a, b)), 2) == 2;
  }

  /** A comparison of two literals reduces by `evaluate_bool`, leaving the store. */
  lemma ComparisonOnLiterals(c: CompOp, a: Exp, b: Exp, s: Store, fo: FloatOps)
    requires a.ELit? && b.ELit?
    ensures Step(EComp(c, a, b), s, fo) == Some(Config(EBool(CompareLit(c, a, b, fo)), s))
  {
    assert FirstPending(Children(EComp(c, a, b)), 2) == 2;
  }

  /** A sequence whose first part is a value drops it. */
  lemma SeqDropsValue(v: Exp, b: Exp, s: Store, fo: FloatOps)
    requires IsValue(v)
    ensures Step(ESeq(v, b), s, fo) == Some(Config(b, s))
  {
    assert FirstPending(Children(ESeq(v, b)), 1) == 1;
  }

  /** A conditional reduces only its guard; both branches stay untouched until
      the guard is a boolean, and then the untaken one is dropped unreduced. */
  lemma IfReducesGuardOnly(g: Exp, a: Exp, b: Exp, s: Store, fo: FloatOps)
    ensures !IsValue(g) ==> (Step(EIf(g, a, b), s, fo) ==
      match Step(g, s, fo)
      case None => None
      case Some(c) => Some(Config(EIf(c.e, a, b), c.store)))
    ensures g.EBool? ==> Step(EIf(g, a, b), s, fo) == Some(Config(if g.data then a else b, s))
  {
    var cs := Children(EIf(g, a, b));
    assert forall g' :: cs[0 := g'] == [g', a, b];
  }

  /** A `let` whose bound expression is a value substitutes it into the body. */
  lemma LetSubstitutes(x: string, t: Types.Typ, v: Exp, body: Exp, s: Store, fo: FloatOps)
    requires IsValue(v)
    ensures Step(ELet(x, t, v, body), s, fo) == Some(Config(Substitute(body, x, v), s))
  {
    assert FirstPending(Children(ELet(x, t, v, body)), 1) == 1;
  }

  /** A while loop unrolls into a conditional whose next round is a loop over
      the template alone: whatever the current body has become, it is run once
      and never carried into the next round. */
  lemma WhileUnrollsTemplate(g: Exp, b: Exp, t: Exp, s: Store, fo: FloatOps)
    ensures Step(EWhile(g, b, t), s, fo) ==
      Some(Config(EIf(g, ESeq(b, EWhile(g, t, t)), EUnit), s))
  {
  }

  /** Allocation appends the value as a new cell and yields its address. */
  lemma RefAllocates(v: Exp, s: Store, fo: FloatOps)
    requires IsValue(v)
    ensures Step(ERef(v), s, fo) == Some(Config(EPtr(|s|), s + [v]))
    ensures var s' := Step(ERef(v), s, fo).value.store; s'[|s|] == v && s'[..|s|] == s
  {
    assert FirstPending(Children(ERef(v)), 1) == 1;
    assert (s + [v])[..|s|] == s;
  }

  /** Dereferencing a live address reads its cell and changes nothing; a dead
      address gets stuck. */
  lemma DerefReads(n: nat, s: Store, fo: FloatOps)
    ensures n < |s| ==> Step(EDeref(EPtr(n)), s, fo) == Some(Config(s[n], s))
    ensures n >= |s| ==> Step(EDeref(EPtr(n)), s, fo) == None
  {
    assert FirstPending(Children(EDeref(EPtr(n))), 1) == 1;
  }

  /** Assigning a value to a live address overwrites that cell only and
      yields unit. */
  lemma AssignWrites(n: nat, v: Exp, s: Store, fo: FloatOps)
    requires IsValue(v) && n < |s|
    ensures Step(EAssign(EPtr(n), v), s, fo) == Some(Config(EUnit, s[n := v]))
    ensures var s' := Step(EAssign(EPtr(n), v), s, fo).value.store;
      |s'| == |s| && s'[n] == v && forall i :: 0 <= i < |s| && i != n ==> s'[i] == s[i]
  {
    assert FirstPending(Children(EAssign(EPtr(n), v)), 2) == 2;
  }
}
