/**
 The type checker (`Exp::typecheck(context_t context)`), a design model.

 The header fixes the signature: a node is checked against a context taken by
 value, and either a type comes back or `type_error(expression, expected,
 actual)` ends the run. The rules below are the language's design: variables
 are looked up in the context, a `let` and a definition extend the context for
 their body only, applications look the callee's function type up by name,
 struct literals must supply exactly their declared fields, and every
 comparison of types is the structural `operator==`, applied field by field
 when two struct literals are compared (`Same`).

 A type error is a result here, not the end of the process. The type model has
 no struct type, so the checker answers a struct literal with its field types
 (`Record`) instead of a `Typ`.
 */
module Typing {
  import opened Wrappers
  import opened Types
  import opened Syntax
  import opened Shape
  import opened FieldOrder

  /** What the checker gives back for a node: a type, or the field types of a
      struct literal. */
  datatype Checked = Plain(t: Typ) | Record(fieldTypes: map<string, Typ>)

  /** What the checker was looking for when it failed. */
  datatype Expected =
    | Exactly(c: Checked)
    | Number
    | AnyType
    | AnyFunc
    | AnyPair
    | AnyList
    | AnyRef
    | AnyStruct
    | FieldOf(name: string)
    | Bound
    | Source

  /** `type_error(expression, expected, actual)`: the offending expression, what
      was expected of it, and what it has (None for a name without a binding or
      a node the checker does not accept at all). */
  datatype TypeError = TypeError(expression: Exp, expected: Expected, actual: Option<Checked>)

  /** `context_t`: the types of the names in scope. */
  type Context = map<string, Typ>

  type Checking = Result<Checked, TypeError>

  function Fail(e: Exp, expected: Expected, actual: Option<Checked>): Checking {
    Err(TypeError(e, expected, actual))
  }

  /** The checked form is the type `t`, compared with the structural `==`. */
  predicate Is(c: Checked, t: Typ) {
    c.Plain? && Equal(c.t, t)
  }

  /** Two checked forms agree: equal types, or the same field names with
      equal field types, every type compared with the structural `==`. */
  predicate Same(a: Checked, b: Checked) {
    if a.Plain? then Is(b, a.t)
    else
      b.Record? && a.fieldTypes.Keys == b.fieldTypes.Keys &&
      forall k :: k in a.fieldTypes ==> Equal(a.fieldTypes[k], b.fieldTypes[k])
  }

  /** Agreement of checked forms is their equality. */
  lemma SameIsEquality(a: Checked, b: Checked)
    ensures Same(a, b) <==> a == b
  {
    if a.Record? && b.Record? && Same(a, b) {
      assert a.fieldTypes == b.fieldTypes;
    }
  }

  /** The context a subexpression is checked in: a `let` body sees its bound
      name, a definition's body sees the defined name; everything else sees
      the caller's context unchanged. */
  function ChildContext(e: Exp, ctx: Context, i: nat): (c: Context)
    ensures e.ELet? && i == 1 ==> c == ctx[e.x := e.t]
    ensures e.EDef? ==> c == ctx[e.id := e.t]
    ensures !(e.ELet? && i == 1) && !e.EDef? ==> c == ctx
  {
    if e.ELet? && i == 1 then ctx[e.x := e.t]
    else if e.EDef? then ctx[e.id := e.t]
    else ctx
  }

  /** The type the context gives an application's callee, if any. */
  function Callee(e: Exp, ctx: Context): Option<Typ> {
    if e.EApp? && e.id in ctx then Some(ctx[e.id]) else None
  }

  /** The first error among `rs`, or the index past the end. */
  function FirstError(rs: seq<Checking>): (i: nat)
    ensures i <= |rs|
    ensures forall j :: 0 <= j < i ==> rs[j].Ok?
    ensures i < |rs| ==> rs[i].Err?
  {
    if |rs| == 0 then 0
    else if rs[0].Err? then 0
    else 1 + FirstError(rs[1..])
  }

  /** The first argument whose type is not the elements' type, or the index
      past the end. */
  function FirstMismatch(ts: seq<Checked>, t: Typ): (i: nat)
    ensures i <= |ts|
    ensures forall j :: 0 <= j < i ==> Is(ts[j], t)
    ensures i < |ts| ==> !Is(ts[i], t)
  {
    if |ts| == 0 then 0
    else if !Is(ts[0], t) then 0
    else 1 + FirstMismatch(ts[1..], t)
  }

  /** An application of a function of type `ft` to arguments of types `ts[i..]`:
      each argument takes the domain of the function type, and the result is
      what remains once all are taken. */
  function ApplyArgs(e: Exp, ft: Typ, args: seq<Exp>, ts: seq<Checked>, i: nat): Checking
    requires |args| == |ts| && i <= |ts|
    decreases |ts| - i
  {
    if i == |ts| then Ok(Plain(ft))
    else if !ft.TFunc? then Fail(e, AnyFunc, Some(Plain(ft)))
    else if !Is(ts[i], ft.t1) then Fail(args[i], Exactly(Plain(ft.t1)), Some(ts[i]))
    else ApplyArgs(e, ft.t2, args, ts, i + 1)
  }

  /** The node's own rule, given the checked forms `ts` of its subexpressions
      (in `Children` order) and the callee's type for an application. */
  function NodeRule(e: Exp, callee: Option<Typ>, ts: seq<Checked>): Checking
    requires |ts| == |Children(e)|
  {
    match e
    case EOperator(_, a, b) =>
      if !(Is(ts[0], TInt) || Is(ts[0], TFloat)) then Fail(a, Number, Some(ts[0]))
      else if !Is(ts[1], ts[0].t) then Fail(b, Exactly(ts[0]), Some(ts[1]))
      else Ok(ts[0])
    case EComp(_, a, b) =>
      if !(Is(ts[0], TInt) || Is(ts[0], TFloat)) then Fail(a, Number, Some(ts[0]))
      else if !Is(ts[1], ts[0].t) then Fail(b, Exactly(ts[0]), Some(ts[1]))
      else Ok(Plain(TBool))
    case ELit(isInt, _, _, _) => Ok(Plain(if isInt then TInt else TFloat))
    case EBool(_) => Ok(Plain(TBool))
    case EUnit => Ok(Plain(TUnit))
    case EIf(g, _, b) =>
      if !Is(ts[0], TBool) then Fail(g, Exactly(Plain(TBool)), Some(ts[0]))
      else if !Same(ts[1], ts[2]) then Fail(b, Exactly(ts[1]), Some(ts[2]))
      else Ok(ts[1])
    case ELet(_, t, a, _) =>
      if !Is(ts[0], t) then Fail(a, Exactly(Plain(t)), Some(ts[0])) else Ok(ts[1])
    case EApp(_, args) =>
      if callee.None? then Fail(e, Bound, None) else ApplyArgs(e, callee.value, args, ts, 0)
    case EPair(a, b) =>
      if !ts[0].Plain? then Fail(a, AnyType, Some(ts[0]))
      else if !ts[1].Plain? then Fail(b, AnyType, Some(ts[1]))
      else Ok(Plain(TPair(ts[0].t, ts[1].t)))
    case EFst(a) =>
      if ts[0].Plain? && ts[0].t.TPair? then Ok(Plain(ts[0].t.t1)) else Fail(a, AnyPair, Some(ts[0]))
    case ESnd(a) =>
      if ts[0].Plain? && ts[0].t.TPair? then Ok(Plain(ts[0].t.t2)) else Fail(a, AnyPair, Some(ts[0]))
    case EList(es, t) =>
      var i := FirstMismatch(ts, t);
      if i < |ts| then Fail(es[i], Exactly(Plain(t)), Some(ts[i])) else Ok(Plain(TList(t)))
    case ECons(a, l) =>
      if !(ts[1].Plain? && ts[1].t.TList?) then Fail(l, AnyList, Some(ts[1]))
      else if !Is(ts[0], ts[1].t.t) then Fail(a, Exactly(Plain(ts[1].t.t)), Some(ts[0]))
      else Ok(ts[1])
    case ECar(l) =>
      if ts[0].Plain? && ts[0].t.TList? then Ok(Plain(ts[0].t.t)) else Fail(l, AnyList, Some(ts[0]))
    case ECdr(l) =>
      if ts[0].Plain? && ts[0].t.TList? then Ok(ts[0]) else Fail(l, AnyList, Some(ts[0]))
    case EEmpty(l) =>
      if ts[0].Plain? && ts[0].t.TList? then Ok(Plain(TBool)) else Fail(l, AnyList, Some(ts[0]))
    case ERef(a) =>
      if ts[0].Plain? then Ok(Plain(TRef(ts[0].t))) else Fail(a, AnyType, Some(ts[0]))
    case EDeref(a) =>
      if ts[0].Plain? && ts[0].t.TRef? then Ok(Plain(ts[0].t.t)) else Fail(a, AnyRef, Some(ts[0]))
    case EAssign(a, b) =>
      if !(ts[0].Plain? && ts[0].t.TRef?) then Fail(a, AnyRef, Some(ts[0]))
      else if !Is(ts[1], ts[0].t.t) then Fail(b, Exactly(Plain(ts[0].t.t)), Some(ts[1]))
      else Ok(Plain(TUnit))
    case ESeq(_, _) => Ok(ts[1])
    case EWhile(g, _, _) =>
      if !Is(ts[0], TBool) then Fail(g, Exactly(Plain(TBool)), Some(ts[0])) else Ok(Plain(TUnit))
    case EDef(_, a, t) =>
      if !Is(ts[0], t) then Fail(a, Exactly(Plain(t)), Some(ts[0])) else Ok(Plain(t))
    case EDot(a, f) =>
      if !ts[0].Record? then Fail(a, AnyStruct, Some(ts[0]))
      else if f !in ts[0].fieldTypes then Fail(e, FieldOf(f), Some(ts[0]))
      else Ok(Plain(ts[0].fieldTypes[f]))
    case _ => Fail(e, Source, None)
  }

  /** Field `k` of a struct literal is declared and its value checks as the
      declared type. */
  predicate FieldChecks(e: Exp, ctx: Context, k: string)
    requires e.EStruct? && k in e.fields
    decreases e, 0
  {
    var r := Typecheck(e.fields[k], ctx);
    k in e.fieldTypes && r.Ok? && Is(r.value, e.fieldTypes[k])
  }

  /** The fields of a struct literal that do not check. */
  function BadFields(e: Exp, ctx: Context): (ks: set<string>)
    requires e.EStruct?
    ensures forall k :: k in ks <==> (k in e.fields && !FieldChecks(e, ctx, k))
    decreases e, 1
  {
    set k | k in e.fields && !FieldChecks(e, ctx, k)
  }

  /** Every subexpression checked in its own context. */
  function CheckChildren(e: Exp, ctx: Context): (rs: seq<Checking>)
    ensures |rs| == |Children(e)|
    ensures forall i :: 0 <= i < |rs| ==> rs[i] == Typecheck(Children(e)[i], ChildContext(e, ctx, i))
    decreases e, 0
  {
    var cs := Children(e);
    seq(|cs|, i requires 0 <= i < |cs| => Typecheck(cs[i], ChildContext(e, ctx, i)))
  }

  /** `typecheck(context)`. A variable is looked up; a struct literal must name
      exactly its declared fields, and the first field in name order that does
      not check as its declared type is the error; every other node checks its
      subexpressions, reports the first error among them, and else applies its
      own rule. */
  function Typecheck(e: Exp, ctx: Context): Checking
    decreases e, 2
  {
    if e.EVar? then
      (if e.name in ctx then Ok(Plain(ctx[e.name])) else Fail(e, Bound, None))
    else if e.EStruct? then
      if e.fields.Keys != e.fieldTypes.Keys then
        Fail(e, Exactly(Record(e.fieldTypes)), None)
      else
        var bad := BadFields(e, ctx);
        if bad == {} then Ok(Record(e.fieldTypes))
        else
          var k := Least(bad);
          var r := Typecheck(e.fields[k], ctx);
          if r.Err? then r else Fail(e.fields[k], Exactly(Plain(e.fieldTypes[k])), Some(r.value))
    else
      var rs := CheckChildren(e, ctx);
      var i := FirstError(rs);
      if i < |rs| then rs[i]
      else NodeRule(e, Callee(e, ctx), seq(|rs|, j requires 0 <= j < |rs| => rs[j].value))
  }

  /** Subexpression `i` of `e` sees `y` bound by `e` itself. */
  predicate Binds(e: Exp, i: nat, y: string) {
    (e.ELet? && i == 1 && e.x == y) || (e.EDef? && e.id == y)
  }

  /** `y` is a name the checker looks up in the context when checking `e`: a
      variable, or an application's callee, not bound inside `e`. */
  predicate Needs(y: string, e: Exp) {
    if e.EVar? then e.name == y
    else if e.EStruct? then exists k :: k in e.fields && Needs(y, e.fields[k])
    else
      (e.EApp? && e.id == y) ||
      (exists i :: 0 <= i < |Children(e)| && Needs(y, Children(e)[i]) && !Binds(e, i, y))
  }

  /** The two contexts give the same answer for every name `e` needs. */
  ghost predicate AgreeOn(c1: Context, c2: Context, e: Exp) {
    forall y :: Needs(y, e) ==> (y in c1 <==> y in c2) && (y in c1 ==> c1[y] == c2[y])
  }

  /** Checking depends on the context only through the names the term needs:
      the caller's bindings of other names, and whatever a scope inside the
      term binds, make no difference. */
  lemma {:induction false} ContextAgreement(e: Exp, c1: Context, c2: Context)
    requires AgreeOn(c1, c2, e)
    ensures Typecheck(e, c1) == Typecheck(e, c2)
    decreases e, 3
  {
    if e.EStruct? {
      AgreementStruct(e, c1, c2);
    } else if !e.EVar? {
      AgreementNode(e, c1, c2);
    }
  }

  lemma {:induction false} AgreementStruct(e: Exp, c1: Context, c2: Context)
    requires e.EStruct? && AgreeOn(c1, c2, e)
    ensures Typecheck(e, c1) == Typecheck(e, c2)
    decreases e, 0
  {
    var m := e.fields;
    forall k | k in m ensures Typecheck(m[k], c1) == Typecheck(m[k], c2) {
      ContextAgreement(m[k], c1, c2);
    }
    assert BadFields(e, c1) == BadFields(e, c2);
  }

  lemma {:induction false} AgreementNode(e: Exp, c1: Context, c2: Context)
    requires !e.EStruct? && !e.EVar? && AgreeOn(c1, c2, e)
    ensures Typecheck(e, c1) == Typecheck(e, c2)
    decreases e, 2
  {
    var cs := Children(e);
    forall i | 0 <= i < |cs|
      ensures Typecheck(cs[i], ChildContext(e, c1, i)) == Typecheck(cs[i], ChildContext(e, c2, i))
    {
      AgreementChild(e, c1, c2, i);
    }
    assert CheckChildren(e, c1) == CheckChildren(e, c2);
    if e.EApp? {
      assert Needs(e.id, e);
    }
    assert Callee(e, c1) == Callee(e, c2);
  }

  /** The contexts a node gives its child `i` agree on what the child needs. */
  lemma {:induction false} AgreementChild(e: Exp, c1: Context, c2: Context, i: nat)
    requires !e.EStruct? && !e.EVar? && AgreeOn(c1, c2, e) && i < |Children(e)|
    ensures Typecheck(Children(e)[i], ChildContext(e, c1, i)) == Typecheck(Children(e)[i], ChildContext(e, c2, i))
    decreases e, 1
  {
    var d1, d2 := ChildContext(e, c1, i), ChildContext(e, c2, i);
    forall y | Needs(y, Children(e)[i]) ensures (y in d1 <==> y in d2) && (y in d1 ==> d1[y] == d2[y]) {
      if !Binds(e, i, y) {
        assert Needs(y, e);
      }
    }
    ContextAgreement(Children(e)[i], d1, d2);
  }

  /** A term that needs no names checks the same in every context. */
  lemma ClosedTermsCheckAlike(e: Exp, ctx: Context)
    requires forall y :: !Needs(y, e)
    ensures Typecheck(e, ctx) == Typecheck(e, map[])
  {
    ContextAgreement(e, ctx, map[]);
  }

  /** Binding a name the term does not need changes nothing. */
  lemma UnneededBindingIgnored(e: Exp, ctx: Context, y: string, t: Typ)
    requires !Needs(y, e)
    ensures Typecheck(e, ctx[y := t]) == Typecheck(e, ctx)
  {
    ContextAgreement(e, ctx[y := t], ctx);
  }
}
