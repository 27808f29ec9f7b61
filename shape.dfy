/**
 The shape of a node: its immediate subexpressions, in the order the language
 evaluates them, and the node rebuilt around new subexpressions. Variables,
 literals, booleans, units, pointers and struct literals list none here (a
 struct's subexpressions are keyed by field name and are handled apart).

 Every traversal that treats all children alike (substitution outside binders,
 free-variable search, congruence steps) goes through these two functions,
 which keeps each traversal to the few node kinds it treats specially.
 */
module Shape {
  import opened Syntax

  /** The immediate subexpressions of `e`, left to right. */
  function Children(e: Exp): (cs: seq<Exp>)
    ensures forall i :: 0 <= i < |cs| ==> cs[i] < e
    ensures |cs| == 0 <==> e.ELit? || e.EBool? || e.EVar? || e.EUnit? || e.EPtr? ||
                           e.EStruct? || (e.EApp? && |e.args| == 0) ||
                           (e.EList? && |e.elems| == 0)
  {
    match e
    case EOperator(_, a, b) => [a, b]
    case EComp(_, a, b) => [a, b]
    case ELit(_, _, _, _) => []
    case EBool(_) => []
    case EVar(_) => []
    case EUnit => []
    case EIf(a, b, c) => [a, b, c]
    case ELet(_, _, a, b) => [a, b]
    case EApp(_, args) => args
    case EPair(a, b) => [a, b]
    case EFst(a) => [a]
    case ESnd(a) => [a]
    case EList(es, _) => es
    case ECons(a, b) => [a, b]
    case ECar(a) => [a]
    case ECdr(a) => [a]
    case EEmpty(a) => [a]
    case ERef(a) => [a]
    case EPtr(_) => []
    case EDeref(a) => [a]
    case EAssign(a, b) => [a, b]
    case ESeq(a, b) => [a, b]
    case EWhile(a, b, c) => [a, b, c]
    case EDef(_, a, _) => [a]
    case EStruct(_, _) => []
    case EDot(a, _) => [a]
  }

  /** `e` with its subexpressions replaced by `cs`, everything else kept. */
  function WithChildren(e: Exp, cs: seq<Exp>): Exp
    requires |cs| == |Children(e)|
  {
    match e
    case EOperator(op, _, _) => EOperator(op, cs[0], cs[1])
    case EComp(c, _, _) => EComp(c, cs[0], cs[1])
    case ELit(_, _, _, _) => e
    case EBool(_) => e
    case EVar(_) => e
    case EUnit => e
    case EIf(_, _, _) => EIf(cs[0], cs[1], cs[2])
    case ELet(x, t, _, _) => ELet(x, t, cs[0], cs[1])
    case EApp(id, _) => EApp(id, cs)
    case EPair(_, _) => EPair(cs[0], cs[1])
    case EFst(_) => EFst(cs[0])
    case ESnd(_) => ESnd(cs[0])
    case EList(_, t) => EList(cs, t)
    case ECons(_, _) => ECons(cs[0], cs[1])
    case ECar(_) => ECar(cs[0])
    case ECdr(_) => ECdr(cs[0])
    case EEmpty(_) => EEmpty(cs[0])
    case ERef(_) => ERef(cs[0])
    case EPtr(_) => e
    case EDeref(_) => EDeref(cs[0])
    case EAssign(_, _) => EAssign(cs[0], cs[1])
    case ESeq(_, _) => ESeq(cs[0], cs[1])
    case EWhile(_, _, _) => EWhile(cs[0], cs[1], cs[2])
    case EDef(id, _, t) => EDef(id, cs[0], t)
    case EStruct(_, _) => e
    case EDot(_, f) => EDot(cs[0], f)
  }

  /** Both nodes were built by the same constructor and agree on every field
      that is not a subexpression: the operator, the comparison, the bound
      name and its type, the callee, the element type, the defined name and
      its type, the accessed field. */
  predicate SameNode(a: Exp, b: Exp) {
    (a.EOperator? && b.EOperator? && a.op == b.op) || (a.EComp? && b.EComp? && a.cmp == b.cmp) ||
    (a.ELit? && b.ELit?) || (a.EBool? && b.EBool?) || (a.EVar? && b.EVar?) ||
    (a.EUnit? && b.EUnit?) || (a.EIf? && b.EIf?) || (a.ELet? && b.ELet? && a.x == b.x && a.t == b.t) ||
    (a.EApp? && b.EApp? && a.id == b.id) || (a.EPair? && b.EPair?) || (a.EFst? && b.EFst?) ||
    (a.ESnd? && b.ESnd?) || (a.EList? && b.EList? && a.t == b.t) || (a.ECons? && b.ECons?) ||
    (a.ECar? && b.ECar?) || (a.ECdr? && b.ECdr?) || (a.EEmpty? && b.EEmpty?) ||
    (a.ERef? && b.ERef?) || (a.EPtr? && b.EPtr?) || (a.EDeref? && b.EDeref?) ||
    (a.EAssign? && b.EAssign?) || (a.ESeq? && b.ESeq?) || (a.EWhile? && b.EWhile?) ||
    (a.EDef? && b.EDef? && a.id == b.id && a.t == b.t) || (a.EStruct? && b.EStruct?) ||
    (a.EDot? && b.EDot? && a.id == b.id)
  }

  /** Rebuilding keeps the kind and every non-child field, and puts exactly the
      given subexpressions in place. */
  lemma RebuildShape(e: Exp, cs: seq<Exp>)
    requires |cs| == |Children(e)|
    ensures SameNode(e, WithChildren(e, cs))
    ensures WithChildren(e, cs).EVar? == e.EVar? && WithChildren(e, cs).ELet? == e.ELet?
    ensures WithChildren(e, cs).EDef? == e.EDef? && WithChildren(e, cs).EStruct? == e.EStruct?
    ensures Children(WithChildren(e, cs)) == cs
  {
  }

  /** Rebuilding around the node's own subexpressions gives the node back. */
  lemma RebuildIdentity(e: Exp)
    ensures WithChildren(e, Children(e)) == e
  {
  }
}
