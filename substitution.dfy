/**
 Substitution (`Exp::substitute(var, t)`), a design model.

 The header fixes only the signature: `substitute` takes a variable name and a
 replacement and returns a new tree; the receiver is a shared, immutable value
 and is never changed. The rules below are the ones the language's design
 states: every free occurrence of the name is replaced, occurrences bound by a
 `let` or a definition of the same name are left alone, and nothing is done to
 avoid capturing free variables of the replacement.
 */
module Substitution {
  import opened Syntax
  import opened Shape

  /** `x` occurs free in `e`. A `let` binds its name in its body, a definition
      binds its name in its own body; every other node passes the question on
      to its subexpressions. */
  predicate OccursFree(x: string, e: Exp) {
    if e.EVar? then e.name == x
    else if e.ELet? then OccursFree(x, e.e1) || (e.x != x && OccursFree(x, e.e2))
    else if e.EDef? then e.id != x && OccursFree(x, e.e)
    else if e.EStruct? then exists k :: k in e.fields && OccursFree(x, e.fields[k])
    else exists i :: 0 <= i < |Children(e)| && OccursFree(x, Children(e)[i])
  }

  /** No variable occurs free in `e`. */
  ghost predicate Closed(e: Exp) {
    forall x :: !OccursFree(x, e)
  }

  /** Every subexpression of `cs` with `x` replaced by `r`. */
  function SubstituteAll(cs: seq<Exp>, ghost parent: Exp, x: string, r: Exp): (rs: seq<Exp>)
    requires forall i :: 0 <= i < |cs| ==> cs[i] < parent
    ensures |rs| == |cs|
    ensures forall i :: 0 <= i < |cs| ==> rs[i] == Substitute(cs[i], x, r)
    decreases parent, 0
  {
    seq(|cs|, i requires 0 <= i < |cs| => Substitute(cs[i], x, r))
  }

  /** `substitute(x, r)`: a new tree in which the free occurrences of `x` are
      replaced by `r`. A `let` of the same name substitutes into its bound
      expression only, a definition of the same name is left whole, a struct
      literal substitutes into every field, and every other node into all of
      its subexpressions (a while node: its guard, its current body and its
      template alike). */
  function Substitute(e: Exp, x: string, r: Exp): Exp
    decreases e, 1
  {
    if e.EVar? then (if e.name == x then r else e)
    else if e.ELet? then
      ELet(e.x, e.t, Substitute(e.e1, x, r), if e.x == x then e.e2 else Substitute(e.e2, x, r))
    else if e.EDef? then (if e.id == x then e else EDef(e.id, Substitute(e.e, x, r), e.t))
    else if e.EStruct? then
      EStruct(map k | k in e.fields :: Substitute(e.fields[k], x, r), e.fieldTypes)
    else WithChildren(e, SubstituteAll(Children(e), e, x, r))
  }

  /** Substituting for a name that does not occur free returns the same tree. */
  lemma {:induction false} SubstituteNotFree(e: Exp, x: string, r: Exp)
    requires !OccursFree(x, e)
    ensures Substitute(e, x, r) == e
    decreases e, 1
  {
    if e.ELet? || e.EDef? { NotFreeBinder(e, x, r); }
    else if e.EStruct? { NotFreeStruct(e, x, r); }
    else if !e.EVar? { NotFreeNode(e, x, r); }
  }

  lemma {:induction false} NotFreeBinder(e: Exp, x: string, r: Exp)
    requires !OccursFree(x, e) && (e.ELet? || e.EDef?)
    ensures Substitute(e, x, r) == e
    decreases e, 0
  {
    if e.ELet? {
      SubstituteNotFree(e.e1, x, r);
      if e.x != x { SubstituteNotFree(e.e2, x, r); }
    } else if e.id != x {
      SubstituteNotFree(e.e, x, r);
    }
  }

  lemma {:induction false} NotFreeStruct(e: Exp, x: string, r: Exp)
    requires !OccursFree(x, e) && e.EStruct?
    ensures Substitute(e, x, r) == e
    decreases e, 0
  {
    var m := e.fields;
    forall k | k in m ensures Substitute(m[k], x, r) == m[k] {
      SubstituteNotFree(m[k], x, r);
    }
    assert (map k | k in m :: Substitute(m[k], x, r)) == m;
  }

  lemma {:induction false} NotFreeNode(e: Exp, x: string, r: Exp)
    requires !OccursFree(x, e) && !e.EVar? && !e.ELet? && !e.EDef? && !e.EStruct?
    ensures Substitute(e, x, r) == e
    decreases e, 0
  {
    var cs := Children(e);
    forall i | 0 <= i < |cs| ensures Substitute(cs[i], x, r) == cs[i] {
      SubstituteNotFree(cs[i], x, r);
    }
    assert SubstituteAll(cs, e, x, r) == cs;
    RebuildIdentity(e);
  }

  /** A variable free after substitution was free before (and is not the
      replaced name), or came in with the replacement. */
  lemma {:induction false} SubstituteOccursFree(e: Exp, x: string, r: Exp, y: string)
    ensures OccursFree(y, Substitute(e, x, r)) ==>
      (y != x && OccursFree(y, e)) || (OccursFree(x, e) && OccursFree(y, r))
    decreases e, 1
  {
    if e.ELet? || e.EDef? { OccursFreeBinder(e, x, r, y); }
    else if e.EStruct? { OccursFreeStruct(e, x, r, y); }
    else if !e.EVar? { OccursFreeNode(e, x, r, y); }
  }

  lemma {:induction false} OccursFreeBinder(e: Exp, x: string, r: Exp, y: string)
    requires e.ELet? || e.EDef?
    ensures OccursFree(y, Substitute(e, x, r)) ==>
      (y != x && OccursFree(y, e)) || (OccursFree(x, e) && OccursFree(y, r))
    decreases e, 0
  {
    if e.ELet? {
      SubstituteOccursFree(e.e1, x, r, y);
      if e.x != x { SubstituteOccursFree(e.e2, x, r, y); }
    } else if e.id != x {
      SubstituteOccursFree(e.e, x, r, y);
    }
  }

  lemma {:induction false} OccursFreeStruct(e: Exp, x: string, r: Exp, y: string)
    requires e.EStruct?
    ensures OccursFree(y, Substitute(e, x, r)) ==>
      (y != x && OccursFree(y, e)) || (OccursFree(x, e) && OccursFree(y, r))
    decreases e, 0
  {
    var m := e.fields;
    forall k | k in m && OccursFree(y, Substitute(m[k], x, r))
      ensures (y != x && OccursFree(y, m[k])) || (OccursFree(x, m[k]) && OccursFree(y, r))
    {
      SubstituteOccursFree(m[k], x, r, y);
    }
  }

  lemma {:induction false} OccursFreeNode(e: Exp, x: string, r: Exp, y: string)
    requires !e.EVar? && !e.ELet? && !e.EDef? && !e.EStruct?
    ensures OccursFree(y, Substitute(e, x, r)) ==>
      (y != x && OccursFree(y, e)) || (OccursFree(x, e) && OccursFree(y, r))
    decreases e, 0
  {
    var cs := Children(e);
    var rs := SubstituteAll(cs, e, x, r);
    RebuildShape(e, rs);
    if OccursFree(y, Substitute(e, x, r)) {
      var i :| 0 <= i < |rs| && OccursFree(y, rs[i]);
      SubstituteOccursFree(cs[i], x, r, y);
      assert OccursFree(y, cs[i]) ==> OccursFree(y, e);
      assert OccursFree(x, cs[i]) ==> OccursFree(x, e);
    }
  }

  /** Substitution keeps every free occurrence of the other variables. */
  lemma {:induction false} SubstituteKeepsOthers(e: Exp, x: string, r: Exp, y: string)
    requires y != x && OccursFree(y, e)
    ensures OccursFree(y, Substitute(e, x, r))
    decreases e, 1
  {
    if e.ELet? || e.EDef? { KeepsOthersBinder(e, x, r, y); }
    else if e.EStruct? { KeepsOthersStruct(e, x, r, y); }
    else if !e.EVar? { KeepsOthersNode(e, x, r, y); }
  }

  lemma {:induction false} KeepsOthersBinder(e: Exp, x: string, r: Exp, y: string)
    requires y != x && OccursFree(y, e) && (e.ELet? || e.EDef?)
    ensures OccursFree(y, Substitute(e, x, r))
    decreases e, 0
  {
    if e.ELet? {
      if OccursFree(y, e.e1) { SubstituteKeepsOthers(e.e1, x, r, y); }
      else { SubstituteKeepsOthers(e.e2, x, r, y); }
    } else if e.id != x {
      SubstituteKeepsOthers(e.e, x, r, y);
    }
  }

  lemma {:induction false} KeepsOthersStruct(e: Exp, x: string, r: Exp, y: string)
    requires y != x && OccursFree(y, e) && e.EStruct?
    ensures OccursFree(y, Substitute(e, x, r))
    decreases e, 0
  {
    var m := e.fields;
    var k :| k in m && OccursFree(y, m[k]);
    SubstituteKeepsOthers(m[k], x, r, y);
    var m' := map k | k in m :: Substitute(m[k], x, r);
    assert k in m' && OccursFree(y, m'[k]);
  }

  lemma {:induction false} KeepsOthersNode(e: Exp, x: string, r: Exp, y: string)
    requires y != x && OccursFree(y, e) && !e.EVar? && !e.ELet? && !e.EDef? && !e.EStruct?
    ensures OccursFree(y, Substitute(e, x, r))
    decreases e, 0
  {
    var cs := Children(e);
    var i :| 0 <= i < |cs| && OccursFree(y, cs[i]);
    SubstituteKeepsOthers(cs[i], x, r, y);
    var rs := SubstituteAll(cs, e, x, r);
    RebuildShape(e, rs);
    assert OccursFree(y, rs[i]);
  }

  /** With a closed replacement, the free variables afterwards are exactly
      those of the receiver other than the replaced name. */
  lemma SubstituteClosed(e: Exp, x: string, r: Exp, y: string)
    requires Closed(r)
    ensures OccursFree(y, Substitute(e, x, r)) <==> y != x && OccursFree(y, e)
  {
    SubstituteOccursFree(e, x, r, y);
    if y != x && OccursFree(y, e) { SubstituteKeepsOthers(e, x, r, y); }
  }

  /** Values contain no variables. */
  lemma {:induction false} ValuesAreClosed(v: Exp, y: string)
    requires IsValue(v)
    ensures !OccursFree(y, v)
  {
    match v
    case EPair(a, b) => ValuesAreClosed(a, y); ValuesAreClosed(b, y);
    case EList(es, _) =>
      forall i | 0 <= i < |es| ensures !OccursFree(y, es[i]) {
        ValuesAreClosed(es[i], y);
      }
    case EStruct(m, _) =>
      forall k | k in m ensures !OccursFree(y, m[k]) {
        ValuesAreClosed(m[k], y);
      }
    case _ =>
  }

  /** Substitution leaves a value unchanged. */
  lemma SubstituteValue(v: Exp, x: string, r: Exp)
    requires IsValue(v)
    ensures Substitute(v, x, r) == v
  {
    ValuesAreClosed(v, x);
    SubstituteNotFree(v, x, r);
  }

  /** A `let` or a definition that rebinds the name shields its body. */
  lemma ShadowedBodiesUntouched(x: string, t: Types.Typ, a: Exp, b: Exp, r: Exp)
    ensures Substitute(ELet(x, t, a, b), x, r) == ELet(x, t, Substitute(a, x, r), b)
    ensures Substitute(EDef(x, b, t), x, r) == EDef(x, b, t)
  {
  }

  /** Substitution does not avoid capture: a free variable of the replacement
      that an inner `let` binds is captured by that `let`. */
  lemma NoCaptureAvoidance()
    ensures Substitute(ELet("y", Types.TInt, IntLit(0), EVar("x")), "x", EVar("y"))
         == ELet("y", Types.TInt, IntLit(0), EVar("y"))
  {
  }
}
