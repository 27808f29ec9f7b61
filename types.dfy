/**
 The structural type model of the expression language (namespace `ftyp`).

 The class hierarchy `Typ` with its eight concrete subclasses becomes one closed
 datatype. The virtual accessors that end the process on the wrong kind become
 functions that answer None there, and the per-class `eq` overrides become one
 function defined constructor by constructor. The header names which classes
 override `eq` but not what they answer; structural equality is this model's
 reading.
 */
module Types {
  import opened Wrappers

  /** `TInt`, `TFloat`, `TBool`, `TUnit`, `TFunc`, `TPair`, `TList`, `TRef`. */
  datatype Typ =
    | TInt
    | TFloat
    | TBool
    | TUnit
    | TFunc(t1: Typ, t2: Typ)
    | TPair(t1: Typ, t2: Typ)
    | TList(t: Typ)
    | TRef(t: Typ)

  /** The four base types, which have no subtypes. */
  predicate IsBase(t: Typ) {
    t.TInt? || t.TFloat? || t.TBool? || t.TUnit?
  }

  /** The kinds that override `get_first_subtype`. */
  predicate HasFirstSubtype(t: Typ) {
    match t
    case TFunc(_, _) => true
    case TPair(_, _) => true
    case TList(_) => true
    case TRef(_) => true
    case _ => false
  }

  /** The kinds that override `get_second_subtype`. */
  predicate HasSecondSubtype(t: Typ) {
    match t
    case TFunc(_, _) => true
    case TPair(_, _) => true
    case _ => false
  }

  /** `get_first_subtype`: the domain of a function, the first component of a
      pair, the element type of a list, the pointee of a reference. None stands
      for the base version, which stops the program with a diagnostic. */
  function GetFirstSubtype(t: Typ): (r: Option<Typ>)
    ensures r.Some? <==> HasFirstSubtype(t)
    ensures r.Some? ==> r.value < t
    ensures (t.TFunc? || t.TPair?) ==> r == Some(t.t1)
    ensures (t.TList? || t.TRef?) ==> r == Some(t.t)
  {
    match t
    case TFunc(a, _) => Some(a)
    case TPair(a, _) => Some(a)
    case TList(a) => Some(a)
    case TRef(a) => Some(a)
    case _ => None
  }

  /** `get_second_subtype`: the range of a function, the second component of a
      pair; None (the stop) for every other kind. */
  function GetSecondSubtype(t: Typ): (r: Option<Typ>)
    ensures r.Some? <==> HasSecondSubtype(t)
    ensures r.Some? ==> r.value < t && r == Some(t.t2)
  {
    match t
    case TFunc(_, b) => Some(b)
    case TPair(_, b) => Some(b)
    case _ => None
  }

  /** The virtual `eq`: each concrete kind answers true only for another value of
      its own kind whose subtypes are pairwise `eq`; the base answer is false. */
  function Eq(a: Typ, b: Typ): bool {
    match a
    case TInt => b.TInt?
    case TFloat => b.TFloat?
    case TBool => b.TBool?
    case TUnit => b.TUnit?
    case TFunc(a1, a2) => b.TFunc? && Eq(a1, b.t1) && Eq(a2, b.t2)
    case TPair(a1, a2) => b.TPair? && Eq(a1, b.t1) && Eq(a2, b.t2)
    case TList(a1) => b.TList? && Eq(a1, b.t)
    case TRef(a1) => b.TRef? && Eq(a1, b.t)
  }

  /** Both types were built by the same constructor. */
  predicate SameKind(a: Typ, b: Typ) {
    (a.TInt? && b.TInt?) || (a.TFloat? && b.TFloat?) || (a.TBool? && b.TBool?) ||
    (a.TUnit? && b.TUnit?) || (a.TFunc? && b.TFunc?) || (a.TPair? && b.TPair?) ||
    (a.TList? && b.TList?) || (a.TRef? && b.TRef?)
  }

  /** Structural equality coincides with equality of the values. */
  lemma {:induction false} EqIsEquality(a: Typ, b: Typ)
    ensures Eq(a, b) <==> a == b
  {
    match a
    case TFunc(a1, a2) =>
      if b.TFunc? { EqIsEquality(a1, b.t1); EqIsEquality(a2, b.t2); }
    case TPair(a1, a2) =>
      if b.TPair? { EqIsEquality(a1, b.t1); EqIsEquality(a2, b.t2); }
    case TList(a1) =>
      if b.TList? { EqIsEquality(a1, b.t); }
    case TRef(a1) =>
      if b.TRef? { EqIsEquality(a1, b.t); }
    case _ =>
  }

  /** Every type is equal to itself. */
  lemma {:induction false} EqReflexive(a: Typ)
    ensures Eq(a, a)
  {
    match a
    case TFunc(a1, a2) => EqReflexive(a1); EqReflexive(a2);
    case TPair(a1, a2) => EqReflexive(a1); EqReflexive(a2);
    case TList(a1) => EqReflexive(a1);
    case TRef(a1) => EqReflexive(a1);
    case _ =>
  }

  /** `eq` gives the same answer whichever side it is asked on. */
  lemma {:induction false} EqSymmetric(a: Typ, b: Typ)
    ensures Eq(a, b) == Eq(b, a)
  {
    match a
    case TFunc(a1, a2) =>
      if b.TFunc? { EqSymmetric(a1, b.t1); EqSymmetric(a2, b.t2); }
    case TPair(a1, a2) =>
      if b.TPair? { EqSymmetric(a1, b.t1); EqSymmetric(a2, b.t2); }
    case TList(a1) =>
      if b.TList? { EqSymmetric(a1, b.t); }
    case TRef(a1) =>
      if b.TRef? { EqSymmetric(a1, b.t); }
    case _ =>
  }

  /** Chains of equal types are equal. */
  lemma EqTransitive(a: Typ, b: Typ, c: Typ)
    requires Eq(a, b) && Eq(b, c)
    ensures Eq(a, c)
  {
    EqIsEquality(a, b);
    EqIsEquality(b, c);
    EqReflexive(a);
  }

  /** Types of different constructors are never equal, since only the overrides
      of the matching kind can answer true. */
  lemma DifferentKindsNeverEq(a: Typ, b: Typ)
    requires !SameKind(a, b)
    ensures !Eq(a, b) && a != b
  {
  }

  /** Two compound types are equal exactly when they share the constructor and
      their subtypes are pairwise equal. */
  lemma {:induction false} CompoundEq(a: Typ, b: Typ)
    requires !IsBase(a)
    ensures Eq(a, b) <==>
      SameKind(a, b) && Eq(GetFirstSubtype(a).value, GetFirstSubtype(b).value) &&
      (HasSecondSubtype(a) ==> Eq(GetSecondSubtype(a).value, GetSecondSubtype(b).value))
  {
  }

  /** `operator==`: dispatches to `eq`, hence decides equality of types. */
  function Equal(a: Typ, b: Typ): (r: bool)
    ensures r <==> a == b
  {
    EqIsEquality(a, b);
    Eq(a, b)
  }

  /** `operator!=`: the negation of `operator==`. */
  function NotEqual(a: Typ, b: Typ): (r: bool)
    ensures r <==> a != b
    ensures r == !Equal(a, b)
  {
    EqIsEquality(a, b);
    !Eq(a, b)
  }

  /** Exactly the four base types lack a first subtype, and only function and
      pair types have a second one. */
  lemma SubtypeDomains(t: Typ)
    ensures HasFirstSubtype(t) <==> !IsBase(t)
    ensures HasSecondSubtype(t) <==> t.TFunc? || t.TPair?
    ensures HasSecondSubtype(t) ==> HasFirstSubtype(t)
  {
  }
}
