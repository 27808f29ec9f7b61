/**
 The abstract syntax of the expression language (namespace `fexp`).

 The class hierarchy `Exp` with its subclasses becomes one closed datatype. The
 virtual predicates (`is_value`, `is_int`, ...) whose base versions answer false
 become functions that answer true only for the kinds whose class overrides them;
 the virtual accessors (`get_bool`, `get_int`, ...) whose base versions end the
 process become functions that answer None for every other kind. The header
 names which classes override these predicates but not what the overrides
 answer; the answers here (compound values, `is_float` as the negation of the
 integer flag, `is_NaN` as the NaN flag) are this model's reading.
 */
module Syntax {
  import opened Wrappers
  import opened Types

  /** A double's payload, kept as its IEEE-754 bit pattern and never interpreted
      by this model. */
  type Float = bv64

  /** The payload type of an integer literal: a 32-bit signed C++ `int`. */
  newtype Int32 = x: int | -0x8000_0000 <= x < 0x8000_0000

  /** The operator tokens an `EOperator` node discriminates on. */
  datatype ArithOp = Plus | Minus | Times | Divide | Modulo

  /** The operator tokens an `EComp` node discriminates on. */
  datatype CompOp = Less | LessEq | Greater | GreaterEq | Equals

  /** One constructor per subclass of `Exp`, with that subclass's fields. */
  datatype Exp =
    | EOperator(op: ArithOp, e1: Exp, e2: Exp)
    | EComp(cmp: CompOp, e1: Exp, e2: Exp)
    | ELit(isInt: bool, intData: Int32, floatData: Float, isNaN: bool)
    | EBool(data: bool)
    | EVar(name: string)
    | EUnit
    | EIf(e1: Exp, e2: Exp, e3: Exp)
    | ELet(x: string, t: Typ, e1: Exp, e2: Exp)
    | EApp(id: string, args: seq<Exp>)
    | EPair(e1: Exp, e2: Exp)
    | EFst(e: Exp)
    | ESnd(e: Exp)
    | EList(elems: seq<Exp>, t: Typ)
    | ECons(e1: Exp, e2: Exp)
    | ECar(e: Exp)
    | ECdr(e: Exp)
    | EEmpty(e: Exp)
    | ERef(e: Exp)
    | EPtr(n: nat)
    | EDeref(e: Exp)
    | EAssign(e1: Exp, e2: Exp)
    | ESeq(e1: Exp, e2: Exp)
    | EWhile(e1: Exp, e2: Exp, eTemp: Exp)
    | EDef(id: string, e: Exp, t: Typ)
    | EStruct(fields: map<string, Exp>, fieldTypes: map<string, Typ>)
    | EDot(e: Exp, id: string)

  /** An integer literal (`ELit` with `_is_int` set and no NaN flag). */
  function IntLit(i: Int32): Exp {
    ELit(true, i, 0, false)
  }

  /** A float literal (`ELit` with `_is_int` clear and no NaN flag). */
  function FloatLit(f: Float): Exp {
    ELit(false, 0, f, false)
  }

  /** The NaN marker: an `ELit` with `_is_NaN` set. It keeps the integer flag of
      the computation that produced it. */
  function NaNLit(isInt: bool): Exp {
    ELit(isInt, 0, 0, true)
  }

  /** `is_value`. Literals, booleans, units and pointers are values; pairs,
      lists and structs are values once every component is. A variable, whose
      class also overrides `is_value`, is taken not to be one (a closed term
      never reaches one). Every other kind keeps the base answer false. */
  predicate IsValue(e: Exp) {
    match e
    case ELit(_, _, _, _) => true
    case EBool(_) => true
    case EUnit => true
    case EPtr(_) => true
    case EPair(a, b) => IsValue(a) && IsValue(b)
    case EList(es, _) => forall i :: 0 <= i < |es| ==> IsValue(es[i])
    case EStruct(m, _) => forall k :: k in m ==> IsValue(m[k])
    case _ => false
  }

  /** The kinds whose classes keep the base `is_value`. */
  predicate KeepsBaseIsValue(e: Exp) {
    e.EOperator? || e.EComp? || e.EIf? || e.ELet? || e.EApp? || e.EFst? ||
    e.ESnd? || e.ECons? || e.ECar? || e.ECdr? || e.EEmpty? || e.ERef? ||
    e.EDeref? || e.EAssign? || e.ESeq? || e.EWhile? || e.EDef? || e.EDot?
  }

  /** `is_bool`, overridden by `EBool` only. */
  predicate IsBool(e: Exp) {
    match e
    case EBool(_) => true
    case _ => false
  }

  /** `is_int`, overridden by `ELit` only, where it reports the integer flag. */
  predicate IsInt(e: Exp) {
    match e
    case ELit(isInt, _, _, _) => isInt
    case _ => false
  }

  /** `is_float`, overridden by `ELit` only: a literal without the integer flag. */
  predicate IsFloat(e: Exp) {
    match e
    case ELit(isInt, _, _, _) => !isInt
    case _ => false
  }

  /** `is_NaN`, overridden by `ELit` only, where it reports the NaN flag. */
  predicate IsNaN(e: Exp) {
    match e
    case ELit(_, _, _, isNaN) => isNaN
    case _ => false
  }

  /** `is_unit`, overridden by `EUnit` only. */
  predicate IsUnit(e: Exp) {
    match e
    case EUnit => true
    case _ => false
  }

  /** `is_var`, overridden by `EVar` only. */
  predicate IsVar(e: Exp) {
    match e
    case EVar(_) => true
    case _ => false
  }

  /** `is_pair`, overridden by `EPair` only. */
  predicate IsPair(e: Exp) {
    match e
    case EPair(_, _) => true
    case _ => false
  }

  /** `is_list`, overridden by `EList` only. */
  predicate IsList(e: Exp) {
    match e
    case EList(_, _) => true
    case _ => false
  }

  /** `is_struct`, overridden by `EStruct` only. */
  predicate IsStruct(e: Exp) {
    match e
    case EStruct(_, _) => true
    case _ => false
  }

  /* The getters below are declared on `Exp`, where they stop the program
     with a diagnostic, and are overridden by the one kind that carries the
     data. None stands for the stop. */

  /** `get_bool`: the payload of a boolean node. */
  function GetBool(e: Exp): (r: Option<bool>)
    ensures r.Some? <==> IsBool(e)
    ensures r.Some? ==> e == EBool(r.value)
  {
    if e.EBool? then Some(e.data) else None
  }

  /** `get_int`: the integer payload of a literal, whatever its flags. */
  function GetInt(e: Exp): (r: Option<Int32>)
    ensures r.Some? <==> e.ELit?
    ensures r.Some? ==> e == ELit(e.isInt, r.value, e.floatData, e.isNaN)
  {
    if e.ELit? then Some(e.intData) else None
  }

  /** `get_float`: the float payload of a literal, whatever its flags. */
  function GetFloat(e: Exp): (r: Option<Float>)
    ensures r.Some? <==> e.ELit?
    ensures r.Some? ==> e == ELit(e.isInt, e.intData, r.value, e.isNaN)
  {
    if e.ELit? then Some(e.floatData) else None
  }

  /** `get_var`: the name a variable node refers to. */
  function GetVar(e: Exp): (r: Option<string>)
    ensures r.Some? <==> IsVar(e)
    ensures r.Some? ==> e == EVar(r.value)
  {
    if e.EVar? then Some(e.name) else None
  }

  /** `get_pair`: the pair node itself, given here as its two components
      (`get_first`, `get_second`), each smaller than the pair. */
  function GetPair(e: Exp): (r: Option<(Exp, Exp)>)
    ensures r.Some? <==> IsPair(e)
    ensures r.Some? ==> e == EPair(r.value.0, r.value.1) && r.value.0 < e && r.value.1 < e
  {
    if e.EPair? then Some((e.e1, e.e2)) else None
  }

  /** `get_list`: the list node itself, given here as its elements and its
      element type (`get_e_list`, `get_t`). */
  function GetList(e: Exp): (r: Option<(seq<Exp>, Typ)>)
    ensures r.Some? <==> IsList(e)
    ensures r.Some? ==> e == EList(r.value.0, r.value.1)
  {
    if e.EList? then Some((e.elems, e.t)) else None
  }

  /** `get_ptr` followed by `get_addr`: the address a pointer holds. */
  function GetAddr(e: Exp): (r: Option<nat>)
    ensures r.Some? <==> e.EPtr?
    ensures r.Some? ==> e == EPtr(r.value)
  {
    if e.EPtr? then Some(e.n) else None
  }

  /** `get_data`, declared on the struct node alone: its field-to-value map,
      every value smaller than the struct. */
  function GetData(e: Exp): (m: map<string, Exp>)
    requires IsStruct(e)
    ensures e == EStruct(m, e.fieldTypes)
    ensures forall k :: k in m ==> m[k] < e
  {
    e.fields
  }

  /** The kinds that keep the base `is_value` are never values. */
  lemma BaseKindsAreNotValues(e: Exp)
    requires KeepsBaseIsValue(e)
    ensures !IsValue(e)
  {
  }

  /** Values are built only from the kinds that override `is_value`, and a
      compound value has value components. */
  lemma ValueKinds(e: Exp)
    requires IsValue(e)
    ensures e.ELit? || e.EBool? || e.EUnit? || e.EPtr? || e.EPair? || e.EList? || e.EStruct?
    ensures e.EPair? ==> IsValue(e.e1) && IsValue(e.e2)
    ensures !KeepsBaseIsValue(e) && !e.EVar?
  {
  }

  /** Each kind predicate holds for exactly one constructor. */
  lemma KindPredicatesExact(e: Exp)
    ensures IsBool(e) <==> e.EBool?
    ensures IsVar(e) <==> e.EVar?
    ensures IsUnit(e) <==> e.EUnit?
    ensures IsPair(e) <==> e.EPair?
    ensures IsList(e) <==> e.EList?
    ensures IsStruct(e) <==> e.EStruct?
  {
  }

  /** The numeric predicates hold only of literals; on a literal exactly one of
      `is_int` and `is_float` holds, and `is_NaN` is its own flag. */
  lemma NumericPredicates(e: Exp)
    ensures IsInt(e) || IsFloat(e) || IsNaN(e) ==> e.ELit?
    ensures e.ELit? ==> (IsInt(e) <==> !IsFloat(e))
    ensures IsNaN(e) <==> e.ELit? && e.isNaN
  {
  }
}
