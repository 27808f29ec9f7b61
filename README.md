# A verified model of a small typed expression language

This project models the core of an interpreter for a small, strongly typed
expression language. It has:

- integer and double literals, booleans and unit;
- `let` bindings, function calls and pairs;
- typed lists with `cons`, `car`, `cdr` and `empty?`;
- references (`ref`, `!`, `:=`) to a store of cells;
- sequencing, `while` loops, top-level definitions and struct literals with
  field access.

The language's syntax is the class hierarchy `fexp::Exp` with 26
subclasses. Its types are the class hierarchy `ftyp::Typ` with 8
subclasses. Both hierarchies become closed Dafny datatypes.

The model has two layers, kept in separate modules.

**What the declarations fix.** The class declarations fix the
constructors and their fields, and which classes override `is_value`,
`eq`, `is_int`, `is_float`, `is_NaN` and the other kind predicates. They
do not give the bodies of those overrides. The answers below are this
model's reading of them:

- **`Types`** (`types.dfy`):
  - the eight type constructors;
  - the subtype accessors, which stop the program on the wrong kind;
  - `eq`, read as structural equality: same constructor and `eq`
    subtypes, recursively;
  - `operator==` and `operator!=`, read as `eq` and its negation.
- **`Syntax`** (`syntax.dfy`):
  - the 26 expression constructors with their fields;
  - `is_value`, read as: literals, booleans, unit and pointers are values,
    and a pair, list or struct literal is a value when its components
    are;
  - the kind predicates `is_int`, `is_bool` and the rest, each true of
    the class that overrides it. On a literal, `is_float` is read as the
    negation of `is_int`, and `is_NaN` as the literal's own NaN flag;
  - the `get_*` accessors, which stop the program on the wrong kind.

The wrong-kind stop is modelled as `None`.

**The language's design.** The bodies of `step`, `substitute`, `typecheck`
and `evaluate` are declared by the classes but not defined there. The
modules below state the design those declarations serve. They are a model
of the intended language, not a transcription of the missing bodies.

- **`Substitution`** (`substitution.dfy`): `substitute(var, e)` returns a
  new tree in which the free occurrences of the variable are replaced. A
  `let` or a definition that rebinds the name shields its body. There is
  no capture avoidance.
- **`MachineInt`** (`machine_int.dfy`): 32-bit `int` arithmetic. It
  wraps around in two's complement. Division and remainder truncate
  toward zero, as in C++.
- **`Semantics`** (`semantics.dfy`): `step` is one small step over an
  explicit store of cells, addressed by the `EPtr` address.
  - Evaluation goes left to right.
  - A conditional reduces only its guard, a `let` only its bound
    expression, and a sequence only its first part.
  - A struct literal reduces its fields in name order.
  - Integer division by zero, and arithmetic on a NaN, give the NaN
    marker.
- **`Evaluation`** (`evaluation.dfy`): the `evaluate` driver, a loop
  that steps until the expression is a value. It is a method proved
  against the function `Run`.
- **`Typing`** (`typing.dfy`): `typecheck(context)` with the context
  passed by value. A type error is a structured result holding the
  offending expression, what was expected and what was found.
- **`Addresses`** (`addresses.dfy`): the live-address invariant. Every
  address that the running term or any store cell mentions is a cell of
  the store. `step` and a whole run keep this invariant, so a dereference
  or an assignment never meets a dead address.
- **`Shape`** and **`FieldOrder`**: helpers. `Shape` gives uniform access
  to a node's subexpressions. `FieldOrder` is the lexicographic order of
  field names.
- **`Scenarios`** (`scenarios.dfy`): small programs run through the
  checker and the evaluator.

Because every tree is an immutable value, `step` and `substitute` cannot
modify the expression they are called on. Likewise, checking a
subexpression cannot modify the caller's context.

## Model

| member | source | states |
|---|---|---|
| Types.GetFirstSubtype | include/type.hpp:25-28 | defined (Some) exactly for function, pair, list and reference types. It yields the domain, first component, element type or pointee, which is a strict subterm. The base types give the stop (None). |
| Types.GetSecondSubtype | include/type.hpp:30-33 | defined exactly for function and pair types, where it yields the range or second component. The stop (None) for list, reference and base types. |
| Types.SubtypeDomains | include/type.hpp:25-33 | exactly the four base types lack a first subtype. Only function and pair types have a second one, so every type with a second subtype has a first. |
| Types.EqIsEquality | include/type.hpp:36 | `Types.Eq`, the per-constructor `eq`, answers true exactly when the two types are the same value. |
| Types.EqReflexive | include/type.hpp:36 | every type is `Types.Eq` to itself |
| Types.EqSymmetric | include/type.hpp:36 | `Types.Eq(a, b)` and `Types.Eq(b, a)` agree |
| Types.EqTransitive | include/type.hpp:36 | `Types.Eq` is transitive |
| Types.DifferentKindsNeverEq | include/type.hpp:36 | types built by different constructors are never `eq`, and never equal |
| Types.CompoundEq | include/type.hpp:85-145 | two compound types are `eq` exactly when they share the constructor and their first subtypes, and second subtypes where present, are `eq`. |
| Types.Equal | include/type.hpp:13 | `operator==` decides equality of types |
| Types.NotEqual | include/type.hpp:14 | `operator!=` is exactly the negation of `operator==` |
| Syntax.BaseKindsAreNotValues | include/expression.hpp:29 | `Syntax.IsValue` is false on the 18 kinds whose classes keep the base `is_value` |
| Syntax.ValueKinds | include/expression.hpp:29 | a value (`Syntax.IsValue`) is a literal, boolean, unit, pointer, pair, list or struct, never a variable. The components of a pair value are values. |
| Syntax.KindPredicatesExact | include/expression.hpp:30-38 | `is_bool`, `is_var`, `is_unit`, `is_pair`, `is_list` and `is_struct` each hold for exactly one constructor. |
| Syntax.NumericPredicates | include/expression.hpp:119-141 | `is_int`, `is_float` and `is_NaN` hold only of literals. On a literal exactly one of `is_int` and `is_float` holds. `is_NaN` is the literal's own flag. |
| Syntax.GetBool | include/expression.hpp:40-43 | defined exactly on boolean nodes, where it yields the payload; the stop otherwise |
| Syntax.GetInt | include/expression.hpp:44-47 | defined exactly on literals, where it yields the integer payload; the stop otherwise |
| Syntax.GetFloat | include/expression.hpp:52-55 | defined exactly on literals, where it yields the double payload; the stop otherwise |
| Syntax.GetVar | include/expression.hpp:56-59 | defined exactly on variables, where it yields the name; the stop otherwise |
| Syntax.GetPair | include/expression.hpp:60-63 | defined exactly on pairs, where it yields both components (`get_first`, `get_second`), each a strict subterm; the stop otherwise. |
| Syntax.GetList | include/expression.hpp:64-67 | defined exactly on lists, where it yields the elements and the element type (`get_e_list`, `get_t`); the stop otherwise. |
| Syntax.GetAddr | include/expression.hpp:431-446 | defined exactly on pointers (`get_ptr`), where it yields the stored non-negative address unchanged (`get_addr`). |
| Syntax.GetData | include/expression.hpp:556-558 | the field-to-value map of a struct literal, each value a strict subterm |
| MachineInt.Wrap | include/expression.hpp:123 | the `int` payload a mathematical result wraps to: the one 32-bit value congruent to it modulo 2^32, which is the result itself when it is in range. |
| MachineInt.TruncDiv | include/expression.hpp:85 | integer `/`: the magnitude is the quotient of the magnitudes, non-negative when the operand signs agree and non-positive when they differ (truncation toward zero). |
| MachineInt.TruncMod | include/expression.hpp:85 | integer `%`: quotient times divisor plus remainder is the dividend. The remainder is smaller in magnitude than the divisor and takes the dividend's sign. |
| Substitution.SubstituteNotFree | include/expression.hpp:24 | `Substitution.Substitute` for for a name that does not occur free gives back the same tree |
| Substitution.SubstituteOccursFree | include/expression.hpp:24 | a name free after `Substitution.Substitute` was free before and is not the substituted name, or it is free in the replacement and the substituted name occurred free. |
| Substitution.SubstituteKeepsOthers | include/expression.hpp:24 | every other free name stays free after `Substitution.Substitute` |
| Substitution.SubstituteClosed | include/expression.hpp:24 | for `Substitution.Substitute` with a closed replacement, the free names afterwards are exactly the free names before, less the substituted one. |
| Substitution.ValuesAreClosed | include/expression.hpp:29 | no name occurs free in a value |
| Substitution.SubstituteValue | include/expression.hpp:24 | `Substitution.Substitute` leaves a value unchanged |
| Substitution.ShadowedBodiesUntouched | include/expression.hpp:224-228 | under `Substitution.Substitute`, a `let` or a definition that rebinds the substituted name keeps its body as it was |
| Substitution.NoCaptureAvoidance | include/expression.hpp:24 | a concrete case in which a free name of the replacement is captured by a `let` |
| Semantics.IntArith | include/expression.hpp:85 | integer `+ - * / %` wrap to 32 bits. `/` and `%` truncate toward zero. Division or remainder by zero gives the integer NaN marker. |
| Semantics.MinDivMinusOne | include/expression.hpp:85 | under the wrap-around reading, `INT_MIN / -1` gives `INT_MIN` and `INT_MIN % -1` gives 0 |
| Semantics.ArithLit | include/expression.hpp:85 | arithmetic on literals: a NaN operand gives the NaN marker, and two integers use integer arithmetic. Otherwise it is double arithmetic, where a zero divisor gives the double NaN marker. The result is integer exactly when both operands are. |
| Semantics.CompareLit | include/expression.hpp:104 | a comparison involving NaN is false; two integers compare as integers |
| Semantics.ValuesDoNotStep | include/expression.hpp:23 | `Semantics.Step` applies no rule to a value |
| Semantics.StepStoreEffect | include/expression.hpp:431-433 | a `Semantics.Step` leaves the store alone, appends one cell, or overwrites one existing cell, so every address handed out stays live. |
| Semantics.ReduceStoreEffect | include/expression.hpp:414-483 | the node rules for `ref`, `!` and `:=` append, read or overwrite exactly as above |
| Semantics.NaNPropagates | include/expression.hpp:119-122 | arithmetic with a NaN operand yields the NaN marker and leaves the store |
| Semantics.IntDivisionByZero | include/expression.hpp:85 | integer division or remainder by zero steps to the integer NaN marker |
| Semantics.FloatDivisionByZero | include/expression.hpp:85 | double division or remainder of any literal, the NaN marker included, by a zero double steps to the double NaN marker |
| Semantics.MixedDivisionByZero | include/expression.hpp:85 | a double divided by the integer 0 steps to the double NaN marker, for every `FloatOps` whose zero test accepts the conversion of 0 (`Semantics.ZeroConvertsToZero`) |
| Semantics.ComparisonsYieldBooleans | include/expression.hpp:100-104 | a comparison of values steps to a boolean without touching the store; with a NaN operand, to false. |
| Semantics.LeftOperandFirst | include/expression.hpp:81-85 | under `Semantics.Step`, an operator steps its left operand first and leaves the right one as it is |
| Semantics.FirstOperandFirst | include/expression.hpp:81-85 | for an operator, comparison, pair, cons, assignment, sequence, conditional or `let` whose first child is not a value, `Semantics.Step` steps exactly when that child steps, replacing it by the child's result with the child's store effect. |
| Semantics.SecondOperandNext | include/expression.hpp:469-472 | once the first operand of an operator, comparison, pair, cons or assignment is a value, `Semantics.Step` steps exactly when the second one steps, replacing it with that step's result and store. |
| Semantics.OperatorOnLiterals | include/expression.hpp:81-85 | `Semantics.Step` of an operator on two literals yields the `ArithLit` result and leaves the store alone |
| Semantics.ComparisonOnLiterals | include/expression.hpp:100-104 | `Semantics.Step` of a comparison on two literals yields the `CompareLit` boolean and leaves the store alone |
| Semantics.SeqDropsValue | include/expression.hpp:487-490 | `Semantics.Step` of a sequence whose first part is a value yields the second part, store unchanged |
| Semantics.IfReducesGuardOnly | include/expression.hpp:207-209 | under `Semantics.Step`, a conditional steps only its guard. Once the guard is a boolean it yields the taken branch, unreduced. |
| Semantics.LetSubstitutes | include/expression.hpp:224-228 | a `let` whose bound expression is a value `Semantics.Step`s to its body with the value substituted |
| Semantics.WhileUnrollsTemplate | include/expression.hpp:505-512 | a loop unrolls to a conditional whose next round is a loop over the template body, never over the current one. |
| Semantics.RefAllocates | include/expression.hpp:414-416 | `ref v` appends `v` as a new cell and yields its address |
| Semantics.DerefReads | include/expression.hpp:452-454 | `!p` reads a live cell and changes nothing; a dead address gets stuck |
| Semantics.AssignWrites | include/expression.hpp:469-472 | `p := v` on a live cell overwrites that cell only and yields unit |
| Evaluation.Run | include/expression.hpp:15 | a run ends at a value, or at a non-value no rule applies to, or with fuel spent on a non-value. A value runs to itself. |
| Evaluation.Evaluate | include/expression.hpp:15 | the stepping loop computes exactly `Run` |
| Evaluation.StepWithKeepsStore | include/expression.hpp:23 | the language's step never shrinks the store |
| Evaluation.RunKeepsStore | include/expression.hpp:15 | a whole run never shrinks the store |
| Evaluation.RunMoreFuel | include/expression.hpp:15 | extra fuel does not change a run that already ended |
| Evaluation.LetRunsAsSubstitution | include/expression.hpp:224-228 | running `let x = v in b` is running `b` with `v` substituted, one step later |
| Addresses.SubstitutePtrsBelow | include/expression.hpp:23-24 | `Substitution.Substitute` mentions no address beyond those of the term and the replacement, so the `let` rule brings in no dead address |
| Addresses.StepKeepsLive | include/expression.hpp:414-479 | a `Semantics.Step` from a live configuration, where every address in the term and in every cell is below the store's length, leads to a live configuration. `ref` hands out exactly the next address, and every other rule reuses addresses already present. |
| Addresses.RunKeeps | include/expression.hpp:23 | whatever invariant the step function keeps from one configuration to the next, a whole `Evaluation.Run` keeps at the configuration it ends at |
| Addresses.RunKeepsLive | include/expression.hpp:431-445 | every `Evaluation.Run` from a live configuration ends live, at any fuel, so every address stays a cell of the store at every later point of the run |
| Addresses.PointerFreeRunsLive | include/expression.hpp:431-445 | a program that mentions no address, run from the empty store, stays live throughout |
| Addresses.LiveDerefReads | include/expression.hpp:452-461 | in a live configuration `!p` on an address reads its cell: the address is below the store's length, and the dead-address stuck case of `Semantics.DerefReads` does not arise |
| Addresses.LiveAssignWrites | include/expression.hpp:469-479 | in a live configuration `p := v` on an address overwrites its cell, and the result is live |
| Typing.ContextAgreement | include/expression.hpp:26 | `Typing.Typecheck` depends on the context only through the names the term looks up, so bindings that scopes inside the term make or shadow do not matter. |
| Typing.ClosedTermsCheckAlike | include/expression.hpp:26 | a term that looks up no name gets the same `Typing.Typecheck` answer in every context |
| Typing.UnneededBindingIgnored | include/expression.hpp:26 | binding a name the term does not look up changes nothing in `Typing.Typecheck` |
| Typing.SameIsEquality | include/type.hpp:13 | the branch comparison of a conditional (`Typing.Same`, `operator==` on plain types and field by field on records) holds exactly when the two answers are equal |
| Scenarios.CheckConditional | include/expression.hpp:207-217 | `Typing.Typecheck` gives `if true then 1 else 2` the type Int |
| Scenarios.CheckOperandMismatch | include/type.hpp:10-11 | `1 + (1, 2)` is a type error naming the pair, Int as expected and Pair(Int, Int) as actual. |
| Scenarios.ScopesDoNotLeak | include/expression.hpp:224-235 | the context is passed by value, so a `let` binding is not visible to the next component of a pair. |
| Scenarios.FieldNamesAreNotBound | include/expression.hpp:543-553 | a struct literal's field names are not in scope in its fields: `{a = a}` in the empty context fails `Typing.Typecheck` on the unbound `a` |
| Scenarios.FieldsSeeEnclosingContext | include/expression.hpp:543-553 | a struct field is checked in the enclosing context: with `a: Int` bound outside, `{a = a}` checks to its declared field types |
| Scenarios.EvaluateConditional | include/expression.hpp:15 | `if true then 1 else 2` evaluates to 1 |
| Scenarios.EvaluateLet | include/expression.hpp:224-228 | `let x: Int = 3 in x + 4` evaluates to 7 |
| Scenarios.EvaluateDivisionByZero | include/expression.hpp:119-122 | `1 / 0` evaluates to the integer NaN marker |
| Scenarios.EvaluateCounter | include/expression.hpp:469-472 | `let p = ref 0 in (p := !p + 1; !p)` evaluates to 1 with a store of one cell holding 1: the assignment reads the cell, adds, writes back, and the final read sees the write. |
| Scenarios.LoopRound | include/expression.hpp:505-512 | in `while !r < 1 do r := !r + 1`, a round with the cell at 0 takes 8 steps, changes the cell to 1 exactly once and comes back to the same loop term over the template body: for every fuel, running the loop with 8 more steps from the old store equals running it from the new store (`Scenarios.Leads`). |
| Scenarios.LoopExits | include/expression.hpp:505-512 | with the cell at 1 the same loop finishes, and the final read yields 1 with the store unchanged |
| Scenarios.EvaluateCounterLoop | include/expression.hpp:505-512 | `let r = ref 0 in (while !r < 1 do r := !r + 1; !r)` evaluates to 1 with a store of one cell holding 1 |
| Scenarios.EvaluateFalseLoop | include/expression.hpp:505-512 | `while false do ()` evaluates to unit |

## Left out

- `convert()` and the target tree `cexp` it builds are not part of this model. They feed a backend whose definition is not part of this model.
- The textual renderings `string_of_exp`, `get_type` and `get_NaN`, and the `print_step` tracing of `evaluate`, are left out. They are output formatting, and their bodies are not part of this model.
- Process termination is not modelled. A wrong-kind accessor and `type_error` end the process; here that is `None` or an error result.
- A type error carries the checked expression and structured expected and actual answers rather than the three strings `type_error` receives. The strings are renderings, left out above.
- Double arithmetic is not modelled. A double's payload is an opaque 64-bit pattern, and arithmetic, comparison, the zero test and the int-to-double conversion are a parameter (`FloatOps`).
- The definitions of `Shared_Exp`, `context_t`, `struct_data_t`, `struct_type_t` and `TokenKind`, and the store, are not part of this model. They are modelled as trees, maps, a sequence of cells and operator enumerations.
- Calls and top-level definitions have no reduction rules. Resolving a call needs the global function table, which is not part of this model. A call reduces its arguments and then gets stuck, and a definition is stuck.
- `Evaluation.Evaluate`: takes a step bound (`fuel`) that the source does not have. The source's `evaluate` loops forever on a diverging program; here running out of fuel is its own outcome, `OutOfFuel`.
- `Syntax.IsValue`: the variable class overrides `is_value`, but its answer is not stated. This model takes a variable not to be a value, which a closed program never reaches.
- `Semantics.StepStoreEffect`: addresses are unbounded naturals, not `size_t`. The store is never exhausted.
- `MachineInt.Wrap`: C++ leaves signed overflow undefined. The model takes the two's-complement wrap-around of the usual targets. This includes `INT_MIN / -1` and `INT_MIN % -1`, which trap on x86 (SIGFPE); here they give `INT_MIN` and 0 (`Semantics.MinDivMinusOne`).
- `Semantics.Step`: how a struct literal stores its fields (`struct_data_t`) is not part of this model, and `include/type.hpp` pulls in `<unordered_map>`. The model assumes the fields are reduced in increasing order of their names. The order is observable: `ref` fields get their addresses in that order.
- `Typing.Typecheck`: the type model has no struct type. A struct literal checks to its field types (`Record`), which only field access consumes.
- `Typing.Typecheck`: struct fields are checked in the enclosing context, unextended (`Scenarios.FieldNamesAreNotBound`, `Scenarios.FieldsSeeEnclosingContext`). The headers do not say whether a struct field's scope binds a name, or to what; this model binds none. Nothing in the model would give such a name a value: `Semantics.Step` reduces fields without binding anything, and `Substitution.Substitute` goes into every field without shielding. Binding the field names would let well-typed programs get stuck on unbound variables.
- Type soundness (progress and preservation) is not proved. The reduction and typing rules are a design model. Calls and `car` or `cdr` of an empty list get stuck, and the checker has no store typing for `EPtr`. A dead address also gets stuck, but only from a configuration that is not live (`Addresses.Live`), which no run from a pointer-free program reaches (`Addresses.PointerFreeRunsLive`).
- Substitution does not avoid capture. Where a replacement with free names meets a binder of the same name, the name is captured; `Substitution.NoCaptureAvoidance` shows a case.
