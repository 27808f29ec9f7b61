/**
 Live addresses, a design model.

 The store only grows and cells are never freed, so an address, once handed
 out by `ref`, names a cell for the rest of the run. The invariant below says
 more: every address a configuration mentions, in the term being run or in
 any cell of the store, is a cell of that store. A program without pointers
 starts out live, `Step` keeps it live, and so does a whole run; in a live
 configuration a dereference or an assignment never meets a dead address.
 */
module Addresses {
  import opened Wrappers
  import opened Syntax
  import opened Shape
  import opened Substitution
  import opened FieldOrder
  import opened Semantics
  import opened Evaluation

  /** Every address `e` mentions is below `n`. */
  predicate PtrsBelow(e: Exp, n: nat) {
    if e.EPtr? then e.n < n
    else if e.EStruct? then forall k :: k in e.fields ==> PtrsBelow(e.fields[k], n)
    else forall i :: 0 <= i < |Children(e)| ==> PtrsBelow(Children(e)[i], n)
  }

  /** Every address in the term and in every cell is a cell of the store. */
  predicate Live(e: Exp, s: Store) {
    PtrsBelow(e, |s|) && forall i :: 0 <= i < |s| ==> PtrsBelow(s[i], |s|)
  }

  /** A node within the bound has every subexpression within it. */
  lemma ChildPtrsBelow(e: Exp, i: nat, n: nat)
    requires PtrsBelow(e, n) && i < |Children(e)|
    ensures PtrsBelow(Children(e)[i], n)
  {
  }

  /** A bound that holds still holds for a larger store. */
  lemma {:induction false} PtrsBelowGrows(e: Exp, n: nat, m: nat)
    requires PtrsBelow(e, n) && n <= m
    ensures PtrsBelow(e, m)
    decreases e
  {
    if e.EStruct? {
      forall k | k in e.fields ensures PtrsBelow(e.fields[k], m) {
        PtrsBelowGrows(e.fields[k], n, m);
      }
    } else if !e.EPtr? {
      var cs := Children(e);
      forall i | 0 <= i < |cs| ensures PtrsBelow(cs[i], m) {
        PtrsBelowGrows(cs[i], n, m);
      }
    }
  }

  /** A node rebuilt around subexpressions within the bound is within it. */
  lemma RebuildPtrsBelow(e: Exp, cs: seq<Exp>, n: nat)
    requires |cs| == |Children(e)| && !e.EPtr? && !e.EStruct?
    requires forall i :: 0 <= i < |cs| ==> PtrsBelow(cs[i], n)
    ensures PtrsBelow(WithChildren(e, cs), n)
  {
    RebuildShape(e, cs);
  }

  /** Substituting a replacement within the bound keeps the term within it. */
  lemma {:induction false} SubstitutePtrsBelow(e: Exp, x: string, r: Exp, n: nat)
    requires PtrsBelow(e, n) && PtrsBelow(r, n)
    ensures PtrsBelow(Substitute(e, x, r), n)
    decreases e, 1
  {
    if e.ELet? || e.EDef? {
      SubstituteBinderPtrs(e, x, r, n);
    } else if e.EStruct? {
      SubstituteStructPtrs(e, x, r, n);
    } else if !e.EVar? && !e.EPtr? {
      SubstituteNodePtrs(e, x, r, n);
    }
  }

  lemma {:induction false} SubstituteBinderPtrs(e: Exp, x: string, r: Exp, n: nat)
    requires (e.ELet? || e.EDef?) && PtrsBelow(e, n) && PtrsBelow(r, n)
    ensures PtrsBelow(Substitute(e, x, r), n)
    decreases e, 0
  {
    if e.ELet? {
      ChildPtrsBelow(e, 0, n);
      ChildPtrsBelow(e, 1, n);
      SubstitutePtrsBelow(e.e1, x, r, n);
      if e.x != x { SubstitutePtrsBelow(e.e2, x, r, n); }
    } else if e.id != x {
      ChildPtrsBelow(e, 0, n);
      SubstitutePtrsBelow(e.e, x, r, n);
    }
  }

  lemma {:induction false} SubstituteStructPtrs(e: Exp, x: string, r: Exp, n: nat)
    requires e.EStruct? && PtrsBelow(e, n) && PtrsBelow(r, n)
    ensures PtrsBelow(Substitute(e, x, r), n)
    decreases e, 0
  {
    var m := map k | k in e.fields :: Substitute(e.fields[k], x, r);
    forall k | k in m ensures PtrsBelow(m[k], n) {
      SubstitutePtrsBelow(e.fields[k], x, r, n);
    }
    assert Substitute(e, x, r) == EStruct(m, e.fieldTypes);
  }

  lemma {:induction false} SubstituteNodePtrs(e: Exp, x: string, r: Exp, n: nat)
    requires !e.ELet? && !e.EDef? && !e.EStruct? && !e.EVar? && !e.EPtr?
    requires PtrsBelow(e, n) && PtrsBelow(r, n)
    ensures PtrsBelow(Substitute(e, x, r), n)
    decreases e, 0
  {
    var cs := Children(e);
    var rs := SubstituteAll(cs, e, x, r);
    forall i | 0 <= i < |rs| ensures PtrsBelow(rs[i], n) {
      SubstitutePtrsBelow(cs[i], x, r, n);
    }
    RebuildPtrsBelow(e, rs, n);
  }

  /** The store-free rules build their result from the node's own parts and
      from fresh literals, so it mentions no new address. */
  lemma ContractPtrsBelow(e: Exp, fo: FloatOps, n: nat)
    requires PtrsBelow(e, n) && Contract(e, fo).Some?
    ensures PtrsBelow(Contract(e, fo).value, n)
  {
    if e.ELet? {
      ChildPtrsBelow(e, 0, n);
      ChildPtrsBelow(e, 1, n);
      SubstitutePtrsBelow(e.e2, e.x, e.e1, n);
    } else if e.EIf? || e.ESeq? {
      ContractPicksChild(e, fo, n);
    } else if e.EFst? || e.ESnd? || e.ECar? || e.EDot? {
      ContractPicksPart(e, fo, n);
    } else if e.ECons? || e.ECdr? {
      ContractBuildsList(e, fo, n);
    } else if e.EWhile? {
      ContractUnrolls(e, fo, n);
    }
  }

  /** A conditional or a sequence continues with one of its own children. */
  lemma ContractPicksChild(e: Exp, fo: FloatOps, n: nat)
    requires (e.EIf? || e.ESeq?) && PtrsBelow(e, n) && Contract(e, fo).Some?
    ensures PtrsBelow(Contract(e, fo).value, n)
  {
    ChildPtrsBelow(e, 1, n);
    if e.EIf? {
      ChildPtrsBelow(e, 2, n);
    }
  }

  /** A projection, `car` or field access continues with a part of its
      operand. */
  lemma ContractPicksPart(e: Exp, fo: FloatOps, n: nat)
    requires (e.EFst? || e.ESnd? || e.ECar? || e.EDot?) && PtrsBelow(e, n) && Contract(e, fo).Some?
    ensures PtrsBelow(Contract(e, fo).value, n)
  {
    var a := Children(e)[0];
    ChildPtrsBelow(e, 0, n);
    if e.EFst? {
      ChildPtrsBelow(a, 0, n);
    } else if e.ESnd? {
      ChildPtrsBelow(a, 1, n);
    } else if e.ECar? {
      ChildPtrsBelow(a, 0, n);
    }
  }

  /** `cons` and `cdr` build a list from elements already present. */
  lemma ContractBuildsList(e: Exp, fo: FloatOps, n: nat)
    requires (e.ECons? || e.ECdr?) && PtrsBelow(e, n) && Contract(e, fo).Some?
    ensures PtrsBelow(Contract(e, fo).value, n)
  {
    if e.ECons? {
      var l := e.e2;
      ChildPtrsBelow(e, 0, n);
      ChildPtrsBelow(e, 1, n);
      var es := [e.e1] + l.elems;
      forall i | 0 <= i < |es| ensures PtrsBelow(es[i], n) {
        if i > 0 {
          assert es[i] == Children(l)[i - 1];
          ChildPtrsBelow(l, i - 1, n);
        }
      }
      assert Children(EList(es, l.t)) == es;
    } else {
      var l := e.e;
      ChildPtrsBelow(e, 0, n);
      var es := l.elems[1..];
      forall i | 0 <= i < |es| ensures PtrsBelow(es[i], n) {
        assert es[i] == Children(l)[i + 1];
        ChildPtrsBelow(l, i + 1, n);
      }
      assert Children(EList(es, l.t)) == es;
    }
  }

  /** A loop unrolls into its own guard, body and template. */
  lemma ContractUnrolls(e: Exp, fo: FloatOps, n: nat)
    requires e.EWhile? && PtrsBelow(e, n)
    ensures PtrsBelow(Contract(e, fo).value, n)
  {
    ChildPtrsBelow(e, 0, n);
    ChildPtrsBelow(e, 1, n);
    ChildPtrsBelow(e, 2, n);
    var loop := EWhile(e.e1, e.eTemp, e.eTemp);
    assert PtrsBelow(loop, n) by { assert Children(loop) == [e.e1, e.eTemp, e.eTemp]; }
    assert PtrsBelow(ESeq(e.e2, loop), n) by { assert Children(ESeq(e.e2, loop)) == [e.e2, loop]; }
    var round := EIf(e.e1, ESeq(e.e2, loop), EUnit);
    assert Children(round) == [e.e1, ESeq(e.e2, loop), EUnit];
    assert Contract(e, fo).value == round;
  }

  /** The node rules keep a configuration live: allocation hands out the next
      address and stores a value within the old bound, dereference returns a
      live cell, assignment stores a value within the bound. */
  lemma ReduceKeepsLive(e: Exp, s: Store, fo: FloatOps)
    requires Live(e, s) && !e.EStruct? && Reduce(e, s, fo).Some?
    ensures Live(Reduce(e, s, fo).value.e, Reduce(e, s, fo).value.store)
  {
    var c := Reduce(e, s, fo).value;
    if e.ERef? {
      ChildPtrsBelow(e, 0, |s|);
      forall i | 0 <= i < |c.store| ensures PtrsBelow(c.store[i], |c.store|) {
        if i < |s| {
          PtrsBelowGrows(s[i], |s|, |c.store|);
        } else {
          PtrsBelowGrows(e.e, |s|, |c.store|);
        }
      }
    } else if e.EDeref? {
    } else if e.EAssign? {
      ChildPtrsBelow(e, 1, |s|);
      forall i | 0 <= i < |c.store| ensures PtrsBelow(c.store[i], |c.store|) {
      }
    } else {
      ContractPtrsBelow(e, fo, |s|);
    }
  }

  /** `Step` keeps a configuration live. */
  lemma {:induction false} StepKeepsLive(e: Exp, s: Store, fo: FloatOps)
    requires Live(e, s) && Step(e, s, fo).Some?
    ensures Live(Step(e, s, fo).value.e, Step(e, s, fo).value.store)
    decreases e, 1
  {
    if e.EStruct? {
      LiveStruct(e, s, fo);
    } else if FirstPending(Children(e), Strict(e)) < Strict(e) {
      LiveInner(e, s, fo);
    } else {
      ReduceKeepsLive(e, s, fo);
    }
  }

  lemma {:induction false} LiveStruct(e: Exp, s: Store, fo: FloatOps)
    requires e.EStruct? && Live(e, s) && Step(e, s, fo).Some?
    ensures Live(Step(e, s, fo).value.e, Step(e, s, fo).value.store)
    decreases e, 0
  {
    var k := Least(PendingFields(e.fields));
    var c := Step(e.fields[k], s, fo).value;
    StepKeepsLive(e.fields[k], s, fo);
    StepStoreEffect(e.fields[k], s, fo);
    var m := e.fields[k := c.e];
    forall j | j in m ensures PtrsBelow(m[j], |c.store|) {
      if j != k { PtrsBelowGrows(e.fields[j], |s|, |c.store|); }
    }
    assert Step(e, s, fo).value == Config(EStruct(m, e.fieldTypes), c.store);
  }

  lemma {:induction false} LiveInner(e: Exp, s: Store, fo: FloatOps)
    requires !e.EStruct? && Live(e, s) && Step(e, s, fo).Some?
    requires FirstPending(Children(e), Strict(e)) < Strict(e)
    ensures Live(Step(e, s, fo).value.e, Step(e, s, fo).value.store)
    decreases e, 0
  {
    var cs := Children(e);
    var i := FirstPending(cs, Strict(e));
    var c := Step(cs[i], s, fo).value;
    StepKeepsLive(cs[i], s, fo);
    StepStoreEffect(cs[i], s, fo);
    var cs' := cs[i := c.e];
    forall j | 0 <= j < |cs'| ensures PtrsBelow(cs'[j], |c.store|) {
      if j != i { PtrsBelowGrows(cs[j], |s|, |c.store|); }
    }
    RebuildPtrsBelow(e, cs', |c.store|);
    assert Step(e, s, fo).value == Config(WithChildren(e, cs'), c.store);
  }

  /** The term a run ends at: its value, or the term it stopped at. */
  function Final(o: Outcome): (e: Exp)
    ensures o.Done? ==> e == o.value
    ensures !o.Done? ==> e == o.e
  {
    if o.Done? then o.value else o.e
  }

  /** The step function keeps `inv` from one configuration to the next. */
  ghost predicate Keeps(step: Stepper, inv: (Exp, Store) -> bool) {
    forall e, s :: inv(e, s) && step(e, s).Some? ==> inv(step(e, s).value.e, step(e, s).value.store)
  }

  /** What a step function keeps, a whole run keeps. */
  lemma {:induction false} RunKeeps(step: Stepper, inv: (Exp, Store) -> bool, e: Exp, s: Store, fuel: nat)
    requires Keeps(step, inv) && inv(e, s)
    ensures inv(Final(Run(step, e, s, fuel)), Run(step, e, s, fuel).store)
    decreases fuel
  {
    if !IsValue(e) && fuel > 0 && step(e, s).Some? {
      var c := step(e, s).value;
      RunKeeps(step, inv, c.e, c.store, fuel - 1);
    }
  }

  /** The language's step function keeps configurations live. */
  lemma StepWithKeepsLive(fo: FloatOps)
    ensures Keeps(StepWith(fo), (e, s) => Live(e, s))
  {
    forall e, s | Live(e, s) && StepWith(fo)(e, s).Some?
      ensures Live(StepWith(fo)(e, s).value.e, StepWith(fo)(e, s).value.store)
    {
      StepKeepsLive(e, s, fo);
    }
  }

  /** A whole run keeps a configuration live: at every point of the run, each
      address it mentions is a cell of the store. */
  lemma RunKeepsLive(e: Exp, s: Store, fuel: nat, fo: FloatOps)
    requires Live(e, s)
    ensures Live(Final(Run(StepWith(fo), e, s, fuel)), Run(StepWith(fo), e, s, fuel).store)
  {
    StepWithKeepsLive(fo);
    RunKeeps(StepWith(fo), (e, s) => Live(e, s), e, s, fuel);
  }

  /** A program that mentions no address, run from the empty store, stays
      live throughout. */
  lemma PointerFreeRunsLive(e: Exp, fuel: nat, fo: FloatOps)
    requires PtrsBelow(e, 0)
    ensures Live(Final(Run(StepWith(fo), e, [], fuel)), Run(StepWith(fo), e, [], fuel).store)
  {
    RunKeepsLive(e, [], fuel, fo);
  }

  /** In a live configuration a dereference of an address reads its cell: the
      dead-address case never arises. */
  lemma LiveDerefReads(n: nat, s: Store, fo: FloatOps)
    requires Live(EDeref(EPtr(n)), s)
    ensures n < |s|
    ensures Step(EDeref(EPtr(n)), s, fo) == Some(Config(s[n], s))
  {
    ChildPtrsBelow(EDeref(EPtr(n)), 0, |s|);
    DerefReads(n, s, fo);
  }

  /** In a live configuration an assignment of a value to an address
      overwrites its cell and the result is live again. */
  lemma LiveAssignWrites(n: nat, v: Exp, s: Store, fo: FloatOps)
    requires Live(EAssign(EPtr(n), v), s) && IsValue(v)
    ensures n < |s|
    ensures Step(EAssign(EPtr(n), v), s, fo) == Some(Config(EUnit, s[n := v]))
    ensures Live(EUnit, s[n := v])
  {
    ChildPtrsBelow(EAssign(EPtr(n), v), 0, |s|);
    AssignWrites(n, v, s, fo);
    StepKeepsLive(EAssign(EPtr(n), v), s, fo);
  }
}
