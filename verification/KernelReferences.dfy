/**
 From the kernel's BTF to the patched program: the id that resolution finds for a typed extern is that
 of the kernel's own type of that name, built like the declaration, and it is this id that the patched
 instructions carry.
 */
module KernelReferences {
  import opened Instructions
  import opened Btf
  import opened KernelLookup
  import opened Externs
  import P = Patching
  import T = TypeCompatibility
  import A = TypeAgreement
  import O = PatchingOrder
  import S = PatchedSlots

  /**
   The kernel's type with this id is what the extern declares: the first function or variable with the
   name it is looked for under, of a type that is built like the declared one all the way down.
   */
  ghost predicate IsDeclared(obj: Btf, kernel: Btf, name: string, ext: ExternDesc, id: TypeId) {
    && ext.typeId.Some? && SoughtAs(obj, ext.btfId, name).Some?
    && var (wanted, kind) := SoughtAs(obj, ext.btfId, name).value;
       && Named(kernel, wanted, kind, id) && (kernel.types[id].Func? || kernel.types[id].Var?)
       && (forall j: TypeId :: j < id && kernel.types[j].Kind() == kind ==> NamedElse(kernel, wanted, kind, j))
       && A.Alike(obj, ext.typeId.value, kernel, kernel.types[id].btfType)
  }

  lemma FoundIsDeclared(obj: Btf, kernel: Btf, rank: nat -> nat, name: string, ext: ExternDesc, id: TypeId)
    requires T.ParamsEnd(obj, rank) && ext.typeId.Some?
    requires LookupOf(obj, kernel, rank, name, ext.btfId, ext.typeId.value) == Found(id)
    ensures IsDeclared(obj, kernel, name, ext, id)
  {
    hide T.ParamsEnd, T.Compatible, A.Alike, LookupOf, SoughtAs, NamedElse;
    FoundExactly(obj, kernel, rank, name, ext.btfId, ext.typeId.value, id);
    var (wanted, kind) := SoughtAs(obj, ext.btfId, name).value;
    NamedKind(kernel, wanted, kind, id);
    A.CompatibleExact(obj, ext.typeId.value, kernel, kernel.types[id].btfType, rank);
  }

  /** An extern that nothing is known of yet. */
  predicate IsNew(ext: ExternDesc) {
    !ext.isResolved && ext.kernelBtfId.None? && ext.ksymAddr.None?
  }

  /**
   A typed extern ends up resolved exactly when the kernel's BTF has it, with that id; otherwise it is
   weak, has no id, and the null address.
   */
  lemma TypedResolution(obj: Btf, kernel: Btf, rank: nat -> nat, was: Table, strongTyped: bool, kallsyms: seq<Line>,
                        name: string)
    requires T.ParamsEnd(obj, rank) && ResolvableFrom(was, strongTyped, InSome(obj, Some(kernel), rank), kallsyms)
    requires name in was && was[name].typeId.Some? && IsNew(was[name])
    ensures
      var now := Final(was, InSome(obj, Some(kernel), rank), kallsyms, name);
      match LookupOf(obj, kernel, rank, name, was[name].btfId, was[name].typeId.value)
      case Found(id) =>
        now == was[name].(isResolved := true, kernelBtfId := Some(id)) && IsDeclared(obj, kernel, name, was[name], id)
      case _ => now == was[name].(ksymAddr := Some(0)) && now.isWeak
  {
    hide T.ParamsEnd, LookupOf, IsDeclared, KallsymsOk;
    var lookup := InKernel(obj, kernel, rank);
    LookedUp(obj, kernel, rank, name, was[name]);
    assert TypedNameOk(was[name], lookup(name, was[name]));
    assert name !in Wanted(TypedAfter(was, lookup));
    match LookupOf(obj, kernel, rank, name, was[name].btfId, was[name].typeId.value)
    case Found(id) => FoundIsDeclared(obj, kernel, rank, name, was[name], id);
    case _ =>
  }

  /**
   An extern without a type ends up with an address that a line of kallsyms gives it, or, when it is
   weak and no line does, with the null address; it never has an id.
   */
  lemma UntypedResolution(kernel: Option<(string, ExternDesc) -> Lookup>, was: Table, strongTyped: bool, kallsyms: seq<Line>,
                          name: string)
    requires ResolvableFrom(was, strongTyped, kernel, kallsyms)
    requires name in was && was[name].typeId.None? && IsNew(was[name])
    ensures
      var now := Final(was, kernel, kallsyms, name);
      && now == was[name].(isResolved := now.isResolved, ksymAddr := now.ksymAddr) && now.ksymAddr.Some?
      && if now.isResolved then exists l :: l in kallsyms && Gives(l, name, now.ksymAddr.value)
         else was[name].isWeak && now.ksymAddr == Some(0) && forall l, a :: l in kallsyms ==> !Gives(l, name, a)
  {
    hide Readable, Unambiguous, FirstAddress;
    var after := AfterBtf(was, kernel);
    assert after[name] == was[name];
    assert name in Wanted(after);
    assert name in TableAfter(after, Wanted(after), kallsyms);
    FirstAddressGiven(kallsyms, name);
  }

  predicate Untyped(was: Table, name: string) {
    name in was && was[name].typeId.None?
  }

  /** Kallsyms can be used: wanted names have addresses that can be read, no two different ones, and strong ones have one. */
  ghost predicate AddressesFor(was: Table, kallsyms: seq<Line>) {
    && (forall l :: l in kallsyms && l.Symbol? && Untyped(was, l.name) ==> l.address.Some?)
    && (forall k, l, name, a, b :: k in kallsyms && l in kallsyms && Untyped(was, name) && Gives(k, name, a) && Gives(l, name, b) ==>
          a == b)
    && forall name :: Untyped(was, name) && !was[name].isWeak ==> exists l, a :: l in kallsyms && Gives(l, name, a)
  }

  /** The kernel's BTF can be used: it has every strong typed extern, and no weak one breaks the comparison. */
  ghost predicate TypesFor(was: Table, lookup: (string, ExternDesc) -> Lookup) {
    forall name :: name in was && was[name].typeId.Some? ==>
      match lookup(name, was[name])
      case Found(_) => true
      case Broken => false
      case _ => was[name].isWeak
  }

  /**
   All externs can be resolved exactly when the kernel's BTF has what it must have, or is not needed,
   and kallsyms has what it must have, when there is an extern without a type.
   */
  lemma ResolvableExactly(was: Table, strongTyped: bool, kernel: Option<(string, ExternDesc) -> Lookup>, kallsyms: seq<Line>)
    requires forall name :: name in was ==> IsNew(was[name])
    requires forall name :: name in was && was[name].typeId.Some? && !was[name].isWeak ==> strongTyped
    ensures ResolvableFrom(was, strongTyped, kernel, kallsyms) <==>
      && (if kernel.Some? then TypesFor(was, kernel.value) else !strongTyped)
      && ((exists name :: Untyped(was, name)) ==> AddressesFor(was, kallsyms))
  {
    hide KallsymsOk, TypesFor, AddressesFor, TableAfter;
    if kernel.Some? {
      TypesExactly(was, kernel.value);
    }
    if if kernel.Some? then TypesFor(was, kernel.value) else !strongTyped {
      var after := AfterBtf(was, kernel);
      assert forall name :: name in Wanted(after) <==> Untyped(was, name);
      if Wanted(after) != {} {
        assert forall name :: name in after ==> Untyped(was, name) || after[name].isResolved || after[name].isWeak by {
          TypedDone(was, strongTyped, kernel);
        }
        AddressesExactly(was, after, kallsyms);
      }
    }
  }

  lemma TypesExactly(was: Table, lookup: (string, ExternDesc) -> Lookup)
    ensures TypedOk(was, lookup) <==> TypesFor(was, lookup)
  {
    if TypedOk(was, lookup) {
      forall name | name in was && was[name].typeId.Some?
        ensures match lookup(name, was[name])
                case Found(_) => true
                case Broken => false
                case _ => was[name].isWeak
      {
        assert TypedNameOk(was[name], lookup(name, was[name]));
      }
    }
  }

  lemma TypedDone(was: Table, strongTyped: bool, kernel: Option<(string, ExternDesc) -> Lookup>)
    requires forall name :: name in was && was[name].typeId.Some? && !was[name].isWeak ==> strongTyped
    requires if kernel.Some? then TypesFor(was, kernel.value) else !strongTyped
    ensures
      var after := AfterBtf(was, kernel);
      after.Keys == was.Keys
      && forall name :: name in after ==> Untyped(was, name) || after[name].isResolved || after[name].isWeak
  {
  }

  lemma AddressesExactly(was: Table, after: Table, kallsyms: seq<Line>)
    requires after.Keys == was.Keys && forall name :: Untyped(was, name) ==> after[name] == was[name] && IsNew(was[name])
    requires forall name :: name in Wanted(after) <==> Untyped(was, name)
    requires forall name :: name in after ==> Untyped(was, name) || after[name].isResolved || after[name].isWeak
    ensures KallsymsOk(after, Wanted(after), kallsyms) <==> AddressesFor(was, kallsyms)
  {
    hide FirstAddress;
    var wanted := Wanted(after);
    assert Readable(wanted, kallsyms) <==>
      forall l :: l in kallsyms && l.Symbol? && Untyped(was, l.name) ==> l.address.Some?;
    UnambiguousExactly(was, after, kallsyms);
    var table := TableAfter(after, wanted, kallsyms);
    forall name | name in after
      ensures table[name].isResolved || table[name].isWeak <==>
        (Untyped(was, name) && !was[name].isWeak ==> exists l, a :: l in kallsyms && Gives(l, name, a))
    {
      FirstAddressGiven(kallsyms, name);
    }
    assert table.Keys == after.Keys;
  }

  lemma UnambiguousExactly(was: Table, after: Table, kallsyms: seq<Line>)
    requires after.Keys == was.Keys && forall name :: Untyped(was, name) ==> after[name] == was[name] && IsNew(was[name])
    requires forall name :: name in Wanted(after) <==> Untyped(was, name)
    ensures Unambiguous(after, Wanted(after), kallsyms) <==>
      forall k, l, name, a, b :: k in kallsyms && l in kallsyms && Untyped(was, name) && Gives(k, name, a) && Gives(l, name, b) ==>
        a == b
  {
    var wanted := Wanted(after);
    if Unambiguous(after, wanted, kallsyms) {
      forall k, l, name, a, b | k in kallsyms && l in kallsyms && Untyped(was, name) && Gives(k, name, a) && Gives(l, name, b)
        ensures a == b
      {
        assert name in wanted;
        assert AgreesWithAll(after[name], kallsyms, name, a);
      }
    }
  }

  /**
   A call of a kernel function that was found: after resolution and the whole pass, the instruction is
   a kernel function call with the id of the kernel's type.
   */
  lemma CallCarriesId(obj: Btf, kernel: Btf, rank: nat -> nat, was: Table, strongTyped: bool, kallsyms: seq<Line>,
                      pass: P.Pass, start: nat, code: seq<Insn>, rels: seq<P.Relocation>, k: nat, name: string)
    requires T.ParamsEnd(obj, rank) && ResolvableFrom(was, strongTyped, InSome(obj, Some(kernel), rank), kallsyms)
    requires name in was && was[name].typeId.Some? && IsNew(was[name])
    requires pass.Kernel? && name in pass.externs
    requires pass.externs[name] == Final(was, InSome(obj, Some(kernel), rank), kallsyms, name)
    requires O.Distinct(rels) && P.Steps(pass, start, code, rels).Done? && k < |rels|
    requires P.Covers(start, |code|, rels[k]) && P.Aligned(start, rels[k])
    requires S.NamesExtern(pass, rels[k], name, pass.externs[name]) && S.NotOverlapped(pass, start, code, rels[k + 1..], rels[k])
    ensures
      var at, now := P.SlotIndex(start, rels[k]), P.Steps(pass, start, code, rels).value;
      match LookupOf(obj, kernel, rank, name, was[name].btfId, was[name].typeId.value)
      case Found(id) =>
        && IsDeclared(obj, kernel, name, was[name], id)
        && WrapU32(now[at].imm) == WrapU32(id)
        && (if code[at].code == CALL then now[at].src == BPF_PSEUDO_KFUNC_CALL && now[at].off == 0
            else now[at].src == BPF_PSEUDO_BTF_ID)
      case _ =>
        && was[name].isWeak && now[at].src == 0
        && if code[at].code == CALL then
             && now[at] == Insn(CALL, 0, 0, 0, now[at].imm)
             && WrapU32(now[at].imm) == WrapU32(2002000000 + rels[k].symbolIndex)
           else
             && at + 1 < |code| && WrapU32(now[at].imm) == 0
             && (S.SecondFree(pass, start, code, rels[k + 1..], rels[k]) ==> WrapU32(now[at + 1].imm) == 0)
  {
    hide T.ParamsEnd, LookupOf, IsDeclared, ResolvableFrom, Final, P.Steps, S.NotOverlapped, S.SecondFree, O.Distinct,
      S.NamesExtern, WrapI32;
    TypedResolution(obj, kernel, rank, was, strongTyped, kallsyms, name);
    var at := P.SlotIndex(start, rels[k]);
    S.NullWord();
    if code[at].code == CALL {
      S.KfuncCalled(pass, start, code, rels, k, name, pass.externs[name]);
    } else {
      S.KsymLoaded(pass, start, code, rels, k, name, pass.externs[name]);
    }
  }
}
