/**
 What a whole pass leaves in the slots of one relocation, whatever the other relocations are: what a
 reference to a map or to an extern kernel symbol turns into, and when a relocation on a neighbouring
 slot changes that.
 */
module PatchedSlots {
  import opened Instructions
  import opened Patching
  import opened PatchingProperties
  import opened PatchingOrder
  import E = Externs
  import L = Linker

  // ---------- one relocation among others ----------

  /** Relocations that write other slots leave a slot alone. */
  lemma {:induction false} SlotKept(pass: Pass, start: nat, code: seq<Insn>, front: seq<Relocation>,
                                    rest: seq<Relocation>, i: nat)
    requires Distinct(front + rest) && Steps(pass, start, code, front + rest).Done? && i < |code|
    requires forall q :: q in rest ==> !WritesOwn(pass, start, code, q, i) && !WritesNext(pass, start, code, q, i)
    ensures Steps(pass, start, code, front).Done?
    ensures Steps(pass, start, code, front + rest).value[i] == Steps(pass, start, code, front).value[i]
    decreases |rest|
  {
    hide Step, Distinct, EditOf, AllUpToImm;
    if rest == [] {
      assert front + rest == front;
    } else {
      var shorter, last := rest[..|rest| - 1], rest[|rest| - 1];
      var all := front + shorter;
      assert front + rest == all + [last];
      assert (all + [last])[..|all|] == all;
      DistinctFront(all, last);
      SlotKept(pass, start, code, front, shorter, i);
      SuccessExact(pass, start, code, all);
      LastKeeps(pass, start, code, all, last, Steps(pass, start, code, all).value, i);
    }
  }

  lemma LastKeeps(pass: Pass, start: nat, code: seq<Insn>, rels: seq<Relocation>, rel: Relocation, sofar: seq<Insn>, i: nat)
    requires Distinct(rels + [rel]) && AllUpToImm(pass, start, code, rels, sofar) && i < |code|
    requires Step(pass, start, sofar, rel).Done?
    requires !WritesOwn(pass, start, code, rel, i) && !WritesNext(pass, start, code, rel, i)
    ensures Step(pass, start, sofar, rel).value[i] == sofar[i]
  {
    hide EditOf, AllUpToImm;
    assert |sofar| == |code| by { UpToImmLength(pass, start, code, rels, sofar); }
    if Covers(start, |code|, rel) && Aligned(start, rel) {
      SameButNext(pass, start, code, rels, rel, sofar);
    }
  }

  lemma UpToImmLength(pass: Pass, start: nat, code: seq<Insn>, rels: seq<Relocation>, sofar: seq<Insn>)
    requires AllUpToImm(pass, start, code, rels, sofar)
    ensures |sofar| == |code|
  {
  }

  /** No relocation before, or after, the one at `k` sets the immediate of its slot. */
  ghost predicate NotOverlapped(pass: Pass, start: nat, code: seq<Insn>, others: seq<Relocation>, r: Relocation) {
    forall q :: q in others ==> !Overlaps(pass, start, code, q, r)
  }

  /** None of them writes the slot after the relocation's. */
  ghost predicate SecondFree(pass: Pass, start: nat, code: seq<Insn>, others: seq<Relocation>, r: Relocation) {
    forall q :: q in others && q.offset == r.offset + INS_SIZE ==> !OriginalEdit(pass, start, code, q).Write?
  }

  /** The instruction the relocation finds: the original one, unless an overlapping load came before. */
  lemma FoundByPass(pass: Pass, start: nat, code: seq<Insn>, rels: seq<Relocation>, k: nat)
    requires Distinct(rels) && Steps(pass, start, code, rels).Done? && k < |rels|
    requires Covers(start, |code|, rels[k]) && Aligned(start, rels[k])
    ensures Steps(pass, start, code, rels[..k]).Done?
    ensures
      var at, sofar := SlotIndex(start, rels[k]), Steps(pass, start, code, rels[..k]).value;
      && sofar[at] == code[at].(imm := sofar[at].imm)
      && (NotOverlapped(pass, start, code, rels[..k], rels[k]) ==> sofar[at] == code[at])
  {
    hide Step, Steps, EditOf, UpToImm, Distinct;
    var r, front, at := rels[k], rels[..k], SlotIndex(start, rels[k]);
    assert r.offset == start + at * INS_SIZE;
    assert rels == front + rels[k..];
    FrontDistinct(rels, k);
    FrontDone(pass, start, code, rels, k);
    SuccessExact(pass, start, code, front);
    var sofar := Steps(pass, start, code, front).value;
    assert UpToImm(pass, start, code, front, at, sofar[at]);
    assert forall q :: q in front ==> q.offset != r.offset;
    NoOwner(pass, start, code, front, at, sofar[at]);
    if NotOverlapped(pass, start, code, front, r) {
      assert [] + front == front;
      NothingFirst(pass, start, code);
      SlotKept(pass, start, code, [], front, at);
    }
  }

  lemma NothingFirst(pass: Pass, start: nat, code: seq<Insn>)
    ensures Steps(pass, start, code, []) == Done(code)
  {
  }

  lemma NoOwner(pass: Pass, start: nat, code: seq<Insn>, rels: seq<Relocation>, i: nat, now: Insn)
    requires i < |code| && UpToImm(pass, start, code, rels, i, now)
    requires forall q :: q in rels ==> q.offset != start + i * INS_SIZE
    ensures now == code[i].(imm := now.imm)
  {
    hide OriginalEdit;
  }

  lemma FrontDistinct(rels: seq<Relocation>, k: nat)
    requires Distinct(rels) && k < |rels|
    ensures Distinct(rels[..k]) && Distinct(rels[..k + 1])
    ensures forall q :: q in rels[..k] || q in rels[k + 1..] ==> q.offset != rels[k].offset
  {
  }

  lemma FrontDone(pass: Pass, start: nat, code: seq<Insn>, rels: seq<Relocation>, k: nat)
    requires Steps(pass, start, code, rels).Done? && k <= |rels|
    ensures Steps(pass, start, code, rels[..k]).Done?
  {
    hide Step;
    FailureStays(pass, start, code, rels, k);
  }

  /**
   What the relocation at `k` writes is there at the end: in its own slot, unless a later load overlaps
   it; in the second slot, unless a later relocation sits on it.
   */
  lemma LeftByPass(pass: Pass, start: nat, code: seq<Insn>, rels: seq<Relocation>, k: nat)
    requires Distinct(rels) && Steps(pass, start, code, rels).Done? && k < |rels|
    requires OriginalEdit(pass, start, code, rels[k]).Write?
    ensures Steps(pass, start, code, rels[..k]).Done?
    ensures
      var at, now := SlotIndex(start, rels[k]), Steps(pass, start, code, rels).value;
      var edit := EditOf(pass, rels[k], Steps(pass, start, code, rels[..k]).value[at]);
      && edit.Write? && edit.ins == OriginalEdit(pass, start, code, rels[k]).ins
      && now[at] == edit.ins.(imm := now[at].imm)
      && (NotOverlapped(pass, start, code, rels[k + 1..], rels[k]) ==> now[at] == edit.ins)
      && (edit.nextImm.Some? ==>
            && at + 1 < |code|
            && (SecondFree(pass, start, code, rels[k + 1..], rels[k]) ==> now[at + 1].imm == edit.nextImm.value))
  {
    hide Steps, EditOf, UpToImm, Distinct;
    var r, front, rest, at := rels[k], rels[..k], rels[k + 1..], SlotIndex(start, rels[k]);
    assert r.offset == start + at * INS_SIZE;
    FrontDistinct(rels, k);
    FrontDone(pass, start, code, rels, k);
    FrontDone(pass, start, code, rels, k + 1);
    assert rels[..k + 1] == front + [r] && rels == (front + [r]) + rest;
    SuccessExact(pass, start, code, front);
    SuccessExact(pass, start, code, rels);
    var sofar, now := Steps(pass, start, code, front).value, Steps(pass, start, code, rels).value;
    SameButNext(pass, start, code, front, r, sofar);
    assert UpToImm(pass, start, code, rels, at, now[at]);
    OwnerRules(pass, start, code, rels, at, now[at], r);
    OneMore(pass, start, code, front, r);
    if NotOverlapped(pass, start, code, rest, r) {
      SlotKept(pass, start, code, front + [r], rest, at);
    }
    if EditOf(pass, r, sofar[at]).nextImm.Some? && SecondFree(pass, start, code, rest, r) {
      SlotKept(pass, start, code, front + [r], rest, at + 1);
    }
  }

  lemma OneMore(pass: Pass, start: nat, code: seq<Insn>, front: seq<Relocation>, r: Relocation)
    requires Steps(pass, start, code, front).Done?
    ensures Steps(pass, start, code, front + [r]) == Step(pass, start, Steps(pass, start, code, front).value, r)
  {
    hide Step;
    assert (front + [r])[..|front|] == front;
  }

  lemma OwnerRules(pass: Pass, start: nat, code: seq<Insn>, rels: seq<Relocation>, i: nat, now: Insn, r: Relocation)
    requires i < |code| && UpToImm(pass, start, code, rels, i, now) && r in rels && WritesOwn(pass, start, code, r, i)
    ensures now == OriginalEdit(pass, start, code, r).ins.(imm := now.imm)
  {
    hide OriginalEdit;
  }

  /** A later relocation on the second slot has the last word there. */
  lemma SecondTaken(pass: Pass, start: nat, code: seq<Insn>, rels: seq<Relocation>, k: nat, j: nat)
    requires Distinct(rels) && Steps(pass, start, code, rels).Done? && k < j < |rels|
    requires Overlaps(pass, start, code, rels[k], rels[j]) && OriginalEdit(pass, start, code, rels[j]).Write?
    ensures
      var at := SlotIndex(start, rels[j]);
      Steps(pass, start, code, rels).value[at] == OriginalEdit(pass, start, code, rels[j]).ins
  {
    hide Steps, EditOf;
    forall q | q in rels[j + 1..]
      ensures !Overlaps(pass, start, code, q, rels[j])
    {
      var i :| j < i < |rels| && rels[i] == q;
      assert rels[i].offset != rels[k].offset;
    }
    LeftByPass(pass, start, code, rels, j);
  }

  // ---------- references to maps ----------

  /** The map a relocation on this instruction refers to: the one of its symbol, or of the symbol's section. */
  predicate NamesMap(pass: Pass, rel: Relocation, ins: Insn, m: MapRef)
    requires pass.Maps?
  {
    && rel.symbolIndex in pass.symbols && pass.symbols[rel.symbolIndex].sectionIndex.Some?
    && !IsCall(ins) && pass.symbols[rel.symbolIndex].sectionIndex.value !in pass.textSections
    && var section := pass.symbols[rel.symbolIndex].sectionIndex.value;
       if rel.symbolIndex in pass.bySymbol then pass.bySymbol[rel.symbolIndex] == m
       else section in pass.bySection && pass.bySection[section] == m
  }

  /** The edit for a reference to a map, in the terms of the kernel. */
  lemma MapEdited(pass: Pass, rel: Relocation, ins: Insn, m: MapRef)
    requires pass.Maps? && NamesMap(pass, rel, ins, m)
    ensures
      var edit := EditOf(pass, rel, ins);
      && edit.Write? && (edit.nextImm.Some? <==> m.hasData)
      && edit.ins == ins.(src := if m.hasData then BPF_PSEUDO_MAP_VALUE else BPF_PSEUDO_MAP_FD, imm := m.fd)
      && (m.hasData ==> WrapU32(edit.nextImm.value) == WrapU32(pass.symbols[rel.symbolIndex].address + ins.imm))
  {
    hide IsCall;
    ThirtyTwoBits(ins.imm, pass.symbols[rel.symbolIndex].address);
  }

  lemma CallWhateverImm(pass: Pass, rel: Relocation, ins: Insn, imm: I32, m: MapRef)
    requires pass.Maps? && NamesMap(pass, rel, ins, m)
    ensures NamesMap(pass, rel, ins.(imm := imm), m)
  {
    ImmIrrelevant(ins, imm);
    hide IsCall;
  }

  /**
   A reference to a map, after the whole pass: its instruction names the map by its file descriptor. For
   a map with data the second slot holds the address of the symbol plus the immediate that was found.
   What was found is the original immediate, unless an overlapping load came before; and what was
   written stays, unless an overlapping load or a relocation on the second slot comes after.
   */
  lemma MapLoaded(pass: Pass, start: nat, code: seq<Insn>, rels: seq<Relocation>, k: nat, m: MapRef)
    requires pass.Maps? && Distinct(rels) && Steps(pass, start, code, rels).Done? && k < |rels|
    requires Covers(start, |code|, rels[k]) && Aligned(start, rels[k])
    requires NamesMap(pass, rels[k], code[SlotIndex(start, rels[k])], m)
    ensures Steps(pass, start, code, rels[..k]).Done?
    ensures
      var at, now := SlotIndex(start, rels[k]), Steps(pass, start, code, rels).value;
      var found := Steps(pass, start, code, rels[..k]).value[at].imm;
      var address := pass.symbols[rels[k].symbolIndex].address;
      && now[at] == code[at].(src := if m.hasData then BPF_PSEUDO_MAP_VALUE else BPF_PSEUDO_MAP_FD, imm := now[at].imm)
      && (NotOverlapped(pass, start, code, rels[..k], rels[k]) ==> found == code[at].imm)
      && (NotOverlapped(pass, start, code, rels[k + 1..], rels[k]) ==> now[at].imm == m.fd)
      && (m.hasData ==>
            && at + 1 < |code|
            && (SecondFree(pass, start, code, rels[k + 1..], rels[k]) ==> WrapU32(now[at + 1].imm) == WrapU32(address + found)))
  {
    hide Steps, EditOf, IsCall, NamesMap, Distinct, NotOverlapped, SecondFree;
    var at := SlotIndex(start, rels[k]);
    MapEdited(pass, rels[k], code[at], m);
    FoundByPass(pass, start, code, rels, k);
    LeftByPass(pass, start, code, rels, k);
    var sofar := Steps(pass, start, code, rels[..k]).value;
    CallWhateverImm(pass, rels[k], code[at], sofar[at].imm, m);
    MapEdited(pass, rels[k], sofar[at], m);
  }

  /** A reference to a map without data leaves the slot after it alone, and so do all others that do not sit there. */
  lemma SecondUntouched(pass: Pass, start: nat, code: seq<Insn>, rels: seq<Relocation>, k: nat, m: MapRef)
    requires pass.Maps? && Distinct(rels) && Steps(pass, start, code, rels).Done? && k < |rels|
    requires Covers(start, |code|, rels[k]) && Aligned(start, rels[k]) && !m.hasData
    requires NamesMap(pass, rels[k], code[SlotIndex(start, rels[k])], m)
    requires SecondFree(pass, start, code, rels, rels[k]) && SlotIndex(start, rels[k]) + 1 < |code|
    ensures
      var at := SlotIndex(start, rels[k]);
      Steps(pass, start, code, rels).value[at + 1] == code[at + 1]
  {
    hide Steps, EditOf, IsCall, NamesMap, Distinct;
    var at := SlotIndex(start, rels[k]);
    MapEdited(pass, rels[k], code[at], m);
    assert [] + rels == rels;
    NothingFirst(pass, start, code);
    forall q | q in rels
      ensures !WritesOwn(pass, start, code, q, at + 1) && !WritesNext(pass, start, code, q, at + 1)
    {
      if q.offset == rels[k].offset {
        OnePerOffset(rels, q, rels[k]);
      }
    }
    SlotKept(pass, start, code, [], rels, at + 1);
  }

  /** How a clash changes that: a later reference to a map on the second slot leaves its own descriptor there. */
  lemma MapLoadOverwritten(pass: Pass, start: nat, code: seq<Insn>, rels: seq<Relocation>, k: nat, j: nat, m: MapRef,
                           other: MapRef)
    requires pass.Maps? && Distinct(rels) && Steps(pass, start, code, rels).Done? && k < j < |rels|
    requires Covers(start, |code|, rels[k]) && Aligned(start, rels[k]) && m.hasData
    requires NamesMap(pass, rels[k], code[SlotIndex(start, rels[k])], m)
    requires rels[j].offset == rels[k].offset + INS_SIZE && Covers(start, |code|, rels[j])
    requires NamesMap(pass, rels[j], code[SlotIndex(start, rels[k]) + 1], other)
    ensures Steps(pass, start, code, rels).value[SlotIndex(start, rels[k]) + 1].imm == other.fd
  {
    hide Steps, EditOf, IsCall, NamesMap, Distinct;
    var at := SlotIndex(start, rels[k]);
    assert SlotIndex(start, rels[j]) == at + 1;
    MapEdited(pass, rels[k], code[at], m);
    MapEdited(pass, rels[j], code[at + 1], other);
    SecondTaken(pass, start, code, rels, k, j);
  }

  // ---------- references to extern kernel symbols ----------

  predicate NamesExtern(pass: Pass, rel: Relocation, name: string, ext: E.ExternDesc)
    requires pass.Kernel?
  {
    && rel.symbolIndex in pass.symbols && pass.symbols[rel.symbolIndex].IsExtern()
    && pass.symbols[rel.symbolIndex].name == Some(name) && name in pass.externs && pass.externs[name] == ext
  }

  /** The edit for an extern does not depend on the immediate, and succeeds only where the extern can be used. */
  lemma CallEdited(pass: Pass, rel: Relocation, ins: Insn, name: string, ext: E.ExternDesc)
    requires pass.Kernel? && NamesExtern(pass, rel, name, ext) && ins.code == CALL
    ensures
      var edit := EditOf(pass, rel, ins);
      (edit.Write? <==> (ext.isResolved && ext.kernelBtfId.Some?) || (!ext.isResolved && ext.isWeak))
      && (edit.Write? ==>
            && edit.nextImm.None?
            && if ext.isResolved then
                 edit.ins == ins.(src := BPF_PSEUDO_KFUNC_CALL, off := 0, imm := edit.ins.imm)
                 && WrapU32(edit.ins.imm) == WrapU32(ext.kernelBtfId.value)
               else
                 edit.ins == Insn(CALL, 0, 0, 0, edit.ins.imm)
                 && WrapU32(edit.ins.imm) == WrapU32(2002000000 + rel.symbolIndex))
  {
    hide WrapI32;
    if ext.isResolved && ext.kernelBtfId.Some? {
      ThirtyTwoBits(ext.kernelBtfId.value, 0);
    }
    ThirtyTwoBits(POISON_CALL_KFUNC_BASE, rel.symbolIndex);
  }

  /** What the load of an extern loads: the id of a kernel variable, an address, or null. */
  function LoadedFor(ext: E.ExternDesc): U64 {
    if ext.kernelBtfId.Some? then WrapU32(ext.kernelBtfId.value)
    else if ext.ksymAddr.Some? then ext.ksymAddr.value
    else 0
  }

  lemma LoadEdited(pass: Pass, rel: Relocation, ins: Insn, name: string, ext: E.ExternDesc)
    requires pass.Kernel? && NamesExtern(pass, rel, name, ext) && ins.code != CALL
    ensures
      var edit := EditOf(pass, rel, ins);
      && (edit.Write? <==> ins.code == LD_IMM64 && (ext.kernelBtfId.Some? || ext.ksymAddr.Some? || ext.isWeak))
      && (edit.Write? ==>
            && edit.nextImm.Some?
            && edit.ins == ins.(src := if ext.kernelBtfId.Some? then BPF_PSEUDO_BTF_ID else 0, imm := edit.ins.imm)
            && WrapU32(edit.ins.imm) == LoadedFor(ext) % 0x1_0000_0000
            && WrapU32(edit.nextImm.value) == LoadedFor(ext) / 0x1_0000_0000)
  {
    hide WrapI32;
    NullWord();
    if ext.kernelBtfId.Some? {
      ThirtyTwoBits(ext.kernelBtfId.value, 0);
      SmallWord(ext.kernelBtfId.value);
    } else if ext.ksymAddr.Some? {
      TwoHalves(ext.ksymAddr.value);
    }
  }

  lemma NullWord()
    ensures WrapU32(0) == 0 && WrapI32(0) == 0
  {
  }

  lemma SmallWord(x: int)
    ensures WrapU32(x) / 0x1_0000_0000 == 0 && WrapU32(x) % 0x1_0000_0000 == WrapU32(x)
  {
  }

  /** A call of an extern, after the whole pass: of the kernel function with its BTF id, or poisoned. */
  lemma KfuncCalled(pass: Pass, start: nat, code: seq<Insn>, rels: seq<Relocation>, k: nat, name: string, ext: E.ExternDesc)
    requires pass.Kernel? && Distinct(rels) && Steps(pass, start, code, rels).Done? && k < |rels|
    requires Covers(start, |code|, rels[k]) && Aligned(start, rels[k])
    requires NamesExtern(pass, rels[k], name, ext) && code[SlotIndex(start, rels[k])].code == CALL
    ensures if ext.isResolved then ext.kernelBtfId.Some? else ext.isWeak
    ensures
      var at, now := SlotIndex(start, rels[k]), Steps(pass, start, code, rels).value;
      && now[at] == (if ext.isResolved then code[at].(src := BPF_PSEUDO_KFUNC_CALL, off := 0, imm := now[at].imm)
                     else Insn(CALL, 0, 0, 0, now[at].imm))
      && (NotOverlapped(pass, start, code, rels[k + 1..], rels[k]) ==>
            WrapU32(now[at].imm) ==
              WrapU32(if ext.isResolved then ext.kernelBtfId.value else 2002000000 + rels[k].symbolIndex))
  {
    hide Steps, EditOf, NamesExtern, Distinct, NotOverlapped, Step;
    var at := SlotIndex(start, rels[k]);
    CallEdited(pass, rels[k], code[at], name, ext);
    DoneAlone(pass, start, code, rels, k);
    ExternIsEdited(pass, start, code, rels[k], name, ext);
    LeftByPass(pass, start, code, rels, k);
    FoundByPass(pass, start, code, rels, k);
    var sofar := Steps(pass, start, code, rels[..k]).value;
    EditModuloImm(pass, rels[k], code[at], sofar[at].imm);
  }

  lemma DoneAlone(pass: Pass, start: nat, code: seq<Insn>, rels: seq<Relocation>, k: nat)
    requires Distinct(rels) && Steps(pass, start, code, rels).Done? && k < |rels|
    ensures Step(pass, start, code, rels[k]).Done?
  {
    hide Steps, Step;
    SuccessExact(pass, start, code, rels);
  }

  lemma ExternIsEdited(pass: Pass, start: nat, code: seq<Insn>, rel: Relocation, name: string, ext: E.ExternDesc)
    requires pass.Kernel? && NamesExtern(pass, rel, name, ext) && Step(pass, start, code, rel).Done?
    requires Covers(start, |code|, rel) && Aligned(start, rel)
    ensures EditOf(pass, rel, code[SlotIndex(start, rel)]).Write?
  {
  }

  /**
   A load of an extern, after the whole pass: of the kernel variable with its BTF id, of its address, or
   of null when it is weak and was not found; the low half in its slot, the high half in the second.
   */
  lemma KsymLoaded(pass: Pass, start: nat, code: seq<Insn>, rels: seq<Relocation>, k: nat, name: string, ext: E.ExternDesc)
    requires pass.Kernel? && Distinct(rels) && Steps(pass, start, code, rels).Done? && k < |rels|
    requires Covers(start, |code|, rels[k]) && Aligned(start, rels[k])
    requires NamesExtern(pass, rels[k], name, ext) && code[SlotIndex(start, rels[k])].code != CALL
    ensures
      var at, now := SlotIndex(start, rels[k]), Steps(pass, start, code, rels).value;
      && code[at].code == LD_IMM64 && at + 1 < |code|
      && now[at] == code[at].(src := if ext.kernelBtfId.Some? then BPF_PSEUDO_BTF_ID else 0, imm := now[at].imm)
      && (NotOverlapped(pass, start, code, rels[k + 1..], rels[k]) ==>
            WrapU32(now[at].imm) == LoadedFor(ext) % 0x1_0000_0000)
      && (SecondFree(pass, start, code, rels[k + 1..], rels[k]) ==>
            WrapU32(now[at + 1].imm) == LoadedFor(ext) / 0x1_0000_0000)
  {
    hide Steps, EditOf, NamesExtern, Distinct, NotOverlapped, SecondFree, Step;
    var at := SlotIndex(start, rels[k]);
    LoadEdited(pass, rels[k], code[at], name, ext);
    DoneAlone(pass, start, code, rels, k);
    ExternIsEdited(pass, start, code, rels[k], name, ext);
    LeftByPass(pass, start, code, rels, k);
    FoundByPass(pass, start, code, rels, k);
    var sofar := Steps(pass, start, code, rels[..k]).value;
    EditModuloImm(pass, rels[k], code[at], sofar[at].imm);
  }
}
