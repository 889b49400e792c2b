/**
 What the patching passes promise of single relocations: resolved externs are always patched, and no
 program-local call is made up, each with its exact exception. Modules PatchingOrder and
 PassDisjointness are about relocations together.
 */
module PatchingProperties {
  import opened Instructions
  import opened Externs
  import opened Patching
  import L = Linker

  // ---------- order ----------

  /** The edit the relocation makes to the code as it was before the pass. */
  function OriginalEdit(pass: Pass, start: nat, code: seq<Insn>, rel: Relocation): Edit {
    if Covers(start, |code|, rel) && Aligned(start, rel) then EditOf(pass, rel, code[SlotIndex(start, rel)]) else Skip
  }

  /** The second half of the first relocation's load is the slot of the second. */
  predicate Overlaps(pass: Pass, start: nat, code: seq<Insn>, r: Relocation, q: Relocation) {
    var edit := OriginalEdit(pass, start, code, r);
    edit.Write? && edit.nextImm.Some? && q.offset == r.offset + INS_SIZE
  }

  // A load of a map value, with a map reference on its second slot.
  const VALUE_LOAD: seq<Insn> := [Insn(LD_IMM64, 0, 0, 0, 0), Insn(0, 0, 0, 0, 0)]
  const ON_FIRST: Relocation := L.Relocation(0, 64, 0)
  const ON_SECOND: Relocation := L.Relocation(8, 64, 1)

  function TwoMaps(): Pass {
    var sym := L.Symbol(0, Some(7), None, 0, 8, true, L.Data, false);
    Maps(map[0 := sym, 1 := sym.(index := 1)], map[0 := MapRef(3, true), 1 := MapRef(5, false)], map[], {})
  }

  lemma TwoMapsEdits()
    ensures EditOf(TwoMaps(), ON_FIRST, VALUE_LOAD[0]) == Write(Insn(LD_IMM64, 0, BPF_PSEUDO_MAP_VALUE, 0, 3), Some(0))
    ensures EditOf(TwoMaps(), ON_SECOND, VALUE_LOAD[1]) == Write(Insn(0, 0, BPF_PSEUDO_MAP_FD, 0, 5), None)
  {
    hide IsCall, MapEdit;
    var sym := TwoMaps().symbols[0];
    NoCall(VALUE_LOAD[0]);
    NoCall(VALUE_LOAD[1]);
    assert EditOf(TwoMaps(), ON_FIRST, VALUE_LOAD[0]) == MapEdit(MapRef(3, true), sym, VALUE_LOAD[0]);
    assert EditOf(TwoMaps(), ON_SECOND, VALUE_LOAD[1]) == MapEdit(MapRef(5, false), sym.(index := 1), VALUE_LOAD[1]);
    MapEdits(sym);
  }

  lemma NoCall(ins: Insn)
    requires ins.code != CALL
    ensures !IsCall(ins)
  {
    IsCallOpcode(ins);
  }

  lemma MapEdits(sym: Symbol)
    requires sym.address == 0
    ensures MapEdit(MapRef(3, true), sym, VALUE_LOAD[0]) == Write(Insn(LD_IMM64, 0, BPF_PSEUDO_MAP_VALUE, 0, 3), Some(0))
    ensures MapEdit(MapRef(5, false), sym.(index := 1), VALUE_LOAD[1]) == Write(Insn(0, 0, BPF_PSEUDO_MAP_FD, 0, 5), None)
  {
  }

  lemma ValueLoadPatched(upper: Insn)
    ensures Step(TwoMaps(), 0, [VALUE_LOAD[0], upper], ON_FIRST) ==
      Done([Insn(LD_IMM64, 0, BPF_PSEUDO_MAP_VALUE, 0, 3), upper.(imm := 0)])
  {
    hide EditOf, TwoMaps;
    TwoMapsEdits();
    var code := [VALUE_LOAD[0], upper];
    var load := Insn(LD_IMM64, 0, BPF_PSEUDO_MAP_VALUE, 0, 3);
    assert code[0 := load][1 := code[1].(imm := 0)] == [load, upper.(imm := 0)];
  }

  lemma SecondSlotPatched(first: Insn)
    ensures Step(TwoMaps(), 0, [first, VALUE_LOAD[1]], ON_SECOND) == Done([first, Insn(0, 0, BPF_PSEUDO_MAP_FD, 0, 5)])
  {
    hide EditOf, TwoMaps;
    TwoMapsEdits();
    var code := [first, VALUE_LOAD[1]];
    assert code[1 := Insn(0, 0, BPF_PSEUDO_MAP_FD, 0, 5)] == [first, Insn(0, 0, BPF_PSEUDO_MAP_FD, 0, 5)];
  }

  /** The order can show: a map reference on the second slot of a map value load. */
  lemma OrderShows()
    ensures exists pass: Pass, code: seq<Insn>, first: Relocation, second: Relocation ::
      && first.offset != second.offset
      && Steps(pass, 0, code, [first, second]).Done? && Steps(pass, 0, code, [second, first]).Done?
      && Steps(pass, 0, code, [first, second]) != Steps(pass, 0, code, [second, first])
  {
    hide Step, Steps, TwoMaps;
    var patched := Insn(LD_IMM64, 0, BPF_PSEUDO_MAP_VALUE, 0, 3);
    ValueLoadPatched(VALUE_LOAD[1]);
    SecondSlotPatched(patched);
    SecondSlotPatched(VALUE_LOAD[0]);
    ValueLoadPatched(Insn(0, 0, BPF_PSEUDO_MAP_FD, 0, 5));
    TwoSteps(TwoMaps(), 0, VALUE_LOAD, ON_FIRST, ON_SECOND);
    TwoSteps(TwoMaps(), 0, VALUE_LOAD, ON_SECOND, ON_FIRST);
    assert Steps(TwoMaps(), 0, VALUE_LOAD, [ON_FIRST, ON_SECOND]).value[1].imm == 5;
    assert Steps(TwoMaps(), 0, VALUE_LOAD, [ON_SECOND, ON_FIRST]).value[1].imm == 0;
  }

  lemma TwoSteps(pass: Pass, start: nat, code: seq<Insn>, first: Relocation, second: Relocation)
    requires Step(pass, start, code, first).Done?
    ensures Steps(pass, start, code, [first, second]) == Step(pass, start, Step(pass, start, code, first).value, second)
  {
    hide Step;
    assert [first, second][..1] == [first];
    assert [first][..0] == [];
    assert Steps(pass, start, code, [first]) == Step(pass, start, code, first);
  }

  // ---------- externs are sufficient ----------

  /** The relocation calls a resolved extern that has no BTF id. */
  ghost predicate CallsUntyped(externs: Table, symbols: map<nat, Symbol>, start: nat, code: seq<Insn>,
                               rel: Relocation, name: string) {
    && Covers(start, |code|, rel) && Aligned(start, rel)
    && code[SlotIndex(start, rel)].code == CALL
    && rel.symbolIndex in symbols && symbols[rel.symbolIndex].IsExtern()
    && symbols[rel.symbolIndex].name == Some(name)
    && name in externs && externs[name].isResolved && externs[name].typeId.None? && externs[name].kernelBtfId.None?
  }

  /** After resolution no step finds an extern unresolved, and it panics exactly on a call of an untyped one. */
  lemma SettledStep(externs: Table, symbols: map<nat, Symbol>, start: nat, code: seq<Insn>, rel: Relocation,
                    name: string)
    requires AllSettled(externs)
    ensures Step(Kernel(symbols, externs), start, code, rel) != Fail(UnresolvableSymbol(name))
    ensures Step(Kernel(symbols, externs), start, code, rel) == Fail(MissingBtfId(name)) <==>
      CallsUntyped(externs, symbols, start, code, rel, name)
  {
  }

  /** The one that panics: a strong extern declared as a void variable, found in kallsyms and called. */
  lemma VoidCallPanics()
    ensures
      var sym := L.Symbol(0, None, Some("f"), 0, 0, false, L.Unknown, false);
      var externs: Table := map["f" := ExternDesc(false, true, None, Some(0x1000), 1, None)];
      var code := [Insn(CALL, 0, BPF_PSEUDO_CALL, 0, -1)];
      && AllSettled(externs)
      && Step(Kernel(map[0 := sym], externs), 0, code, L.Relocation(0, 64, 0)) == Fail(MissingBtfId("f"))
  {
    var sym := L.Symbol(0, None, Some("f"), 0, 0, false, L.Unknown, false);
    var externs: Table := map["f" := ExternDesc(false, true, None, Some(0x1000), 1, None)];
    var code := [Insn(CALL, 0, BPF_PSEUDO_CALL, 0, -1)];
    assert AllSettled(externs);
    assert CallsUntyped(externs, map[0 := sym], 0, code, L.Relocation(0, 64, 0), "f");
    SettledStep(externs, map[0 := sym], 0, code, L.Relocation(0, 64, 0), "f");
  }

  /** Neither pass changes an opcode. */
  lemma {:induction false} OpcodesKept(pass: Pass, start: nat, code: seq<Insn>, rels: seq<Relocation>)
    ensures Steps(pass, start, code, rels).Done? ==>
      forall i :: 0 <= i < |code| ==> Steps(pass, start, code, rels).value[i].code == code[i].code
  {
    hide IsCall;
    if rels != [] {
      OpcodesKept(pass, start, code, rels[..|rels| - 1]);
    }
  }

  /**
   After externs are resolved, patching never meets an unresolvable symbol, and meets a resolved
   extern without a BTF id only where an untyped extern is called.
   */
  lemma {:induction false} ResolutionSuffices(externs: Table, symbols: map<nat, Symbol>, start: nat,
                                              code: seq<Insn>, rels: seq<Relocation>, name: string)
    requires AllSettled(externs)
    ensures Steps(Kernel(symbols, externs), start, code, rels) != Fail(UnresolvableSymbol(name))
    ensures Steps(Kernel(symbols, externs), start, code, rels) == Fail(MissingBtfId(name)) ==>
      exists r :: r in rels && CallsUntyped(externs, symbols, start, code, r, name)
  {
    hide Step, AllSettled;
    if rels != [] {
      var front, rel := rels[..|rels| - 1], rels[|rels| - 1];
      assert rels == front + [rel];
      assert forall r :: r in rels <==> r in front || r == rel;
      ResolutionSuffices(externs, symbols, start, code, front, name);
      match Steps(Kernel(symbols, externs), start, code, front)
      case Fail(_) =>
      case Done(sofar) =>
        OpcodesKept(Kernel(symbols, externs), start, code, front);
        SettledStep(externs, symbols, start, sofar, rel, name);
        assert CallsUntyped(externs, symbols, start, sofar, rel, name) ==> CallsUntyped(externs, symbols, start, code, rel, name);
    }
  }

  /** The load of an untyped extern ends up with the symbol's 64-bit address in its two immediates. */
  lemma AddressLoaded(externs: Table, symbols: map<nat, Symbol>, start: nat, code: seq<Insn>, rel: Relocation)
    requires Covers(start, |code|, rel) && Aligned(start, rel)
    requires rel.symbolIndex in symbols && symbols[rel.symbolIndex].IsExtern()
    requires var name := symbols[rel.symbolIndex].name.value;
      name in externs && externs[name].kernelBtfId.None? && externs[name].ksymAddr.Some?
    requires var at := SlotIndex(start, rel); code[at].code == LD_IMM64 && at + 1 < |code|
    ensures
      var at := SlotIndex(start, rel);
      var step := Step(Kernel(symbols, externs), start, code, rel);
      && step.Done?
      && step.value[at].src == 0
      && WrapU32(step.value[at].imm) + WrapU32(step.value[at + 1].imm) * 0x1_0000_0000 ==
         externs[symbols[rel.symbolIndex].name.value].ksymAddr.value
  {
    hide IsCall;
    var address := externs[symbols[rel.symbolIndex].name.value].ksymAddr.value;
    assert WrapU32(WrapI32(address % 0x1_0000_0000)) == address % 0x1_0000_0000;
    assert WrapU32(WrapI32(address / 0x1_0000_0000)) == address / 0x1_0000_0000;
  }

  // ---------- no program-local calls out of nothing ----------

  /** What an extern patch writes is not a program-local call. */
  lemma ExternPatchIsNoCall(pass: Pass, rel: Relocation, ins: Insn)
    requires pass.Kernel? && EditOf(pass, rel, ins).Write?
    ensures !IsCall(EditOf(pass, rel, ins).ins)
  {
  }

  /**
   What a map patch writes is a program-local call exactly when a plain helper call is patched with
   a map that has no data: BPF_PSEUDO_MAP_FD and BPF_PSEUDO_CALL are the same source register value.
   */
  lemma MapPatchIsCall(pass: Pass, rel: Relocation, ins: Insn)
    requires pass.Maps? && EditOf(pass, rel, ins).Write?
    ensures IsCall(EditOf(pass, rel, ins).ins) <==>
      ins.code == CALL && ins.dst == 0 && ins.off == 0 && EditOf(pass, rel, ins).nextImm.None?
  {
  }

  /** The relocation names a map without data on a plain call instruction. */
  predicate CallOnMap(pass: Pass, start: nat, code: seq<Insn>, rel: Relocation) {
    && pass.Maps?
    && OriginalEdit(pass, start, code, rel).Write? && OriginalEdit(pass, start, code, rel).nextImm.None?
    && var ins := code[SlotIndex(start, rel)];
       ins.code == CALL && ins.dst == 0 && ins.off == 0
  }

  lemma ImmIrrelevant(ins: Insn, imm: I32)
    ensures IsCall(ins.(imm := imm)) == IsCall(ins)
  {
  }

  // A call of a helper function, and a map without data named on it.
  const HELPER_CALL: Insn := Insn(CALL, 0, 0, 0, 1)
  const ON_CALL: Relocation := L.Relocation(0, 64, 1)

  /** A helper call that names a map without data is left as a program-local call. */
  lemma HelperCallBecomesLocal()
    ensures !IsCall(HELPER_CALL)
    ensures
      var patched := Steps(TwoMaps(), 0, [HELPER_CALL], [ON_CALL]);
      patched == Done([Insn(CALL, 0, BPF_PSEUDO_CALL, 0, 5)]) && IsCall(patched.value[0])
  {
    hide TwoMaps, MapEdit, IsCall;
    IsCallOpcode(HELPER_CALL);
    IsCallOpcode(Insn(CALL, 0, BPF_PSEUDO_CALL, 0, 5));
    HelperCallEdit();
    assert [ON_CALL][..0] == [];
    assert [HELPER_CALL][0 := Insn(CALL, 0, BPF_PSEUDO_CALL, 0, 5)] == [Insn(CALL, 0, BPF_PSEUDO_CALL, 0, 5)];
  }

  lemma HelperCallEdit()
    ensures EditOf(TwoMaps(), ON_CALL, HELPER_CALL) == Write(Insn(CALL, 0, BPF_PSEUDO_CALL, 0, 5), None)
  {
    hide IsCall;
    IsCallOpcode(HELPER_CALL);
  }
}
