/**
 The two passes that patch relocated instructions in place before the calls are linked: references
 to maps, then references to extern kernel symbols. Both walk a function's relocations in the order
 of a hash map.
 */
module Patching {
  import opened Instructions
  import opened Externs
  import L = Linker

  type Relocation = L.Relocation
  type Symbol = L.Symbol

  // A map as the pass sees it: its file descriptor and whether it has initial data.
  datatype MapRef = MapRef(fd: I32, hasData: bool)

  datatype PatchError =
    | UnknownSymbol(index: nat)
    | InvalidRelocationOffset(offset: nat)
    | SectionNotFound(sectionIndex: nat)
    | ExternNotFound(name: string)
    | UnresolvableSymbol(name: string)
    | MissingBtfId(name: string)  // the source panics: a resolved extern without a BTF id is called
    | MissingSecondSlot           // the source panics: a map value is loaded by the last instruction

  datatype Result<+T> = Done(value: T) | Fail(error: PatchError)

  // Everything a pass reads and does not change.
  datatype Pass =
    | Maps(symbols: map<nat, Symbol>, bySymbol: map<nat, MapRef>, bySection: map<nat, MapRef>, textSections: set<nat>)
    | Kernel(symbols: map<nat, Symbol>, externs: Table)

  // What a relocation does to its instruction, and to the immediate of the one after it.
  datatype Edit = Skip | Write(ins: Insn, nextImm: Option<I32>) | Reject(error: PatchError)

  const POISON_CALL_KFUNC_BASE: I32 := 2002000000

  /** A call that the kernel refuses when it is reached. */
  function Poisoned(symbolIndex: nat): Insn {
    Insn(CALL, 0, 0, 0, WrapI32(POISON_CALL_KFUNC_BASE + WrapI32(symbolIndex)))
  }

  function KernelEdit(ext: ExternDesc, name: string, rel: Relocation, ins: Insn): Edit {
    if ins.code == CALL then
      if ext.isResolved then
        if ext.kernelBtfId.None? then Reject(MissingBtfId(name))
        else Write(ins.(src := BPF_PSEUDO_KFUNC_CALL, imm := WrapI32(ext.kernelBtfId.value), off := 0), None)
      else if ext.isWeak then Write(Poisoned(rel.symbolIndex), None)
      else Reject(UnresolvableSymbol(name))
    else if ins.code != LD_IMM64 then Reject(InvalidRelocationOffset(rel.offset))
    else if ext.kernelBtfId.Some? then
      Write(ins.(src := BPF_PSEUDO_BTF_ID, imm := WrapI32(ext.kernelBtfId.value)), Some(0))
    else if ext.ksymAddr.Some? then
      Write(ins.(src := 0, imm := WrapI32(ext.ksymAddr.value % 0x1_0000_0000)),
            Some(WrapI32(ext.ksymAddr.value / 0x1_0000_0000)))
    else if ext.isWeak then Write(ins.(src := 0, imm := 0), Some(0))
    else Reject(UnresolvableSymbol(name))
  }

  function MapEdit(m: MapRef, sym: Symbol, ins: Insn): Edit {
    if m.hasData then
      Write(ins.(src := BPF_PSEUDO_MAP_VALUE, imm := m.fd), Some(WrapI32(ins.imm + WrapI32(sym.address))))
    else
      Write(ins.(src := BPF_PSEUDO_MAP_FD, imm := m.fd), None)
  }

  /** The decision about one relocation, from the instruction it sits on. */
  function EditOf(pass: Pass, rel: Relocation, ins: Insn): Edit {
    if rel.symbolIndex !in pass.symbols then Reject(UnknownSymbol(rel.symbolIndex))
    else
      var sym := pass.symbols[rel.symbolIndex];
      match pass
      case Kernel(_, externs) =>
        if !sym.IsExtern() then Skip
        else if sym.name.value !in externs then Reject(ExternNotFound(sym.name.value))
        else KernelEdit(externs[sym.name.value], sym.name.value, rel, ins)
      case Maps(_, bySymbol, bySection, textSections) =>
        if sym.sectionIndex.None? || IsCall(ins) || sym.sectionIndex.value in textSections then Skip
        else if rel.symbolIndex in bySymbol then MapEdit(bySymbol[rel.symbolIndex], sym, ins)
        else if sym.sectionIndex.value in bySection then MapEdit(bySection[sym.sectionIndex.value], sym, ins)
        else Reject(SectionNotFound(sym.sectionIndex.value))
  }

  /** Whether the relocation falls into a function of `size` instructions at byte offset `start`. */
  predicate Covers(start: nat, size: nat, rel: Relocation) {
    start <= rel.offset < start + size * INS_SIZE
  }

  predicate Aligned(start: nat, rel: Relocation)
    requires start <= rel.offset
  {
    (rel.offset - start) % INS_SIZE == 0
  }

  function SlotIndex(start: nat, rel: Relocation): nat
    requires start <= rel.offset
  {
    (rel.offset - start) / INS_SIZE
  }

  /** One relocation, applied to the whole body. */
  function Step(pass: Pass, start: nat, code: seq<Insn>, rel: Relocation): (r: Result<seq<Insn>>)
    ensures r.Done? ==> |r.value| == |code|
  {
    if !Covers(start, |code|, rel) then Done(code)
    else if !Aligned(start, rel) then Fail(InvalidRelocationOffset(rel.offset))
    else
      var at := SlotIndex(start, rel);
      match EditOf(pass, rel, code[at])
      case Skip => Done(code)
      case Reject(error) => Fail(error)
      case Write(ins, None) => Done(code[at := ins])
      case Write(ins, Some(imm)) =>
        if at + 1 < |code| then Done(code[at := ins][at + 1 := code[at + 1].(imm := imm)])
        else Fail(if pass.Maps? then MissingSecondSlot else InvalidRelocationOffset(rel.offset))
  }

  /** All relocations, in the given order; the first failure ends the pass. */
  function Steps(pass: Pass, start: nat, code: seq<Insn>, rels: seq<Relocation>): (r: Result<seq<Insn>>)
    ensures r.Done? ==> |r.value| == |code|
  {
    if rels == [] then Done(code)
    else
      match Steps(pass, start, code, rels[..|rels| - 1])
      case Fail(error) => Fail(error)
      case Done(sofar) => Step(pass, start, sofar, rels[|rels| - 1])
  }

  class FunctionBody {
    const sectionOffset: nat
    var instructions: seq<Insn>

    constructor (sectionOffset: nat, instructions: seq<Insn>)
      ensures this.sectionOffset == sectionOffset && this.instructions == instructions
    {
      this.sectionOffset, this.instructions := sectionOffset, instructions;
    }

    method PatchExternRelocations(relocations: seq<Relocation>, externs: Table, symbols: map<nat, Symbol>)
      returns (r: Result<()>)
      modifies this`instructions
      ensures var steps := Steps(Kernel(symbols, externs), sectionOffset, old(instructions), relocations);
              if steps.Done? then r == Done(()) && instructions == steps.value else r == Fail(steps.error)
    {
      hide IsCall;
      ghost var pass := Kernel(symbols, externs);
      var functionSize := |instructions| * INS_SIZE;
      for n := 0 to |relocations|
        invariant |instructions| == |old(instructions)|
        invariant Steps(pass, sectionOffset, old(instructions), relocations[..n]) == Done(instructions)
      {
        FailureStays(pass, sectionOffset, old(instructions), relocations, n + 1);
        var rel := relocations[n];
        assert relocations[..n + 1][..n] == relocations[..n];
        ghost var step := Step(pass, sectionOffset, instructions, rel);
        assert step == Steps(pass, sectionOffset, old(instructions), relocations[..n + 1]);
        if rel.offset < sectionOffset || rel.offset >= sectionOffset + functionSize {
          continue;
        }
        var insOffset := rel.offset - sectionOffset;
        if insOffset % INS_SIZE != 0 {
          return Fail(InvalidRelocationOffset(rel.offset));
        }
        var at := insOffset / INS_SIZE;
        if rel.symbolIndex !in symbols {
          return Fail(UnknownSymbol(rel.symbolIndex));
        }
        var sym := symbols[rel.symbolIndex];
        if !sym.IsExtern() {
          continue;
        }
        var name := sym.name.value;
        if name !in externs {
          return Fail(ExternNotFound(name));
        }
        var ext := externs[name];
        var ins := instructions[at];
        var nextImm: Option<I32> := None;
        if ins.code == CALL {
          ins := ins.(src := BPF_PSEUDO_KFUNC_CALL);
          if ext.isResolved {
            if ext.kernelBtfId.None? {
              return Fail(MissingBtfId(name));
            }
            ins := ins.(imm := WrapI32(ext.kernelBtfId.value), off := 0);
          } else if ext.isWeak {
            ins := Poisoned(rel.symbolIndex);
          } else {
            return Fail(UnresolvableSymbol(name));
          }
        } else {
          if ins.code != LD_IMM64 {
            return Fail(InvalidRelocationOffset(rel.offset));
          }
          if ext.kernelBtfId.Some? {
            ins := ins.(src := BPF_PSEUDO_BTF_ID, imm := WrapI32(ext.kernelBtfId.value));
            nextImm := Some(0);
          } else if ext.ksymAddr.Some? {
            ins := ins.(src := 0, imm := WrapI32(ext.ksymAddr.value % 0x1_0000_0000));
            nextImm := Some(WrapI32(ext.ksymAddr.value / 0x1_0000_0000));
          } else if ext.isWeak {
            ins := ins.(src := 0, imm := 0);
            nextImm := Some(0);
          } else {
            return Fail(UnresolvableSymbol(name));
          }
        }
        instructions := instructions[at := ins];
        if nextImm.Some? {
          if at + 1 >= |instructions| {
            return Fail(InvalidRelocationOffset(rel.offset));
          }
          instructions := instructions[at + 1 := instructions[at + 1].(imm := nextImm.value)];
        }
        assert step == Done(instructions);
      }
      assert relocations[..|relocations|] == relocations;
      r := Done(());
    }

    /** Makes the instruction at `at` refer to the map; false when its second slot is missing. */
    method PatchMap(at: nat, m: MapRef, sym: Symbol) returns (ok: bool)
      requires at < |instructions|
      modifies this`instructions
      ensures ok <==> !m.hasData || at + 1 < |old(instructions)|
      ensures ok ==> instructions == match MapEdit(m, sym, old(instructions)[at])
        case Write(ins, None) => old(instructions)[at := ins]
        case Write(ins, Some(imm)) => old(instructions)[at := ins][at + 1 := old(instructions)[at + 1].(imm := imm)]
    {
      if !m.hasData {
        instructions := instructions[at := instructions[at].(src := BPF_PSEUDO_MAP_FD)];
      } else {
        instructions := instructions[at := instructions[at].(src := BPF_PSEUDO_MAP_VALUE)];
        if at + 1 >= |instructions| {
          return false;
        }
        var imm := WrapI32(instructions[at].imm + WrapI32(sym.address));
        instructions := instructions[at + 1 := instructions[at + 1].(imm := imm)];
      }
      instructions := instructions[at := instructions[at].(imm := m.fd)];
      ok := true;
    }

    method RelocateMaps(relocations: seq<Relocation>, bySection: map<nat, MapRef>, bySymbol: map<nat, MapRef>,
                        symbols: map<nat, Symbol>, textSections: set<nat>)
      returns (r: Result<()>)
      modifies this`instructions
      ensures var steps := Steps(Maps(symbols, bySymbol, bySection, textSections), sectionOffset, old(instructions), relocations);
              if steps.Done? then r == Done(()) && instructions == steps.value else r == Fail(steps.error)
    {
      hide IsCall;
      ghost var pass := Maps(symbols, bySymbol, bySection, textSections);
      var functionSize := |instructions| * INS_SIZE;
      for n := 0 to |relocations|
        invariant |instructions| == |old(instructions)|
        invariant Steps(pass, sectionOffset, old(instructions), relocations[..n]) == Done(instructions)
      {
        FailureStays(pass, sectionOffset, old(instructions), relocations, n + 1);
        var rel := relocations[n];
        assert relocations[..n + 1][..n] == relocations[..n];
        ghost var step := Step(pass, sectionOffset, instructions, rel);
        assert step == Steps(pass, sectionOffset, old(instructions), relocations[..n + 1]);
        if rel.offset < sectionOffset || rel.offset >= sectionOffset + functionSize {
          continue;
        }
        var insOffset := rel.offset - sectionOffset;
        if insOffset % INS_SIZE != 0 {
          return Fail(InvalidRelocationOffset(rel.offset));
        }
        var at := insOffset / INS_SIZE;
        if rel.symbolIndex !in symbols {
          return Fail(UnknownSymbol(rel.symbolIndex));
        }
        var sym := symbols[rel.symbolIndex];
        if sym.sectionIndex.None? {
          continue;
        }
        var section := sym.sectionIndex.value;
        if IsCall(instructions[at]) || section in textSections {
          continue;
        }
        var m;
        if rel.symbolIndex in bySymbol {
          m := bySymbol[rel.symbolIndex];
        } else if section in bySection {
          m := bySection[section];
        } else {
          return Fail(SectionNotFound(section));
        }
        var patched := PatchMap(at, m, sym);
        if !patched {
          return Fail(MissingSecondSlot);
        }
        assert step == Done(instructions);
      }
      assert relocations[..|relocations|] == relocations;
      r := Done(());
    }
  }

  /** Once a relocation fails, the whole pass fails the same way. */
  lemma {:induction false} FailureStays(pass: Pass, start: nat, code: seq<Insn>, rels: seq<Relocation>, n: nat)
    requires n <= |rels|
    ensures Steps(pass, start, code, rels[..n]).Fail? ==> Steps(pass, start, code, rels) == Steps(pass, start, code, rels[..n])
    decreases |rels| - n
  {
    hide Step;
    if n == |rels| {
      assert rels[..n] == rels;
    } else {
      assert rels[..n + 1][..n] == rels[..n];
      assert Steps(pass, start, code, rels[..n]).Fail? ==> Steps(pass, start, code, rels[..n + 1]) == Steps(pass, start, code, rels[..n]);
      FailureStays(pass, start, code, rels, n + 1);
    }
  }
}
