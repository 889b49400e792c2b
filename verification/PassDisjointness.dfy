/**
 What the patching passes and the linker do to one another: no pass makes a program-local call out of
 nothing, and no relocation is handled by two of them, each with its exact exception, wherever the
 relocations sit.
 */
module PassDisjointness {
  import opened Instructions
  import opened Externs
  import opened Patching
  import opened PatchingProperties
  import opened PatchingOrder
  import L = Linker

  // ---------- no program-local calls out of nothing ----------

  /** A pass leaves a new program-local call in a slot exactly when it patches a call with a map without data. */
  lemma NewCalls(pass: Pass, start: nat, code: seq<Insn>, rels: seq<Relocation>, i: nat)
    requires Distinct(rels)
    requires Steps(pass, start, code, rels).Done? && i < |code| && !IsCall(code[i])
    ensures IsCall(Steps(pass, start, code, rels).value[i]) <==>
      exists r :: r in rels && r.offset == start + i * INS_SIZE && CallOnMap(pass, start, code, r)
  {
    hide IsCall, EditOf, Distinct, Steps;
    var now := Steps(pass, start, code, rels).value[i];
    SuccessExact(pass, start, code, rels);
    assert UpToImm(pass, start, code, rels, i, now);
    ImmIrrelevant(code[i], now.imm);
    forall r | r in rels && WritesOwn(pass, start, code, r, i)
      ensures IsCall(now) <==> CallOnMap(pass, start, code, r)
    {
      ImmIrrelevant(OriginalEdit(pass, start, code, r).ins, now.imm);
      if pass.Kernel? {
        ExternPatchIsNoCall(pass, r, code[i]);
      } else {
        MapPatchIsCall(pass, r, code[i]);
      }
    }
  }

  // ---------- one pass for each relocation ----------

  /** The relocations of a section, filed by offset, in some order. */
  ghost predicate Lists(rels: seq<Relocation>, filed: map<nat, Relocation>) {
    && (forall o :: o in filed ==> filed[o].offset == o)
    && (forall r :: r in rels <==> r.offset in filed && filed[r.offset] == r)
  }

  /** The linker, after the other two passes, rewrites the slot or fails on it. */
  predicate Links(t: L.Tables, fun: L.Function, pos: nat, ins: Insn) {
    L.Resolve(t, fun, pos, ins) != L.NotText
  }

  /** A relocation patched as an extern reference is left alone by the linker. */
  lemma ExternsNotLinked(t: L.Tables, externs: Table, fun: L.Function, code: seq<Insn>, rels: seq<Relocation>,
                         pos: nat, now: Insn)
    requires fun.sectionIndex in t.relocations && Lists(rels, t.relocations[fun.sectionIndex])
    requires var offset := fun.sectionOffset + pos * INS_SIZE;
      offset in t.relocations[fun.sectionIndex]
      && OriginalEdit(Kernel(t.symbols, externs), fun.sectionOffset, code, t.relocations[fun.sectionIndex][offset]).Write?
    requires pos < |code| && UpToImm(Kernel(t.symbols, externs), fun.sectionOffset, code, rels, pos, now)
    ensures !Links(t, fun, pos, now)
  {
    hide IsCall, EditOf;
    var rel := t.relocations[fun.sectionIndex][fun.sectionOffset + pos * INS_SIZE];
    var pass := Kernel(t.symbols, externs);
    assert rel in rels && WritesOwn(pass, fun.sectionOffset, code, rel, pos);
    ExternPatchIsNoCall(pass, rel, code[pos]);
    ImmIrrelevant(OriginalEdit(pass, fun.sectionOffset, code, rel).ins, now.imm);
    WritesOnlyExterns(pass, rel, code[pos]);
  }

  lemma WritesOnlyExterns(pass: Pass, rel: Relocation, ins: Insn)
    requires pass.Kernel? && EditOf(pass, rel, ins).Write?
    ensures rel.symbolIndex in pass.symbols && pass.symbols[rel.symbolIndex].IsExtern()
  {
  }

  /**
   A relocation patched as a map reference is not an extern reference, and the linker touches it
   exactly when its symbol is program text outside the known text sections, or the patch made a call.
   */
  lemma MapsRarelyLinked(t: L.Tables, externs: Table, bySymbol: map<nat, MapRef>, bySection: map<nat, MapRef>,
                         fun: L.Function, mapped: seq<Insn>, rels: seq<Relocation>, pos: nat, now: Insn)
    requires fun.sectionIndex in t.relocations && Lists(rels, t.relocations[fun.sectionIndex])
    requires pos < |mapped| == |fun.instructions|
    requires UpToImm(Maps(t.symbols, bySymbol, bySection, t.textSections), fun.sectionOffset, fun.instructions, rels, pos,
                     mapped[pos])
    requires UpToImm(Kernel(t.symbols, externs), fun.sectionOffset, mapped, rels, pos, now)
    requires var offset := fun.sectionOffset + pos * INS_SIZE;
      offset in t.relocations[fun.sectionIndex]
      && OriginalEdit(Maps(t.symbols, bySymbol, bySection, t.textSections), fun.sectionOffset, fun.instructions,
                      t.relocations[fun.sectionIndex][offset]).Write?
    ensures
      var rel := t.relocations[fun.sectionIndex][fun.sectionOffset + pos * INS_SIZE];
      && !OriginalEdit(Kernel(t.symbols, externs), fun.sectionOffset, mapped, rel).Write?
      && (Links(t, fun, pos, now) <==>
            t.symbols[rel.symbolIndex].kind == L.Text
            || CallOnMap(Maps(t.symbols, bySymbol, bySection, t.textSections), fun.sectionOffset, fun.instructions, rel))
  {
    hide IsCall, KernelEdit, MapEdit;
    var pass := Maps(t.symbols, bySymbol, bySection, t.textSections);
    var rel := t.relocations[fun.sectionIndex][fun.sectionOffset + pos * INS_SIZE];
    assert rel in rels && WritesOwn(pass, fun.sectionOffset, fun.instructions, rel, pos);
    assert forall r :: r in rels && r.offset == rel.offset ==> r == rel;
    ImmIrrelevant(OriginalEdit(pass, fun.sectionOffset, fun.instructions, rel).ins, mapped[pos].imm);
    ImmIrrelevant(mapped[pos], now.imm);
    MapPatchIsCall(pass, rel, fun.instructions[pos]);
  }

  // Which passes act on the relocation at a slot, when they run in their order: maps, externs, calls.
  datatype Acts = Acts(maps: bool, externs: bool, calls: bool)

  ghost function ActsOn(t: L.Tables, maps: Pass, kernel: Pass, fun: L.Function, mapped: seq<Insn>,
                        patched: seq<Insn>, pos: nat): Acts
    requires fun.sectionIndex in t.relocations
    requires fun.sectionOffset + pos * INS_SIZE in t.relocations[fun.sectionIndex] && pos < |patched|
  {
    var rel := t.relocations[fun.sectionIndex][fun.sectionOffset + pos * INS_SIZE];
    Acts(OriginalEdit(maps, fun.sectionOffset, fun.instructions, rel).Write?,
         OriginalEdit(kernel, fun.sectionOffset, mapped, rel).Write?,
         Links(t, fun, pos, patched[pos]))
  }

  /**
   Each relocation belongs to at most one of the three passes, with one exception: the linker also
   takes a map reference whose symbol is text outside the known text sections, or that sits on a
   plain call and names a map without data.
   */
  lemma OnePassEach(t: L.Tables, externs: Table, bySymbol: map<nat, MapRef>, bySection: map<nat, MapRef>,
                    fun: L.Function, rels: seq<Relocation>, mapped: seq<Insn>, patched: seq<Insn>, pos: nat)
    requires fun.sectionIndex in t.relocations && Lists(rels, t.relocations[fun.sectionIndex]) && Distinct(rels)
    requires fun.sectionOffset + pos * INS_SIZE in t.relocations[fun.sectionIndex] && pos < |fun.instructions|
    requires Steps(Maps(t.symbols, bySymbol, bySection, t.textSections), fun.sectionOffset, fun.instructions, rels) == Done(mapped)
    requires Steps(Kernel(t.symbols, externs), fun.sectionOffset, mapped, rels) == Done(patched)
    ensures
      var pass := Maps(t.symbols, bySymbol, bySection, t.textSections);
      var rel := t.relocations[fun.sectionIndex][fun.sectionOffset + pos * INS_SIZE];
      var acts := ActsOn(t, pass, Kernel(t.symbols, externs), fun, mapped, patched, pos);
      && !(acts.maps && acts.externs) && !(acts.externs && acts.calls)
      && (acts.maps && acts.calls <==>
            acts.maps && (t.symbols[rel.symbolIndex].kind == L.Text || CallOnMap(pass, fun.sectionOffset, fun.instructions, rel)))
  {
    hide IsCall, EditOf, UpToImm, Distinct, OriginalEdit, Links, CallOnMap, Steps;
    var pass := Maps(t.symbols, bySymbol, bySection, t.textSections);
    var offset := fun.sectionOffset + pos * INS_SIZE;
    SuccessExact(pass, fun.sectionOffset, fun.instructions, rels);
    SuccessExact(Kernel(t.symbols, externs), fun.sectionOffset, mapped, rels);
    assert UpToImm(pass, fun.sectionOffset, fun.instructions, rels, pos, mapped[pos]);
    assert UpToImm(Kernel(t.symbols, externs), fun.sectionOffset, mapped, rels, pos, patched[pos]);
    if OriginalEdit(pass, fun.sectionOffset, fun.instructions, t.relocations[fun.sectionIndex][offset]).Write? {
      MapsRarelyLinked(t, externs, bySymbol, bySection, fun, mapped, rels, pos, patched[pos]);
    }
    if OriginalEdit(Kernel(t.symbols, externs), fun.sectionOffset, mapped, t.relocations[fun.sectionIndex][offset]).Write? {
      ExternsNotLinked(t, externs, fun, mapped, rels, pos, patched[pos]);
    }
  }
}
