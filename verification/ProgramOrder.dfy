/**
 A program that calls another one: linked in one order both are fine, in the other the pass fails. The
 callee, once linked, holds displacements into its own copy of the code, and linking the caller reads
 them as displacements in the section.
 */
module ProgramOrder {
  import opened Instructions
  import opened Linker
  import opened RelocateCalls

  const EXIT: Insn := Insn(0x95, 0, 0, 0, 0)

  function CallBy(imm: I32): Insn {
    Insn(CALL, 0, BPF_PSEUDO_CALL, 0, imm)
  }

  function Plain(address: nat, code: seq<Insn>): Function
    requires address < 0x1_0000
  {
    Function(address, "", 0, address, code, [], [], 0, 0)
  }

  // The caller at 0, the program it calls at 16, and a function that one calls at 40.
  const CALLER: Key := (0, 0)
  const CALLEE: Key := (0, 16)
  const HELPER: Key := (0, 40)

  function Table(): Tables {
    Tables(map[CALLER := Plain(0, [CallBy(1), EXIT]), CALLEE := Plain(16, [CallBy(2), EXIT]), HELPER := Plain(40, [EXIT])],
           map[], map[], {})
  }

  lemma Sites(t: Tables, fun: Function, pos: nat)
    requires t.relocations == map[] && fun.sectionIndex == 0 && fun.sectionOffset < 0x1_0000 && pos < 0x100
    ensures Resolve(t, fun, pos, EXIT) == NotText
    ensures forall imm: I32 :: 0 <= imm < 0x100 ==>
      IsCall(CallBy(imm)) && Resolve(t, fun, pos, CallBy(imm)) == Target((0, fun.sectionOffset + (pos + imm + 1) * INS_SIZE))
  {
    IsCallOpcode(EXIT);
    forall imm: I32 | 0 <= imm < 0x100
      ensures IsCall(CallBy(imm))
    {
      IsCallOpcode(CallBy(imm));
    }
  }

  /** The callee reaches the helper and nothing else. */
  lemma CalleeCloses(t: Tables)
    requires t.relocations == map[] && CALLEE in t.functions && HELPER in t.functions
    requires t.functions[CALLEE] == Table().functions[CALLEE] && t.functions[HELPER] == Table().functions[HELPER]
    ensures CalleesClosed(t, t.functions[CALLEE], {HELPER})
  {
    hide Resolve, IsCall;
    Sites(t, t.functions[CALLEE], 0);
    Sites(t, t.functions[CALLEE], 1);
    Sites(t, t.functions[HELPER], 0);
  }

  lemma CallerCloses()
    ensures CalleesClosed(Table(), Table().functions[CALLER], {CALLEE, HELPER})
  {
    hide Resolve, IsCall;
    var t := Table();
    Sites(t, t.functions[CALLER], 0);
    Sites(t, t.functions[CALLER], 1);
    CalleeCloses(t);
  }

  /** Linked on its own, the callee has the helper right behind it. */
  lemma LinkedCallee(f: Function)
    requires LinkedAs(Table(), CALLEE, f)
    ensures f == Table().functions[CALLEE].(instructions := f.instructions, funcInfo := f.funcInfo, lineInfo := f.lineInfo,
                                            funcNumInfo := f.funcNumInfo, lineNumInfo := f.lineNumInfo)
    ensures f.instructions != [] && f.instructions[0] == CallBy(1)
  {
    hide LinkedImage, Reachable, CalleesClosed;
    var t := Table();
    var main := t.functions[CALLEE];
    var linked: map<Key, nat>, order: seq<Key> :|
      && linked.Keys == Reachable(t, main)
      && LinkedImage(t, main, linked, order, f.instructions, f.funcInfo, f.lineInfo);
    CalleeCloses(t);
    OnlyWhatCloses(t, main, {HELPER});
    FirstSlot(linked, order, f.instructions, f.funcInfo, f.lineInfo);
  }

  lemma FirstSlot(linked: map<Key, nat>, order: seq<Key>, code: seq<Insn>, funcs: seq<FuncRecord>, lines: seq<LineRecord>)
    requires linked.Keys <= {HELPER}
    requires LinkedImage(Table(), Table().functions[CALLEE], linked, order, code, funcs, lines)
    ensures code != [] && code[0] == CallBy(1)
  {
    hide Resolve, Tiled, LinkedFuncs, LinkedLines, IsCall;
    var t := Table();
    var main := t.functions[CALLEE];
    Sites(t, main, 0);
    assert SlotSettled(t, linked, main, 0, code, 0);
    assert HELPER in linked && code[0] == Patched(CallBy(2), linked[HELPER], 0);
    OneBlock(t, linked, order, 2, |code|);
    assert IsCall(CallBy(2));
  }

  lemma OnlyWhatCloses(t: Tables, main: Function, keys: set<Key>)
    requires CalleesClosed(t, main, keys)
    ensures Reachable(t, main) <= keys
  {
  }

  lemma OneBlock(t: Tables, linked: map<Key, nat>, order: seq<Key>, base: nat, size: nat)
    requires Tiled(t, linked, order, base, size) && linked.Keys == {HELPER}
    ensures linked[HELPER] == base
  {
    var k := order[|order| - 1];
    assert k in linked.Keys;
    assert linked - {k} == map[];
  }

  /** Against the linked callee the caller cannot be linked: its call now seems to go to address 32. */
  lemma CallerStuck(mid: Tables)
    requires LinksNext(Table(), CALLEE, mid)
    ensures !Linkable(mid, mid.functions[CALLER])
  {
    hide Resolve, IsCall, LinkedAs;
    var f := mid.functions[CALLEE];
    LinkedCallee(f);
    Sites(mid, mid.functions[CALLER], 0);
    Sites(mid, f, 0);
    assert SiteOf(mid, mid.functions[CALLER], 0) == Target(CALLEE);
    assert SiteOf(mid, f, 0) == Target((0, 32)) && (0, 32) !in mid.functions;
  }

  /** Once the caller is linked, the callee and the helper are as they were. */
  lemma CalleeFine(mid: Tables)
    requires LinksNext(Table(), CALLER, mid)
    ensures CALLEE in mid.functions && Linkable(mid, mid.functions[CALLEE])
  {
    hide Resolve, IsCall, LinkedAs, CalleesClosed;
    CalleeCloses(mid);
  }

  /** The order of dependent programs shows: with the caller first the pass cannot fail, with the callee first it must. */
  lemma ProgramOrderShows()
    ensures Table().Valid()
    ensures forall i: nat, mid :: !FailsAt(Table(), [CALLER, CALLEE], i, mid)
    ensures forall t' :: !PassTo(Table(), [CALLEE, CALLER], t')
  {
    hide LinksNext, Linkable, Table;
    ValidTable();
    forall i: nat, mid
      ensures !FailsAt(Table(), [CALLER, CALLEE], i, mid)
    {
      if FailsAt(Table(), [CALLER, CALLEE], i, mid) {
        CallerFirst(i, mid);
        assert false;
      }
    }
    forall t'
      ensures !PassTo(Table(), [CALLEE, CALLER], t')
    {
      if PassTo(Table(), [CALLEE, CALLER], t') {
        CalleeFirst(t');
        assert false;
      }
    }
  }

  lemma ValidTable()
    ensures Table().Valid()
  {
  }

  lemma OnePassed(t: Tables, p: Key, t': Tables)
    requires PassTo(t, [p], t')
    ensures LinksNext(t, p, t')
  {
    hide LinksNext;
    var programs: seq<Key> := [p];
    assert programs[..0] == [];
    var mid :| PassTo(t, programs[..0], mid) && LinksNext(mid, p, t');
  }

  lemma CallerFirst(i: nat, mid: Tables)
    ensures !FailsAt(Table(), [CALLER, CALLEE], i, mid)
  {
    hide LinksNext;
    var programs: seq<Key> := [CALLER, CALLEE];
    var first := programs[..1];
    assert programs[..0] == [] && first == [CALLER] && first[..0] == [];
    CallerCloses();
    if i == 1 && PassTo(Table(), programs[..1], mid) {
      OnePassed(Table(), CALLER, mid);
      CalleeFine(mid);
    }
  }

  lemma CalleeFirst(t': Tables)
    ensures !PassTo(Table(), [CALLEE, CALLER], t')
  {
    hide Table;
    var programs: seq<Key> := [CALLEE, CALLER];
    var first := programs[..1];
    assert first == [CALLEE] && first[..0] == [];
    forall mid | PassTo(Table(), programs[..1], mid)
      ensures !LinksNext(mid, CALLER, t')
    {
      OnePassed(Table(), CALLEE, mid);
      CallerStuck(mid);
    }
  }
}
