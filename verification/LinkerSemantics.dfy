/**
 What linking means. The object file is run as separate functions, by frames of (function,
 offset); the linked program is run as one flat array, by instruction index. The two runs are
 shown to correspond step for step, whatever the other instructions do.

 Everything a program computes is an abstract state `M`: `exec` is the effect of an instruction
 that is neither a local call nor a function reference. Function references are opaque: loading
 one appends it to a list, and the program sees its position there.
 */
module LinkerSemantics {
  import opened Instructions
  import opened Linker

  // ---------- the machine ----------

  datatype Outcome<M> =
    | Next(m: M)                               // fall through
    | Jump(m: M, delta: int)                   // relative to the next instruction
    | Invoke(m: M, handle: nat, again: bool)   // a helper calls back; `again` re-executes it afterwards
    | Return(m: M)
    | Trap

  datatype Machine<!M> = Machine(
    exec: (Insn, Option<I32>, M) -> Outcome<M>,  // the option is the upper half of a 64-bit immediate
    loadRef: (bv4, M, nat) -> M)                 // put the handle of a function into a register

  predicate IsFuncRef(ins: Insn) {
    ins.code == LD_IMM64 && ins.src == BPF_PSEUDO_FUNC
  }

  // ---------- running the object ----------

  datatype Frame = Frame(key: Key, off: nat)

  datatype ObjState<M> =
    | ObjRunning(stack: seq<Frame>, at: Frame, refs: seq<Key>, m: M)
    | ObjHalted(m: M)
    | ObjTrapped
    | Escaped  // control left the body of the function it was in

  // What an instruction of the object is, by the addresses of the ELF file.
  datatype Meaning = Plain | Call(callee: Key) | Ref(callee: Key) | Malformed

  function ObjMeaning(t: Tables, fun: Function, off: nat): Meaning
    requires off < |fun.instructions|
  {
    var ins := fun.instructions[off];
    var address := fun.address + off * INS_SIZE;
    match TextRelocation(t, fun.sectionIndex, address)
    case None =>
      if IsCall(ins) then Call((fun.sectionIndex, WrapU64(address + (1 + ins.imm) * INS_SIZE))) else Plain
    case Some((rel, sym)) =>
      if sym.sectionIndex.None? then Malformed
      else
        var target :=
          if sym.kind == Text then Some(sym.address)
          else if sym.kind == Section && rel.size == 32 then Some(WrapU64(sym.address + (1 + ins.imm) * INS_SIZE))
          else if sym.kind == Section && rel.size == 64 then Some(WrapU64(sym.address + ins.imm))
          else None;
        if target.None? then Malformed
        else if IsCall(ins) then Call((sym.sectionIndex.value, target.value))
        else Ref((sym.sectionIndex.value, target.value))
  }

  function Upper(code: seq<Insn>, i: nat): Option<I32>
    requires i < |code|
  {
    if code[i].code == LD_IMM64 && i + 1 < |code| then Some(code[i + 1].imm) else None
  }

  function ObjAfter<M>(fun: Function, s: ObjState<M>, o: Outcome<M>): ObjState<M>
    requires s.ObjRunning?
  {
    var Frame(k, off) := s.at;
    match o
    case Next(m) => s.(at := Frame(k, off + 1), m := m)
    case Jump(m, delta) =>
      var to := off + 1 + delta;
      if 0 <= to < |fun.instructions| then s.(at := Frame(k, to), m := m) else Escaped
    case Invoke(m, handle, again) =>
      if handle < |s.refs| then
        var back := Frame(k, if again then off else off + 1);
        s.(stack := s.stack + [back], at := Frame(s.refs[handle], 0), m := m)
      else ObjTrapped
    case Return(m) =>
      if s.stack == [] then ObjHalted(m)
      else s.(stack := s.stack[..|s.stack| - 1], at := s.stack[|s.stack| - 1], m := m)
    case Trap => ObjTrapped
  }

  function ObjStep<M>(t: Tables, mach: Machine<M>, s: ObjState<M>): ObjState<M> {
    if !s.ObjRunning? then s
    else if s.at.key !in t.functions then ObjTrapped
    else
      var fun := t.functions[s.at.key];
      if s.at.off >= |fun.instructions| then Escaped
      else
        var ins := fun.instructions[s.at.off];
        match ObjMeaning(t, fun, s.at.off)
        case Plain => ObjAfter(fun, s, mach.exec(ins, Upper(fun.instructions, s.at.off), s.m))
        case Call(callee) =>
          s.(stack := s.stack + [Frame(s.at.key, s.at.off + 1)], at := Frame(callee, 0))
        case Ref(callee) =>
          s.(at := Frame(s.at.key, s.at.off + 2), refs := s.refs + [callee],
             m := mach.loadRef(ins.dst, s.m, |s.refs|))
        case Malformed => ObjTrapped
  }

  function ObjRun<M>(t: Tables, mach: Machine<M>, s: ObjState<M>, n: nat): ObjState<M> {
    if n == 0 then s else ObjStep(t, mach, ObjRun(t, mach, s, n - 1))
  }

  // ---------- running the linked program ----------

  datatype FlatState<M> =
    | FlatRunning(stack: seq<nat>, pc: nat, refs: seq<nat>, m: M)
    | FlatHalted(m: M)
    | FlatTrapped

  function FlatAfter<M>(code: seq<Insn>, s: FlatState<M>, o: Outcome<M>): FlatState<M>
    requires s.FlatRunning?
  {
    match o
    case Next(m) => s.(pc := s.pc + 1, m := m)
    case Jump(m, delta) =>
      var to := s.pc + 1 + delta;
      if 0 <= to < |code| then s.(pc := to, m := m) else FlatTrapped
    case Invoke(m, handle, again) =>
      if handle < |s.refs| then
        s.(stack := s.stack + [if again then s.pc else s.pc + 1], pc := s.refs[handle], m := m)
      else FlatTrapped
    case Return(m) =>
      if s.stack == [] then FlatHalted(m)
      else s.(stack := s.stack[..|s.stack| - 1], pc := s.stack[|s.stack| - 1], m := m)
    case Trap => FlatTrapped
  }

  function FlatStep<M>(code: seq<Insn>, mach: Machine<M>, s: FlatState<M>): FlatState<M> {
    if !s.FlatRunning? then s
    else if s.pc >= |code| then FlatTrapped
    else
      var ins := code[s.pc];
      var target := s.pc + 1 + ins.imm;
      if IsCall(ins) then
        if 0 <= target then s.(stack := s.stack + [s.pc + 1], pc := target) else FlatTrapped
      else if IsFuncRef(ins) then
        if 0 <= target then
          s.(pc := s.pc + 2, refs := s.refs + [target], m := mach.loadRef(ins.dst, s.m, |s.refs|))
        else FlatTrapped
      else FlatAfter(code, s, mach.exec(ins, Upper(code, s.pc), s.m))
  }

  function FlatRun<M>(code: seq<Insn>, mach: Machine<M>, s: FlatState<M>, n: nat): FlatState<M> {
    if n == 0 then s else FlatStep(code, mach, FlatRun(code, mach, s, n - 1))
  }

  // ---------- what is asked of the object ----------

  /**
   Instruction `off` is one the ELF file may hold: displacements leave room for the "plus one";
   function references are relocated, and besides calls only they are; the second slot of a 64-bit
   load is neither a call nor relocated.
   */
  ghost predicate WellRelocatedAt(t: Tables, fun: Function, off: nat)
    requires off < |fun.instructions|
  {
    var ins := fun.instructions[off];
    var relocated := TextRelocation(t, fun.sectionIndex, fun.address + off * INS_SIZE).Some?;
    && (IsCall(ins) || relocated ==> ins.imm < 0x7fff_ffff)
    && (IsFuncRef(ins) ==> relocated)
    && (relocated && !IsCall(ins) ==> ins.code == LD_IMM64)
    && (ins.code == LD_IMM64 ==>
          && off + 1 < |fun.instructions|
          && !IsCall(fun.instructions[off + 1])
          && TextRelocation(t, fun.sectionIndex, fun.address + (off + 1) * INS_SIZE).None?)
  }

  ghost predicate WellRelocated(t: Tables, fun: Function) {
    forall off :: 0 <= off < |fun.instructions| ==> WellRelocatedAt(t, fun, off)
  }

  /** Sections are not placed anywhere yet: the address of a function is its section offset. */
  predicate ZeroBased(fun: Function) {
    fun.sectionOffset == fun.address
  }

  /** The program and the functions linked into it are as they should be, whatever the others are. */
  ghost predicate Sound(t: Tables, main: Function, linked: map<Key, nat>) {
    && t.Valid()
    && main.Key() in t.functions && t.functions[main.Key()] == main
    && forall k :: k in t.functions && (k in linked || k == main.Key()) ==>
         ZeroBased(t.functions[k]) && WellRelocated(t, t.functions[k])
  }

  /** A sound object and its linked program, short enough for 32-bit displacements. */
  ghost predicate Linked(t: Tables, main: Function, linked: map<Key, nat>, code: seq<Insn>) {
    && Sound(t, main, linked)
    && |code| < 0x8000_0000
    && BlockSettled(t, linked, main, 0, code)
    && (forall k :: k in linked ==> k in t.functions && BlockSettled(t, linked, t.functions[k], linked[k], code))
  }

  // ---------- the correspondence ----------

  /** `start` is where a block of function `k` begins: its linked copy, or the main body. */
  ghost predicate IsBlock(t: Tables, main: Function, linked: map<Key, nat>, k: Key, start: nat) {
    (k in linked && linked[k] == start) || (k == main.Key() && start == 0)
  }

  ghost predicate SamePlace(t: Tables, main: Function, linked: map<Key, nat>, f: Frame, pc: nat) {
    && f.key in t.functions
    && f.off <= |t.functions[f.key].instructions|
    && f.off <= pc
    && IsBlock(t, main, linked, f.key, pc - f.off)
  }

  ghost predicate SameStack(t: Tables, main: Function, linked: map<Key, nat>, o: seq<Frame>, f: seq<nat>) {
    |o| == |f| && forall i :: 0 <= i < |o| ==> SamePlace(t, main, linked, o[i], f[i])
  }

  ghost predicate SameRefs(linked: map<Key, nat>, o: seq<Key>, f: seq<nat>) {
    |o| == |f| && forall i :: 0 <= i < |o| ==> o[i] in linked && f[i] == linked[o[i]]
  }

  /** The two runs are at the same point, unless the object ran out of a function body. */
  ghost predicate Corresponds<M>(t: Tables, main: Function, linked: map<Key, nat>, o: ObjState<M>, f: FlatState<M>) {
    match o
    case ObjRunning(stack, at, refs, m) =>
      && f.FlatRunning?
      && SameStack(t, main, linked, stack, f.stack)
      && SamePlace(t, main, linked, at, f.pc)
      && SameRefs(linked, refs, f.refs)
      && m == f.m
    case ObjHalted(m) => f == FlatHalted(m)
    case ObjTrapped => f.FlatTrapped?
    case Escaped => true
  }

  // ---------- one instruction ----------

  /** Short displacements survive the narrowing to 32 bits. */
  lemma DisplacementExact(callee: nat, at: nat)
    requires callee < 0x8000_0000 && at < 0x8000_0000
    ensures WrapI32(WrapI32(callee) - WrapI32(at) - 1) == callee - at - 1
  {
  }

  /** The linker and the address arithmetic of the ELF file agree on every callee. */
  lemma ResolveIsMeaning(t: Tables, fun: Function, off: nat)
    requires off < |fun.instructions| && fun.sectionOffset == fun.address
    requires WellRelocatedAt(t, fun, off)
    ensures match SiteOf(t, fun, off)
            case NotText => ObjMeaning(t, fun, off) == Plain
            case Target(k) =>
              ObjMeaning(t, fun, off) == if IsCall(fun.instructions[off]) then Call(k) else Ref(k)
            case Unsupported => ObjMeaning(t, fun, off) == Malformed
  {
  }

  /** What the linked instruction is, given what the original one was. */
  lemma LinkedInstruction(t: Tables, main: Function, linked: map<Key, nat>, code: seq<Insn>, k: Key, start: nat,
                          off: nat)
    requires Linked(t, main, linked, code)
    requires k in t.functions && IsBlock(t, main, linked, k, start)
    requires off < |t.functions[k].instructions|
    ensures start + |t.functions[k].instructions| <= |code|
    ensures
      var ins, out := t.functions[k].instructions[off], code[start + off];
      match ObjMeaning(t, t.functions[k], off)
      case Plain => out == ins && !IsCall(out) && !IsFuncRef(out)
      case Call(callee) =>
        IsCall(out) && callee in linked && start + off + 1 + out.imm == linked[callee]
      case Ref(callee) =>
        && !IsCall(out) && IsFuncRef(out) && out.dst == ins.dst && off + 1 < |t.functions[k].instructions|
        && callee in linked && start + off + 1 + out.imm == linked[callee]
      case Malformed => false
  {
    var fun := t.functions[k];
    assert BlockSettled(t, linked, fun, start, code);
    assert SlotSettled(t, linked, fun, start, code, off);
    assert WellRelocatedAt(t, fun, off);
    ResolveIsMeaning(t, fun, off);
    IsCallOpcode(fun.instructions[off]);
    if SiteOf(t, fun, off).Target? {
      var callee := SiteOf(t, fun, off).key;
      BlockBelow(t, main, linked, code, callee);
      DisplacementExact(linked[callee], start + off);
      IsCallOpcode(code[start + off]);
    }
  }

  lemma BlockBelow(t: Tables, main: Function, linked: map<Key, nat>, code: seq<Insn>, k: Key)
    requires Linked(t, main, linked, code) && k in linked
    ensures linked[k] <= |code|
  {
  }

  /** The upper half of a 64-bit immediate is not touched by linking. */
  lemma LinkedUpper(t: Tables, main: Function, linked: map<Key, nat>, code: seq<Insn>, k: Key, start: nat, off: nat)
    requires Linked(t, main, linked, code)
    requires k in t.functions && IsBlock(t, main, linked, k, start)
    requires off < |t.functions[k].instructions|
    requires ObjMeaning(t, t.functions[k], off) == Plain
    ensures start + off < |code| && Upper(code, start + off) == Upper(t.functions[k].instructions, off)
  {
    var fun := t.functions[k];
    LinkedInstruction(t, main, linked, code, k, start, off);
    assert WellRelocatedAt(t, fun, off);
    if fun.instructions[off].code == LD_IMM64 {
      LinkedInstruction(t, main, linked, code, k, start, off + 1);
    }
  }

  lemma PushSame(t: Tables, main: Function, linked: map<Key, nat>, o: seq<Frame>, f: seq<nat>, frame: Frame, pc: nat)
    requires SameStack(t, main, linked, o, f) && SamePlace(t, main, linked, frame, pc)
    ensures SameStack(t, main, linked, o + [frame], f + [pc])
  {
  }

  /** Entering a function through a reference, to return to offset `back`. */
  lemma InvokeCorresponds<M>(t: Tables, main: Function, linked: map<Key, nat>, o: ObjState<M>, f: FlatState<M>,
                             handle: nat, back: nat)
    requires o.ObjRunning? && Corresponds(t, main, linked, o, f) && handle < |o.refs|
    requires forall k :: k in linked ==> k in t.functions
    requires back <= |t.functions[o.at.key].instructions|
    ensures
      var start := f.pc - o.at.off;
      && SamePlace(t, main, linked, Frame(o.at.key, back), start + back)
      && SameStack(t, main, linked, o.stack + [Frame(o.at.key, back)], f.stack + [start + back])
      && SamePlace(t, main, linked, Frame(o.refs[handle], 0), f.refs[handle])
  {
  }

  lemma AfterCorresponds<M>(t: Tables, main: Function, linked: map<Key, nat>, code: seq<Insn>,
                            o: ObjState<M>, f: FlatState<M>, outcome: Outcome<M>)
    requires Linked(t, main, linked, code)
    requires o.ObjRunning? && Corresponds(t, main, linked, o, f)
    requires o.at.off < |t.functions[o.at.key].instructions|
    ensures Corresponds(t, main, linked, ObjAfter(t.functions[o.at.key], o, outcome), FlatAfter(code, f, outcome))
  {
    var k, off, start := o.at.key, o.at.off, f.pc - o.at.off;
    LinkedInstruction(t, main, linked, code, k, start, off);
    match outcome
    case Next(m) =>
      assert SamePlace(t, main, linked, Frame(k, off + 1), f.pc + 1);
    case Jump(m, delta) =>
      if 0 <= off + 1 + delta < |t.functions[k].instructions| {
        assert SamePlace(t, main, linked, Frame(k, off + 1 + delta), f.pc + 1 + delta);
      }
    case Invoke(m, handle, again) =>
      if handle < |o.refs| {
        InvokeCorresponds(t, main, linked, o, f, handle, if again then off else off + 1);
      }
    case Return(m) =>
    case Trap =>
  }

  /** One step of each run keeps them at corresponding points. */
  lemma StepCorresponds<M>(t: Tables, mach: Machine<M>, main: Function, linked: map<Key, nat>, code: seq<Insn>,
                           o: ObjState<M>, f: FlatState<M>)
    requires Linked(t, main, linked, code)
    requires Corresponds(t, main, linked, o, f)
    ensures Corresponds(t, main, linked, ObjStep(t, mach, o), FlatStep(code, mach, f))
  {
    if o.ObjRunning? && o.at.off < |t.functions[o.at.key].instructions| {
      var k, off, start := o.at.key, o.at.off, f.pc - o.at.off;
      LinkedInstruction(t, main, linked, code, k, start, off);
      var fun := t.functions[k];
      match ObjMeaning(t, fun, off)
      case Plain =>
        LinkedUpper(t, main, linked, code, k, start, off);
        AfterCorresponds(t, main, linked, code, o, f, mach.exec(fun.instructions[off], Upper(fun.instructions, off), o.m));
      case Call(callee) =>
        assert SamePlace(t, main, linked, Frame(callee, 0), linked[callee]);
        PushSame(t, main, linked, o.stack, f.stack, Frame(k, off + 1), f.pc + 1);
      case Ref(callee) =>
        assert SamePlace(t, main, linked, Frame(k, off + 2), f.pc + 2);
        assert SameRefs(linked, o.refs + [callee], f.refs + [linked[callee]]);
    }
  }

  /**
   The main theorem. From the entry of the program, and for any number of steps, the linked program
   is where the object is, with the same data; they halt and trap together.
   */
  lemma {:induction false} LinkingPreservesRuns<M>(
    t: Tables, mach: Machine<M>, main: Function, linked: map<Key, nat>, code: seq<Insn>, m: M, n: nat)
    requires Linked(t, main, linked, code)
    ensures Corresponds(t, main, linked,
                        ObjRun(t, mach, ObjRunning([], Frame(main.Key(), 0), [], m), n),
                        FlatRun(code, mach, FlatRunning([], 0, [], m), n))
  {
    if n == 0 {
      assert SamePlace(t, main, linked, Frame(main.Key(), 0), 0);
    } else {
      LinkingPreservesRuns(t, mach, main, linked, code, m, n - 1);
      StepCorresponds(t, mach, main, linked, code,
                      ObjRun(t, mach, ObjRunning([], Frame(main.Key(), 0), [], m), n - 1),
                      FlatRun(code, mach, FlatRunning([], 0, [], m), n - 1));
    }
  }

  /**
   While the object stays inside its functions, what the linker produced halts when the object
   does, and with the same result.
   */
  lemma LinkingPreservesResults<M>(
    t: Tables, mach: Machine<M>, main: Function, linked: map<Key, nat>, order: seq<Key>,
    code: seq<Insn>, funcs: seq<FuncRecord>, lines: seq<LineRecord>, m: M, n: nat, result: M)
    requires Sound(t, main, linked) && |code| < 0x8000_0000
    requires LinkedImage(t, main, linked, order, code, funcs, lines)
    requires !ObjRun(t, mach, ObjRunning([], Frame(main.Key(), 0), [], m), n).Escaped?
    ensures FlatRun(code, mach, FlatRunning([], 0, [], m), n) == FlatHalted(result)
       <==> ObjRun(t, mach, ObjRunning([], Frame(main.Key(), 0), [], m), n) == ObjHalted(result)
  {
    LinkingPreservesRuns(t, mach, main, linked, code, m, n);
  }

  /**
   Why sections must start at address zero: the linker computes the callee of an unrelocated call
   from the section offset, and the ELF file means the address.
   */
  lemma PcRelativeNeedsZeroBase(t: Tables, fun: Function, off: nat)
    requires off < |fun.instructions| && IsCall(fun.instructions[off])
    requires fun.instructions[off].imm < 0x7fff_ffff
    requires TextRelocation(t, fun.sectionIndex, fun.sectionOffset + off * INS_SIZE).None?
    requires TextRelocation(t, fun.sectionIndex, fun.address + off * INS_SIZE).None?
    ensures SiteOf(t, fun, off).Target? && ObjMeaning(t, fun, off).Call?
    ensures SiteOf(t, fun, off).key == ObjMeaning(t, fun, off).callee
       <==> WrapU64(fun.sectionOffset) == fun.address
  {
    hide WrapU64, WrapI32, IsCall, TextRelocation;
    var imm := fun.instructions[off].imm;
    NoWrap(imm);
    SameDistance(fun.sectionOffset, fun.address, off * INS_SIZE + (1 + imm) * INS_SIZE);
    AddressIsItself(fun.address);
  }

  /** A section at 0x1000: the call of the next function is taken for a call of address 8. */
  lemma SectionAddressShows()
    ensures
      var code := [Insn(CALL, 0, BPF_PSEUDO_CALL, 0, 0)];
      var t, fun := Tables(map[], map[], map[], {}), Function(0x1000, "", 0, 0, code, [], [], 0, 0);
      && SiteOf(t, fun, 0) == Target((0, 8))
      && ObjMeaning(t, fun, 0) == Call((0, 0x1008))
  {
    hide IsCall;
    IsCallOpcode(Insn(CALL, 0, BPF_PSEUDO_CALL, 0, 0));
  }

  lemma NoWrap(imm: I32)
    requires imm < 0x7fff_ffff
    ensures WrapI32(imm + 1) == 1 + imm
  {
  }

  lemma AddressIsItself(address: U64)
    ensures WrapU64(address) == address
  {
  }

  lemma SameDistance(a: int, b: int, k: int)
    ensures WrapU64(a + k) == WrapU64(b + k) <==> WrapU64(a) == WrapU64(b)
  {
  }
}
