/**
 The function linker: copies a program's main body, appends every function it can reach, once
 each, and rewrites calls and function references to pc-relative displacements. Debug records
 travel with the code.

 The program under construction and the linker are objects updated in place, as in the source.
 What a finished program looks like is the predicate `LinkedImage`; module LinkerSemantics proves
 what such an image means.
 */
module Linker {
  import opened Instructions

  // A function is identified by its section index and its address.
  type Key = (nat, U64)

  datatype SymbolKind = Unknown | Text | Data | Section | OtherKind

  datatype Symbol = Symbol(
    index: nat, sectionIndex: Option<nat>, name: Option<string>, address: U64, size: U64,
    isDefinition: bool, kind: SymbolKind, isWeak: bool)
  {
    predicate IsExtern() {
      sectionIndex.None? && name.Some? && !isDefinition && kind == Unknown
    }
  }

  datatype Relocation = Relocation(offset: nat, size: nat, symbolIndex: nat)

  datatype FuncRecord = FuncRecord(insnOff: U32, typeId: U32)
  datatype LineRecord = LineRecord(insnOff: U32, fileNameOff: U32, lineOff: U32, lineCol: U32)

  datatype Function = Function(
    address: U64, name: string, sectionIndex: nat, sectionOffset: nat,
    instructions: seq<Insn>, funcInfo: seq<FuncRecord>, lineInfo: seq<LineRecord>,
    funcNumInfo: U32, lineNumInfo: U32)  // record counts, as the object file gives them for the whole section
  {
    function Key(): Key { (sectionIndex, address) }
  }

  // Everything the linker reads and never changes.
  datatype Tables = Tables(
    functions: map<Key, Function>, relocations: map<nat, map<nat, Relocation>>,
    symbols: map<nat, Symbol>, textSections: set<nat>)
  {
    // Each function is filed under its own section and address.
    ghost predicate Valid() {
      forall k :: k in functions ==> functions[k].Key() == k
    }
  }

  datatype LinkError =
    | UnknownFunction(address: U64, callerName: string)
    | FunctionInfoMismatch(name: string)
    | Abort  // the source panics: a text symbol of an unsupported kind, or without a section

  datatype Result<+T> = Success(value: T) | Failure(error: LinkError)

  // ---------- where an instruction points ----------

  // What one instruction needs from the linker.
  datatype Site = NotText | Target(key: Key) | Unsupported

  /** The relocation that applies to the byte offset, when its symbol is program text. */
  function TextRelocation(t: Tables, section: nat, offset: nat): Option<(Relocation, Symbol)> {
    if section !in t.relocations || offset !in t.relocations[section] then None
    else
      var rel := t.relocations[section][offset];
      if rel.symbolIndex !in t.symbols then None
      else
        var sym := t.symbols[rel.symbolIndex];
        if sym.IsExtern() then None
        else if sym.kind == Text || (sym.sectionIndex.Some? && sym.sectionIndex.value in t.textSections)
        then Some((rel, sym))
        else None
  }

  /** The callee of instruction `ins`, read at position `pos` of `fun`. */
  function Resolve(t: Tables, fun: Function, pos: nat, ins: Insn): Site {
    match TextRelocation(t, fun.sectionIndex, fun.sectionOffset + pos * INS_SIZE)
    case Some((rel, sym)) =>
      if sym.sectionIndex.None? then Unsupported
      else if sym.kind == Text then
        Target((sym.sectionIndex.value, sym.address))
      else if sym.kind == Section && rel.size == 32 then
        // a call: the displacement is counted in instructions from the section start
        Target((sym.sectionIndex.value, WrapU64(sym.address + WrapI32(ins.imm + 1) * INS_SIZE)))
      else if sym.kind == Section && rel.size == 64 then
        // a 64-bit load of a function address
        Target((sym.sectionIndex.value, WrapU64(sym.address + ins.imm)))
      else Unsupported
    case None =>
      if IsCall(ins) then
        // a call inside the section, already pc-relative
        Target((fun.sectionIndex,
                WrapU64(fun.sectionOffset + pos * INS_SIZE + WrapI32(ins.imm + 1) * INS_SIZE)))
      else NotText
  }

  function SiteOf(t: Tables, fun: Function, pos: nat): Site
    requires pos < |fun.instructions|
  {
    Resolve(t, fun, pos, fun.instructions[pos])
  }

  /** The instruction at `at`, made to point at `callee`. */
  function Patched(ins: Insn, callee: nat, at: nat): Insn {
    var moved := ins.(imm := WrapI32(WrapI32(callee) - WrapI32(at) - 1));
    if IsCall(ins) then moved else moved.(src := BPF_PSEUDO_FUNC)
  }

  // ---------- what a linked program looks like ----------

  /** Slot `start + pos` of the code holds `fun`'s instruction `pos` in its final form. */
  predicate SlotSettled(t: Tables, linked: map<Key, nat>, fun: Function, start: nat, code: seq<Insn>, pos: nat)
    requires pos < |fun.instructions| && start + pos < |code|
  {
    match SiteOf(t, fun, pos)
    case NotText => code[start + pos] == fun.instructions[pos]
    case Target(k) => k in linked && code[start + pos] == Patched(fun.instructions[pos], linked[k], start + pos)
    case Unsupported => false
  }

  ghost predicate BlockSettled(t: Tables, linked: map<Key, nat>, fun: Function, start: nat, code: seq<Insn>) {
    && start + |fun.instructions| <= |code|
    && forall pos :: 0 <= pos < |fun.instructions| ==> SlotSettled(t, linked, fun, start, code, pos)
  }

  function BodySize(t: Tables, k: Key): nat {
    if k in t.functions then |t.functions[k].instructions| else 0
  }

  /** The number of instructions in the given functions together. */
  function TotalSize(t: Tables, order: seq<Key>): nat {
    if order == [] then 0
    else TotalSize(t, order[..|order| - 1]) + BodySize(t, order[|order| - 1])
  }

  /**
   The program is the main body of `base` instructions followed by one block per linked function,
   in the order they were appended: the last block ends at `size`, and the others tile what is
   below it.
   */
  ghost predicate Tiled(t: Tables, linked: map<Key, nat>, order: seq<Key>, base: nat, size: nat)
    decreases |order|
  {
    if order == [] then linked == map[] && size == base
    else
      var k := order[|order| - 1];
      && k in linked && k in t.functions
      && linked[k] + BodySize(t, k) == size
      && Tiled(t, linked - {k}, order[..|order| - 1], base, linked[k])
  }

  function RebasedFuncs(records: seq<FuncRecord>, start: nat): (r: seq<FuncRecord>)
    ensures |r| == |records|
  {
    seq(|records|, i requires 0 <= i < |records| => records[i].(insnOff := WrapU32(start)))
  }

  function RebasedLines(records: seq<LineRecord>, start: nat): (r: seq<LineRecord>)
    ensures |r| == |records|
  {
    seq(|records|, i requires 0 <= i < |records| =>
      records[i].(insnOff := WrapU32(WrapU32(start) + WrapU32(records[i].insnOff - records[0].insnOff))))
  }

  /** The func records of the appended blocks, in order. */
  function LinkedFuncs(t: Tables, base: nat, order: seq<Key>): seq<FuncRecord> {
    if order == [] then []
    else
      var rest, k := order[..|order| - 1], order[|order| - 1];
      LinkedFuncs(t, base, rest)
      + (if k in t.functions then RebasedFuncs(t.functions[k].funcInfo, base + TotalSize(t, rest)) else [])
  }

  /** The line records of the appended blocks, in order. */
  function LinkedLines(t: Tables, base: nat, order: seq<Key>): seq<LineRecord> {
    if order == [] then []
    else
      var rest, k := order[..|order| - 1], order[|order| - 1];
      LinkedLines(t, base, rest)
      + (if k in t.functions then RebasedLines(t.functions[k].lineInfo, base + TotalSize(t, rest)) else [])
  }

  /** A completely linked program for `main`. */
  ghost predicate LinkedImage(
    t: Tables, main: Function, linked: map<Key, nat>, order: seq<Key>,
    code: seq<Insn>, funcs: seq<FuncRecord>, lines: seq<LineRecord>)
  {
    && Tiled(t, linked, order, |main.instructions|, |code|)
    && BlockSettled(t, linked, main, 0, code)
    && (forall k :: k in linked ==> k in t.functions && BlockSettled(t, linked, t.functions[k], linked[k], code))
    && funcs == main.funcInfo + LinkedFuncs(t, |main.instructions|, order)
    && lines == main.lineInfo + LinkedLines(t, |main.instructions|, order)
  }

  // ---------- when linking is possible ----------

  ghost predicate SitesWithin(t: Tables, fun: Function, keys: set<Key>) {
    forall pos :: 0 <= pos < |fun.instructions| ==>
      match SiteOf(t, fun, pos)
      case NotText => true
      case Target(k) => k in keys
      case Unsupported => false
  }

  /** `keys` holds every function `main` can reach; each exists and agrees on having func info. */
  ghost predicate CalleesClosed(t: Tables, main: Function, keys: set<Key>) {
    && SitesWithin(t, main, keys)
    && forall k :: k in keys ==>
         && k in t.functions
         && (t.functions[k].funcInfo == []) == (main.funcInfo == [])
         && SitesWithin(t, t.functions[k], keys)
  }

  ghost predicate Linkable(t: Tables, main: Function) {
    exists keys :: CalleesClosed(t, main, keys)
  }

  /** The functions `main` reaches: the smallest closed set, when there is one at all. */
  ghost function Reachable(t: Tables, main: Function): set<Key> {
    set k | k in t.functions && forall keys :: CalleesClosed(t, main, keys) ==> k in keys
  }

  /** Whenever a closed set exists, the reachable functions are themselves closed. */
  lemma ReachableClosed(t: Tables, main: Function)
    requires Linkable(t, main)
    ensures CalleesClosed(t, main, Reachable(t, main))
  {
  }

  lemma LeastClosed(t: Tables, main: Function, keys: set<Key>)
    requires CalleesClosed(t, main, keys) && keys <= Reachable(t, main)
    ensures keys == Reachable(t, main)
  {
  }

  // ---------- small facts ----------

  ghost predicate Extends(before: map<Key, nat>, after: map<Key, nat>) {
    forall k :: k in before ==> k in after && after[k] == before[k]
  }

  lemma BlockFrame(t: Tables, before: map<Key, nat>, after: map<Key, nat>, fun: Function, start: nat,
                   code: seq<Insn>, code': seq<Insn>)
    requires BlockSettled(t, before, fun, start, code)
    requires Extends(before, after)
    requires start + |fun.instructions| <= |code'|
    requires forall i :: start <= i < start + |fun.instructions| ==> code'[i] == code[i]
    ensures BlockSettled(t, after, fun, start, code')
  {
    forall pos | 0 <= pos < |fun.instructions|
      ensures SlotSettled(t, after, fun, start, code', pos)
    {
      assert SlotSettled(t, before, fun, start, code, pos);
    }
  }

  /** Appending a block at the end keeps the tiling. */
  lemma AppendBlock(t: Tables, linked: map<Key, nat>, order: seq<Key>, base: nat, size: nat, k: Key)
    requires Tiled(t, linked, order, base, size)
    requires k in t.functions && k !in linked
    ensures Tiled(t, linked[k := size], order + [k], base, size + BodySize(t, k))
  {
    assert (order + [k])[..|order|] == order;
    assert linked[k := size] - {k} == linked;
  }

  lemma AppendRecords(t: Tables, order: seq<Key>, base: nat, k: Key)
    requires k in t.functions
    ensures LinkedFuncs(t, base, order + [k])
         == LinkedFuncs(t, base, order) + RebasedFuncs(t.functions[k].funcInfo, base + TotalSize(t, order))
    ensures LinkedLines(t, base, order + [k])
         == LinkedLines(t, base, order) + RebasedLines(t.functions[k].lineInfo, base + TotalSize(t, order))
  {
  }

  lemma {:induction false} TiledSize(t: Tables, linked: map<Key, nat>, order: seq<Key>, base: nat, size: nat)
    requires Tiled(t, linked, order, base, size)
    ensures size == base + TotalSize(t, order)
    ensures forall k :: k in linked ==> k in t.functions
    decreases |order|
  {
    if order != [] {
      var k := order[|order| - 1];
      TiledSize(t, linked - {k}, order[..|order| - 1], base, linked[k]);
      forall q | q in linked
        ensures q in t.functions
      {
        if q != k { assert q in linked - {k}; }
      }
    }
  }

  /** The shape of a program under construction, whatever its instructions are so far. */
  ghost predicate Layout(t: Tables, main: Function, linked: map<Key, nat>, order: seq<Key>, size: nat,
                         funcs: seq<FuncRecord>, lines: seq<LineRecord>)
  {
    && Tiled(t, linked, order, |main.instructions|, size)
    && (forall k :: k in linked ==>
          k in t.functions && (t.functions[k].funcInfo == []) == (main.funcInfo == []))
    && (funcs == []) == (main.funcInfo == [])
    && funcs == main.funcInfo + LinkedFuncs(t, |main.instructions|, order)
    && lines == main.lineInfo + LinkedLines(t, |main.instructions|, order)
  }

  lemma InitialLayout(t: Tables, main: Function)
    ensures Layout(t, main, map[], [], |main.instructions|, main.funcInfo, main.lineInfo)
  {
  }

  lemma AppendLayout(t: Tables, main: Function, linked: map<Key, nat>, order: seq<Key>, size: nat,
                     funcs: seq<FuncRecord>, lines: seq<LineRecord>, fun: Function)
    requires Layout(t, main, linked, order, size, funcs, lines)
    requires fun.Key() in t.functions && t.functions[fun.Key()] == fun && fun.Key() !in linked
    requires (fun.funcInfo == []) == (funcs == [])
    ensures Layout(t, main, linked[fun.Key() := size], order + [fun.Key()], size + |fun.instructions|,
                   funcs + RebasedFuncs(fun.funcInfo, size), lines + RebasedLines(fun.lineInfo, size))
  {
    hide Tiled, LinkedFuncs, LinkedLines, TotalSize, RebasedFuncs, RebasedLines;
    var base, key := |main.instructions|, fun.Key();
    assert funcs + RebasedFuncs(fun.funcInfo, size) == main.funcInfo + LinkedFuncs(t, base, order + [key])
        && lines + RebasedLines(fun.lineInfo, size) == main.lineInfo + LinkedLines(t, base, order + [key]) by {
      TiledSize(t, linked, order, base, size);
      AppendRecords(t, order, base, key);
    }
    AppendBlock(t, linked, order, base, size, key);
  }

  ghost predicate BlocksSettled(t: Tables, before: map<Key, nat>, linked: map<Key, nat>, from: nat, code: seq<Insn>) {
    forall k :: k in linked && k !in before ==>
      && k in t.functions
      && from <= linked[k]
      && BlockSettled(t, linked, t.functions[k], linked[k], code)
  }

  /**
   How far the walk over `fun`, at `start`, has come: the first `done` slots are settled, the rest
   still hold the original instructions, and so does every block appended since `first`.
   */
  ghost predicate Walked(t: Tables, fun: Function, start: nat, done: nat, first: map<Key, nat>,
                         linked: map<Key, nat>, code: seq<Insn>)
  {
    && done <= |fun.instructions| && start + |fun.instructions| <= |code|
    && (forall pos :: 0 <= pos < done ==> SlotSettled(t, linked, fun, start, code, pos))
    && (forall pos :: done <= pos < |fun.instructions| ==> code[start + pos] == fun.instructions[pos])
    && BlocksSettled(t, first, linked, start + |fun.instructions|, code)
  }

  /** An instruction that needs nothing is settled as it is. */
  lemma WalkPast(t: Tables, fun: Function, start: nat, done: nat, first: map<Key, nat>,
                 linked: map<Key, nat>, code: seq<Insn>)
    requires Walked(t, fun, start, done, first, linked, code)
    requires done < |fun.instructions| && SiteOf(t, fun, done).NotText?
    ensures Walked(t, fun, start, done + 1, first, linked, code)
  {
  }

  /**
   Linking the callee grew the code from `code` to `grown`, and then the slot was patched.
   Everything settled stays settled and the slot joins it.
   */
  lemma WalkCall(
    t: Tables, fun: Function, start: nat, done: nat, callee: Key, first: map<Key, nat>,
    before: map<Key, nat>, after: map<Key, nat>, code: seq<Insn>, grown: seq<Insn>, patched: seq<Insn>)
    requires Walked(t, fun, start, done, first, before, code)
    requires done < |fun.instructions| && SiteOf(t, fun, done) == Target(callee) && callee in after
    requires Extends(before, after) && code <= grown
    requires BlocksSettled(t, before, after, |code|, grown)
    requires patched == grown[start + done := Patched(fun.instructions[done], after[callee], start + done)]
    ensures Walked(t, fun, start, done + 1, first, after, patched)
  {
    forall pos | 0 <= pos <= done
      ensures SlotSettled(t, after, fun, start, patched, pos)
    {
      if pos < done {
        assert SlotSettled(t, before, fun, start, code, pos);
        assert code[start + pos] == grown[start + pos];
      }
    }
    forall k | k in after && k !in first
      ensures start + |fun.instructions| <= after[k]
      ensures k in t.functions && BlockSettled(t, after, t.functions[k], after[k], patched)
    {
      if k in before {
        BlockFrame(t, before, after, t.functions[k], before[k], code, patched);
      } else {
        BlockFrame(t, after, after, t.functions[k], after[k], grown, patched);
      }
    }
  }

  // ---------- the linker ----------

  /** A program under construction: a copy of its main function that grows as callees are linked. */
  class Program {
    ghost const main: Function
    var instructions: seq<Insn>
    var funcInfo: seq<FuncRecord>
    var funcNumInfo: U32
    var lineInfo: seq<LineRecord>
    var lineNumInfo: U32

    constructor (main: Function)
      ensures this.main == main
      ensures instructions == main.instructions && funcInfo == main.funcInfo && lineInfo == main.lineInfo
      ensures funcNumInfo == main.funcNumInfo && lineNumInfo == main.lineNumInfo
    {
      this.main := main;
      instructions := main.instructions;
      funcInfo, funcNumInfo := main.funcInfo, main.funcNumInfo;
      lineInfo, lineNumInfo := main.lineInfo, main.lineNumInfo;
    }
  }

  class FunctionLinker {
    const tables: Tables
    var linkedFunctions: map<Key, nat>
    // the keys of linkedFunctions, in the order their blocks were appended
    ghost var order: seq<Key>

    constructor (tables: Tables)
      ensures this.tables == tables
      ensures linkedFunctions == map[] && order == []
    {
      this.tables := tables;
      linkedFunctions := map[];
      order := [];
    }

    /** What holds at every entry and every successful return of the two recursive methods. */
    ghost predicate Valid(program: Program)
      reads this, program
    {
      && tables.Valid()
      && Layout(tables, program.main, linkedFunctions, order, |program.instructions|, program.funcInfo, program.lineInfo)
    }

    /** Every function linked since `before` has its block, completely settled, at or after `from`. */
    ghost predicate NewBlocksSettled(before: map<Key, nat>, from: nat, program: Program)
      reads this, program
    {
      BlocksSettled(tables, before, linkedFunctions, from, program.instructions)
    }

    /** Links `main` and everything it reaches into a fresh program. */
    method Link(main: Function) returns (r: Result<Program>)
      requires tables.Valid()
      requires linkedFunctions == map[] && order == []
      modifies this
      ensures r.Success? <==> Linkable(tables, main)
      ensures r.Success? ==>
        && fresh(r.value)
        && linkedFunctions.Keys == Reachable(tables, main)
        && LinkedImage(tables, main, linkedFunctions, order,
                       r.value.instructions, r.value.funcInfo, r.value.lineInfo)
    {
      hide Tiled, LinkedFuncs, LinkedLines, TotalSize, SitesWithin, Reachable, SlotSettled;
      var program := new Program(main);
      InitialLayout(tables, main);
      ghost var keys := Reachable(tables, main);
      if Linkable(tables, main) {
        ReachableClosed(tables, main);
      }
      assert program.instructions[0..] == main.instructions;
      var done := Relocate(program, main, keys);
      if done.Failure? {
        return Failure(done.error);
      }
      SettledMeansClosed(program, main);
      LeastClosed(tables, main, linkedFunctions.Keys);
      r := Success(program);
    }

    lemma SettledMeansClosed(program: Program, main: Function)
      requires Valid(program) && program.main == main
      requires BlockSettled(tables, linkedFunctions, main, 0, program.instructions)
      requires forall k :: k in linkedFunctions ==>
        k in tables.functions && BlockSettled(tables, linkedFunctions, tables.functions[k], linkedFunctions[k], program.instructions)
      ensures CalleesClosed(tables, main, linkedFunctions.Keys)
    {
      SettledSites(main, 0, program);
      forall k | k in linkedFunctions
        ensures SitesWithin(tables, tables.functions[k], linkedFunctions.Keys)
      {
        SettledSites(tables.functions[k], linkedFunctions[k], program);
      }
    }

    lemma SettledSites(fun: Function, start: nat, program: Program)
      requires BlockSettled(tables, linkedFunctions, fun, start, program.instructions)
      ensures SitesWithin(tables, fun, linkedFunctions.Keys)
    {
      forall pos | 0 <= pos < |fun.instructions|
        ensures match SiteOf(tables, fun, pos)
                case NotText => true
                case Target(k) => k in linkedFunctions.Keys
                case Unsupported => false
      {
        assert SlotSettled(tables, linkedFunctions, fun, start, program.instructions, pos);
      }
    }

    /**
     Appends `fun`, unless it is already there, and links what it reaches. Returns the index of
     its first instruction. Nothing below the length at entry is written.
     */
    method LinkFunction(program: Program, fun: Function, ghost keys: set<Key>) returns (r: Result<nat>)
      requires Valid(program)
      requires fun.Key() in tables.functions && tables.functions[fun.Key()] == fun
      modifies this, program
      ensures r.Failure? ==> !(fun.Key() in keys && CalleesClosed(tables, program.main, keys))
      ensures r.Success? ==>
        && Valid(program)
        && fun.Key() in linkedFunctions && r.value == linkedFunctions[fun.Key()]
        && Extends(old(linkedFunctions), linkedFunctions) && old(order) <= order
        && old(program.instructions) <= program.instructions
        && NewBlocksSettled(old(linkedFunctions), |old(program.instructions)|, program)
        && (fun.Key() in keys && CalleesClosed(tables, program.main, keys)
            ==> linkedFunctions.Keys <= old(linkedFunctions.Keys) + keys)
      decreases tables.functions.Keys - linkedFunctions.Keys, 1
    {
      if (fun.funcInfo == []) != (program.funcInfo == []) {
        return Failure(FunctionInfoMismatch(fun.name));
      }
      var key := fun.Key();
      if key in linkedFunctions {
        return Success(linkedFunctions[key]);
      }
      var startIns := |program.instructions|;
      ghost var before := linkedFunctions;
      Append(program, fun);
      ghost var appended := linkedFunctions;
      var done := Relocate(program, fun, keys);
      if done.Failure? {
        return Failure(done.error);
      }
      forall k | k in linkedFunctions && k !in before
        ensures k in tables.functions && startIns <= linkedFunctions[k]
        ensures BlockSettled(tables, linkedFunctions, tables.functions[k], linkedFunctions[k], program.instructions)
      {
        assert k == key || k !in appended;
      }
      r := Success(startIns);
    }

    /** Registers `fun` and appends its code and its debug records, not yet relocated. */
    method Append(program: Program, fun: Function)
      requires Valid(program)
      requires fun.Key() in tables.functions && tables.functions[fun.Key()] == fun
      requires fun.Key() !in linkedFunctions
      requires (fun.funcInfo == []) == (program.funcInfo == [])
      modifies this, program
      ensures Valid(program)
      ensures linkedFunctions == old(linkedFunctions)[fun.Key() := |old(program.instructions)|]
      ensures order == old(order) + [fun.Key()]
      ensures program.instructions == old(program.instructions) + fun.instructions
    {
      var key, startIns := fun.Key(), |program.instructions|;
      AppendLayout(tables, program.main, linkedFunctions, order, startIns, program.funcInfo, program.lineInfo, fun);
      linkedFunctions := linkedFunctions[key := startIns];
      order := order + [key];
      program.instructions := program.instructions + fun.instructions;
      LinkFuncAndLineInfo(program, fun, startIns);
    }

    /**
     Settles every instruction of `fun`, whose unlinked copy is the tail of the program, linking
     callees as they are met. The array grows while the loop walks the part below it.
     */
    method Relocate(program: Program, fun: Function, ghost keys: set<Key>) returns (r: Result<()>)
      requires Valid(program)
      requires |fun.instructions| <= |program.instructions|
      requires program.instructions[|program.instructions| - |fun.instructions|..] == fun.instructions
      modifies this, program
      ensures r.Failure? ==> !(SitesWithin(tables, fun, keys) && CalleesClosed(tables, program.main, keys))
      ensures r.Success? ==>
        && Valid(program)
        && Extends(old(linkedFunctions), linkedFunctions) && old(order) <= order
        && |old(program.instructions)| <= |program.instructions|
        && var start := |old(program.instructions)| - |fun.instructions|;
           && program.instructions[..start] == old(program.instructions[..start])
           && BlockSettled(tables, linkedFunctions, fun, start, program.instructions)
           && NewBlocksSettled(old(linkedFunctions), start + |fun.instructions|, program)
           && (SitesWithin(tables, fun, keys) && CalleesClosed(tables, program.main, keys)
               ==> linkedFunctions.Keys <= old(linkedFunctions.Keys) + keys)
      decreases tables.functions.Keys - linkedFunctions.Keys, 3
    {
      hide Layout, SlotSettled, SitesWithin, CalleesClosed;
      var n := |fun.instructions|;
      var start := |program.instructions| - n;
      ghost var first := linkedFunctions;
      assert forall pos :: 0 <= pos < n ==> program.instructions[start + pos] == program.instructions[start..][pos];
      for insIndex := start to start + n
        invariant Valid(program)
        invariant Extends(first, linkedFunctions) && old(order) <= order
        invariant Walked(tables, fun, start, insIndex - start, first, linkedFunctions, program.instructions)
        invariant program.instructions[..start] == old(program.instructions[..start])
        invariant SitesWithin(tables, fun, keys) && CalleesClosed(tables, program.main, keys)
          ==> linkedFunctions.Keys <= first.Keys + keys
      {
        var done := RelocateAt(program, fun, start, insIndex, first, keys);
        if done.Failure? {
          return Failure(done.error);
        }
      }
      r := Success(());
    }

    /** Settles the instruction at `insIndex`, linking its callee first when it has one. */
    method RelocateAt(program: Program, fun: Function, start: nat, insIndex: nat,
                      ghost first: map<Key, nat>, ghost keys: set<Key>) returns (r: Result<()>)
      requires Valid(program)
      requires start <= insIndex < start + |fun.instructions|
      requires Walked(tables, fun, start, insIndex - start, first, linkedFunctions, program.instructions)
      modifies this, program
      ensures r.Failure? ==> !(SitesWithin(tables, fun, keys) && CalleesClosed(tables, program.main, keys))
      ensures r.Success? ==>
        && Valid(program)
        && Extends(old(linkedFunctions), linkedFunctions) && old(order) <= order
        && |old(program.instructions)| <= |program.instructions|
        && program.instructions[..start] == old(program.instructions[..start])
        && Walked(tables, fun, start, insIndex - start + 1, first, linkedFunctions, program.instructions)
        && (SitesWithin(tables, fun, keys) && CalleesClosed(tables, program.main, keys)
            ==> linkedFunctions.Keys <= old(linkedFunctions.Keys) + keys)
      decreases tables.functions.Keys - linkedFunctions.Keys, 2
    {
      hide Layout;
      var ins := program.instructions[insIndex];
      assert ins == fun.instructions[insIndex - start];
      var site := Resolve(tables, fun, insIndex - start, ins);
      assert site == SiteOf(tables, fun, insIndex - start);
      ghost var before, code := linkedFunctions, program.instructions;
      match site {
        case NotText =>
          WalkPast(tables, fun, start, insIndex - start, first, before, code);
        case Unsupported =>
          return Failure(Abort);
        case Target(key) =>
          if key !in tables.functions {
            return Failure(UnknownFunction(key.1, fun.name));
          }
          var callee := LinkFunction(program, tables.functions[key], keys);
          if callee.Failure? {
            return Failure(callee.error);
          }
          ghost var grown := program.instructions;
          program.instructions := program.instructions[insIndex := Patched(ins, callee.value, insIndex)];
          WalkCall(tables, fun, start, insIndex - start, key, first, before, linkedFunctions,
                   code, grown, program.instructions);
      }
      r := Success(());
    }

    /** Appends the debug records of `fun`, moved to where its code was put. */
    static method LinkFuncAndLineInfo(program: Program, fun: Function, start: nat)
      modifies program
      ensures program.instructions == old(program.instructions)
      ensures program.funcInfo == old(program.funcInfo) + RebasedFuncs(fun.funcInfo, start)
      ensures program.funcNumInfo == WrapU32(|program.funcInfo|)
      ensures program.lineInfo == old(program.lineInfo) + RebasedLines(fun.lineInfo, start)
      ensures program.lineNumInfo ==
        if fun.lineInfo == [] then old(program.lineNumInfo) else WrapU32(|program.lineInfo|)
    {
      program.funcInfo := program.funcInfo + RebasedFuncs(fun.funcInfo, start);
      program.funcNumInfo := WrapU32(|program.funcInfo|);
      if fun.lineInfo != [] {
        program.lineInfo := program.lineInfo + RebasedLines(fun.lineInfo, start);
        program.lineNumInfo := WrapU32(|program.lineInfo|);
      }
    }
  }
}
