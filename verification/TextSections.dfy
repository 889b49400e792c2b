/**
 Cutting a text section into functions: each symbol of the section starts one, and the section must
 be covered from its start to its end. The functions get the debug records of their instructions.
 */
module TextSections {
  import opened Instructions
  import opened Linker
  import opened Words

  // A section, with the debug records that BTF has for it.
  datatype Section = Section(
    index: nat, address: U64, data: seq<Byte>, relocations: seq<Relocation>,
    funcRecords: seq<FuncRecord>, lineRecords: seq<LineRecord>)

  datatype ParseError =
    | SymbolTableConflict(address: U64) | NoSymbolAt(address: U64) | InvalidSymbol(index: nat) | InvalidProgramCode
    | Panic  // a symbol without a name, or one that reaches past the end of the section

  datatype Parsed<+T> = Ok(value: T) | Err(error: ParseError)

  // ---------- instructions ----------

  function Signed(x: nat, bits: nat): int
    requires x < bits
  {
    if x < bits / 2 then x else x - bits
  }

  /** One instruction in its eight bytes (RFC 9669, section 3), little-endian. */
  function DecodeInsn(b: seq<Byte>): Insn
    requires |b| == 8
  {
    var offset := b[2] + 0x100 * (b[3] as int);
    Insn(b[0] as int as bv8, (b[1] % 16) as int as bv4, (b[1] / 16) as int as bv4,
         Signed(offset, 0x1_0000), Signed(WordAt(b[4..]), 0x1_0000_0000))
  }

  function DecodeAll(data: seq<Byte>): (r: seq<Insn>)
    requires |data| % INS_SIZE == 0
    ensures |r| == |data| / INS_SIZE
  {
    seq(|data| / INS_SIZE, i requires 0 <= i < |data| / INS_SIZE => DecodeInsn(data[i * 8..i * 8 + 8]))
  }

  /** Code must be whole instructions. */
  function CopyInstructions(data: seq<Byte>): Parsed<seq<Insn>> {
    if |data| % INS_SIZE != 0 then Err(InvalidProgramCode) else Ok(DecodeAll(data))
  }

  // ---------- debug records ----------

  function FuncsAt(records: seq<FuncRecord>, at: U32): seq<FuncRecord> {
    if records == [] then []
    else (if records[0].insnOff == at then [records[0]] else []) + FuncsAt(records[1..], at)
  }

  /** The records from instruction `from` on, fewer than `count` instructions on. */
  function LinesAt(records: seq<LineRecord>, from: nat, count: nat): seq<LineRecord> {
    if records == [] then []
    else (if from <= records[0].insnOff < from + count then [records[0]] else []) + LinesAt(records[1..], from, count)
  }

  // ---------- functions ----------

  predicate IsTextSymbol(sym: Symbol, section: nat) {
    sym.isDefinition && sym.kind == Text && sym.sectionIndex == Some(section)
  }

  /** Two text symbols of the section have the same address. */
  ghost predicate Conflicting(symbols: map<nat, Symbol>, section: nat) {
    exists i, j :: i in symbols && j in symbols && i != j && SameStart(symbols[i], symbols[j], section)
  }

  predicate SameStart(a: Symbol, b: Symbol, section: nat) {
    IsTextSymbol(a, section) && IsTextSymbol(b, section) && a.address == b.address
  }

  /** The table holds exactly the text symbols of the section, by address. */
  ghost predicate Indexes(byAddress: map<U64, Symbol>, symbols: map<nat, Symbol>, section: nat) {
    && (forall a :: a in byAddress ==> byAddress[a].address == a && HasSymbol(symbols, byAddress[a], section))
    && (forall i :: i in symbols && IsTextSymbol(symbols[i], section) ==>
          symbols[i].address in byAddress && byAddress[symbols[i].address] == symbols[i])
  }

  ghost predicate HasSymbol(symbols: map<nat, Symbol>, sym: Symbol, section: nat) {
    exists i :: i in symbols && symbols[i] == sym && IsTextSymbol(sym, section)
  }

  function AddressAt(s: Section, offset: nat): U64 {
    WrapU64(s.address + offset)
  }

  /** The function that a symbol starts. */
  function FunctionAt(s: Section, sym: Symbol, offset: nat): Parsed<Function> {
    if sym.size == 0 then Err(InvalidSymbol(sym.index))
    else if sym.name.None? || offset + sym.size > |s.data| then Err(Panic)
    else
      match CopyInstructions(s.data[offset..offset + sym.size])
      case Err(e) => Err(e)
      case Ok(code) =>
        var start := WrapU32(offset / INS_SIZE);
        Ok(Function(AddressAt(s, offset), sym.name.value, s.index, offset, code,
                    FuncsAt(s.funcRecords, start), LinesAt(s.lineRecords, start, WrapU32(sym.size / INS_SIZE)),
                    WrapU32(|s.funcRecords|), WrapU32(|s.lineRecords|)))
  }

  /** The functions from byte `offset` to the end. */
  function Carve(s: Section, byAddress: map<U64, Symbol>, offset: nat): Parsed<seq<Function>>
    decreases |s.data| - offset
  {
    if offset >= |s.data| then Ok([])
    else if AddressAt(s, offset) !in byAddress then Err(NoSymbolAt(AddressAt(s, offset)))
    else
      var sym := byAddress[AddressAt(s, offset)];
      match FunctionAt(s, sym, offset)
      case Err(e) => Err(e)
      case Ok(f) =>
        match Carve(s, byAddress, offset + sym.size)
        case Err(e) => Err(e)
        case Ok(rest) => Ok([f] + rest)
  }

  function Filed(functions: map<Key, Function>, fs: seq<Function>): map<Key, Function>
    decreases |fs|
  {
    if fs == [] then functions else Filed(functions[fs[0].Key() := fs[0]], fs[1..])
  }

  function ByOffset(relocations: seq<Relocation>): map<nat, Relocation> {
    if relocations == [] then map[]
    else ByOffset(relocations[..|relocations| - 1])[relocations[|relocations| - 1].offset := relocations[|relocations| - 1]]
  }

  /** What an object knows of its code. */
  class ObjectCode {
    var functions: map<Key, Function>
    var relocations: map<nat, map<nat, Relocation>>

    constructor ()
      ensures functions == map[] && relocations == map[]
    {
      functions, relocations := map[], map[];
    }

    /**
     The symbols defined as text in a section, by address; it fails when two of them share one, with an
     address that some such symbol has.
     */
    method SymbolsByAddress(symbols: map<nat, Symbol>, section: nat) returns (r: Parsed<map<U64, Symbol>>)
      ensures r.Err? <==> Conflicting(symbols, section)
      ensures r.Err? <==> exists i, j ::
        && i in symbols && j in symbols && i != j && symbols[i].address == symbols[j].address
        && symbols[i].isDefinition && symbols[i].kind == Text && symbols[i].sectionIndex == Some(section)
        && symbols[j].isDefinition && symbols[j].kind == Text && symbols[j].sectionIndex == Some(section)
      ensures r.Err? ==> exists i ::
        i in symbols && symbols[i].sectionIndex == Some(section) && r == Err(SymbolTableConflict(symbols[i].address))
      ensures r.Ok? ==> Indexes(r.value, symbols, section)
      ensures r.Ok? ==> forall i :: i in symbols ==>
        var sym := symbols[i];
        (sym.isDefinition && sym.kind == Text && sym.sectionIndex == Some(section) <==>
           sym.address in r.value && r.value[sym.address] == sym)
    {
      var byAddress: map<U64, Symbol> := map[];
      var left := symbols.Keys;
      while left != {}
        invariant left <= symbols.Keys
        invariant forall a :: a in byAddress ==> byAddress[a].address == a && HasSymbol(symbols, byAddress[a], section)
        invariant forall a :: a in byAddress ==>
          exists i :: i in symbols && i !in left && symbols[i] == byAddress[a]
        invariant forall i :: i in symbols && i !in left && IsTextSymbol(symbols[i], section) ==>
          symbols[i].address in byAddress && byAddress[symbols[i].address] == symbols[i]
        invariant forall i, j :: i in symbols && j in symbols && i != j && i !in left && j !in left ==>
          !SameStart(symbols[i], symbols[j], section)
      {
        var i :| i in left;
        var sym := symbols[i];
        if IsTextSymbol(sym, section) {
          if sym.address in byAddress {
            ghost var j :| j in symbols && j !in left && symbols[j] == byAddress[sym.address];
            assert SameStart(symbols[i], symbols[j], section);
            return Err(SymbolTableConflict(sym.address));
          }
          byAddress := byAddress[sym.address := sym];
        }
        left := left - {i};
      }
      r := Ok(byAddress);
    }

    /** Adds the functions of a text section, and its relocations. */
    method ParseTextSection(s: Section, symbols: map<nat, Symbol>) returns (r: Parsed<()>)
      modifies this
      ensures r.Ok? ==> !Conflicting(symbols, s.index)
      ensures !Conflicting(symbols, s.index) ==> forall byAddress :: Indexes(byAddress, symbols, s.index) ==>
        match Carve(s, byAddress, 0)
        case Err(e) => r == Err(e)
        case Ok(fs) =>
          && r == Ok(())
          && functions == Filed(old(functions), fs)
          && relocations == if s.relocations == [] then old(relocations)
                            else old(relocations)[s.index := ByOffset(s.relocations)]
    {
      var indexed := SymbolsByAddress(symbols, s.index);
      if indexed.Err? {
        return Err(indexed.error);
      }
      var byAddress := indexed.value;
      OneIndex(symbols, s.index);
      var offset := 0;
      ghost var done: seq<Function> := [];
      NothingBefore(Carve(s, byAddress, 0));
      while offset < |s.data|
        invariant Carve(s, byAddress, 0) == Before(done, Carve(s, byAddress, offset))
        invariant functions == Filed(old(functions), done)
        invariant relocations == old(relocations)
        decreases |s.data| - offset
      {
        var address := AddressAt(s, offset);
        if address !in byAddress {
          return Err(NoSymbolAt(address));
        }
        var sym := byAddress[address];
        var f := FunctionAt(s, sym, offset);
        if f.Err? {
          return Err(f.error);
        }
        functions := functions[f.value.Key() := f.value];
        FiledMore(old(functions), done, f.value);
        OneBefore(done, f.value, Carve(s, byAddress, offset + sym.size));
        done := done + [f.value];
        offset := offset + sym.size;
      }
      assert done + [] == done;
      if s.relocations != [] {
        relocations := relocations[s.index := ByOffset(s.relocations)];
      }
      r := Ok(());
    }
  }

  /** There is one index of a section's symbols. */
  lemma OneIndex(symbols: map<nat, Symbol>, section: nat)
    ensures forall a, b :: Indexes(a, symbols, section) && Indexes(b, symbols, section) ==> a == b
  {
  }

  function Before(front: seq<Function>, r: Parsed<seq<Function>>): Parsed<seq<Function>> {
    match r
    case Err(e) => Err(e)
    case Ok(rest) => Ok(front + rest)
  }

  lemma NothingBefore(r: Parsed<seq<Function>>)
    ensures Before([], r) == r
  {
    if r.Ok? {
      assert [] + r.value == r.value;
    }
  }

  lemma OneBefore(front: seq<Function>, f: Function, r: Parsed<seq<Function>>)
    ensures Before(front, Before([f], r)) == Before(front + [f], r)
  {
    if r.Ok? {
      assert front + ([f] + r.value) == front + [f] + r.value;
    }
  }

  lemma {:induction false} FiledMore(functions: map<Key, Function>, fs: seq<Function>, f: Function)
    ensures Filed(functions, fs + [f]) == Filed(functions, fs)[f.Key() := f]
    decreases |fs|
  {
    if fs == [] {
      assert fs + [f] == [f] && [f][1..] == [];
    } else {
      assert (fs + [f])[1..] == fs[1..] + [f];
      FiledMore(functions[fs[0].Key() := fs[0]], fs[1..], f);
    }
  }
}
