/**
 The functions cut from a text section tile it: they cover it with no gap and no overlap, their
 instructions in order are the section's, and so are their line records. A section is accepted
 exactly when its symbols cut it this way.
 */
module TextTiling {
  import opened Instructions
  import opened Linker
  import opened TextSections
  import D = LinkerDebugInfo
  import C = CoreRelocation

  /** The functions lie one after the other from byte `from` to byte `to`; none is empty. */
  ghost predicate Tiles(fs: seq<Function>, from: nat, to: nat)
    decreases |fs|
  {
    if fs == [] then from == to
    else
      && fs[0].sectionOffset == from && fs[0].instructions != []
      && Tiles(fs[1..], from + |fs[0].instructions| * INS_SIZE, to)
  }

  function CodeOf(fs: seq<Function>): seq<Insn>
    decreases |fs|
  {
    if fs == [] then [] else fs[0].instructions + CodeOf(fs[1..])
  }

  function LinesOf(fs: seq<Function>): seq<LineRecord>
    decreases |fs|
  {
    if fs == [] then [] else fs[0].lineInfo + LinesOf(fs[1..])
  }

  lemma DecodeSplit(data: seq<Byte>, k: nat)
    requires |data| % INS_SIZE == 0 && k % INS_SIZE == 0 && k <= |data|
    ensures |data[..k]| % INS_SIZE == 0 && |data[k..]| % INS_SIZE == 0
    ensures DecodeAll(data) == DecodeAll(data[..k]) + DecodeAll(data[k..])
  {
    hide DecodeInsn;
    var n := k / INS_SIZE;
    assert n * 8 == k;
    forall i | 0 <= i < |data| / INS_SIZE
      ensures DecodeAll(data)[i] == (DecodeAll(data[..k]) + DecodeAll(data[k..]))[i]
    {
      if i < n {
        assert data[..k][i * 8..i * 8 + 8] == data[i * 8..i * 8 + 8];
      } else {
        assert data[k..][(i - n) * 8..(i - n) * 8 + 8] == data[i * 8..i * 8 + 8];
      }
    }
  }

  /** What is known of a function that a symbol starts. */
  lemma FunctionCut(s: TextSections.Section, sym: Symbol, offset: nat)
    requires FunctionAt(s, sym, offset).Ok?
    ensures
      var f := FunctionAt(s, sym, offset).value;
      && offset + sym.size <= |s.data| && sym.size > 0 && sym.size % INS_SIZE == 0
      && f.sectionIndex == s.index && f.sectionOffset == offset && f.address == AddressAt(s, offset)
      && |f.instructions| == sym.size / INS_SIZE && f.instructions == DecodeAll(s.data[offset..offset + sym.size])
      && Some(f.name) == sym.name
      && f.lineInfo == LinesAt(s.lineRecords, WrapU32(offset / INS_SIZE), WrapU32(sym.size / INS_SIZE))
      && f.funcInfo == FuncsAt(s.funcRecords, WrapU32(offset / INS_SIZE))
  {
  }

  /** The functions cut from `offset` on tile the rest of the section and hold its instructions. */
  lemma {:induction false} CarvedTiles(s: TextSections.Section, byAddress: map<U64, Symbol>, offset: nat)
    requires offset <= |s.data| && offset % INS_SIZE == 0 && Carve(s, byAddress, offset).Ok?
    ensures
      var fs := Carve(s, byAddress, offset).value;
      && |s.data| % INS_SIZE == 0 && Tiles(fs, offset, |s.data|)
      && CodeOf(fs) == DecodeAll(s.data[offset..])
      && forall f :: f in fs ==> f.sectionIndex == s.index && f.address == AddressAt(s, f.sectionOffset)
    decreases |s.data| - offset
  {
    hide Carve, DecodeAll, Tiles, CodeOf, AddressAt;
    if offset == |s.data| {
      NothingCarved(s, byAddress, offset);
      NoCode(s.data[offset..]);
      NoTiles(offset);
    } else {
      var f, sym := CarveStep(s, byAddress, offset);
      var next := offset + sym.size;
      CarvedTiles(s, byAddress, next);
      DecodeRest(s.data, offset, next);
      TilesCons(f, Carve(s, byAddress, next).value, offset, |s.data|);
    }
  }

  lemma NothingCarved(s: TextSections.Section, byAddress: map<U64, Symbol>, offset: nat)
    requires offset >= |s.data|
    ensures Carve(s, byAddress, offset) == Ok([])
  {
  }

  lemma DecodeRest(data: seq<Byte>, offset: nat, next: nat)
    requires offset <= next <= |data| && |data| % INS_SIZE == 0 && offset % INS_SIZE == 0 && next % INS_SIZE == 0
    ensures DecodeAll(data[offset..]) == DecodeAll(data[offset..next]) + DecodeAll(data[next..])
  {
    hide DecodeAll;
    var rest := data[offset..];
    assert rest[..next - offset] == data[offset..next] && rest[next - offset..] == data[next..];
    DecodeSplit(rest, next - offset);
  }

  lemma NoTiles(from: nat)
    ensures Tiles([], from, from) && CodeOf([]) == [] && LinesOf([]) == []
  {
  }

  lemma TilesCons(f: Function, rest: seq<Function>, from: nat, to: nat)
    requires f.sectionOffset == from && f.instructions != [] && Tiles(rest, from + |f.instructions| * INS_SIZE, to)
    ensures Tiles([f] + rest, from, to)
    ensures CodeOf([f] + rest) == f.instructions + CodeOf(rest)
    ensures LinesOf([f] + rest) == f.lineInfo + LinesOf(rest)
  {
  }

  /** The first function from `offset` on, the symbol that starts it, and the others. */
  lemma CarveStep(s: TextSections.Section, byAddress: map<U64, Symbol>, offset: nat) returns (f: Function, sym: Symbol)
    requires offset < |s.data| && Carve(s, byAddress, offset).Ok?
    ensures AddressAt(s, offset) in byAddress && sym == byAddress[AddressAt(s, offset)]
    ensures FunctionAt(s, sym, offset) == Ok(f)
    ensures offset + sym.size <= |s.data| && sym.size > 0 && sym.size % INS_SIZE == 0
    ensures f.sectionIndex == s.index && f.sectionOffset == offset && f.address == AddressAt(s, offset)
    ensures |f.instructions| * INS_SIZE == sym.size && f.instructions == DecodeAll(s.data[offset..offset + sym.size])
    ensures f.lineInfo == LinesAt(s.lineRecords, WrapU32(offset / INS_SIZE), WrapU32(sym.size / INS_SIZE))
    ensures f.funcInfo == FuncsAt(s.funcRecords, WrapU32(offset / INS_SIZE))
    ensures Carve(s, byAddress, offset + sym.size).Ok?
    ensures Carve(s, byAddress, offset).value == [f] + Carve(s, byAddress, offset + sym.size).value
  {
    hide FunctionAt, DecodeAll, AddressAt;
    sym := byAddress[AddressAt(s, offset)];
    FunctionCut(s, sym, offset);
    f := FunctionAt(s, sym, offset).value;
  }

  /** A function is at the address of its section and its offset there together. */
  lemma CarvedAddresses(s: TextSections.Section, byAddress: map<U64, Symbol>, f: Function)
    requires Carve(s, byAddress, 0).Ok? && f in Carve(s, byAddress, 0).value
    ensures f.address == (s.address + f.sectionOffset) % 0x1_0000_0000_0000_0000
  {
    hide Carve, DecodeAll, Tiles, CodeOf;
    CarvedTiles(s, byAddress, 0);
  }

  lemma NoCode(data: seq<Byte>)
    requires data == []
    ensures DecodeAll(data) == []
  {
  }

  /** The symbols lie one after the other, whole instructions each, with names, up to the end. */
  ghost predicate CutsSection(s: TextSections.Section, byAddress: map<U64, Symbol>, syms: seq<Symbol>, offset: nat)
    decreases |syms|
  {
    if syms == [] then offset >= |s.data|
    else
      && offset < |s.data|
      && AddressAt(s, offset) in byAddress && byAddress[AddressAt(s, offset)] == syms[0]
      && syms[0].size > 0 && syms[0].size % INS_SIZE == 0 && syms[0].name.Some? && offset + syms[0].size <= |s.data|
      && CutsSection(s, byAddress, syms[1..], offset + syms[0].size)
  }

  lemma {:induction false} CutsMeansCarved(s: TextSections.Section, byAddress: map<U64, Symbol>, syms: seq<Symbol>,
                                           offset: nat)
    requires CutsSection(s, byAddress, syms, offset)
    ensures Carve(s, byAddress, offset).Ok?
    decreases |syms|
  {
    hide DecodeAll, FuncsAt, LinesAt, AddressAt;
    if syms != [] {
      CutsMeansCarved(s, byAddress, syms[1..], offset + syms[0].size);
      assert |s.data[offset..offset + syms[0].size]| == syms[0].size;
    }
  }

  lemma {:induction false} CarvedMeansCuts(s: TextSections.Section, byAddress: map<U64, Symbol>,
                                           offset: nat) returns (syms: seq<Symbol>)
    requires Carve(s, byAddress, offset).Ok?
    ensures CutsSection(s, byAddress, syms, offset)
    decreases |s.data| - offset
  {
    hide Carve, FunctionAt, DecodeAll, FuncsAt, LinesAt, AddressAt;
    if offset >= |s.data| {
      syms := [];
    } else {
      var f, sym := CarveStep(s, byAddress, offset);
      var rest := CarvedMeansCuts(s, byAddress, offset + sym.size);
      syms := [sym] + rest;
      assert syms[1..] == rest;
      NamedIfStarted(s, sym, offset);
    }
  }

  lemma NamedIfStarted(s: TextSections.Section, sym: Symbol, offset: nat)
    requires FunctionAt(s, sym, offset).Ok?
    ensures sym.name.Some?
  {
  }

  /** A section is accepted exactly when its symbols cut it into whole functions. */
  lemma CutsIffCarved(s: TextSections.Section, byAddress: map<U64, Symbol>)
    ensures Carve(s, byAddress, 0).Ok? <==> exists syms :: CutsSection(s, byAddress, syms, 0)
  {
    hide Carve, CutsSection;
    if Carve(s, byAddress, 0).Ok? {
      var syms := CarvedMeansCuts(s, byAddress, 0);
    }
    if syms :| CutsSection(s, byAddress, syms, 0) {
      CutsMeansCarved(s, byAddress, syms, 0);
    }
  }

  // ---------- filing ----------

  lemma {:induction false} FiledAll(functions: map<Key, Function>, fs: seq<Function>)
    requires forall i, j :: 0 <= i < j < |fs| ==> fs[i].Key() != fs[j].Key()
    ensures forall i :: 0 <= i < |fs| ==> fs[i].Key() in Filed(functions, fs) && Filed(functions, fs)[fs[i].Key()] == fs[i]
    ensures forall k :: k in functions && (forall i :: 0 <= i < |fs| ==> fs[i].Key() != k) ==>
      k in Filed(functions, fs) && Filed(functions, fs)[k] == functions[k]
    decreases |fs|
  {
    if fs != [] {
      var more := functions[fs[0].Key() := fs[0]];
      FiledAll(more, fs[1..]);
      forall i | 0 <= i < |fs|
        ensures fs[i].Key() in Filed(functions, fs) && Filed(functions, fs)[fs[i].Key()] == fs[i]
      {
        if i > 0 {
          assert fs[i] == fs[1..][i - 1];
        }
      }
      forall k | k in functions && (forall i :: 0 <= i < |fs| ==> fs[i].Key() != k)
        ensures k in Filed(functions, fs) && Filed(functions, fs)[k] == functions[k]
      {
        assert fs[0].Key() != k;
      }
    }
  }

  /** Tiles are in order: each ends before the next ones start. */
  lemma {:induction false} TilesOrdered(fs: seq<Function>, from: nat, to: nat)
    requires Tiles(fs, from, to) && from % INS_SIZE == 0
    ensures forall i :: 0 <= i < |fs| ==>
      && from <= fs[i].sectionOffset && fs[i].sectionOffset % INS_SIZE == 0
      && fs[i].sectionOffset + |fs[i].instructions| * INS_SIZE <= to
    ensures forall i, j :: 0 <= i < j < |fs| ==>
      fs[i].sectionOffset + |fs[i].instructions| * INS_SIZE <= fs[j].sectionOffset
    ensures from <= to
    ensures forall i :: 0 <= i < |fs| ==> fs[i].instructions != []
    decreases |fs|
  {
    if fs != [] {
      var rest := fs[1..];
      TilesOrdered(rest, from + |fs[0].instructions| * INS_SIZE, to);
      assert forall i :: 0 < i < |fs| ==> fs[i] == rest[i - 1];
    }
  }

  /** Every function of an accepted section is found under its own key, in a section below 2^64. */
  lemma CarvedIsFiled(s: TextSections.Section, byAddress: map<U64, Symbol>, functions: map<Key, Function>)
    requires Carve(s, byAddress, 0).Ok? && s.address + |s.data| < 0x1_0000_0000_0000_0000
    ensures
      var fs := Carve(s, byAddress, 0).value;
      && (forall f :: f in fs ==> f.Key() in Filed(functions, fs) && Filed(functions, fs)[f.Key()] == f)
      && (forall k :: k in functions && k.0 != s.index ==> k in Filed(functions, fs) && Filed(functions, fs)[k] == functions[k])
  {
    hide Carve, DecodeAll, Tiles, Filed;
    var fs := Carve(s, byAddress, 0).value;
    CarvedTiles(s, byAddress, 0);
    TilesOrdered(fs, 0, |s.data|);
    assert forall i :: 0 <= i < |fs| ==> fs[i] in fs;
    KeysDiffer(s, fs);
    FiledAll(functions, fs);
  }

  lemma KeysDiffer(s: TextSections.Section, fs: seq<Function>)
    requires s.address + |s.data| < 0x1_0000_0000_0000_0000
    requires forall i :: 0 <= i < |fs| ==>
      && fs[i].sectionIndex == s.index && fs[i].address == AddressAt(s, fs[i].sectionOffset)
      && fs[i].instructions != [] && fs[i].sectionOffset + |fs[i].instructions| * INS_SIZE <= |s.data|
    requires forall i, j :: 0 <= i < j < |fs| ==>
      fs[i].sectionOffset + |fs[i].instructions| * INS_SIZE <= fs[j].sectionOffset
    ensures forall i, j :: 0 <= i < j < |fs| ==> fs[i].Key() != fs[j].Key()
    ensures forall i :: 0 <= i < |fs| ==> fs[i].Key().0 == s.index
  {
  }

  // ---------- what later passes rely on ----------

  function ShapesOf(fs: seq<Function>): seq<C.Shape> {
    seq(|fs|, i requires 0 <= i < |fs| => C.Shape(fs[i].sectionIndex, fs[i].sectionOffset, |fs[i].instructions|))
  }

  /** Tiled functions are what CO-RE relocation asks for: aligned and disjoint. */
  lemma TiledIsTidy(fs: seq<Function>, to: nat)
    requires Tiles(fs, 0, to)
    ensures C.Tidy(ShapesOf(fs))
  {
    TilesOrdered(fs, 0, to);
  }

  // ---------- line records ----------

  lemma {:induction false} LinesSplit(records: seq<LineRecord>, from: nat, a: nat, b: nat)
    requires D.Increasing(records)
    ensures LinesAt(records, from, a + b) == LinesAt(records, from, a) + LinesAt(records, from + a, b)
  {
    if records != [] {
      assert D.Increasing(records[1..]);
      LinesSplit(records[1..], from, a, b);
      if from + a <= records[0].insnOff {
        NoLinesBelow(records[1..], from, a, records[0].insnOff);
      }
    }
  }

  /** Increasing records that start at or above `low` leave nothing in a range below it. */
  lemma {:induction false} NoLinesBelow(records: seq<LineRecord>, from: nat, count: nat, low: nat)
    requires from + count <= low && forall i :: 0 <= i < |records| ==> low <= records[i].insnOff
    ensures LinesAt(records, from, count) == []
  {
    if records != [] {
      NoLinesBelow(records[1..], from, count, low);
    }
  }

  lemma {:induction false} NoLines(records: seq<LineRecord>, from: nat)
    ensures LinesAt(records, from, 0) == []
  {
    if records != [] {
      NoLines(records[1..], from);
    }
  }

  /** The line records of the functions, in order, are those of the range they cover. */
  lemma {:induction false} CarvedLines(s: TextSections.Section, byAddress: map<U64, Symbol>, offset: nat)
    requires offset <= |s.data| && offset % INS_SIZE == 0 && Carve(s, byAddress, offset).Ok?
    requires D.Increasing(s.lineRecords) && |s.data| / INS_SIZE < 0x1_0000_0000
    ensures LinesOf(Carve(s, byAddress, offset).value) ==
      LinesAt(s.lineRecords, offset / INS_SIZE, (|s.data| - offset) / INS_SIZE)
    decreases |s.data| - offset
  {
    hide Carve, FunctionAt, DecodeAll, LinesAt, D.Increasing, AddressAt, LinesOf, Tiles;
    CarvedTiles(s, byAddress, offset);
    if offset == |s.data| {
      NothingCarved(s, byAddress, offset);
      NoTiles(offset);
      NoLines(s.lineRecords, offset / INS_SIZE);
    } else {
      var f, sym := CarveStep(s, byAddress, offset);
      var next := offset + sym.size;
      CarvedLines(s, byAddress, next);
      CarvedTiles(s, byAddress, next);
      TilesCons(f, Carve(s, byAddress, next).value, offset, |s.data|);
      LinesSplit(s.lineRecords, offset / INS_SIZE, sym.size / INS_SIZE, (|s.data| - next) / INS_SIZE);
    }
  }

  lemma {:induction false} AllLines(records: seq<LineRecord>, count: nat)
    requires forall i :: 0 <= i < |records| ==> records[i].insnOff < count
    ensures LinesAt(records, 0, count) == records
  {
    if records != [] {
      AllLines(records[1..], count);
    }
  }

  /** No line record of an accepted section is lost, repeated or moved. */
  lemma LinesKept(s: TextSections.Section, byAddress: map<U64, Symbol>)
    requires Carve(s, byAddress, 0).Ok? && |s.data| / INS_SIZE < 0x1_0000_0000
    requires D.Increasing(s.lineRecords)
    requires forall i :: 0 <= i < |s.lineRecords| ==> s.lineRecords[i].insnOff < |s.data| / INS_SIZE
    ensures LinesOf(Carve(s, byAddress, 0).value) == s.lineRecords
  {
    hide Carve, LinesAt;
    CarvedLines(s, byAddress, 0);
    AllLines(s.lineRecords, |s.data| / INS_SIZE);
  }

  lemma {:induction false} LinesInRange(records: seq<LineRecord>, from: nat, count: nat)
    requires D.Increasing(records)
    ensures D.Increasing(LinesAt(records, from, count)) && D.LinesIn(LinesAt(records, from, count), from, from + count)
    ensures forall r :: r in LinesAt(records, from, count) ==> r in records
  {
    if records != [] {
      assert D.Increasing(records[1..]);
      LinesInRange(records[1..], from, count);
      var rest := LinesAt(records[1..], from, count);
      forall j | 0 <= j < |rest|
        ensures records[0].insnOff < rest[j].insnOff
      {
        assert rest[j] in records[1..];
      }
    }
  }

  /** With one func record at each function, the functions are as the linker's debug records need them. */
  lemma CarvedIsDescribed(s: TextSections.Section, byAddress: map<U64, Symbol>, f: Function)
    requires Carve(s, byAddress, 0).Ok? && f in Carve(s, byAddress, 0).value
    requires |s.data| / INS_SIZE < 0x1_0000_0000 && D.Increasing(s.lineRecords)
    requires |FuncsAt(s.funcRecords, WrapU32(f.sectionOffset / INS_SIZE))| == 1
    ensures D.Described(f)
  {
    hide Carve, DecodeAll, D.Increasing, D.LinesIn, LinesAt, FuncsAt;
    CarvedRecords(s, byAddress, 0, f);
    LinesInRange(s.lineRecords, f.sectionOffset / INS_SIZE, |f.instructions|);
  }

  lemma {:induction false} CarvedRecords(s: TextSections.Section, byAddress: map<U64, Symbol>, offset: nat, f: Function)
    requires offset <= |s.data| && offset % INS_SIZE == 0
    requires Carve(s, byAddress, offset).Ok? && f in Carve(s, byAddress, offset).value
    requires |s.data| / INS_SIZE < 0x1_0000_0000
    ensures f.instructions != []
    ensures f.lineInfo == LinesAt(s.lineRecords, f.sectionOffset / INS_SIZE, |f.instructions|)
    ensures f.funcInfo == FuncsAt(s.funcRecords, WrapU32(f.sectionOffset / INS_SIZE))
    decreases |s.data| - offset
  {
    hide Carve, FunctionAt, DecodeAll, LinesAt, FuncsAt, AddressAt;
    if offset < |s.data| {
      var first, sym := CarveStep(s, byAddress, offset);
      if f != first {
        CarvedRecords(s, byAddress, offset + sym.size, f);
      }
    } else {
      NothingCarved(s, byAddress, offset);
    }
  }

  // ---------- what a function is made of ----------

  /** An instruction as the object file has it: opcode, two registers, offset and immediate, little-endian. */
  function InsnBytes(ins: Insn): seq<Byte> {
    [ins.code as int, ins.src as int * 16 + ins.dst as int, ins.off % 0x100, ins.off / 0x100 % 0x100,
     ins.imm % 0x100, ins.imm / 0x100 % 0x100, ins.imm / 0x1_0000 % 0x100, ins.imm / 0x100_0000 % 0x100]
  }

  lemma Register(r: bv4)
    ensures 0 <= r as int < 16 && (r as int) as bv4 == r
  {
  }

  lemma Nibbles(high: nat, low: nat)
    requires high < 16 && low < 16
    ensures high * 16 + low < 0x100 && (high * 16 + low) % 16 == low && (high * 16 + low) / 16 == high
  {
  }

  lemma Registers(ins: Insn)
    ensures var both := ins.src as int * 16 + ins.dst as int;
      0 <= both < 0x100 && (both % 16) as bv4 == ins.dst && (both / 16) as bv4 == ins.src
  {
    Register(ins.src);
    Register(ins.dst);
    Nibbles(ins.src as int, ins.dst as int);
  }

  lemma SignedPair(x: int)
    requires -0x8000 <= x < 0x8000
    ensures x % 0x100 + 0x100 * (x / 0x100 % 0x100) == (if x < 0 then x + 0x1_0000 else x)
  {
  }

  lemma SignedWord(x: I32)
    ensures
      var low, high := x % 0x100 + x / 0x100 % 0x100 * 0x100, x / 0x1_0000 % 0x100 + x / 0x100_0000 % 0x100 * 0x100;
      low + high * 0x1_0000 == if x < 0 then x + 0x1_0000_0000 else x
  {
    var a, b, c := x / 0x100, x / 0x1_0000, x / 0x100_0000;
    assert b == a / 0x100 && c == b / 0x100;
  }

  /** The code of a section is read as it was written. */
  lemma InsnReadsBack(ins: Insn)
    requires -0x8000 <= ins.off < 0x8000
    ensures DecodeInsn(InsnBytes(ins)) == ins
  {
    var b := InsnBytes(ins);
    Registers(ins);
    SignedPair(ins.off);
    SignedWord(ins.imm);
  }

  /** The func records of a function are those at its first instruction, as often as they are there. */
  lemma {:induction false} FuncsExact(records: seq<FuncRecord>, at: U32, r: FuncRecord)
    ensures multiset(FuncsAt(records, at))[r] == if r.insnOff == at then multiset(records)[r] else 0
  {
    if records != [] {
      FuncsExact(records[1..], at, r);
      assert records == [records[0]] + records[1..];
    }
  }

  /** A section's relocations are filed by their offset; of two at one offset the later one stays. */
  lemma {:induction false} RelocationsFiled(relocations: seq<Relocation>, offset: nat)
    ensures
      var filed := ByOffset(relocations);
      if offset in filed then
        exists k :: 0 <= k < |relocations| && relocations[k] == filed[offset] && relocations[k].offset == offset
          && forall j :: k < j < |relocations| ==> relocations[j].offset != offset
      else forall r :: r in relocations ==> r.offset != offset
  {
    if relocations != [] {
      var front, last := relocations[..|relocations| - 1], relocations[|relocations| - 1];
      assert relocations == front + [last];
      RelocationsFiled(front, offset);
      if offset in ByOffset(front) && last.offset != offset {
        var k :| 0 <= k < |front| && front[k] == ByOffset(front)[offset] && front[k].offset == offset
          && forall j :: k < j < |front| ==> front[j].offset != offset;
        assert relocations[k] == front[k];
      }
      assert forall r :: r in relocations <==> r in front || r == last;
    }
  }
}
