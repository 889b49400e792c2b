/**
 Fixing and sanitizing BTF before it is loaded: kinds the kernel does not know are replaced by ones
 it does, in place, and section sizes and offsets the compiler left out are filled in.

 `StepOf` is the rewriting of one type and `Run` that of the table, given the answers of the kernel
 about its features; the object's methods compute them. Module SanitizerProperties proves what a
 run keeps and what it achieves.
 */
module Sanitizer {
  import opened Instructions
  import opened Btf
  import opened BtfImage
  import K = Ksyms

  // ---------- features ----------

  datatype Feature = FFunc | FFuncGlobal | FDataSec | FDataSecZero | FFloat | FDeclTag | FTypeTag | FEnum64

  type Answers = map<Feature, bool>

  predicate Rejects(answers: Answers, f: Feature) { f in answers && !answers[f] }
  predicate Allows(answers: Answers, f: Feature) { f in answers && answers[f] }

  ghost predicate Knows(before: Answers, after: Answers) {
    forall f :: f in before ==> f in after && after[f] == before[f]
  }

  /** Asks the kernel about each feature at most once; `oracle(k, f)` is what its k-th answer would be. */
  class FeatureResolver {
    const oracle: (nat, Feature) -> bool
    var asked: nat
    var cache: Answers

    constructor (oracle: (nat, Feature) -> bool)
      ensures this.oracle == oracle && asked == 0 && cache == map[]
    {
      this.oracle := oracle;
      asked, cache := 0, map[];
    }

    method IsSupported(f: Feature) returns (supported: bool)
      modifies this
      ensures cache == if f in old(cache) then old(cache) else old(cache)[f := oracle(old(asked), f)]
      ensures asked == old(asked) + if f in old(cache) then 0 else 1
      ensures f in cache && supported == cache[f]
      ensures Knows(old(cache), cache)
    {
      if f !in cache {
        cache := cache[f := oracle(asked, f)];
        asked := asked + 1;
      }
      supported := cache[f];
    }
  }

  // ---------- names ----------

  /** An ASCII literal as bytes. */
  function Bytes(s: string): Name {
    seq(|s|, i requires 0 <= i < |s| => s[i] as int % 0x100)
  }

  function Digit(n: nat): Byte
    requires n < 10
  {
    48 + n
  }

  function Decimal(n: nat): Name {
    if n < 10 then [Digit(n)] else Decimal(n / 10) + [Digit(n % 10)]
  }

  function Replaced(name: Name, from: Byte, to: Byte): Name {
    seq(|name|, i requires 0 <= i < |name| => if name[i] == from then to else name[i])
  }

  const DOT: Byte := 46
  const SLASH: Byte := 47
  const UNDERSCORE: Byte := 95

  /** Functions whose linkage is always made static, so that the verifier tracks their callers. */
  predicate IsMemoryBuiltin(name: Name) {
    name == Bytes("memset") || name == Bytes("memcpy") || name == Bytes("memmove") || name == Bytes("memcmp")
  }

  // ---------- the state of a run ----------

  // The image, and the types a run shares once it had to make them: the integer that stands in for
  // the members of 64-bit enums, and the variable that fills empty sections.
  datatype State = State(header: Header, strings: seq<Byte>, types: seq<BtfType>,
                         placeholder: Option<TypeId>, filler: Option<TypeId>)

  function WithString(s: State, name: Name): State {
    var strings := s.strings + name + [0];
    s.(strings := strings, header := s.header.(strLen := |strings|))
  }

  function WithType(s: State, t: BtfType): State {
    var size := EncodedSize(t);
    s.(types := s.types + [t],
       header := s.header.(typeLen := s.header.typeLen + size, strOff := s.header.strOff + size))
  }

  function SetType(s: State, i: nat, t: BtfType): State
    requires i < |s.types|
  {
    s.(types := s.types[i := t])
  }

  // The description word of an unsigned one-byte integer: eight bits, no encoding.
  const ONE_BYTE: U32 := 8

  function OneByteInt(nameOffset: StringOffset): BtfType {
    Int(nameOffset, 1, ONE_BYTE)
  }

  const STATIC: U32 := 0
  const GLOBAL: U32 := 1

  // ---------- rewriting one type ----------

  // What the loader knows from the ELF file: section sizes and symbol offsets, by name.
  datatype Elf = Elf(sectionSizes: map<Name, U64>, symbolOffsets: map<Name, U64>)

  datatype SanitizeError =
    | UnreadableName | UnknownSectionSize | SymbolOffsetNotFound | InvalidDatasec | DanglingType

  datatype Outcome<+T> = Done(value: T) | Failed(error: SanitizeError)

  /** A name with `from` replaced: the state, with the new name added if it differs, and its offset. */
  function Renamed(s: State, offset: StringOffset, name: Name, from: Byte, to: Byte): (State, StringOffset) {
    if Replaced(name, from, to) != name then (WithString(s, Replaced(name, from, to)), |s.strings|) else (s, offset)
  }

  function MembersOf(types: seq<BtfType>, entries: seq<Entry>): Outcome<seq<Member>> {
    if entries == [] then Done([])
    else
      var e := entries[0];
      if e.btfType >= |types| then Failed(DanglingType)
      else
        match MembersOf(types, entries[1..])
        case Failed(err) => Failed(err)
        case Done(rest) => Done([Member(types[e.btfType].NameOffset(), e.btfType, WrapU32(e.offset * 8))] + rest)
  }

  /** A section becomes a struct of its variables, with no dot in its name. */
  function DataSecToStruct(s: State, i: nat): Outcome<State>
    requires i < |s.types| && s.types[i].DataSec?
  {
    var d := s.types[i];
    match StringAt(s.strings, d.nameOffset)
    case None => Failed(UnreadableName)
    case Some(name) =>
      var (s1, offset) := Renamed(s, d.nameOffset, name, DOT, UNDERSCORE);
      match MembersOf(s.types, d.entries)
      case Failed(err) => Failed(err)
      case Done(members) => Done(SetType(s1, i, Struct(offset, false, WrapU32(|d.entries|), members)))
  }

  /** Makes the shared filler variable, unless it is there. */
  function WithFiller(s: State): State {
    if s.filler.Some? then s
    else
      var s1 := WithString(s, Bytes("__aya_datasec_filler_type"));
      var s2 := WithType(s1, OneByteInt(|s.strings|));
      var s3 := WithString(s2, Bytes("__aya_datasec_filler"));
      var s4 := WithType(s3, Var(|s2.strings|, |s.types|, STATIC));
      s4.(filler := Some(|s2.types|))
  }

  /** Section entries with the offsets of their symbols; static variables keep the ones they have. */
  function EntriesFixed(elf: Elf, s: State, entries: seq<Entry>): Outcome<seq<Entry>> {
    if entries == [] then Done([])
    else
      match EntryFixed(elf, s, entries[0])
      case Failed(err) => Failed(err)
      case Done(e) =>
        match EntriesFixed(elf, s, entries[1..])
        case Failed(err) => Failed(err)
        case Done(rest) => Done([e] + rest)
  }

  function EntryFixed(elf: Elf, s: State, e: Entry): Outcome<Entry> {
    if e.btfType >= |s.types| then Failed(DanglingType)
    else
      var v := s.types[e.btfType];
      if !v.Var? then Failed(InvalidDatasec)
      else
        match StringAt(s.strings, v.nameOffset)
        case None => Failed(UnreadableName)
        case Some(name) =>
          if v.linkage == STATIC then Done(e)
          else if name !in elf.symbolOffsets then Failed(SymbolOffsetNotFound)
          else Done(e.(offset := WrapU32(elf.symbolOffsets[name])))
  }

  /** A section without a size gets it, and the offsets of its variables, from the ELF file. */
  function FixDataSec(elf: Elf, answers: Answers, s: State, i: nat): Outcome<State>
    requires i < |s.types| && s.types[i].DataSec?
  {
    var d := s.types[i];
    match StringAt(s.strings, d.nameOffset)
    case None => Failed(UnreadableName)
    case Some(name) =>
      var (s1, offset) := Renamed(s, d.nameOffset, name, SLASH, DOT);
      if d.size > 0 then Done(SetType(s1, i, DataSec(offset, d.size, d.entries)))
      else SizeDataSec(elf, answers, s1, i, name, offset)
  }

  /** Fills in the size of the section called `name`; an empty one may get a filler entry. */
  function SizeDataSec(elf: Elf, answers: Answers, s: State, i: nat, name: Name, offset: StringOffset): Outcome<State>
    requires i < |s.types| && s.types[i].DataSec?
  {
    if name !in elf.sectionSizes then Failed(UnknownSectionSize)
    else
      var d, size := s.types[i], WrapU32(elf.sectionSizes[name]);
      var fill := d.entries == [] && (size == 0 || Rejects(answers, FDataSecZero));
      var s1 := if fill then WithFiller(s) else s;
      var full := if fill && size == 0 then 1 else size;
      var entries := if fill then [Entry(s1.filler.value, 0, full)] else d.entries;
      match EntriesFixed(elf, s1, entries)
      case Failed(err) => Failed(err)
      case Done(fixed) => Done(Resized(s1, i, DataSec(offset, full, fixed)))
  }

  /** Puts a type of another size in place and moves the strings accordingly. */
  function Resized(s: State, i: nat, t: BtfType): State
    requires i < |s.types|
  {
    var before, after := EncodedSize(s.types[i]), EncodedSize(t);
    var typeLen := s.header.typeLen - before + after;
    if before == after then SetType(s, i, t)
    else SetType(s, i, t).(header := s.header.(typeLen := if typeLen < 0 then 0 else typeLen,
                                               strOff := if typeLen < 0 then 0 else typeLen))
  }

  /** Parameters from `k` on that have a type and no name are named after their position. */
  function ParamsNamed(s: State, params: seq<Param>, k: nat): (State, seq<Param>)
    requires k <= |params|
    decreases |params| - k
  {
    if k == |params| then (s, params)
    else if params[k].nameOffset == 0 && params[k].btfType != 0 then
      var named := params[k := params[k].(nameOffset := |s.strings|)];
      ParamsNamed(WithString(s, Bytes("param") + Decimal(k)), named, k + 1)
    else ParamsNamed(s, params, k + 1)
  }

  function VariantsOf(params: seq<Param>): seq<Variant> {
    seq(|params|, k requires 0 <= k < |params| => Variant(params[k].nameOffset, WrapU32(params[k].btfType)))
  }

  function WithPlaceholder(s: State): State {
    if s.placeholder.Some? then s
    else
      var s1 := WithString(s, Bytes("enum64_placeholder"));
      WithType(s1, OneByteInt(|s.strings|)).(placeholder := Some(|s.types|))
  }

  function FallbackOf(t: BtfType): Fallback
    requires t.Enum64?
  {
    Fallback(t.signed, seq(|t.variants64|, k requires 0 <= k < |t.variants64| =>
      var v := t.variants64[k]; FallbackVariant(v.nameOffset, v.valueHigh * 0x1_0000_0000 + v.valueLow)))
  }

  function UnionMembers(variants: seq<Variant64>, placeholder: TypeId): seq<Member> {
    seq(|variants|, k requires 0 <= k < |variants| => Member(variants[k].nameOffset, placeholder, 0))
  }

  /** A 64-bit enum becomes a union with a member per variant, and remembers its values beside it. */
  function Enum64ToUnion(s: State, i: nat): State
    requires i < |s.types| && s.types[i].Enum64?
  {
    var t, s1 := s.types[i], WithPlaceholder(s);
    SetType(s1, i, Union(t.nameOffset, false, t.size, UnionMembers(t.variants64, s1.placeholder.value), Some(FallbackOf(t))))
  }

  /** The state after type `i` was fixed or sanitized. */
  function StepOf(elf: Elf, answers: Answers, s: State, i: nat): Outcome<State>
    requires i < |s.types|
  {
    match s.types[i]
    case Ptr(_, b) => Done(SetType(s, i, Ptr(0, b)))
    case Var(n, _, _) => Done(if Rejects(answers, FDataSec) then SetType(s, i, OneByteInt(n)) else s)
    case DataSec(_, _, _) =>
      if Rejects(answers, FDataSec) then DataSecToStruct(s, i) else FixDataSec(elf, answers, s, i)
    case FuncProto(n, ret, ps) =>
      if Rejects(answers, FFunc) then Done(SetType(s, i, Enum(n, false, 4, VariantsOf(ps))))
      else
        ParamsNamedKeeps(s, ps, 0);
        var (s1, named) := ParamsNamed(s, ps, 0);
        Done(SetType(s1, i, FuncProto(n, ret, named)))
    case Func(n, b, linkage) =>
      (match StringAt(s.strings, n)
       case None => Failed(UnreadableName)
       case Some(name) =>
         if Rejects(answers, FFunc) then Done(SetType(s, i, Typedef(n, b)))
         else if linkage == GLOBAL && (IsMemoryBuiltin(name) || Rejects(answers, FFuncGlobal)) then
           Done(SetType(s, i, Func(n, b, STATIC)))
         else Done(s))
    case Float(_, size) => Done(if Rejects(answers, FFloat) then SetType(s, i, Struct(0, false, size, [])) else s)
    case DeclTag(n, _, _) => Done(if Rejects(answers, FDeclTag) then SetType(s, i, OneByteInt(n)) else s)
    case TypeTag(_, b) => Done(if Rejects(answers, FTypeTag) then SetType(s, i, Const(0, b)) else s)
    case Enum(n, signed, size, vs) =>
      Done(if Rejects(answers, FEnum64) && signed then SetType(s, i, Enum(n, false, size, vs)) else s)
    case Enum64(_, _, _, _) => Done(if Rejects(answers, FEnum64) then Enum64ToUnion(s, i) else s)
    case _ => Done(s)
  }

  /** The features rewriting the type depends on were asked about. */
  ghost predicate Asked(answers: Answers, elf: Elf, s: State, i: nat)
    requires i < |s.types|
  {
    match s.types[i]
    case Var(_, _, _) => FDataSec in answers
    case DataSec(n, size, entries) =>
      && FDataSec in answers
      && (answers[FDataSec] && size == 0 && entries == [] ==>
            match StringAt(s.strings, n)
            case None => true
            case Some(name) =>
              name in elf.sectionSizes && WrapU32(elf.sectionSizes[name]) != 0 ==> FDataSecZero in answers)
    case FuncProto(_, _, _) => FFunc in answers
    case Func(n, _, linkage) =>
      StringAt(s.strings, n).Some? ==>
        && FFunc in answers
        && (answers[FFunc] && linkage == GLOBAL && !IsMemoryBuiltin(StringAt(s.strings, n).value) ==>
              FFuncGlobal in answers)
    case Float(_, _) => FFloat in answers
    case DeclTag(_, _, _) => FDeclTag in answers
    case TypeTag(_, _) => FTypeTag in answers
    case Enum(_, _, _, _) => FEnum64 in answers
    case Enum64(_, _, _, _) => FEnum64 in answers
    case _ => true
  }

  /** Later answers do not change what earlier ones decided. */
  lemma StepStable(elf: Elf, before: Answers, after: Answers, s: State, i: nat)
    requires i < |s.types| && Knows(before, after) && Asked(before, elf, s, i)
    ensures Asked(after, elf, s, i)
    ensures StepOf(elf, after, s, i) == StepOf(elf, before, s, i)
  {
  }

  /** The state after the first `i` types. */
  function Run(elf: Elf, answers: Answers, s: State, i: nat): Outcome<State>
    requires i <= |s.types|
    ensures Run(elf, answers, s, i).Done? ==> |Run(elf, answers, s, i).value.types| >= |s.types|
  {
    if i == 0 then Done(s)
    else
      match Run(elf, answers, s, i - 1)
      case Failed(err) => Failed(err)
      case Done(s1) => StepGrows(elf, answers, s1, i - 1); StepOf(elf, answers, s1, i - 1)
  }

  lemma StepGrows(elf: Elf, answers: Answers, s: State, i: nat)
    requires i < |s.types|
    ensures StepOf(elf, answers, s, i).Done? ==> |StepOf(elf, answers, s, i).value.types| >= |s.types|
  {
    hide StringAt, EntriesFixed, MembersOf, EncodedSize;
    if s.types[i].FuncProto? {
      ParamsNamedKeeps(s, s.types[i].params, 0);
    }
  }

  /** Naming parameters adds strings only. */
  lemma {:induction false} ParamsNamedKeeps(s: State, params: seq<Param>, k: nat)
    requires k <= |params|
    ensures
      var (s1, named) := ParamsNamed(s, params, k);
      && s1 == s.(strings := s1.strings, header := s1.header)
      && s1.header == s.header.(strLen := s1.header.strLen)
      && |named| == |params|
    decreases |params| - k
  {
    if k < |params| {
      var p := params[k];
      if p.nameOffset == 0 && p.btfType != 0 {
        ParamsNamedKeeps(WithString(s, Bytes("param") + Decimal(k)), params[k := p.(nameOffset := |s.strings|)], k + 1);
      } else {
        ParamsNamedKeeps(s, params, k + 1);
      }
    }
  }

  ghost predicate AllAsked(answers: Answers, elf: Elf, s: State, i: nat)
    requires i <= |s.types|
  {
    forall j :: 0 <= j < i && Run(elf, answers, s, j).Done? ==> Asked(answers, elf, Run(elf, answers, s, j).value, j)
  }

  lemma {:induction false} RunStable(elf: Elf, before: Answers, after: Answers, s: State, i: nat)
    requires i <= |s.types| && Knows(before, after) && AllAsked(before, elf, s, i)
    ensures AllAsked(after, elf, s, i)
    ensures Run(elf, after, s, i) == Run(elf, before, s, i)
  {
    hide StepOf, Asked;
    if i > 0 {
      assert AllAsked(before, elf, s, i - 1);
      RunStable(elf, before, after, s, i - 1);
      if Run(elf, before, s, i - 1).Done? {
        StepStable(elf, before, after, Run(elf, before, s, i - 1).value, i - 1);
      }
      assert forall j :: 0 <= j < i - 1 && Run(elf, after, s, j).Done? ==>
        Asked(after, elf, Run(elf, after, s, j).value, j);
    }
  }

  // ---------- extern kernel symbols ----------

  // The section that lists the extern symbols, and the variable made for the functions among them.
  datatype Externs = Externs(section: TypeId, placeholder: Option<TypeId>)

  /** A four-byte integer, added when there is none. */
  function WithInt4(s: State): (State, TypeId) {
    match K.FindInt4(s.types, 0)
    case Some(id) => (s, id)
    case None => (WithType(WithString(s, Bytes("int")), Int(|s.strings|, 4, K.SIGNED_INT)), |s.types|)
  }

  /** The variable that stands for functions in the section. */
  function WithKsymPlaceholder(s: State): (State, TypeId) {
    var (s1, int4) := WithInt4(s);
    var s2 := WithString(s1, Bytes("ksym_func_placeholder"));
    (WithType(s2, Var(|s1.strings|, int4, GLOBAL)), |s1.types|)
  }

  /** The integer for the variables of the section, added when there is none, and the name for parameters. */
  function KsymsPlan(s: State, section: TypeId, placeholder: Option<TypeId>): Outcome<(State, K.Plan)> {
    if placeholder.Some? then
      if placeholder.value >= |s.types| then Failed(DanglingType)
      else if !s.types[placeholder.value].Var? then Failed(InvalidDatasec)
      else
        var v := s.types[placeholder.value];
        Done((s, K.Plan(section, placeholder, Some(v.nameOffset), v.btfType)))
    else
      var (s1, int4) := WithInt4(s);
      Done((s1, K.Plan(section, None, None, int4)))
  }

  /** The section of extern symbols can be fixed. */
  ghost predicate KsymsFixable(s: State, section: TypeId, placeholder: Option<TypeId>) {
    match KsymsPlan(s, section, placeholder)
    case Failed(_) => false
    case Done((s1, plan)) =>
      && section < |s1.types|
      && s1.types[section].DataSec?
      && StringAt(s1.strings, s1.types[section].nameOffset).Some?
      && K.EntriesOk(plan, s1.types, s1.strings, s1.types[section].entries, |s1.types[section].entries|)
  }

  /** Why an entry of the type cannot be fixed. */
  function EntryError(p: K.Plan, types: seq<BtfType>, strings: seq<Byte>, id: TypeId): SanitizeError
    requires !K.EntryOk(p, types, strings, id)
  {
    if id >= |types| then DanglingType
    else if !types[id].Func? && !types[id].Var? then InvalidDatasec
    else if StringAt(strings, types[id].nameOffset).None? then UnreadableName
    else DanglingType
  }

  /** Why the section cannot be fixed: its plan, the section itself, or the first of its entries that is no good. */
  ghost predicate KsymsFailWith(s: State, section: TypeId, placeholder: Option<TypeId>, err: SanitizeError) {
    match KsymsPlan(s, section, placeholder)
    case Failed(e) => err == e
    case Done((s1, plan)) =>
      if section >= |s1.types| then err == DanglingType
      else if !s1.types[section].DataSec? then err == InvalidDatasec
      else if StringAt(s1.strings, s1.types[section].nameOffset).None? then err == UnreadableName
      else
        var entries := s1.types[section].entries;
        exists k: nat :: FirstBad(plan, s1.types, s1.strings, entries, k)
          && err == EntryError(plan, s1.types, s1.strings, entries[k].btfType)
  }

  ghost predicate FirstBad(p: K.Plan, types: seq<BtfType>, strings: seq<Byte>, entries: seq<Entry>, k: nat) {
    && k < |entries| && K.EntriesOk(p, types, strings, entries, k)
    && !K.EntryOk(p, types, strings, entries[k].btfType)
  }

  ghost function KsymsFixed(s: State, section: TypeId, placeholder: Option<TypeId>): State
    requires KsymsFixable(s, section, placeholder)
  {
    var (s1, plan) := KsymsPlan(s, section, placeholder).value;
    var entries := s1.types[section].entries;
    s1.(types := K.TypesAfter(plan, s1.types, entries, |entries|, WrapU32(|entries| * K.ENTRY_SIZE)))
  }

  // ---------- the object ----------

  /** BTF being fixed up, in place. */
  class BtfObject {
    var header: Header
    var strings: seq<Byte>
    var types: seq<BtfType>
    // shared by all types a run rewrites; made when first needed
    var enum64PlaceholderId: Option<TypeId>
    var fillerVarId: Option<TypeId>

    constructor (image: Image)
      ensures Current() == State(image.header, image.strings, image.types, None, None)
    {
      header, strings, types := image.header, image.strings, image.types;
      enum64PlaceholderId, fillerVarId := None, None;
    }

    function Current(): State
      reads this
    {
      State(header, strings, types, enum64PlaceholderId, fillerVarId)
    }

    method AddString(name: Name) returns (offset: StringOffset)
      modifies this
      ensures Current() == WithString(old(Current()), name) && offset == |old(strings)|
    {
      offset := |strings|;
      strings := strings + name + [0];
      header := header.(strLen := |strings|);
    }

    method AddType(t: BtfType) returns (id: TypeId)
      modifies this
      ensures Current() == WithType(old(Current()), t) && id == |old(types)|
    {
      var size := EncodedSize(t);
      id := |types|;
      types := types + [t];
      header := header.(typeLen := header.typeLen + size, strOff := header.strOff + size);
    }

    method Rename(offset: StringOffset, name: Name, from: Byte, to: Byte) returns (renamed: StringOffset)
      modifies this
      ensures (Current(), renamed) == Renamed(old(Current()), offset, name, from, to)
    {
      var fixedName := Replaced(name, from, to);
      renamed := offset;
      if fixedName != name {
        renamed := AddString(fixedName);
      }
    }

    method SanitizeDataSec(i: nat) returns (r: Outcome<()>)
      requires i < |types| && types[i].DataSec?
      modifies this
      ensures match DataSecToStruct(old(Current()), i)
              case Failed(err) => r == Failed(err)
              case Done(s) => r == Done(()) && Current() == s
    {
      var d, before := types[i], types;
      var name := StringAt(strings, d.nameOffset);
      if name.None? {
        return Failed(UnreadableName);
      }
      var nameOffset := Rename(d.nameOffset, name.value, DOT, UNDERSCORE);
      var members: seq<Member> := [];
      assert d.entries[0..] == d.entries;
      BeforeNothing(MembersOf(before, d.entries));
      for k := 0 to |d.entries|
        invariant Current() == Renamed(old(Current()), d.nameOffset, name.value, DOT, UNDERSCORE).0
        invariant MembersOf(before, d.entries) == Before(members, MembersOf(before, d.entries[k..]))
      {
        var e := d.entries[k];
        assert d.entries[k..][0] == e && d.entries[k..][1..] == d.entries[k + 1..];
        if e.btfType >= |types| {
          return Failed(DanglingType);
        }
        var m := Member(types[e.btfType].NameOffset(), e.btfType, WrapU32(e.offset * 8));
        BeforeOne(members, m, MembersOf(before, d.entries[k + 1..]));
        members := members + [m];
      }
      assert members + [] == members;
      types := types[i := Struct(nameOffset, false, WrapU32(|d.entries|), members)];
      r := Done(());
    }

    method FillerVar() returns (id: TypeId)
      modifies this
      ensures Current() == WithFiller(old(Current())) && fillerVarId == Some(id)
      ensures old(types) <= types
    {
      if fillerVarId.None? {
        var typeName := AddString(Bytes("__aya_datasec_filler_type"));
        var typeId := AddType(OneByteInt(typeName));
        var varName := AddString(Bytes("__aya_datasec_filler"));
        var varId := AddType(Var(varName, typeId, STATIC));
        fillerVarId := Some(varId);
      }
      id := fillerVarId.value;
    }

    method FixupEntries(elf: Elf, entries: seq<Entry>) returns (r: Outcome<seq<Entry>>)
      ensures r == EntriesFixed(elf, Current(), entries)
    {
      hide StringAt, EntryFixed;
      var fixed: seq<Entry> := [];
      assert entries[0..] == entries;
      BeforeNothing(EntriesFixed(elf, Current(), entries));
      for k := 0 to |entries|
        invariant EntriesFixed(elf, Current(), entries) == Before(fixed, EntriesFixed(elf, Current(), entries[k..]))
      {
        assert entries[k..][0] == entries[k] && entries[k..][1..] == entries[k + 1..];
        var e := FixupEntry(elf, entries[k]);
        if e.Failed? {
          return Failed(e.error);
        }
        BeforeOne(fixed, e.value, EntriesFixed(elf, Current(), entries[k + 1..]));
        fixed := fixed + [e.value];
      }
      assert fixed + [] == fixed;
      r := Done(fixed);
    }

    method FixupEntry(elf: Elf, e: Entry) returns (r: Outcome<Entry>)
      ensures r == EntryFixed(elf, Current(), e)
    {
      if e.btfType >= |types| {
        return Failed(DanglingType);
      }
      var v := types[e.btfType];
      if !v.Var? {
        return Failed(InvalidDatasec);
      }
      var name := StringAt(strings, v.nameOffset);
      if name.None? {
        return Failed(UnreadableName);
      }
      if v.linkage == STATIC {
        return Done(e);
      }
      if name.value !in elf.symbolOffsets {
        return Failed(SymbolOffsetNotFound);
      }
      r := Done(e.(offset := WrapU32(elf.symbolOffsets[name.value])));
    }

    method FixupDataSec(elf: Elf, features: FeatureResolver, i: nat) returns (r: Outcome<()>)
      requires i < |types| && types[i].DataSec?
      requires Allows(features.cache, FDataSec)
      modifies this, features
      ensures Knows(old(features.cache), features.cache)
      ensures Asked(features.cache, elf, old(Current()), i)
      ensures match FixDataSec(elf, features.cache, old(Current()), i)
              case Failed(err) => r == Failed(err)
              case Done(s) => r == Done(()) && Current() == s
    {
      hide StringAt, SizeDataSec, Replaced;
      var d := types[i];
      var name := StringAt(strings, d.nameOffset);
      if name.None? {
        return Failed(UnreadableName);
      }
      var nameOffset := Rename(d.nameOffset, name.value, SLASH, DOT);
      if d.size > 0 {
        types := types[i := DataSec(nameOffset, d.size, d.entries)];
        return Done(());
      }
      r := SizeSection(elf, features, i, name.value, nameOffset);
    }

    method SizeSection(elf: Elf, features: FeatureResolver, i: nat, name: Name, nameOffset: StringOffset)
      returns (r: Outcome<()>)
      requires i < |types| && types[i].DataSec?
      modifies this, features
      ensures Knows(old(features.cache), features.cache)
      ensures name in elf.sectionSizes && WrapU32(elf.sectionSizes[name]) != 0 && old(types[i]).entries == [] ==>
        FDataSecZero in features.cache
      ensures match SizeDataSec(elf, features.cache, old(Current()), i, name, nameOffset)
              case Failed(err) => r == Failed(err)
              case Done(s) => r == Done(()) && Current() == s
    {
      hide StringAt, EntriesFixed, WithFiller;
      var d := types[i];
      if name !in elf.sectionSizes {
        return Failed(UnknownSectionSize);
      }
      var sectionSize := WrapU32(elf.sectionSizes[name]);
      var oldSize := EncodedSize(d);
      var entries := d.entries;
      if entries == [] {
        var supported := false;
        if sectionSize != 0 {
          supported := features.IsSupported(FDataSecZero);
        }
        if sectionSize == 0 || !supported {
          var fillerVar := FillerVar();
          var fillerLen := if sectionSize > 1 then sectionSize else 1;
          entries := [Entry(fillerVar, 0, fillerLen)];
          if sectionSize == 0 {
            sectionSize := fillerLen;
          }
        }
      }
      var fixed := FixupEntries(elf, entries);
      if fixed.Failed? {
        return Failed(fixed.error);
      }
      var fixedSection := DataSec(nameOffset, sectionSize, fixed.value);
      var newSize := EncodedSize(fixedSection);
      if newSize != oldSize {
        var typeLen := header.typeLen - oldSize + newSize;
        header := header.(typeLen := if typeLen < 0 then 0 else typeLen);
        header := header.(strOff := header.typeLen);
      }
      types := types[i := fixedSection];
      r := Done(());
    }

    method FixupParams(i: nat)
      requires i < |types| && types[i].FuncProto?
      modifies this
      ensures i < |types| && types[i].FuncProto?
      ensures
        var t := old(types[i]);
        var (s, named) := ParamsNamed(old(Current()), t.params, 0);
        i < |s.types| && Current() == SetType(s, i, FuncProto(t.nameOffset, t.returnType, named))
    {
      var t := types[i];
      var params := t.params;
      ParamsNamedKeeps(Current(), params, 0);
      for k := 0 to |params|
        invariant |params| == |t.params|
        invariant types == old(types)
        invariant ParamsNamed(old(Current()), t.params, 0) == ParamsNamed(Current(), params, k)
      {
        if params[k].nameOffset == 0 && params[k].btfType != 0 {
          var nameOffset := AddString(Bytes("param") + Decimal(k));
          params := params[k := params[k].(nameOffset := nameOffset)];
        }
      }
      types := types[i := FuncProto(t.nameOffset, t.returnType, params)];
    }

    method SanitizeEnum64(i: nat)
      requires i < |types| && types[i].Enum64?
      modifies this
      ensures Current() == Enum64ToUnion(old(Current()), i)
    {
      var t := types[i];
      if enum64PlaceholderId.None? {
        var name := AddString(Bytes("enum64_placeholder"));
        var id := AddType(OneByteInt(name));
        enum64PlaceholderId := Some(id);
      }
      var members := UnionMembers(t.variants64, enum64PlaceholderId.value);
      types := types[i := Union(t.nameOffset, false, t.size, members, Some(FallbackOf(t)))];
    }

    /** Fixes or sanitizes one type. */
    method SanitizeAt(elf: Elf, features: FeatureResolver, i: nat) returns (r: Outcome<()>)
      requires i < |types|
      modifies this, features
      ensures Knows(old(features.cache), features.cache)
      ensures Asked(features.cache, elf, old(Current()), i)
      ensures match StepOf(elf, features.cache, old(Current()), i)
              case Failed(err) => r == Failed(err)
              case Done(s) => r == Done(()) && Current() == s
    {
      hide StringAt, ParamsNamed, FixDataSec, DataSecToStruct, Enum64ToUnion, IsMemoryBuiltin, VariantsOf;
      var t := types[i];
      match t {
        case Ptr(_, b) =>
          types := types[i := Ptr(0, b)];
        case Var(n, _, _) =>
          var supported := features.IsSupported(FDataSec);
          if !supported {
            types := types[i := OneByteInt(n)];
          }
        case DataSec(_, _, _) =>
          var supported := features.IsSupported(FDataSec);
          if supported {
            r := FixupDataSec(elf, features, i);
          } else {
            r := SanitizeDataSec(i);
          }
          return;
        case FuncProto(n, _, ps) =>
          SanitizeFuncProto(features, i);
        case Func(n, b, linkage) =>
          r := SanitizeFunc(features, i);
          return;
        case _ =>
          SanitizeNewer(features, i);
      }
      r := Done(());
    }

    /** Kinds that older kernels do not know, apart from sections, variables and functions. */
    method SanitizeNewer(features: FeatureResolver, i: nat)
      requires i < |types|
      requires !types[i].Ptr? && !types[i].Var? && !types[i].DataSec? && !types[i].FuncProto? && !types[i].Func?
      modifies this, features
      ensures Knows(old(features.cache), features.cache)
      ensures forall elf :: Asked(features.cache, elf, old(Current()), i)
      ensures forall elf :: StepOf(elf, features.cache, old(Current()), i) == Done(Current())
    {
      hide StringAt, ParamsNamed, FixDataSec, DataSecToStruct, Enum64ToUnion;
      match types[i] {
        case Float(_, size) =>
          var supported := features.IsSupported(FFloat);
          if !supported {
            types := types[i := Struct(0, false, size, [])];
          }
        case DeclTag(n, _, _) =>
          var supported := features.IsSupported(FDeclTag);
          if !supported {
            types := types[i := OneByteInt(n)];
          }
        case TypeTag(_, b) =>
          var supported := features.IsSupported(FTypeTag);
          if !supported {
            types := types[i := Const(0, b)];
          }
        case Enum(n, signed, size, vs) =>
          var supported := features.IsSupported(FEnum64);
          if !supported && signed {
            types := types[i := Enum(n, false, size, vs)];
          }
        case Enum64(_, _, _, _) =>
          var supported := features.IsSupported(FEnum64);
          if !supported {
            SanitizeEnum64(i);
          }
        case _ =>
      }
    }

    method SanitizeFuncProto(features: FeatureResolver, i: nat)
      requires i < |types| && types[i].FuncProto?
      modifies this, features
      ensures Knows(old(features.cache), features.cache) && FFunc in features.cache
      ensures forall elf :: StepOf(elf, features.cache, old(Current()), i) == Done(Current())
    {
      hide ParamsNamed;
      var t := types[i];
      var supported := features.IsSupported(FFunc);
      if supported {
        FixupParams(i);
      } else {
        types := types[i := Enum(t.nameOffset, false, 4, VariantsOf(t.params))];
      }
    }

    method SanitizeFunc(features: FeatureResolver, i: nat) returns (r: Outcome<()>)
      requires i < |types| && types[i].Func?
      modifies this, features
      ensures Knows(old(features.cache), features.cache)
      ensures forall elf :: Asked(features.cache, elf, old(Current()), i)
      ensures forall elf ::
        match StepOf(elf, features.cache, old(Current()), i)
        case Failed(err) => r == Failed(err)
        case Done(s) => r == Done(()) && Current() == s
    {
      var t := types[i];
      var name := StringAt(strings, t.nameOffset);
      if name.None? {
        return Failed(UnreadableName);
      }
      var supported := features.IsSupported(FFunc);
      if !supported {
        types := types[i := Typedef(t.nameOffset, t.btfType)];
      } else if t.linkage == GLOBAL {
        if IsMemoryBuiltin(name.value) {
          types := types[i := Func(t.nameOffset, t.btfType, STATIC)];
        } else {
          var global := features.IsSupported(FFuncGlobal);
          if !global {
            types := types[i := Func(t.nameOffset, t.btfType, STATIC)];
          }
        }
      }
      r := Done(());
    }

    method Int4() returns (id: TypeId)
      modifies this
      ensures (Current(), id) == WithInt4(old(Current()))
    {
      var found := K.FindInt4(types, 0);
      if found.Some? {
        return found.value;
      }
      var name := AddString(Bytes("int"));
      id := AddType(Int(name, 4, K.SIGNED_INT));
    }

    method CreateKsymFuncPlaceholder() returns (id: TypeId)
      modifies this
      ensures (Current(), id) == WithKsymPlaceholder(old(Current()))
    {
      var int4 := Int4();
      var name := AddString(Bytes("ksym_func_placeholder"));
      id := AddType(Var(name, int4, GLOBAL));
    }

    method PlanKsyms(section: TypeId, placeholder: Option<TypeId>) returns (r: Outcome<K.Plan>)
      modifies this
      ensures match KsymsPlan(old(Current()), section, placeholder)
              case Failed(err) => r == Failed(err)
              case Done((s, plan)) => r == Done(plan) && Current() == s
    {
      if placeholder.Some? {
        if placeholder.value >= |types| {
          return Failed(DanglingType);
        }
        var v := types[placeholder.value];
        if !v.Var? {
          return Failed(InvalidDatasec);
        }
        return Done(K.Plan(section, placeholder, Some(v.nameOffset), v.btfType));
      }
      var int4 := Int4();
      r := Done(K.Plan(section, None, None, int4));
    }

    method SetEntry(section: TypeId, k: nat, entry: Entry)
      requires section < |types| && types[section].DataSec? && k < |types[section].entries|
      modifies this`types
      ensures types == old(types)[section := old(types)[section].(entries := old(types)[section].entries[k := entry])]
    {
      types := types[section := types[section].(entries := types[section].entries[k := entry])];
    }

    /** Fixes the `k`-th entry, which has the given type. */
    method FixupKsym(plan: K.Plan, id: TypeId, k: nat, offset: U32, ghost first: seq<BtfType>,
                     ghost entries: seq<Entry>,
                     ghost size: U32)
      returns (r: Outcome<()>)
      requires k < |entries| && entries[k].btfType == id && offset == WrapU32(k * K.ENTRY_SIZE)
      requires plan.section < |first| && first[plan.section].DataSec?
      requires types == K.TypesAfter(plan, first, entries, k, size)
      modifies this`types
      ensures r.Done? <==> K.EntryOk(plan, first, strings, id)
      ensures r.Failed? ==> r.error == EntryError(plan, first, strings, id)
      ensures r.Done? ==> types == K.TypesAfter(plan, first, entries, k + 1, size)
    {
      hide StringAt, K.TypesAfter, K.NamedAlike, K.EntriesAfter;
      var section := plan.section;
      if id >= |types| {
        return Failed(DanglingType);
      }
      K.ShapeKept(plan, first, entries, k, size, id);
      var t := types[id];
      if !t.Func? && !t.Var? {
        return Failed(InvalidDatasec);
      }
      var name := StringAt(strings, t.nameOffset);
      if name.None? {
        return Failed(UnreadableName);
      }
      ghost var before;
      if t.Func? {
        types := types[id := Func(t.nameOffset, t.btfType, K.LINKAGE_GLOBAL)];
        ghost var named := types;
        if plan.placeholderName.Some? {
          if t.btfType >= |types| {
            assert !K.EntryOk(plan, first, strings, entries[k].btfType);
            return Failed(DanglingType);
          }
          var proto := types[t.btfType];
          if proto.FuncProto? {
            types := types[t.btfType := proto.(params := K.NamedAlike(proto.params, plan.placeholderName.value))];
          }
        }
        K.FuncStep(plan, first, entries, k, size, named, types);
        before := types;
        if plan.placeholder.Some? {
          SetEntry(section, k, types[section].entries[k].(btfType := plan.placeholder.value));
        }
      } else {
        types := types[id := Var(t.nameOffset, plan.intId, K.LINKAGE_GLOBAL)];
        K.VarStep(plan, first, entries, k, size, types);
        before := types;
      }
      SetEntry(section, k, types[section].entries[k].(offset := offset, size := K.ENTRY_SIZE));
      assert types[section].entries == K.SectionStep(plan, before[section], k, t.Func?).entries;
      assert types == before[section := K.SectionStep(plan, before[section], k, t.Func?)];
      r := Done(());
    }

    /** Makes the entries of the section of extern symbols global integer variables, four bytes apart. */
    method FixupKsymsDatasec(section: TypeId, placeholder: Option<TypeId>) returns (r: Outcome<()>)
      modifies this
      ensures r.Done? <==> KsymsFixable(old(Current()), section, placeholder)
      ensures r.Done? ==> Current() == KsymsFixed(old(Current()), section, placeholder)
      ensures r.Failed? ==> KsymsFailWith(old(Current()), section, placeholder, r.error)
    {
      hide StringAt, K.TypeAfter, K.NamedAlike, K.EntryOk, EntryError, EncodedSize, Bytes;
      var planned := PlanKsyms(section, placeholder);
      if planned.Failed? {
        return Failed(planned.error);
      }
      var plan := planned.value;
      if section >= |types| {
        return Failed(DanglingType);
      }
      if !types[section].DataSec? {
        return Failed(InvalidDatasec);
      }
      var sectionName := StringAt(strings, types[section].nameOffset);
      if sectionName.None? {
        return Failed(UnreadableName);
      }
      ghost var start := Current();
      var entries, size := types[section].entries, types[section].size;
      K.NothingListed(plan, types, entries);
      var offset: U32 := 0;
      for k := 0 to |entries|
        invariant Current() == start.(types := K.TypesAfter(plan, start.types, entries, k, size))
        invariant K.EntriesOk(plan, start.types, strings, entries, k)
        invariant offset == WrapU32(k * K.ENTRY_SIZE)
      {
        var entry := FixupKsym(plan, entries[k].btfType, k, offset, start.types, entries, size);
        if entry.Failed? {
          assert FirstBad(plan, start.types, start.strings, entries, k);
          return entry;
        }
        offset := WrapU32(offset + K.ENTRY_SIZE);
      }
      K.ShapeKept(plan, start.types, entries, |entries|, size, section);
      K.Sized(plan, start.types, entries, |entries|, size, offset);
      types := types[section := DataSec(types[section].nameOffset, offset, types[section].entries)];
      r := Done(());
    }

    /** Fixes and sanitizes every type the table had at the start. */
    method SanitizeTypes(elf: Elf, features: FeatureResolver) returns (r: Outcome<()>)
      modifies this, features
      ensures Knows(old(features.cache), features.cache)
      ensures r.Done? ==> AllAsked(features.cache, elf, old(Current()), |old(types)|)
      ensures match Run(elf, features.cache, old(Current()), |old(types)|)
              case Failed(err) => r == Failed(err)
              case Done(s) => r == Done(()) && Current() == s
    {
      hide StepOf, Asked;
      ghost var first := Current();
      var n := |types|;
      for i := 0 to n
        invariant n <= |types|
        invariant Knows(old(features.cache), features.cache)
        invariant AllAsked(features.cache, elf, first, i)
        invariant Run(elf, features.cache, first, i) == Done(Current())
      {
        ghost var known, before := features.cache, Current();
        var step := SanitizeAt(elf, features, i);
        RunStable(elf, known, features.cache, first, i);
        if step.Failed? {
          RunFails(elf, features.cache, first, i + 1, n);
          return step;
        }
        assert Run(elf, features.cache, first, i) == Done(before);
        StepGrows(elf, features.cache, before, i);
      }
      r := Done(());
    }

    /** The whole preparation for the kernel: the section of extern symbols first, if there are any. */
    method FixupAndSanitize(elf: Elf, features: FeatureResolver, externs: Option<Externs>) returns (r: Outcome<()>)
      modifies this, features
      ensures Knows(old(features.cache), features.cache)
      ensures externs.Some? && !KsymsFixable(old(Current()), externs.value.section, externs.value.placeholder) ==> r.Failed?
      ensures externs.Some? ==> KsymsFixable(old(Current()), externs.value.section, externs.value.placeholder) ==>
        var s := KsymsFixed(old(Current()), externs.value.section, externs.value.placeholder);
        match Run(elf, features.cache, s, |s.types|)
        case Failed(err) => r == Failed(err)
        case Done(s') => r == Done(()) && Current() == s'
      ensures externs.None? ==>
        match Run(elf, features.cache, old(Current()), |old(types)|)
        case Failed(err) => r == Failed(err)
        case Done(s') => r == Done(()) && Current() == s'
      ensures r.Done? ==>
        var s := if externs.Some? then KsymsFixed(old(Current()), externs.value.section, externs.value.placeholder) else old(Current());
        AllAsked(features.cache, elf, s, |s.types|)
    {
      hide Run, KsymsFixed, KsymsFixable, AllAsked;
      if externs.Some? {
        r := FixupKsymsDatasec(externs.value.section, externs.value.placeholder);
        if r.Failed? {
          return;
        }
      }
      r := SanitizeTypes(elf, features);
    }
  }

  function Before<T>(front: seq<T>, r: Outcome<seq<T>>): Outcome<seq<T>> {
    match r
    case Failed(err) => Failed(err)
    case Done(rest) => Done(front + rest)
  }

  lemma BeforeNothing<T>(r: Outcome<seq<T>>)
    ensures Before([], r) == r
  {
    if r.Done? {
      assert [] + r.value == r.value;
    }
  }

  lemma BeforeOne<T>(front: seq<T>, x: T, r: Outcome<seq<T>>)
    ensures Before(front, Before([x], r)) == Before(front + [x], r)
  {
    if r.Done? {
      assert front + ([x] + r.value) == front + [x] + r.value;
    }
  }

  /** A run that fails stays failed. */
  lemma {:induction false} RunFails(elf: Elf, answers: Answers, s: State, i: nat, n: nat)
    requires i <= n <= |s.types| && Run(elf, answers, s, i).Failed?
    ensures Run(elf, answers, s, n) == Run(elf, answers, s, i)
    decreases n
  {
    if i < n {
      RunFails(elf, answers, s, i, n - 1);
    }
  }
}
