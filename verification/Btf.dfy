/**
 The BPF Type Format as the loader holds it: a table of types, indexed by type id, and a string
 section that types point into by byte offset (Linux kernel, Documentation/bpf/btf.rst, section 2).
 */
module Btf {
  import opened Instructions

  type Name = seq<Byte>
  // Positions in the type table and in the string section.
  type TypeId = nat
  type StringOffset = nat

  datatype Member = Member(nameOffset: StringOffset, btfType: TypeId, offset: U32)
  datatype Param = Param(nameOffset: StringOffset, btfType: TypeId)
  datatype Variant = Variant(nameOffset: StringOffset, value: U32)
  datatype Variant64 = Variant64(nameOffset: StringOffset, valueLow: U32, valueHigh: U32)
  datatype Entry = Entry(btfType: TypeId, offset: U32, size: U32)
  datatype FallbackVariant = FallbackVariant(nameOffset: StringOffset, value: U64)
  // What a 64-bit enum was, kept beside the union that replaces it.
  datatype Fallback = Fallback(signed: bool, variants: seq<FallbackVariant>)

  datatype BtfType =
    | Unknown
    | Fwd(nameOffset: StringOffset, kflag: bool)
    | Const(nameOffset: StringOffset, btfType: TypeId)
    | Volatile(nameOffset: StringOffset, btfType: TypeId)
    | Restrict(nameOffset: StringOffset, btfType: TypeId)
    | Ptr(nameOffset: StringOffset, btfType: TypeId)
    | Typedef(nameOffset: StringOffset, btfType: TypeId)
    | TypeTag(nameOffset: StringOffset, btfType: TypeId)
    | Func(nameOffset: StringOffset, btfType: TypeId, linkage: U32)
    | Int(nameOffset: StringOffset, size: U32, data: U32)
    | Float(nameOffset: StringOffset, size: U32)
    | Enum(nameOffset: StringOffset, signed: bool, size: U32, variants: seq<Variant>)
    | Array(nameOffset: StringOffset, elementType: TypeId, indexType: TypeId, len: U32)
    | Struct(nameOffset: StringOffset, kflag: bool, size: U32, members: seq<Member>)
    | Union(nameOffset: StringOffset, kflag: bool, size: U32, members: seq<Member>, fallback: Option<Fallback>)
    | FuncProto(nameOffset: StringOffset, returnType: TypeId, params: seq<Param>)
    | Var(nameOffset: StringOffset, btfType: TypeId, linkage: U32)
    | DataSec(nameOffset: StringOffset, size: U32, entries: seq<Entry>)
    | DeclTag(nameOffset: StringOffset, btfType: TypeId, componentIndex: U32)
    | Enum64(nameOffset: StringOffset, signed: bool, size: U32, variants64: seq<Variant64>)
  {
    predicate HasMembers() {
      Struct? || Union?
    }

    function NameOffset(): StringOffset {
      if Unknown? then 0 else nameOffset
    }

    /** The bit offset of a member; with the kind flag its upper byte is a bitfield width. */
    function MemberBitOffset(m: Member): nat
      requires HasMembers()
    {
      if kflag then m.offset % 0x100_0000 else m.offset
    }

    function MemberBitFieldSize(m: Member): nat
      requires HasMembers()
    {
      if kflag then m.offset / 0x100_0000 else 0
    }

    /** The size a type states itself. */
    function Size(): Option<U32> {
      match this
      case Int(_, size, _) => Some(size)
      case Float(_, size) => Some(size)
      case Enum(_, _, size, _) => Some(size)
      case Enum64(_, _, size, _) => Some(size)
      case Struct(_, _, size, _) => Some(size)
      case Union(_, _, size, _, _) => Some(size)
      case DataSec(_, size, _) => Some(size)
      case Ptr(_, _) => Some(8)
      case _ => None
    }

    /** The type a wrapper without a size of its own refers to. */
    function Referred(): Option<TypeId> {
      match this
      case Const(_, t) => Some(t)
      case Volatile(_, t) => Some(t)
      case Restrict(_, t) => Some(t)
      case Ptr(_, t) => Some(t)
      case Typedef(_, t) => Some(t)
      case TypeTag(_, t) => Some(t)
      case FuncProto(_, t, _) => Some(t)
      case Var(_, t, _) => Some(t)
      case DeclTag(_, t, _) => Some(t)
      case _ => None
    }

    predicate IsModifier() {
      Const? || Volatile? || Restrict? || Typedef? || TypeTag?
    }

    function Kind(): nat {
      match this
      case Unknown => 0
      case Int(_, _, _) => 1
      case Ptr(_, _) => 2
      case Array(_, _, _, _) => 3
      case Struct(_, _, _, _) => 4
      case Union(_, _, _, _, _) => 5
      case Enum(_, _, _, _) => 6
      case Fwd(_, _) => 7
      case Typedef(_, _) => 8
      case Volatile(_, _) => 9
      case Const(_, _) => 10
      case Restrict(_, _) => 11
      case Func(_, _, _) => 12
      case FuncProto(_, _, _) => 13
      case Var(_, _, _) => 14
      case DataSec(_, _, _) => 15
      case Float(_, _) => 16
      case DeclTag(_, _, _) => 17
      case TypeTag(_, _) => 18
      case Enum64(_, _, _, _) => 19
    }

    predicate IsCompatible(other: BtfType) {
      Kind() == other.Kind() || (Enum? && other.Enum64?) || (Enum64? && other.Enum?)
    }
  }

  datatype BtfError =
    | UnknownBtfType | UnexpectedBtfType | MaximumTypeDepthReached | InvalidStringOffset | InvalidTypeInfo
    | InvalidAccessIndex | InvalidRelocationKindForType | MaximumNestingLevelReached | MissingTarget
    | InvalidHeader | InvalidInfo
    | InvalidAccessString | ConflictingCandidates | FunctionNotFound | InvalidInstructionIndex | InvalidInstruction
    | Panic  // an index, an unwrap or an unreachable arm of the source

  datatype Result<+T> = Ok(value: T) | Err(error: BtfError)

  const MAX_RESOLVE_DEPTH: nat := 32
  const MAX_SPEC_LEN: nat := 64

  datatype Btf = Btf(types: seq<BtfType>, strings: seq<Byte>)

  // ---------- strings ----------

  /** The bytes from `offset` up to the next NUL; none when there is no NUL. */
  function StringAt(strings: seq<Byte>, offset: nat): Option<Name>
    decreases |strings| - offset
  {
    if offset >= |strings| then None
    else if strings[offset] == 0 then Some([])
    else
      match StringAt(strings, offset + 1)
      case None => None
      case Some(rest) => Some([strings[offset]] + rest)
  }

  function NameAt(btf: Btf, offset: StringOffset): Result<Name> {
    match StringAt(btf.strings, offset)
    case None => Err(InvalidStringOffset)
    case Some(name) => Ok(name)
  }

  /** The name up to the first "___", which starts a flavour suffix. */
  function Flavorless(name: Name): Name {
    if |name| >= 3 && name[..3] == [95, 95, 95] then []
    else if name == [] then []
    else [name[0]] + Flavorless(name[1..])
  }

  /** Three underscores start at `k`. */
  predicate SuffixAt(name: Name, k: nat) {
    k + 3 <= |name| && name[k] == 95 && name[k + 1] == 95 && name[k + 2] == 95
  }

  /** The flavourless name is what comes before the first three underscores in a row. */
  lemma {:induction false} FlavorlessExact(name: Name)
    ensures
      var n := |Flavorless(name)|;
      && n <= |name| && Flavorless(name) == name[..n]
      && (n < |name| ==> SuffixAt(name, n))
      && forall k: nat :: k < n ==> !SuffixAt(name, k)
  {
    if name != [] && !SuffixAt(name, 0) {
      FlavorlessExact(name[1..]);
      assert forall k: nat :: k > 0 ==> (SuffixAt(name, k) <==> SuffixAt(name[1..], k - 1));
    }
  }

  // ---------- types ----------

  function TypeById(btf: Btf, id: TypeId): Result<BtfType> {
    if id < |btf.types| then Ok(btf.types[id]) else Err(UnknownBtfType)
  }

  /** The type behind at most `fuel` modifiers and typedefs. */
  function ResolveWithin(btf: Btf, id: TypeId, fuel: nat): Result<TypeId>
    decreases fuel
  {
    if fuel == 0 then Err(MaximumTypeDepthReached)
    else
      match TypeById(btf, id)
      case Err(e) => Err(e)
      case Ok(ty) => if ty.IsModifier() then ResolveWithin(btf, ty.btfType, fuel - 1) else Ok(id)
  }

  function Resolve(btf: Btf, id: TypeId): Result<TypeId> {
    ResolveWithin(btf, id, MAX_RESOLVE_DEPTH)
  }

  method ResolveType(btf: Btf, rootTypeId: TypeId) returns (r: Result<TypeId>)
    ensures r == Resolve(btf, rootTypeId)
    ensures r.Ok? ==> r.value < |btf.types| && !btf.types[r.value].IsModifier()
    ensures r.Ok? ==>
      var ty := btf.types[r.value]; !ty.Const? && !ty.Volatile? && !ty.Restrict? && !ty.Typedef? && !ty.TypeTag?
  {
    var typeId: TypeId := rootTypeId;
    for depth := 0 to MAX_RESOLVE_DEPTH
      invariant Resolve(btf, rootTypeId) == ResolveWithin(btf, typeId, MAX_RESOLVE_DEPTH - depth)
    {
      if typeId >= |btf.types| {
        return Err(UnknownBtfType);
      }
      var ty := btf.types[typeId];
      if !ty.IsModifier() {
        return Ok(typeId);
      }
      typeId := ty.btfType;
    }
    r := Err(MaximumTypeDepthReached);
  }

  lemma {:induction false} ResolvedType(btf: Btf, id: TypeId, fuel: nat)
    ensures ResolveWithin(btf, id, fuel).Ok? ==>
      var r := ResolveWithin(btf, id, fuel).value;
      && r < |btf.types| && !btf.types[r].IsModifier()
      && (fuel > 0 ==> ResolveWithin(btf, r, fuel) == Ok(r))
    decreases fuel
  {
    if fuel > 0 && id < |btf.types| && btf.types[id].IsModifier() {
      ResolvedType(btf, btf.types[id].btfType, fuel - 1);
    }
  }

  /** From `id` over modifiers and typedefs to `r`, which is neither. */
  ghost predicate Behind(btf: Btf, id: TypeId, path: seq<TypeId>, r: TypeId) {
    && path != [] && path[0] == id && path[|path| - 1] == r && r < |btf.types| && ModifiedType(btf.types[r]) == None
    && forall k :: 0 <= k < |path| - 1 ==>
      path[k] < |btf.types| && ModifiedType(btf.types[path[k]]) == Some(path[k + 1])
  }

  /** What the type qualifies or renames. */
  function ModifiedType(ty: BtfType): Option<TypeId> {
    match ty
    case Const(_, t) => Some(t)
    case Volatile(_, t) => Some(t)
    case Restrict(_, t) => Some(t)
    case Typedef(_, t) => Some(t)
    case TypeTag(_, t) => Some(t)
    case _ => None
  }

  /** A path of more than one type starts with a modifier; without it, it is a path from the next. */
  lemma BehindNext(btf: Btf, id: TypeId, path: seq<TypeId>, r: TypeId)
    requires Behind(btf, id, path, r)
    ensures path != [] && id < |btf.types|
    ensures |path| == 1 ==> id == r
    ensures |path| > 1 ==> ModifiedType(btf.types[id]) == Some(path[1]) && Behind(btf, path[1], path[1..], r)
  {
  }

  lemma BehindOne(btf: Btf, id: TypeId, to: TypeId, path: seq<TypeId>, r: TypeId)
    requires id < |btf.types| && ModifiedType(btf.types[id]) == Some(to) && Behind(btf, to, path, r)
    ensures Behind(btf, id, [id] + path, r)
  {
  }

  /** Resolving finds the type behind, exactly when it is less than `fuel` modifiers away. */
  lemma {:induction false} ResolveExact(btf: Btf, id: TypeId, fuel: nat, r: TypeId)
    ensures ResolveWithin(btf, id, fuel) == Ok(r) <==> exists path :: |path| <= fuel && Behind(btf, id, path, r)
    decreases fuel
  {
    hide Behind;
    if fuel > 0 && id < |btf.types| {
      var ty := btf.types[id];
      if ty.IsModifier() {
        ResolveExact(btf, ty.btfType, fuel - 1, r);
        if rest :| |rest| <= fuel - 1 && Behind(btf, ty.btfType, rest, r) {
          BehindOne(btf, id, ty.btfType, rest, r);
        }
        if path :| |path| <= fuel && Behind(btf, id, path, r) {
          BehindNext(btf, id, path, r);
          BehindLast(btf, id, path, r);
        }
      } else {
        BehindItself(btf, id);
        if path :| |path| <= fuel && Behind(btf, id, path, r) {
          BehindNext(btf, id, path, r);
        }
      }
    } else if path :| |path| <= fuel && Behind(btf, id, path, r) {
      BehindNext(btf, id, path, r);
    }
  }

  lemma BehindLast(btf: Btf, id: TypeId, path: seq<TypeId>, r: TypeId)
    requires Behind(btf, id, path, r) && id < |btf.types| && ModifiedType(btf.types[id]).Some?
    ensures |path| > 1
  {
  }

  lemma BehindItself(btf: Btf, id: TypeId)
    requires id < |btf.types| && ModifiedType(btf.types[id]).None?
    ensures Behind(btf, id, [id], id)
  {
  }

  /** The byte size of `elems` values of the type, through arrays and wrappers; all in 32 bits. */
  function SizeWithin(btf: Btf, id: TypeId, elems: U32, fuel: nat): Result<U32>
    decreases fuel
  {
    if fuel == 0 then Err(MaximumTypeDepthReached)
    else
      match TypeById(btf, id)
      case Err(e) => Err(e)
      case Ok(ty) =>
        if ty.Array? then
          if elems * ty.len < 0x1_0000_0000 then SizeWithin(btf, ty.elementType, elems * ty.len, fuel - 1)
          else Err(InvalidTypeInfo)
        else if ty.Size().Some? then
          if ty.Size().value * elems < 0x1_0000_0000 then Ok(ty.Size().value * elems) else Err(InvalidTypeInfo)
        else if ty.Referred().Some? then SizeWithin(btf, ty.Referred().value, elems, fuel - 1)
        else Err(UnexpectedBtfType)
  }

  function TypeSize(btf: Btf, id: TypeId): Result<U32> {
    SizeWithin(btf, id, 1, MAX_RESOLVE_DEPTH)
  }

  /** Whether a field of one type may stand for a field of the other. */
  function CompatibleWithin(local: Btf, localId: TypeId, target: Btf, targetId: TypeId, fuel: nat): Result<bool>
    decreases fuel
  {
    if fuel == 0 then Err(MaximumTypeDepthReached)
    else
      match (Resolve(local, localId), Resolve(target, targetId))
      case (Err(e), _) => Err(e)
      case (_, Err(e)) => Err(e)
      case (Ok(l), Ok(t)) =>
        match (TypeById(local, l), TypeById(target, t))
        case (Err(e), _) => Err(e)
        case (_, Err(e)) => Err(e)
        case (Ok(lt), Ok(tt)) =>
          if lt.HasMembers() && tt.HasMembers() then Ok(true)
          else if !lt.IsCompatible(tt) then Ok(false)
          else
            match lt
            case Fwd(_, _) => SameFlavorless(local, lt, target, tt)
            case Enum(_, _, _, _) => SameFlavorless(local, lt, target, tt)
            case Enum64(_, _, _, _) => SameFlavorless(local, lt, target, tt)
            case Int(_, _, data) => Ok(IntOffset(data) == 0 && tt.Int? && IntOffset(tt.data) == 0)
            case Float(_, _) => Ok(true)
            case Ptr(_, _) => Ok(true)
            case Array(_, element, _, _) =>
              if tt.Array? then CompatibleWithin(local, element, target, tt.elementType, fuel - 1) else Err(Panic)
            case _ => Err(Panic)
  }

  function SameFlavorless(local: Btf, lt: BtfType, target: Btf, tt: BtfType): Result<bool> {
    match (NameAt(local, lt.NameOffset()), NameAt(target, tt.NameOffset()))
    case (Err(e), _) => Err(e)
    case (_, Err(e)) => Err(e)
    case (Ok(l), Ok(t)) => Ok(Flavorless(l) == Flavorless(t))
  }

  /** The bit offset packed into the description of an integer. */
  function IntOffset(data: U32): nat {
    data / 0x1_0000 % 0x100
  }

  function FieldsCompatible(local: Btf, localId: TypeId, target: Btf, targetId: TypeId): Result<bool> {
    CompatibleWithin(local, localId, target, targetId, MAX_RESOLVE_DEPTH)
  }
}
