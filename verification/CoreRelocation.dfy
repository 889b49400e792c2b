/**
 Applying CO-RE relocations to the functions of an object: each relocation finds its function, the
 candidate types of the kernel that its local type may stand for, what the access means on each, and
 patches one instruction with the value all candidates agree on.

 `Decision` says what a relocation writes, and `Simple` what a list of them does, looking everything
 up afresh; the methods keep the last function and the candidates found so far.
 */
module CoreRelocation {
  import opened Instructions
  import opened Btf
  import opened MemberSearch
  import opened AccessSpecs
  import B = Bitfields
  import T = TypeCompatibility

  datatype Kind =
    | Field(field: B.FieldKind) | FieldExists
    | TypeIdLocal | TypeIdTarget | TypeExists | TypeSizeOf
    | VariantExists | VariantValue
  {
    predicate OfField() { Field? || FieldExists? }
    predicate OfType() { TypeIdLocal? || TypeIdTarget? || TypeExists? || TypeSizeOf? }
  }

  // The numbers of an access string; there is at least one.
  datatype Path = Path(first: U64, rest: seq<U64>)
  {
    function Parts(): seq<nat> { [first] + rest }
  }

  // `path` is none when the access string is not a list of numbers.
  datatype Reloc = Reloc(kind: Kind, insOffset: nat, typeId: TypeId, accessOffset: StringOffset, path: Option<Path>)

  // The two type tables.
  datatype Env = Env(local: Btf, target: Btf, endian: B.Endian)

  // Why the two searches end, for the proofs: members of the target, parameters of local prototypes.
  datatype Ranks = Ranks(target: nat -> nat, local: nat -> nat)

  ghost predicate Grounded(env: Env, rank: Ranks) {
    Contained(env.target, rank.target) && T.ParamsEnd(env.local, rank.local)
  }

  datatype Spec = Spec(rootTypeId: TypeId, accessors: seq<Accessor>, bitOffset: U64)

  // What a relocation means locally, and on the target when it has a meaning there.
  datatype Values = Values(local: B.Computed, target: Option<B.Computed>)

  // ---------- specs ----------

  /** The names of an enum's variants; a union that replaced a 64-bit enum remembers them. */
  function VariantNames(ty: BtfType): Option<seq<StringOffset>> {
    match ty
    case Enum(_, _, _, vs) => Some(seq(|vs|, i requires 0 <= i < |vs| => vs[i].nameOffset))
    case Enum64(_, _, _, vs) => Some(seq(|vs|, i requires 0 <= i < |vs| => vs[i].nameOffset))
    case Union(_, _, _, _, Some(f)) =>
      Some(seq(|f.variants|, i requires 0 <= i < |f.variants| => f.variants[i].nameOffset))
    case _ => None
  }

  function LocalSpec(local: Btf, rel: Reloc): Result<Spec> {
    match NameAt(local, rel.accessOffset)
    case Err(e) => Err(e)
    case Ok(_) =>
      if rel.path.None? then Err(InvalidAccessString)
      else
        match Resolve(local, rel.typeId)
        case Err(e) => Err(e)
        case Ok(t) =>
          ResolvedType(local, rel.typeId, MAX_RESOLVE_DEPTH);
          var parts := rel.path.value.Parts();
          if rel.kind.OfType() then
            if parts != [0] then Err(InvalidAccessString) else Ok(Spec(rel.typeId, [], 0))
          else if rel.kind.OfField() then
            match WalkAll(local, rel.typeId, parts)
            case Err(e) => Err(e)
            case Ok(w) => Ok(Spec(rel.typeId, w.Accessors(), WrapU64(w.bitOffset)))
          else VariantSpec(local, rel.typeId, t, parts)
  }

  function VariantSpec(local: Btf, root: TypeId, t: TypeId, parts: seq<nat>): Result<Spec>
    requires t < |local.types| && parts != []
  {
    match VariantNames(local.types[t])
    case None => Err(InvalidRelocationKindForType)
    case Some(names) =>
      if |parts| != 1 then Err(InvalidAccessString)
      else if parts[0] >= |names| then Err(InvalidAccessIndex)
      else
        match NameAt(local, names[parts[0]])
        case Err(e) => Err(e)
        case Ok(name) => Ok(Spec(root, [Accessor(t, parts[0], Some(name))], 0))
  }

  /** The first variant from `i` on with the name, flavours aside. */
  function FindVariant(target: Btf, names: seq<StringOffset>, name: Name, i: nat): Result<Option<nat>>
    requires i <= |names|
    decreases |names| - i
  {
    if i == |names| then Ok(None)
    else
      match NameAt(target, names[i])
      case Err(e) => Err(e)
      case Ok(other) => if Flavorless(other) == Flavorless(name) then Ok(Some(i)) else FindVariant(target, names, name, i + 1)
  }

  function VariantMatch(target: Btf, candidate: TypeId, local: Spec): Result<Option<Spec>> {
    match Resolve(target, candidate)
    case Err(e) => Err(e)
    case Ok(t) =>
      ResolvedType(target, candidate, MAX_RESOLVE_DEPTH);
      match VariantNames(target.types[t])
      case None => Ok(None)
      case Some(names) =>
        if local.accessors == [] || local.accessors[0].name.None? then Err(Panic)
        else
          match FindVariant(target, names, local.accessors[0].name.value, 0)
          case Err(e) => Err(e)
          case Ok(None) => Ok(None)
          case Ok(Some(i)) => Ok(Some(Spec(candidate, [Accessor(t, i, None)], 0)))
  }

  /** What the local access means on a candidate. */
  ghost function TargetSpec(env: Env, rank: Ranks, kind: Kind, local: Spec,
                            candidate: TypeId): Result<Option<Spec>>
    requires Grounded(env, rank)
  {
    if kind.OfType() then
      match T.Compatible(env.local, local.rootTypeId, env.target, candidate, rank.local)
      case Err(e) => Err(e)
      case Ok(compatible) => if compatible then Ok(Some(Spec(candidate, [], 0))) else Ok(None)
    else if kind.OfField() then
      match MatchAll(env.local, env.target, rank.target, candidate, local.accessors)
      case Err(e) => Err(e)
      case Ok(None) => Ok(None)
      case Ok(Some(m)) => Ok(Some(Spec(candidate, m.accessors, WrapU64(m.bitOffset))))
    else VariantMatch(env.target, candidate, local)
  }

  // ---------- values ----------

  function Plain(value: nat): B.Computed {
    B.Computed(WrapU64(value), 0, None)
  }

  function ComputeField(btf: Btf, endian: B.Endian, kind: Kind, spec: Option<Spec>): Result<B.Computed>
    requires kind.OfField()
  {
    if kind.FieldExists? then Ok(Plain(if spec.Some? then 1 else 0))
    else if spec.None? then Err(MissingTarget)
    else if spec.value.accessors == [] then Err(Panic)
    else
      var last := spec.value.accessors[|spec.value.accessors| - 1];
      if last.name.None? then
        if kind.field.FieldByteOffset? || kind.field.FieldByteSize? then
          match TypeSize(btf, last.typeId)
          case Err(e) => Err(e)
          case Ok(size) =>
            if kind.field.FieldByteOffset?
            then Ok(B.Computed(WrapU64(spec.value.bitOffset / 8), size, Some(last.typeId)))
            else Ok(B.Computed(size, 0, Some(last.typeId)))
        else if last.typeId >= |btf.types| then Err(UnknownBtfType)
        else Err(InvalidRelocationKindForType)
      else
        var bitOff := WrapU32(spec.value.bitOffset);
        match B.PlanOf(btf, last.typeId, last.index, bitOff)
        case Err(e) => Err(e)
        case Ok(p) =>
          if p.memberTypeId >= |btf.types| then Err(UnknownBtfType)
          else Ok(B.ValueOf(kind.field, endian, btf.types[p.memberTypeId], bitOff, p))
  }

  function ComputeType(target: Btf, kind: Kind, local: Spec, spec: Option<Spec>): Result<B.Computed>
    requires kind.OfType()
  {
    match (kind, spec)
    case (TypeIdLocal, _) => Ok(Plain(local.rootTypeId))
    case (TypeIdTarget, Some(s)) => Ok(Plain(s.rootTypeId))
    case (TypeExists, _) => Ok(Plain(if spec.Some? then 1 else 0))
    case (TypeSizeOf, Some(s)) =>
      (match TypeSize(target, s.rootTypeId)
       case Err(e) => Err(e)
       case Ok(size) => Ok(Plain(size)))
    case _ => Err(MissingTarget)
  }

  /** The 64-bit value of a variant; 32-bit ones are sign-extended when the enum is signed. */
  function VariantValueOf(ty: BtfType, index: nat): Result<U64> {
    match ty
    case Enum(_, signed, _, vs) =>
      if index >= |vs| then Err(Panic)
      else if signed && vs[index].value >= 0x8000_0000 then Ok(vs[index].value + 0xffff_ffff_0000_0000)
      else Ok(vs[index].value)
    case Enum64(_, _, _, vs) =>
      if index >= |vs| then Err(Panic) else Ok(vs[index].valueHigh * 0x1_0000_0000 + vs[index].valueLow)
    case Union(_, _, _, _, Some(f)) => if index >= |f.variants| then Err(Panic) else Ok(f.variants[index].value)
    case _ => Err(Panic)
  }

  function ComputeVariant(btf: Btf, kind: Kind, spec: Option<Spec>): Result<B.Computed> {
    if kind.VariantExists? then Ok(Plain(if spec.Some? then 1 else 0))
    else if spec.None? then Err(MissingTarget)
    else if spec.value.accessors == [] then Err(Panic)
    else
      match TypeById(btf, spec.value.accessors[0].typeId)
      case Err(e) => Err(e)
      case Ok(ty) =>
        match VariantValueOf(ty, spec.value.accessors[0].index)
        case Err(e) => Err(e)
        case Ok(value) => Ok(Plain(value))
  }

  function Ignored<T>(r: Result<T>): Option<T> {
    if r.Ok? then Some(r.value) else None
  }

  /** A local value is required; a target value that cannot be computed is left out. */
  function Compute(env: Env, kind: Kind, local: Spec, target: Option<Spec>): Result<Values> {
    var mine :=
      if kind.OfField() then ComputeField(env.local, env.endian, kind, Some(local))
      else if kind.OfType() then ComputeType(env.target, kind, local, target)
      else ComputeVariant(env.local, kind, Some(local));
    match mine
    case Err(e) => Err(e)
    case Ok(value) =>
      var theirs :=
        if kind.OfField() then Ignored(ComputeField(env.target, env.endian, kind, target))
        else if kind.OfType() then Some(value)
        else Ignored(ComputeVariant(env.target, kind, target));
      Ok(Values(value, theirs))
  }

  // ---------- candidates ----------

  /** A type of the same kind; what was a 64-bit enum also matches one. */
  predicate KindFits(local: BtfType, ty: BtfType) {
    ty.Kind() == local.Kind() || (local.Union? && local.fallback.Some? && ty.Enum64?)
  }

  /** Among the first `n` types, those of the kind and the name, flavours aside. */
  function CandidatesIn(target: Btf, local: BtfType, name: Name, n: nat): Result<seq<TypeId>>
    requires n <= |target.types|
  {
    if n == 0 then Ok([])
    else
      match CandidatesIn(target, local, name, n - 1)
      case Err(e) => Err(e)
      case Ok(before) =>
        if !KindFits(local, target.types[n - 1]) then Ok(before)
        else
          match NameAt(target, target.types[n - 1].NameOffset())
          case Err(e) => Err(e)
          case Ok(other) => if Flavorless(other) == Flavorless(name) then Ok(before + [n - 1]) else Ok(before)
  }

  /** The candidates of a local type; they depend on nothing but its id. */
  function Candidates(env: Env, typeId: TypeId): Result<seq<TypeId>> {
    match TypeById(env.local, typeId)
    case Err(e) => Err(e)
    case Ok(ty) =>
      match NameAt(env.local, ty.NameOffset())
      case Err(e) => Err(e)
      case Ok(name) => CandidatesIn(env.target, ty, name, |env.target.types|)
  }

  datatype Found = Found(bitOffset: U64, values: Values)

  /** What the candidates that match make of the relocation, in their order. */
  ghost function MatchesOf(env: Env, rank: Ranks, kind: Kind, local: Spec,
                           candidates: seq<TypeId>): Result<seq<Found>>
    requires Grounded(env, rank)
  {
    if candidates == [] then Ok([])
    else
      match MatchesOf(env, rank, kind, local, candidates[..|candidates| - 1])
      case Err(e) => Err(e)
      case Ok(before) =>
        match TargetSpec(env, rank, kind, local, candidates[|candidates| - 1])
        case Err(e) => Err(e)
        case Ok(None) => Ok(before)
        case Ok(Some(spec)) =>
          match Compute(env, kind, local, Some(spec))
          case Err(e) => Err(e)
          case Ok(values) => Ok(before + [Found(spec.bitOffset, values)])
  }

  /** Two matches that disagree on where the field is or on the value. */
  predicate Conflict(a: Found, b: Found) {
    a.bitOffset != b.bitOffset
    || (a.values.target.Some? && b.values.target.Some? && a.values.target.value.value != b.values.target.value.value)
  }

  /** The first match, unless a later one conflicts with it. */
  function Chosen(matches: seq<Found>): Result<Values>
    requires matches != []
  {
    if exists i :: 1 <= i < |matches| && Conflict(matches[0], matches[i]) then Err(ConflictingCandidates)
    else Ok(matches[0].values)
  }

  /** What a relocation writes when these are the candidates of its local type. */
  ghost function WrittenFor(env: Env, rank: Ranks, kind: Kind, local: Spec, candidates: seq<TypeId>): Result<Values>
    requires Grounded(env, rank)
  {
    match MatchesOf(env, rank, kind, local, candidates)
    case Err(e) => Err(e)
    case Ok(matches) => if matches == [] then Compute(env, kind, local, None) else Chosen(matches)
  }

  /** What the relocation writes. It does not depend on the code. */
  ghost function Decision(env: Env, rank: Ranks, rel: Reloc): Result<Values>
    requires Grounded(env, rank)
  {
    match TypeById(env.local, rel.typeId)
    case Err(e) => Err(e)
    case Ok(ty) =>
      match NameAt(env.local, ty.NameOffset())
      case Err(e) => Err(e)
      case Ok(name) =>
        match LocalSpec(env.local, rel)
        case Err(e) => Err(e)
        case Ok(local) =>
          if rel.kind.TypeIdLocal? then Compute(env, rel.kind, local, None)
          else
            match Candidates(env, rel.typeId)
            case Err(e) => Err(e)
            case Ok(candidates) => WrittenFor(env, rank, rel.kind, local, candidates)
  }

  // ---------- patching ----------

  const POISON: Insn := Insn(CALL, 0, 0, 0, 0xBAD2310)

  function WidthBits(size: U32): Option<bv8> {
    match size case 8 => Some(0x18) case 4 => Some(0x00) case 2 => Some(0x08) case 1 => Some(0x10) case _ => None
  }

  predicate IsUnsigned(data: U32) {
    data / 0x100_0000 % 2 == 0
  }

  /** A load or store takes the target's width when both types are pointers or unsigned integers. */
  function Resized(env: Env, v: Values, target: B.Computed, ins: Insn): Result<Insn> {
    if v.local.size == target.size then Ok(ins)
    else if v.local.typeId.None? then Err(Panic)
    else
      match TypeById(env.local, v.local.typeId.value)
      case Err(e) => Err(e)
      case Ok(localTy) =>
        if target.typeId.None? then Err(Panic)
        else
          match TypeById(env.target, target.typeId.value)
          case Err(e) => Err(e)
          case Ok(targetTy) =>
            if !(localTy.Ptr? && targetTy.Ptr?)
               && !(localTy.Int? && targetTy.Int? && IsUnsigned(localTy.data) && IsUnsigned(targetTy.data))
            then Err(InvalidInstruction)
            else
              match WidthBits(target.size)
              case None => Err(InvalidInstruction)
              case Some(bits) => Ok(ins.(code := (ins.code & 0xE0) | bits | (ins.code & 0x07)))
  }

  /** Writes the value into the instruction at `at`, as its class demands; none poisons it. */
  function Applied(env: Env, v: Values, code: seq<Insn>, at: nat): (r: Result<seq<Insn>>)
    requires at < |code|
    ensures r.Ok? ==> |r.value| == |code|
  {
    var ins := code[at];
    match v.target
    case None =>
      if ins.code != LD_IMM64 then Ok(code[at := POISON])
      else if at + 1 < |code| then Ok(code[at := POISON][at + 1 := POISON])
      else Err(InvalidInstructionIndex)
    case Some(target) =>
      var cls := ins.code & 0x07;
      if cls == 4 || cls == 7 then
        if ins.src != 0 then Err(InvalidInstruction) else Ok(code[at := ins.(imm := WrapI32(target.value))])
      else if cls == 1 || cls == 2 || cls == 3 then
        if target.value > 0x7fff then Err(InvalidInstruction)
        else
          match Resized(env, v, target, ins.(off := target.value))
          case Err(e) => Err(e)
          case Ok(resized) => Ok(code[at := resized])
      else if cls == 0 then
        if at + 1 < |code| then
          Ok(code[at := ins.(imm := WrapI32(target.value))]
                 [at + 1 := code[at + 1].(imm := WrapI32(target.value / 0x1_0000_0000))])
        else Err(InvalidInstructionIndex)
      else Err(InvalidInstruction)
  }

  // ---------- a list of relocations, the simple way ----------

  datatype Shape = Shape(section: nat, offset: nat, size: nat)

  predicate Inside(section: nat, f: Shape, rel: Reloc) {
    && section == f.section
    && f.offset / INS_SIZE <= rel.insOffset / INS_SIZE < f.offset / INS_SIZE + f.size
  }

  /** The first function from `i` on that the relocation is in. */
  function Lookup(section: nat, shapes: seq<Shape>, rel: Reloc, i: nat): (r: Option<nat>)
    requires i <= |shapes|
    ensures r.Some? ==> i <= r.value < |shapes| && Inside(section, shapes[r.value], rel)
    ensures r.None? ==> forall j :: i <= j < |shapes| ==> !Inside(section, shapes[j], rel)
    decreases |shapes| - i
  {
    if i == |shapes| then None
    else if Inside(section, shapes[i], rel) then Some(i)
    else Lookup(section, shapes, rel, i + 1)
  }

  /** Functions start at instruction boundaries and do not overlap. */
  ghost predicate Tidy(shapes: seq<Shape>) {
    && (forall i :: 0 <= i < |shapes| ==> shapes[i].offset % INS_SIZE == 0)
    && forall i, j :: 0 <= i < j < |shapes| && shapes[i].section == shapes[j].section ==> Apart(shapes[i], shapes[j])
  }

  predicate Apart(a: Shape, b: Shape) {
    a.offset + a.size * INS_SIZE <= b.offset || b.offset + b.size * INS_SIZE <= a.offset
  }

  predicate Fits(shapes: seq<Shape>, codes: seq<seq<Insn>>) {
    |codes| == |shapes| && forall i :: 0 <= i < |shapes| ==> |codes[i]| == shapes[i].size
  }

  ghost function SimpleStep(env: Env, rank: Ranks, section: nat, shapes: seq<Shape>, codes: seq<seq<Insn>>,
                            rel: Reloc)
    : (r: Result<seq<seq<Insn>>>)
    requires Grounded(env, rank) && Fits(shapes, codes)
    ensures r.Ok? ==> Fits(shapes, r.value)
  {
    match Lookup(section, shapes, rel, 0)
    case None => Err(FunctionNotFound)
    case Some(f) =>
      if rel.insOffset < shapes[f].offset || (rel.insOffset - shapes[f].offset) / INS_SIZE >= shapes[f].size
      then Err(InvalidInstructionIndex)
      else
        match Decision(env, rank, rel)
        case Err(e) => Err(e)
        case Ok(values) =>
          match Applied(env, values, codes[f], (rel.insOffset - shapes[f].offset) / INS_SIZE)
          case Err(e) => Err(e)
          case Ok(code) => Ok(codes[f := code])
  }

  /** All relocations of a section, each looked up afresh. */
  ghost function Simple(env: Env, rank: Ranks, section: nat, shapes: seq<Shape>, codes: seq<seq<Insn>>,
                        rels: seq<Reloc>)
    : (r: Result<seq<seq<Insn>>>)
    requires Grounded(env, rank) && Fits(shapes, codes)
    ensures r.Ok? ==> Fits(shapes, r.value)
  {
    if rels == [] then Ok(codes)
    else
      match Simple(env, rank, section, shapes, codes, rels[..|rels| - 1])
      case Err(e) => Err(e)
      case Ok(before) => SimpleStep(env, rank, section, shapes, before, rels[|rels| - 1])
  }

  /** With tidy functions, the one a relocation is in is the one a lookup finds. */
  lemma LookupUnique(section: nat, shapes: seq<Shape>, rel: Reloc, i: nat)
    requires Tidy(shapes) && i < |shapes| && Inside(section, shapes[i], rel)
    ensures Lookup(section, shapes, rel, 0) == Some(i)
  {
  }

  /** A relocation inside a tidy function has its instruction in it. */
  lemma IndexInRange(section: nat, shapes: seq<Shape>, rel: Reloc, i: nat)
    requires Tidy(shapes) && i < |shapes| && Inside(section, shapes[i], rel)
    ensures shapes[i].offset <= rel.insOffset && (rel.insOffset - shapes[i].offset) / INS_SIZE < shapes[i].size
  {
  }

  // ---------- the objects ----------

  function View(spec: AccessSpec): Spec
    reads spec
  {
    Spec(spec.rootTypeId, spec.accessors, spec.bitOffset)
  }

  method NewVariantSpec(local: Btf, root: TypeId, t: TypeId, parts: seq<nat>) returns (r: Result<AccessSpec>)
    requires t < |local.types| && parts != []
    ensures match VariantSpec(local, root, t, parts)
            case Err(e) => r == Err(e)
            case Ok(spec) => r.Ok? && fresh(r.value) && r.value.btf == local && View(r.value) == spec
  {
    var names := VariantNames(local.types[t]);
    if names.None? {
      return Err(InvalidRelocationKindForType);
    }
    if |parts| != 1 {
      return Err(InvalidAccessString);
    }
    var index := parts[0];
    if index >= |names.value| {
      return Err(InvalidAccessIndex);
    }
    var name := NameAt(local, names.value[index]);
    if name.Err? {
      return Err(name.error);
    }
    var spec := new AccessSpec(local, root);
    spec.parts, spec.accessors := parts, [Accessor(t, index, Some(name.value))];
    r := Ok(spec);
  }

  method NewSpec(local: Btf, rel: Reloc) returns (r: Result<AccessSpec>)
    ensures match LocalSpec(local, rel)
            case Err(e) => r == Err(e)
            case Ok(spec) => r.Ok? && fresh(r.value) && r.value.btf == local && View(r.value) == spec
  {
    hide StringAt, WalkAll, VariantSpec;
    var access := NameAt(local, rel.accessOffset);
    if access.Err? {
      return Err(access.error);
    }
    if rel.path.None? {
      return Err(InvalidAccessString);
    }
    var parts := rel.path.value.Parts();
    var t := ResolveType(local, rel.typeId);
    if t.Err? {
      return Err(t.error);
    }
    if rel.kind.OfType() {
      if parts != [0] {
        return Err(InvalidAccessString);
      }
      var spec := new AccessSpec(local, rel.typeId);
      spec.parts := parts;
      return Ok(spec);
    }
    if rel.kind.OfField() {
      r := AccessSpec.New(local, rel.typeId, parts);
      return;
    }
    r := NewVariantSpec(local, rel.typeId, t.value, parts);
  }

  method MatchVariant(target: Btf, candidate: TypeId, local: AccessSpec) returns (r: Result<Option<AccessSpec>>)
    ensures match VariantMatch(target, candidate, View(local))
            case Err(e) => r == Err(e)
            case Ok(None) => r == Ok(None)
            case Ok(Some(spec)) => r.Ok? && r.value.Some? && fresh(r.value.value) && View(r.value.value) == spec
  {
    hide StringAt, Flavorless;
    var t := ResolveType(target, candidate);
    if t.Err? {
      return Err(t.error);
    }
    var names := VariantNames(target.types[t.value]);
    if names.None? {
      return Ok(None);
    }
    if local.accessors == [] || local.accessors[0].name.None? {
      return Err(Panic);
    }
    var wanted := local.accessors[0].name.value;
    for i := 0 to |names.value|
      invariant FindVariant(target, names.value, wanted, 0) == FindVariant(target, names.value, wanted, i)
    {
      var name := NameAt(target, names.value[i]);
      if name.Err? {
        return Err(name.error);
      }
      if Flavorless(wanted) == Flavorless(name.value) {
        var spec := new AccessSpec(target, candidate);
        spec.parts, spec.accessors := [i], [Accessor(t.value, i, None)];
        return Ok(Some(spec));
      }
    }
    r := Ok(None);
  }

  method MatchTarget(env: Env, ghost rank: Ranks, kind: Kind, local: AccessSpec, candidate: TypeId)
    returns (r: Result<Option<AccessSpec>>)
    requires Grounded(env, rank) && local.btf == env.local
    ensures match TargetSpec(env, rank, kind, View(local), candidate)
            case Err(e) => r == Err(e)
            case Ok(None) => r == Ok(None)
            case Ok(Some(spec)) => r.Ok? && r.value.Some? && fresh(r.value.value) && View(r.value.value) == spec
  {
    hide MatchAll, VariantMatch;
    if kind.OfType() {
      var compatible := T.TypesAreCompatible(env.local, local.rootTypeId, env.target, candidate, rank.local);
      if compatible.Err? {
        return Err(compatible.error);
      }
      if !compatible.value {
        return Ok(None);
      }
      var spec := new AccessSpec(env.target, candidate);
      return Ok(Some(spec));
    }
    if kind.OfField() {
      r := AccessSpec.MatchCandidate(local, env.target, candidate, rank.target);
      return;
    }
    r := MatchVariant(env.target, candidate, local);
  }

  /** A type of the kind whose name cannot be read. */
  predicate Unreadable(target: Btf, local: BtfType, id: TypeId) {
    id < |target.types| && KindFits(local, target.types[id]) && NameAt(target, target.types[id].NameOffset()).Err?
  }

  /** Of the kind and, flavours aside, of the name. */
  predicate IsCandidate(target: Btf, local: BtfType, name: Name, id: TypeId) {
    && id < |target.types| && KindFits(local, target.types[id])
    && NameAt(target, target.types[id].NameOffset()).Ok?
    && Flavorless(NameAt(target, target.types[id].NameOffset()).value) == Flavorless(name)
  }

  ghost predicate Increasing(ids: seq<TypeId>) {
    forall i, j :: 0 <= i < j < |ids| ==> ids[i] < ids[j]
  }

  /**
   The search fails exactly when some type of the kind has an unreadable name, with the error of the
   first of them; otherwise it lists, in increasing order, exactly the candidates.
   */
  lemma {:induction false} CandidatesExact(target: Btf, local: BtfType, name: Name, n: nat)
    requires n <= |target.types|
    ensures
      match CandidatesIn(target, local, name, n)
      case Ok(ids) =>
        && Increasing(ids)
        && (forall id: TypeId :: id in ids <==> id < n && IsCandidate(target, local, name, id))
        && forall id: TypeId :: id < n ==> !Unreadable(target, local, id)
      case Err(e) =>
        exists id: TypeId :: id < n
          && Unreadable(target, local, id) && NameAt(target, target.types[id].NameOffset()) == Err(e)
          && forall before: TypeId :: before < id ==> !Unreadable(target, local, before)
  {
    hide StringAt, Flavorless, KindFits;
    if n > 0 {
      CandidatesExact(target, local, name, n - 1);
      if CandidatesIn(target, local, name, n - 1).Ok? {
        if CandidatesIn(target, local, name, n).Err? {
          assert Unreadable(target, local, n - 1);
        } else {
          var ids := CandidatesIn(target, local, name, n - 1).value;
          assert forall i :: 0 <= i < |ids| ==> ids[i] in ids;
          assert CandidatesIn(target, local, name, n).value == if IsCandidate(target, local, name, n - 1) then ids + [n - 1] else ids;
        }
      }
    }
  }

  method FindCandidates(local: BtfType, name: Name, target: Btf) returns (r: Result<seq<TypeId>>)
    ensures r == CandidatesIn(target, local, name, |target.types|)
    ensures r.Ok? <==> forall id: TypeId :: !Unreadable(target, local, id)
    ensures r.Ok? ==> Increasing(r.value)
    ensures r.Ok? ==> forall id: TypeId :: id in r.value <==> IsCandidate(target, local, name, id)
  {
    hide StringAt, Flavorless, KindFits;
    CandidatesExact(target, local, name, |target.types|);
    var candidates: seq<TypeId> := [];
    for id := 0 to |target.types|
      invariant CandidatesIn(target, local, name, id) == Ok(candidates)
    {
      var ty := target.types[id];
      if KindFits(local, ty) {
        var other := NameAt(target, ty.NameOffset());
        if other.Err? {
          CandidatesFail(target, local, name, id + 1, |target.types|);
          return Err(other.error);
        }
        if Flavorless(name) == Flavorless(other.value) {
          candidates := candidates + [id];
        }
      }
    }
    r := Ok(candidates);
  }

  lemma {:induction false} CandidatesFail(target: Btf, local: BtfType, name: Name, i: nat, n: nat)
    requires i <= n <= |target.types| && CandidatesIn(target, local, name, i).Err?
    ensures CandidatesIn(target, local, name, n) == CandidatesIn(target, local, name, i)
    decreases n
  {
    if i < n {
      CandidatesFail(target, local, name, i, n - 1);
    }
  }

  method FindMatches(env: Env, ghost rank: Ranks, kind: Kind, local: AccessSpec, candidates: seq<TypeId>)
    returns (r: Result<seq<Found>>)
    requires Grounded(env, rank) && local.btf == env.local
    ensures r == MatchesOf(env, rank, kind, View(local), candidates)
  {
    hide TargetSpec, Compute;
    ghost var view := View(local);
    var matches: seq<Found> := [];
    for i := 0 to |candidates|
      invariant View(local) == view
      invariant MatchesOf(env, rank, kind, view, candidates[..i]) == Ok(matches)
    {
      assert candidates[..i + 1][..i] == candidates[..i];
      var spec := MatchTarget(env, rank, kind, local, candidates[i]);
      if spec.Err? {
        MatchesFail(env, rank, kind, view, candidates, i + 1);
        return Err(spec.error);
      }
      if spec.value.Some? {
        var values := Compute(env, kind, View(local), Some(View(spec.value.value)));
        if values.Err? {
          MatchesFail(env, rank, kind, view, candidates, i + 1);
          return Err(values.error);
        }
        matches := matches + [Found(spec.value.value.bitOffset, values.value)];
      }
    }
    assert candidates[..|candidates|] == candidates;
    r := Ok(matches);
  }

  lemma {:induction false} MatchesFail(env: Env, rank: Ranks, kind: Kind, local: Spec, candidates: seq<TypeId>,
                                       k: nat)
    requires Grounded(env, rank) && k <= |candidates| && MatchesOf(env, rank, kind, local, candidates[..k]).Err?
    ensures MatchesOf(env, rank, kind, local, candidates) == MatchesOf(env, rank, kind, local, candidates[..k])
    decreases |candidates|
  {
    hide TargetSpec, Compute, Grounded;
    if k == |candidates| {
      assert candidates[..k] == candidates;
    } else {
      var shorter := candidates[..|candidates| - 1];
      assert shorter[..k] == candidates[..k];
      MatchesFail(env, rank, kind, local, shorter, k);
    }
  }

  class CoreFunction {
    const sectionIndex: nat
    const sectionOffset: nat
    var instructions: seq<Insn>

    constructor (sectionIndex: nat, sectionOffset: nat, instructions: seq<Insn>)
      ensures this.sectionIndex == sectionIndex && this.sectionOffset == sectionOffset && this.instructions == instructions
    {
      this.sectionIndex, this.sectionOffset := sectionIndex, sectionOffset;
      this.instructions := instructions;
    }

    function AsShape(): Shape
      reads this
    {
      Shape(sectionIndex, sectionOffset, |instructions|)
    }
  }

  function Shapes(functions: seq<CoreFunction>): seq<Shape>
    reads functions
  {
    seq(|functions|, i requires 0 <= i < |functions| reads functions => functions[i].AsShape())
  }

  function Codes(functions: seq<CoreFunction>): seq<seq<Insn>>
    reads functions
  {
    seq(|functions|, i requires 0 <= i < |functions| reads functions => functions[i].instructions)
  }

  ghost predicate AllDifferent(functions: seq<CoreFunction>) {
    forall i, j :: 0 <= i < j < |functions| ==> functions[i] != functions[j]
  }

  lemma CodesFit(functions: seq<CoreFunction>)
    ensures Fits(Shapes(functions), Codes(functions))
  {
  }

  /** Relocates against one kernel; candidates found for a local type are kept. */
  class Relocator {
    const env: Env
    var candidatesCache: map<TypeId, seq<TypeId>>

    constructor (env: Env)
      ensures this.env == env && candidatesCache == map[]
    {
      this.env := env;
      candidatesCache := map[];
    }

    /** What is kept is what a fresh search would find. */
    ghost predicate Valid()
      reads this
    {
      forall id :: id in candidatesCache ==> Candidates(env, id) == Ok(candidatesCache[id])
    }

    method CandidatesFor(typeId: TypeId, ty: BtfType, name: Name) returns (r: Result<seq<TypeId>>)
      requires Valid()
      requires TypeById(env.local, typeId) == Ok(ty) && NameAt(env.local, ty.NameOffset()) == Ok(name)
      modifies this
      ensures Valid() && r == Candidates(env, typeId)
    {
      if typeId in candidatesCache {
        return Ok(candidatesCache[typeId]);
      }
      r := FindCandidates(ty, name, env.target);
      if r.Ok? {
        candidatesCache := candidatesCache[typeId := r.value];
      }
    }

    /** The values the relocation writes. */
    method Decide(ghost rank: Ranks, rel: Reloc) returns (r: Result<Values>)
      requires Valid() && Grounded(env, rank)
      modifies this
      ensures Valid() && r == Decision(env, rank, rel)
    {
      hide StringAt, LocalSpec, Candidates, MatchesOf, Compute, Grounded, Chosen;
      var ty := TypeById(env.local, rel.typeId);
      if ty.Err? {
        return Err(ty.error);
      }
      var name := NameAt(env.local, ty.value.NameOffset());
      if name.Err? {
        return Err(name.error);
      }
      var local := NewSpec(env.local, rel);
      if local.Err? {
        return Err(local.error);
      }
      var matches: seq<Found> := [];
      if !rel.kind.TypeIdLocal? {
        var candidates := CandidatesFor(rel.typeId, ty.value, name.value);
        if candidates.Err? {
          return Err(candidates.error);
        }
        var found := FindMatches(env, rank, rel.kind, local.value, candidates.value);
        if found.Err? {
          return Err(found.error);
        }
        matches := found.value;
      }
      if matches == [] {
        return Compute(env, rel.kind, View(local.value), None);
      }
      r := Chosen(matches);
    }

    /** Applies one relocation; `last` is the function of the one before. */
    method RelocateOne(section: nat, functions: seq<CoreFunction>, rel: Reloc, last: Option<CoreFunction>,
                       ghost rank: Ranks)
      returns (r: Result<CoreFunction>)
      requires Valid() && Grounded(env, rank)
      requires AllDifferent(functions) && Tidy(Shapes(functions)) && (last.Some? ==> last.value in functions)
      modifies this, set f | f in functions
      ensures Valid() && Shapes(functions) == old(Shapes(functions))
      ensures r.Ok? ==> r.value in functions
      ensures match SimpleStep(env, rank, section, old(Shapes(functions)), old(Codes(functions)), rel)
              case Err(e) => r == Err(e)
              case Ok(codes) => r.Ok? && Codes(functions) == codes
    {
      hide Decision, Applied, Grounded, Candidates, Tidy, Inside, Lookup;
      ghost var shapes, codes := Shapes(functions), Codes(functions);
      var holder := FunctionFor(section, functions, rel, last);
      if holder.None? {
        return Err(FunctionNotFound);
      }
      var f := holder.value;
      ghost var i := Lookup(section, shapes, rel, 0).value;
      IndexInRange(section, shapes, rel, i);
      var index := (rel.insOffset - f.sectionOffset) / INS_SIZE;
      var values := Decide(rank, rel);
      if values.Err? {
        return Err(values.error);
      }
      assert codes[i] == f.instructions;
      var patched := Applied(env, values.value, f.instructions, index);
      if patched.Err? {
        return Err(patched.error);
      }
      f.instructions := patched.value;
      assert Codes(functions) == codes[i := patched.value];
      assert Shapes(functions) == shapes;
      r := Ok(f);
    }

    /** Applies the relocations of a section, keeping the function of the last one at hand. */
    method RelocateFunctions(section: nat, functions: seq<CoreFunction>, rels: seq<Reloc>, ghost rank: Ranks)
      returns (r: Result<()>)
      requires Valid() && Grounded(env, rank)
      requires AllDifferent(functions) && Tidy(Shapes(functions))
      modifies this, set f | f in functions
      ensures Valid()
      ensures match Simple(env, rank, section, old(Shapes(functions)), old(Codes(functions)), rels)
              case Err(e) => r == Err(e)
              case Ok(codes) => r == Ok(()) && Codes(functions) == codes
    {
      hide SimpleStep, Grounded, Tidy, Shapes, Codes, Fits;
      ghost var shapes, codes := Shapes(functions), Codes(functions);
      CodesFit(functions);
      var lastFunction: Option<CoreFunction> := None;
      for n := 0 to |rels|
        invariant Valid() && Shapes(functions) == shapes
        invariant Simple(env, rank, section, shapes, codes, rels[..n]) == Ok(Codes(functions))
        invariant lastFunction.Some? ==> lastFunction.value in functions
      {
        assert rels[..n + 1][..n] == rels[..n];
        var step := RelocateOne(section, functions, rels[n], lastFunction, rank);
        if step.Err? {
          SimpleFails(env, rank, section, shapes, codes, rels, n + 1);
          return Err(step.error);
        }
        lastFunction := Some(step.value);
      }
      assert rels[..|rels|] == rels;
      r := Ok(());
    }

    /** The function the relocation is in: the last one, when it still is, or a fresh lookup. */
    method FunctionFor(section: nat, functions: seq<CoreFunction>, rel: Reloc, last: Option<CoreFunction>)
      returns (r: Option<CoreFunction>)
      requires Tidy(Shapes(functions)) && (last.Some? ==> last.value in functions)
      ensures match Lookup(section, Shapes(functions), rel, 0)
              case None => r.None?
              case Some(i) => r == Some(functions[i])
    {
      if last.Some? && Inside(section, last.value.AsShape(), rel) {
        ghost var i :| 0 <= i < |functions| && functions[i] == last.value;
        LookupUnique(section, Shapes(functions), rel, i);
        return last;
      }
      for i := 0 to |functions|
        invariant Lookup(section, Shapes(functions), rel, 0) == Lookup(section, Shapes(functions), rel, i)
      {
        if Inside(section, functions[i].AsShape(), rel) {
          return Some(functions[i]);
        }
      }
      r := None;
    }
  }

  lemma {:induction false} SimpleFails(env: Env, rank: Ranks, section: nat, shapes: seq<Shape>,
                                       codes: seq<seq<Insn>>,
                                       rels: seq<Reloc>, k: nat)
    requires Grounded(env, rank) && Fits(shapes, codes)
    requires k <= |rels| && Simple(env, rank, section, shapes, codes, rels[..k]).Err?
    ensures Simple(env, rank, section, shapes, codes, rels) == Simple(env, rank, section, shapes, codes, rels[..k])
    decreases |rels|
  {
    hide SimpleStep, Grounded;
    if k == |rels| {
      assert rels[..k] == rels;
    } else {
      var shorter := rels[..|rels| - 1];
      assert shorter[..k] == rels[..k];
      SimpleFails(env, rank, section, shapes, codes, shorter, k);
    }
  }
}
