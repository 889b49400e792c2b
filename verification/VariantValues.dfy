/**
 What enum and type relocations write: the value of the variant with the same name, and the id, the
 existence or the size of a type.
 */
module VariantValues {
  import opened Instructions
  import opened Btf
  import opened TypeSizes
  import opened AccessSpecs
  import opened CoreRelocation
  import B = Bitfields

  // ---------- variants ----------

  // A variant of an enum: its name, and its value as a two's-complement number of 64 bits.
  datatype Constant = Constant(nameOffset: StringOffset, value: U64)

  /** The variants of an enum of 32 or 64 bits, or of a union that took the place of one. */
  function Constants(ty: BtfType): Option<seq<Constant>> {
    match ty
    case Enum(_, signed, _, vs) =>
      Some(seq(|vs|, i requires 0 <= i < |vs| =>
        Constant(vs[i].nameOffset, WrapU64(if signed then WrapI32(vs[i].value) else vs[i].value))))
    case Enum64(_, _, _, vs) =>
      Some(seq(|vs|, i requires 0 <= i < |vs| =>
        Constant(vs[i].nameOffset, WrapU64(vs[i].valueHigh * 0x1_0000_0000 + vs[i].valueLow))))
    case Union(_, _, _, _, Some(f)) =>
      Some(seq(|f.variants|, i requires 0 <= i < |f.variants| => Constant(f.variants[i].nameOffset, f.variants[i].value)))
    case _ => None
  }

  lemma SignExtended(value: U32)
    ensures WrapU64(WrapI32(value)) == if value >= 0x8000_0000 then value + 0xffff_ffff_0000_0000 else value
    ensures WrapU64(value) == value
  {
  }

  lemma BothHalves(low: U32, high: U32)
    ensures WrapU64(high * 0x1_0000_0000 + low) == high * 0x1_0000_0000 + low
  {
  }

  /** The names and the values the relocation works with are those of the variants. */
  lemma VariantsAreConstants(ty: BtfType, i: nat)
    ensures VariantNames(ty).Some? <==> Constants(ty).Some?
    ensures VariantNames(ty).Some? ==> |VariantNames(ty).value| == |Constants(ty).value|
    ensures VariantNames(ty).Some? && i < |VariantNames(ty).value| ==>
      VariantNames(ty).value[i] == Constants(ty).value[i].nameOffset
    ensures VariantValueOf(ty, i) ==
      if Constants(ty).Some? && i < |Constants(ty).value| then Ok(Constants(ty).value[i].value) else Err(Panic)
  {
    hide WrapI32, WrapU64;
    match ty
    case Enum(_, _, _, vs) =>
      if i < |vs| {
        SignExtended(vs[i].value);
      }
    case Enum64(_, _, _, vs) =>
      if i < |vs| {
        BothHalves(vs[i].valueLow, vs[i].valueHigh);
      }
    case _ =>
  }

  /** A variant's name, flavours aside, is the wanted one. */
  predicate Called(btf: Btf, c: Constant, name: Name) {
    NameAt(btf, c.nameOffset).Ok? && Flavorless(NameAt(btf, c.nameOffset).value) == Flavorless(name)
  }

  lemma {:induction false} FindsFirst(target: Btf, names: seq<StringOffset>, cs: seq<Constant>, name: Name, i: nat)
    requires i <= |names| == |cs| && forall j :: 0 <= j < |cs| ==> names[j] == cs[j].nameOffset
    ensures match FindVariant(target, names, name, i)
            case Err(_) => true
            case Ok(None) => forall j :: i <= j < |cs| ==> !Called(target, cs[j], name)
            case Ok(Some(k)) => i <= k < |cs| && Called(target, cs[k], name) && forall j :: i <= j < k ==> !Called(target, cs[j], name)
    decreases |names| - i
  {
    hide StringAt, Flavorless;
    if i < |names| {
      FindsFirst(target, names, cs, name, i + 1);
    }
  }

  /** The local variant: the one at the index of the access string, with its name. */
  lemma LocalVariant(local: Btf, rel: Reloc)
    requires !rel.kind.OfType() && !rel.kind.OfField() && LocalSpec(local, rel).Ok?
    ensures Resolve(local, rel.typeId).Ok? && rel.path.Some?
    ensures
      var t, index := Resolve(local, rel.typeId).value, rel.path.value.first;
      && t < |local.types| && Constants(local.types[t]).Some? && index < |Constants(local.types[t]).value|
      && var c := Constants(local.types[t]).value[index];
         && NameAt(local, c.nameOffset).Ok?
         && LocalSpec(local, rel) == Ok(Spec(rel.typeId, [Accessor(t, index, Some(NameAt(local, c.nameOffset).value))], 0))
  {
    hide StringAt, ResolveWithin;
    var t := Resolve(local, rel.typeId).value;
    ResolvedType(local, rel.typeId, MAX_RESOLVE_DEPTH);
    VariantsAreConstants(local.types[t], rel.path.value.first);
  }

  /**
   On a candidate the access means its first variant with the same name, flavours aside, and what is
   written is that variant's value.
   */
  lemma VariantRelocated(target: Btf, candidate: TypeId, local: Spec)
    requires VariantMatch(target, candidate, local).Ok?
    ensures Resolve(target, candidate).Ok?
    ensures
      var t := Resolve(target, candidate).value;
      && t < |target.types|
      && match VariantMatch(target, candidate, local).value
         case None =>
           Constants(target.types[t]).None?
           || (local.accessors != [] && local.accessors[0].name.Some?
               && forall c :: c in Constants(target.types[t]).value ==> !Called(target, c, local.accessors[0].name.value))
         case Some(spec) =>
           && Constants(target.types[t]).Some? && local.accessors != [] && local.accessors[0].name.Some?
           && var cs, name := Constants(target.types[t]).value, local.accessors[0].name.value;
              exists k ::
                && 0 <= k < |cs| && Called(target, cs[k], name) && (forall j :: 0 <= j < k ==> !Called(target, cs[j], name))
                && spec == Spec(candidate, [Accessor(t, k, None)], 0)
                && ComputeVariant(target, VariantValue, Some(spec)) == Ok(B.Computed(cs[k].value, 0, None))
  {
    hide StringAt, ResolveWithin, Flavorless, FindVariant, Called, Constants, VariantValueOf;
    var t := Resolve(target, candidate).value;
    ResolvedType(target, candidate, MAX_RESOLVE_DEPTH);
    var ty := target.types[t];
    NamesAreConstants(ty);
    if VariantNames(ty).Some? {
      var cs, name := Constants(ty).value, local.accessors[0].name.value;
      FindsFirst(target, VariantNames(ty).value, cs, name, 0);
      if FindVariant(target, VariantNames(ty).value, name, 0).value.Some? {
        VariantsAreConstants(ty, FindVariant(target, VariantNames(ty).value, name, 0).value.value);
      }
    }
  }

  lemma NamesAreConstants(ty: BtfType)
    ensures VariantNames(ty).Some? <==> Constants(ty).Some?
    ensures VariantNames(ty).Some? ==>
      && |VariantNames(ty).value| == |Constants(ty).value|
      && forall i :: 0 <= i < |Constants(ty).value| ==> VariantNames(ty).value[i] == Constants(ty).value[i].nameOffset
  {
  }

  /** Whether a variant exists is whether the candidate had one. */
  lemma VariantExistence(btf: Btf, spec: Option<Spec>)
    ensures ComputeVariant(btf, VariantExists, spec) == Ok(B.Computed(if spec.Some? then 1 else 0, 0, None))
    ensures ComputeVariant(btf, VariantValue, None) == Err(MissingTarget)
  {
  }

  // ---------- types ----------

  /**
   A type relocation writes the id of the program's type, or of the kernel's; whether there is one; or
   how many bytes it takes.
   */
  lemma TypeValues(target: Btf, kind: Kind, local: Spec, spec: Option<Spec>)
    requires kind.OfType()
    ensures
      match ComputeType(target, kind, local, spec)
      case Err(e) =>
        && (kind.TypeIdTarget? || kind.TypeSizeOf?)
        && if spec.None? then e == MissingTarget else kind.TypeSizeOf? && TypeSize(target, spec.value.rootTypeId) == Err(e)
      case Ok(c) =>
        && c.size == 0 && c.typeId.None?
        && (kind.TypeIdLocal? ==> c.value == WrapU64(local.rootTypeId))
        && (kind.TypeIdTarget? ==> spec.Some? && c.value == WrapU64(spec.value.rootTypeId))
        && (kind.TypeExists? ==> c.value == if spec.Some? then 1 else 0)
        && (kind.TypeSizeOf? ==> spec.Some? && HasSize(target, spec.value.rootTypeId, c.value))
  {
    hide SizeWithin, HasSize, Takes;
    if kind.TypeSizeOf? && spec.Some? && TypeSize(target, spec.value.rootTypeId).Ok? {
      TypeSizeExact(target, spec.value.rootTypeId, TypeSize(target, spec.value.rootTypeId).value);
    }
  }

  /** Whether a field exists is whether the candidate had it; any other value needs one that has. */
  lemma FieldExistence(btf: Btf, endian: B.Endian, field: B.FieldKind, spec: Option<Spec>)
    ensures ComputeField(btf, endian, FieldExists, spec) == Ok(B.Computed(if spec.Some? then 1 else 0, 0, None))
    ensures ComputeField(btf, endian, Field(field), None) == Err(MissingTarget)
  {
  }
}
