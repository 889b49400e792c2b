/**
 Where an access leads, in terms of the declarations: every part of an access path moves the bit
 offset by what the types say, on the program's side and on the kernel's, and the values computed from
 the finished path read exactly the field at its end.
 */
module AccessOffsets {
  import opened Instructions
  import opened Btf
  import opened TypeSizes
  import opened MemberSearch
  import opened AccessSpecs
  import opened CoreRelocation
  import B = Bitfields

  // ---------- parts of a path ----------

  /** An index is within an array, or the array is the open end of a struct. */
  predicate MayIndex(btf: Btf, len: U32, parent: Accessor, index: nat) {
    index < len || (len == 0 && EndsStruct(btf, parent))
  }

  predicate EndsStruct(btf: Btf, a: Accessor) {
    && a.typeId < |btf.types| && btf.types[a.typeId].Struct?
    && a.index == |btf.types[a.typeId].members| - 1
  }

  lemma ComputedSize(btf: Btf, id: TypeId, of: TypeId) returns (n: nat)
    requires Resolve(btf, of) == Ok(id) && TypeSize(btf, id).Ok?
    ensures HasSize(btf, of, n) && TypeSize(btf, id) == Ok(n)
  {
    hide SizeWithin, ResolveWithin, Takes;
    n := TypeSize(btf, id).value;
    TypeSizeExact(btf, id, n);
    ResolvedSize(btf, of, MAX_RESOLVE_DEPTH, n);
  }

  /** The first part steps over that many values of the root type; the source counts them in bytes here. */
  lemma RootMoves(btf: Btf, root: TypeId, index: nat) returns (n: nat)
    requires WalkAll(btf, root, [index]).Ok?
    ensures HasSize(btf, root, n)
    ensures
      var w := WalkAll(btf, root, [index]).value;
      Resolve(btf, root) == Ok(w.typeId) && w.bitOffset == index * n && w.Accessors() == [Accessor(w.typeId, index, None)]
  {
    hide SizeWithin, ResolveWithin, Takes;
    n := ComputedSize(btf, Resolve(btf, root).value, root);
  }

  /** A part that names a member moves by the member's offset, to its type. */
  lemma MemberMoves(btf: Btf, w: Walk, index: nat)
    requires Resolve(btf, w.typeId).Ok? && var t := Resolve(btf, w.typeId).value; t < |btf.types| && btf.types[t].HasMembers()
    requires WalkStep(btf, w, index).Ok?
    ensures
      var t, w' := Resolve(btf, w.typeId).value, WalkStep(btf, w, index).value;
      var ty := btf.types[t];
      && index < |ty.members| && w'.typeId == ty.members[index].btfType
      && w'.bitOffset == w.bitOffset + ty.MemberBitOffset(ty.members[index])
      && if ty.members[index].nameOffset == 0 then w'.Accessors() == w.Accessors()
         else NameAt(btf, ty.members[index].nameOffset).Ok?
              && w'.Accessors() == w.Accessors() + [Accessor(t, index, Some(NameAt(btf, ty.members[index].nameOffset).value))]
  {
    hide SizeWithin, ResolveWithin, StringAt;
  }

  /** A part that indexes an array moves by that many elements. */
  lemma ElementMoves(btf: Btf, w: Walk, index: nat) returns (n: nat)
    requires Resolve(btf, w.typeId).Ok? && var t := Resolve(btf, w.typeId).value; t < |btf.types| && btf.types[t].Array?
    requires WalkStep(btf, w, index).Ok?
    ensures
      var ty, w' := btf.types[Resolve(btf, w.typeId).value], WalkStep(btf, w, index).value;
      && HasSize(btf, ty.elementType, n) && MayIndex(btf, ty.len, w.last, index)
      && Resolve(btf, ty.elementType) == Ok(w'.typeId) && w'.bitOffset == w.bitOffset + 8 * (index * n)
      && w'.Accessors() == w.Accessors() + [Accessor(w'.typeId, index, None)]
  {
    hide SizeWithin, ResolveWithin, Takes;
    var ty := btf.types[Resolve(btf, w.typeId).value];
    n := ComputedSize(btf, Resolve(btf, ty.elementType).value, ty.elementType);
    Eightfold(index, n);
  }

  lemma Eightfold(index: nat, n: nat)
    ensures index * n * 8 == 8 * (index * n)
  {
  }

  /** A step fails only where a type or a name cannot be read, or the index is not one. */
  lemma StepExact(btf: Btf, w: Walk, index: nat)
    requires Resolve(btf, w.typeId).Ok? && Resolve(btf, w.typeId).value < |btf.types| && w.last.typeId < |btf.types|
    ensures
      var ty := btf.types[Resolve(btf, w.typeId).value];
      WalkStep(btf, w, index).Ok? <==>
        if ty.HasMembers() then
          index < |ty.members| && (ty.members[index].nameOffset == 0 || NameAt(btf, ty.members[index].nameOffset).Ok?)
        else
          && ty.Array? && Resolve(btf, ty.elementType).Ok? && TypeSize(btf, Resolve(btf, ty.elementType).value).Ok?
          && MayIndex(btf, ty.len, w.last, index)
  {
    hide SizeWithin, ResolveWithin, StringAt;
  }

  // ---------- the same on a candidate ----------

  /** Matching an index moves by that many values of the candidate, or of the elements of its array. */
  lemma IndexMatchMoves(local: Btf, target: Btf, rank: nat -> nat, m: Match, a: Accessor) returns (n: nat)
    requires Contained(target, rank) && a.name.None?
    requires MatchStep(local, target, rank, m, a).Ok? && MatchStep(local, target, rank, m, a).value.Some?
    ensures
      var t, m' := Resolve(target, m.targetId).value, MatchStep(local, target, rank, m, a).value.value;
      && Resolve(target, m.targetId).Ok? && t < |target.types|
      && m'.bitOffset == m.bitOffset + 8 * (a.index * n)
      && m'.parts == m.parts + [a.index] && m'.accessors == m.accessors + [Accessor(m'.targetId, a.index, None)]
      && if m.accessors == [] then HasSize(target, m.targetId, n) && m'.targetId == t
         else target.types[t].Array? && HasSize(target, target.types[t].elementType, n)
              && Resolve(target, target.types[t].elementType) == Ok(m'.targetId)
              && MayIndex(target, target.types[t].len, m.accessors[|m.accessors| - 1], a.index)
  {
    hide SizeWithin, ResolveWithin, Takes;
    var t := Resolve(target, m.targetId).value;
    ResolvedType(target, m.targetId, MAX_RESOLVE_DEPTH);
    if m.accessors == [] {
      n := ComputedSize(target, t, m.targetId);
    } else {
      var element := target.types[t].elementType;
      n := ComputedSize(target, Resolve(target, element).value, element);
    }
    Eightfold(a.index, n);
  }

  /** A candidate without such an array, or with a shorter one, does not match. */
  lemma NoSuchElement(local: Btf, target: Btf, rank: nat -> nat, m: Match, a: Accessor)
    requires Contained(target, rank) && a.name.None? && m.accessors != []
    requires m.accessors[|m.accessors| - 1].typeId < |target.types|
    requires Resolve(target, m.targetId).Ok? && Resolve(target, m.targetId).value < |target.types|
    ensures
      var ty := target.types[Resolve(target, m.targetId).value];
      MatchStep(local, target, rank, m, a) == Ok(None) <==>
        !(ty.Array? && MayIndex(target, ty.len, m.accessors[|m.accessors| - 1], a.index))
  {
    hide SizeWithin, ResolveWithin;
  }

  /** Matching a name moves by what the search found. */
  lemma NameMatchMoves(local: Btf, target: Btf, rank: nat -> nat, m: Match, a: Accessor)
    requires Contained(target, rank) && a.name.Some?
    requires MatchStep(local, target, rank, m, a).Ok? && MatchStep(local, target, rank, m, a).value.Some?
    ensures Resolve(target, m.targetId).Ok? && WantedBy(local, a).Ok?
    ensures
      var found := SearchType(WantedBy(local, a).value, target, rank, Resolve(target, m.targetId).value,
                              |m.parts| == MAX_SPEC_LEN);
      && found.Ok? && found.value.Some?
      && var m' := MatchStep(local, target, rank, m, a).value.value;
         && m'.bitOffset == m.bitOffset + found.value.value.bitOffset && m'.targetId == found.value.value.next
         && |m'.parts| == |m.parts| + |found.value.value.path|
  {
    hide SearchType, ResolveWithin, WantedBy, Reversed;
    var found := SearchType(WantedBy(local, a).value, target, rank, Resolve(target, m.targetId).value,
                            |m.parts| == MAX_SPEC_LEN);
    ReversedLength(found.value.value.path);
  }

  // ---------- the values at the end of a path ----------

  function ValueAt(btf: Btf, endian: B.Endian, field: B.FieldKind, spec: Spec): Result<B.Computed> {
    ComputeField(btf, endian, Field(field), Some(spec))
  }

  function LastOf(spec: Spec): Accessor
    requires spec.accessors != []
  {
    spec.accessors[|spec.accessors| - 1]
  }

  /** An access that ends at an array element has a byte offset and the size of the element, and nothing else. */
  lemma ElementValues(btf: Btf, endian: B.Endian, field: B.FieldKind, spec: Spec)
    requires spec.accessors != [] && LastOf(spec).name.None?
    ensures ValueAt(btf, endian, field, spec).Ok? ==>
      var value, id := ValueAt(btf, endian, field, spec).value, LastOf(spec).typeId;
      && (field.FieldByteOffset? || field.FieldByteSize?)
      && value.typeId == Some(id)
      && if field.FieldByteOffset? then value.value == spec.bitOffset / 8 && HasSize(btf, id, value.size)
         else HasSize(btf, id, value.value)
  {
    hide SizeWithin, Takes, HasSize;
    var id := LastOf(spec).typeId;
    if TypeSize(btf, id).Ok? {
      TypeSizeExact(btf, id, TypeSize(btf, id).value);
    }
  }

  /** The member an access ends at. */
  predicate AtMember(btf: Btf, spec: Spec) {
    && spec.accessors != [] && LastOf(spec).name.Some?
    && LastOf(spec).typeId < |btf.types| && btf.types[LastOf(spec).typeId].HasMembers()
    && LastOf(spec).index < |btf.types[LastOf(spec).typeId].members|
  }

  /**
   What the loads and shifts work for: a bitfield of a 1, 2, 4 or 8-byte type, or a member of one of
   these sizes that starts at a byte.
   */
  ghost predicate Loadable(btf: Btf, spec: Spec)
    requires AtMember(btf, spec)
  {
    var ty := btf.types[LastOf(spec).typeId];
    var m := ty.members[LastOf(spec).index];
    if ty.kflag && m.offset >= 0x100_0000
    then Resolve(btf, m.btfType).Ok? && exists n :: n in {1, 2, 4, 8} && HasSize(btf, Resolve(btf, m.btfType).value, n)
    else spec.bitOffset % 8 == 0 && exists n :: n in {1, 2, 4, 8} && HasSize(btf, m.btfType, n)
  }

  lemma PlanLoads(btf: Btf, spec: Spec)
    requires AtMember(btf, spec) && Loadable(btf, spec)
    requires B.PlanOf(btf, LastOf(spec).typeId, LastOf(spec).index, WrapU32(spec.bitOffset)).Ok?
    ensures
      var p := B.PlanOf(btf, LastOf(spec).typeId, LastOf(spec).index, WrapU32(spec.bitOffset)).value;
      && p.memberTypeId < |btf.types|
      && if p.isBitfield then btf.types[p.memberTypeId].Size() in {Some(1), Some(2), Some(4), Some(8)}
         else p.byteSize in {1, 2, 4, 8} && WrapU32(spec.bitOffset) % 8 == 0
  {
    hide SizeWithin, Takes, HasSize, B.WindowFrom, B.WindowOffset, ResolveWithin;
    var ty := btf.types[LastOf(spec).typeId];
    var m := ty.members[LastOf(spec).index];
    var p := B.PlanOf(btf, LastOf(spec).typeId, LastOf(spec).index, WrapU32(spec.bitOffset)).value;
    ResolvedType(btf, m.btfType, MAX_RESOLVE_DEPTH);
    if p.isBitfield {
      var n :| n in {1, 2, 4, 8} && HasSize(btf, p.memberTypeId, n);
      StatedSize(btf, p.memberTypeId, n);
    } else {
      var n :| n in {1, 2, 4, 8} && HasSize(btf, m.btfType, n);
      B.PlainMember(btf, B.LittleEndian, LastOf(spec).typeId, LastOf(spec).index, WrapU32(spec.bitOffset));
      SizeIsUnique(btf, m.btfType, n, p.byteSize);
    }
  }

  lemma StatedSize(btf: Btf, id: TypeId, n: nat)
    requires id < |btf.types| && HasSize(btf, id, n) && btf.types[id].Size().Some?
    ensures btf.types[id].Size() == Some(n)
  {
  }

  /**
   The four values of an access that ends at a member, applied to memory, read the field at the bit
   offset of the access with the width of that member; on both byte orders, and modulo 2^32 bits.
   */
  lemma AccessReadsField(btf: Btf, spec: Spec, mem: seq<Byte>) returns (width: nat)
    requires AtMember(btf, spec) && Loadable(btf, spec)
    requires ValueAt(btf, B.LittleEndian, B.FieldByteOffset, spec).Ok? && ValueAt(btf, B.LittleEndian, B.FieldByteSize, spec).Ok?
    requires ValueAt(btf, B.LittleEndian, B.FieldByteOffset, spec).value.value
           + ValueAt(btf, B.LittleEndian, B.FieldByteSize, spec).value.value <= |mem|
    ensures B.HasWidth(btf, LastOf(spec).typeId, LastOf(spec).index, width)
    ensures
      var off := ValueAt(btf, B.LittleEndian, B.FieldByteOffset, spec).value.value;
      var size := ValueAt(btf, B.LittleEndian, B.FieldByteSize, spec).value.value;
      var left := ValueAt(btf, B.LittleEndian, B.FieldLShift64, spec);
      var leftBig := ValueAt(btf, B.BigEndian, B.FieldLShift64, spec);
      var right := ValueAt(btf, B.LittleEndian, B.FieldRShift64, spec);
      && left.Ok? && leftBig.Ok? && right.Ok? && WrapU32(spec.bitOffset) + width <= 8 * |mem|
      && B.Extract(B.Little(mem[off..off + size]), left.value.value, right.value.value)
         == B.LittleField(mem, WrapU32(spec.bitOffset), width)
      && B.Extract(B.Big(mem[off..off + size]), leftBig.value.value, right.value.value)
         == B.BigField(mem, WrapU32(spec.bitOffset), width)
  {
    hide B.Extract, B.Little, B.Big, B.LittleField, B.BigField, B.LeftShift, B.RightShift, B.PlanOf, B.HasWidth, HasSize;
    var bitOff := WrapU32(spec.bitOffset);
    var p := B.PlanOf(btf, LastOf(spec).typeId, LastOf(spec).index, bitOff).value;
    width := p.bitSize;
    PlanLoads(btf, spec);
    B.PlanFits(btf, LastOf(spec).typeId, LastOf(spec).index, bitOff);
    B.RelocatedFieldIsExact(btf, LastOf(spec).typeId, LastOf(spec).index, bitOff, mem);
  }
}
