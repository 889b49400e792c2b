/**
 Reading a field of the kernel: which load to use, and how far to shift the loaded value left and
 then right, so that exactly the field is left. The load window is the smallest aligned one, at
 least as wide as the declared type, that holds the whole field.
 */
module Bitfields {
  import opened Instructions
  import opened Powers
  import opened Btf
  import opened TypeSizes

  // ---------- the load window ----------

  /** Where an aligned load of `size` bytes that starts at or before the bit begins. */
  function WindowOffset(bitOff: nat, size: nat): nat
    requires size > 0
  {
    bitOff / 8 / size * size
  }

  /** The aligned window of `size` bytes holds all bits of the field. */
  predicate Fits(bitOff: nat, bitSize: nat, size: nat)
    requires size > 0
  {
    bitOff + bitSize <= (WindowOffset(bitOff, size) + size) * 8
  }

  /** The test of the search, in the 32-bit arithmetic of the source. */
  predicate FitsWrapped(bitOff: U32, bitSize: nat, size: U32)
    requires size > 0
  {
    WrapU32(WrapU32(bitOff + bitSize) - WindowOffset(bitOff, size) * 8) <= WrapU32(size * 8)
  }

  /**
   It says that the window holds the field, whatever the offset: the sum may overflow, and the
   difference undoes it, as long as the window and the field together have fewer than 2^32 bits.
   */
  lemma FitsUnwrapped(bitOff: U32, bitSize: nat, size: U32)
    requires 0 < size && size * 8 + bitSize < 0x1_0000_0000
    ensures FitsWrapped(bitOff, bitSize, size) <==> Fits(bitOff, bitSize, size)
  {
    hide WindowOffset;
    WindowBelow(bitOff, size);
    SmallWord(size * 8);
    WrapUndone(bitOff + bitSize, WindowOffset(bitOff, size) * 8);
  }

  lemma SmallWord(x: nat)
    ensures x < 0x1_0000_0000 ==> WrapU32(x) == x
  {
  }

  lemma WrapUndone(x: nat, y: nat)
    requires 0 <= x - y < 0x1_0000_0000
    ensures WrapU32(WrapU32(x) - y) == x - y
  {
  }

  /** The first size, doubling from `size` while below 8, whose window holds the field. */
  function WindowFrom(bitOff: U32, bitSize: nat, size: U32): (r: Option<U32>)
    requires size > 0
    ensures r.Some? ==> r.value >= size && FitsWrapped(bitOff, bitSize, r.value)
    decreases if size >= 8 then 0 else 8 - size
  {
    if FitsWrapped(bitOff, bitSize, size) then Some(size)
    else if size >= 8 then None
    else WindowFrom(bitOff, bitSize, size * 2)
  }

  lemma WindowBelow(bitOff: nat, size: nat)
    requires size > 0
    ensures WindowOffset(bitOff, size) * 8 <= bitOff < (WindowOffset(bitOff, size) + size) * 8
  {
  }

  /** Finds the load for a field of declared size `declared`; the byte offset and the byte size. */
  method LoadWindow(bitOff: U32, bitSize: nat, declared: U32) returns (r: Result<(U32, U32)>)
    ensures declared == 0 ==> r == Err(Panic)
    ensures declared > 0 ==>
      match WindowFrom(bitOff, bitSize, declared)
      case None => r == Err(InvalidTypeInfo)
      case Some(size) => r == Ok((WindowOffset(bitOff, size), size))
  {
    if declared == 0 {
      return Err(Panic);  // division by zero
    }
    var byteSize: U32 := declared;
    WindowBelow(bitOff, byteSize);
    var byteOff: U32 := bitOff / 8 / byteSize * byteSize;
    while WrapU32(WrapU32(bitOff + bitSize) - byteOff * 8) > WrapU32(byteSize * 8)
      invariant byteSize > 0 && byteOff == WindowOffset(bitOff, byteSize)
      invariant WindowFrom(bitOff, bitSize, declared) == WindowFrom(bitOff, bitSize, byteSize)
      decreases if byteSize >= 8 then 0 else 8 - byteSize
    {
      if byteSize >= 8 {
        return Err(InvalidTypeInfo);
      }
      byteSize := byteSize * 2;
      WindowBelow(bitOff, byteSize);
      byteOff := bitOff / 8 / byteSize * byteSize;
    }
    r := Ok((byteOff, byteSize));
  }

  /** A window that fits keeps fitting when its size doubles. */
  lemma FitsDoubled(bitOff: nat, bitSize: nat, size: nat)
    requires size > 0 && Fits(bitOff, bitSize, size)
    ensures Fits(bitOff, bitSize, size * 2)
  {
    DivDiv(bitOff / 8, size, 2);
    HalfWindows(bitOff / 8 / size, size);
  }

  lemma HalfWindows(windows: nat, size: nat)
    ensures windows * size <= windows / 2 * (size * 2) + size
  {
    var half := windows / 2;
    assert half * (size * 2) == 2 * (half * size);
    if windows % 2 == 0 {
      assert windows == 2 * half;
    } else {
      assert windows == 2 * half + 1;
    }
  }

  /**
   For a declared size of 1, 2, 4 or 8 the window is found exactly when the aligned 8-byte window
   holds the field, and no smaller size from the declared one up would have done.
   */
  lemma WindowIsLeast(bitOff: U32, bitSize: nat, declared: U32)
    requires declared in {1, 2, 4, 8} && 64 + bitSize < 0x1_0000_0000
    ensures WindowFrom(bitOff, bitSize, declared).Some? <==> Fits(bitOff, bitSize, 8)
    ensures WindowFrom(bitOff, bitSize, declared).Some? ==>
      var size := WindowFrom(bitOff, bitSize, declared).value;
      && size in {1, 2, 4, 8} && declared <= size && Fits(bitOff, bitSize, size)
      && forall s :: s in {1, 2, 4, 8} && declared <= s < size ==> !Fits(bitOff, bitSize, s)
    decreases 8 - declared
  {
    FitsUnwrapped(bitOff, bitSize, declared);
    if declared < 8 {
      WindowIsLeast(bitOff, bitSize, declared * 2);
      if Fits(bitOff, bitSize, declared) {
        FitsUpToEight(bitOff, bitSize, declared);
      }
    }
  }

  lemma FitsUpToEight(bitOff: nat, bitSize: nat, size: nat)
    requires size in {1, 2, 4, 8} && Fits(bitOff, bitSize, size)
    ensures Fits(bitOff, bitSize, 8)
    decreases 8 - size
  {
    if size < 8 {
      FitsDoubled(bitOff, bitSize, size);
      FitsUpToEight(bitOff, bitSize, size * 2);
    }
  }

  // ---------- memory ----------

  /** The bytes as one number, least significant byte first. */
  function Little(bytes: seq<Byte>): nat {
    if bytes == [] then 0 else bytes[0] + 0x100 * Little(bytes[1..])
  }

  /** The bytes as one number, most significant byte first. */
  function Big(bytes: seq<Byte>): nat {
    if bytes == [] then 0 else Big(bytes[..|bytes| - 1]) * 0x100 + bytes[|bytes| - 1]
  }

  /** The `bitSize` bits from bit `bitOff` on, counting from the least significant bit of byte 0. */
  function LittleField(mem: seq<Byte>, bitOff: nat, bitSize: nat): nat {
    Little(mem) / Pow2(bitOff) % Pow2(bitSize)
  }

  /** The `bitSize` bits from bit `bitOff` on, counting from the most significant bit of byte 0. */
  function BigField(mem: seq<Byte>, bitOff: nat, bitSize: nat): nat
    requires bitOff + bitSize <= 8 * |mem|
  {
    Big(mem) / Pow2(8 * |mem| - bitOff - bitSize) % Pow2(bitSize)
  }

  lemma Pow2Byte(k: nat)
    ensures Pow2(8 * k + 8) == 0x100 * Pow2(8 * k)
  {
    Pow2Sum(8, 8 * k);
    Pow2Values();
  }

  lemma PushByteLow(b: Byte, low: nat, p: nat, high: nat)
    requires low < p
    ensures b + 0x100 * (high * p + low) == high * (0x100 * p) + (b + 0x100 * low)
    ensures b + 0x100 * low < 0x100 * p
  {
  }

  lemma PushByteHigh(b: Byte, low: nat, p: nat, high: nat)
    requires low < p
    ensures (high * p + low) * 0x100 + b == high * (0x100 * p) + (low * 0x100 + b)
    ensures low * 0x100 + b < 0x100 * p
  {
  }

  lemma {:induction false} LittleSplit(bytes: seq<Byte>, k: nat)
    requires k <= |bytes|
    ensures Little(bytes) == Little(bytes[k..]) * Pow2(8 * k) + Little(bytes[..k])
    ensures Little(bytes[..k]) < Pow2(8 * k)
    decreases k
  {
    if k == 0 {
      assert bytes[0..] == bytes;
    } else {
      hide Pow2;
      var tail := bytes[1..];
      LittleSplit(tail, k - 1);
      assert bytes[..k][1..] == tail[..k - 1] && tail[k - 1..] == bytes[k..];
      Pow2Byte(k - 1);
      PushByteLow(bytes[0], Little(tail[..k - 1]), Pow2(8 * (k - 1)), Little(tail[k - 1..]));
    }
  }

  lemma {:induction false} BigSplit(bytes: seq<Byte>, k: nat)
    requires k <= |bytes|
    ensures Big(bytes) == Big(bytes[..|bytes| - k]) * Pow2(8 * k) + Big(bytes[|bytes| - k..])
    ensures Big(bytes[|bytes| - k..]) < Pow2(8 * k)
    decreases k
  {
    var n := |bytes|;
    if k == 0 {
      assert bytes[..n] == bytes;
    } else {
      hide Pow2;
      var init := bytes[..n - 1];
      BigSplit(init, k - 1);
      assert init[..n - k] == bytes[..n - k];
      assert bytes[n - k..][..k - 1] == init[n - k..];
      Pow2Byte(k - 1);
      PushByteHigh(bytes[n - 1], Big(init[n - k..]), Pow2(8 * (k - 1)), Big(init[..n - k]));
    }
  }

  /** A load reads the bits of its window. */
  lemma LittleLoad(mem: seq<Byte>, off: nat, size: nat)
    requires off + size <= |mem|
    ensures Little(mem[off..off + size]) == Little(mem) / Pow2(8 * off) % Pow2(8 * size)
    ensures Little(mem[off..off + size]) < Pow2(8 * size)
  {
    hide Pow2, Little;
    LittleSplit(mem, off);
    DivModUnique(Little(mem), Pow2(8 * off), Little(mem[off..]), Little(mem[..off]));
    LittleSplit(mem[off..], size);
    assert mem[off..][..size] == mem[off..off + size];
    DivModUnique(Little(mem[off..]), Pow2(8 * size), Little(mem[off..][size..]), Little(mem[off..off + size]));
  }

  lemma BigLoad(mem: seq<Byte>, off: nat, size: nat)
    requires off + size <= |mem|
    ensures Big(mem[off..off + size]) == Big(mem) / Pow2(8 * (|mem| - off - size)) % Pow2(8 * size)
    ensures Big(mem[off..off + size]) < Pow2(8 * size)
  {
    hide Pow2, Big;
    var k := |mem| - off - size;
    BigSplit(mem, k);
    assert mem[..|mem| - k] == mem[..off + size];
    DivModUnique(Big(mem), Pow2(8 * k), Big(mem[..off + size]), Big(mem[|mem| - k..]));
    BigSplit(mem[..off + size], size);
    assert mem[..off + size][off..] == mem[off..off + size];
    DivModUnique(Big(mem[..off + size]), Pow2(8 * size), Big(mem[..off + size][..off]), Big(mem[off..off + size]));
  }

  // ---------- the shifts ----------

  datatype Endian = LittleEndian | BigEndian

  /** The left shift the relocation computes, in the 64-bit and 32-bit arithmetic of the source. */
  function LeftShift(endian: Endian, bitOff: nat, bitSize: nat, off: nat, size: nat): U64 {
    match endian
    case LittleEndian => WrapU64(64 - WrapU32(bitOff + bitSize - off * 8))
    case BigEndian => WrapU64(WrapU32((8 - size) * 8 + (bitOff - off * 8)))
  }

  function RightShift(bitSize: nat): U64 {
    WrapU64(64 - bitSize)
  }

  /** What the program does with the two shifts: a 64-bit register loses what is shifted out. */
  function Extract(loaded: nat, left: nat, right: nat): nat {
    (loaded * Pow2(left)) % Pow2(64) / Pow2(right)
  }

  /** Neither subtraction underflows, and both shifts are proper 64-bit shift amounts. */
  lemma ShiftsInRange(endian: Endian, bitOff: nat, bitSize: nat, off: nat, size: nat)
    requires 0 < bitSize && size <= 8 && off * 8 <= bitOff && bitOff + bitSize <= (off + size) * 8
    ensures RightShift(bitSize) == 64 - bitSize < 64
    ensures LeftShift(LittleEndian, bitOff, bitSize, off, size) == 64 - (bitOff - off * 8) - bitSize < 64
    ensures LeftShift(BigEndian, bitOff, bitSize, off, size) == 64 - size * 8 + (bitOff - off * 8) < 64
  {
  }

  /** Shifting left by `left` and right by `left + low` keeps the `width` bits above the low `low` ones. */
  lemma ExtractBits(loaded: nat, left: nat, low: nat, width: nat)
    requires left + low + width == 64
    ensures Extract(loaded, left, left + low) == loaded / Pow2(low) % Pow2(width)
  {
    Pow2Sum(left, low + width);
    ScaleMod(loaded, Pow2(left), Pow2(low + width));
    Pow2Sum(left, low);
    var kept := loaded % Pow2(low + width);
    DivDiv(kept * Pow2(left), Pow2(left), Pow2(low));
    DivModUnique(kept * Pow2(left), Pow2(left), kept, 0);
    Pow2Sum(low, width);
    ModDiv(loaded, Pow2(low), Pow2(width));
  }

  /** Little-endian: loading the window and shifting gives exactly the field's bits. */
  lemma LittleExtraction(mem: seq<Byte>, bitOff: nat, bitSize: nat, off: nat, size: nat)
    requires 0 < bitSize && size <= 8 && off * 8 <= bitOff && bitOff + bitSize <= (off + size) * 8
    requires off + size <= |mem|
    ensures Extract(Little(mem[off..off + size]),
                    LeftShift(LittleEndian, bitOff, bitSize, off, size), RightShift(bitSize))
         == LittleField(mem, bitOff, bitSize)
  {
    ShiftsInRange(LittleEndian, bitOff, bitSize, off, size);
    var low := bitOff - off * 8;
    LittleLoad(mem, off, size);
    ExtractBits(Little(mem[off..off + size]), 64 - low - bitSize, low, bitSize);
    WindowBits(Little(mem), 8 * off, 8 * size, low, bitSize);
  }

  /** Big-endian: the same, with bits counted from the most significant end. */
  lemma BigExtraction(mem: seq<Byte>, bitOff: nat, bitSize: nat, off: nat, size: nat)
    requires 0 < bitSize && size <= 8 && off * 8 <= bitOff && bitOff + bitSize <= (off + size) * 8
    requires off + size <= |mem|
    ensures Extract(Big(mem[off..off + size]),
                    LeftShift(BigEndian, bitOff, bitSize, off, size), RightShift(bitSize))
         == BigField(mem, bitOff, bitSize)
  {
    ShiftsInRange(BigEndian, bitOff, bitSize, off, size);
    var low := (off + size) * 8 - bitOff - bitSize;
    BigLoad(mem, off, size);
    ExtractBits(Big(mem[off..off + size]), 64 - low - bitSize, low, bitSize);
    WindowBits(Big(mem), 8 * (|mem| - off - size), 8 * size, low, bitSize);
  }

  /** Bits taken out of a window are bits of the whole. */
  lemma WindowBits(whole: nat, at: nat, window: nat, low: nat, width: nat)
    requires low + width <= window
    ensures whole / Pow2(at) % Pow2(window) / Pow2(low) % Pow2(width) == whole / Pow2(at + low) % Pow2(width)
  {
    hide Pow2;
    var shifted := whole / Pow2(at);
    Pow2Sum(low, window - low);
    ModDiv(shifted, Pow2(low), Pow2(window - low));
    Pow2Sum(width, window - low - width);
    ModMod(shifted / Pow2(low), Pow2(width), Pow2(window - low - width));
    Pow2Sum(at, low);
    DivDiv(whole, Pow2(at), Pow2(low));
  }

  // ---------- the relocation values of a member ----------

  datatype FieldKind = FieldByteOffset | FieldByteSize | FieldSigned | FieldLShift64 | FieldRShift64

  datatype Computed = Computed(value: U64, size: U32, typeId: Option<TypeId>)

  // How to load a member: `byteSize` bytes at `byteOff`, of which `bitSize` bits are the member.
  datatype Plan = Plan(memberTypeId: TypeId, byteOff: nat, byteSize: nat, bitSize: nat, isBitfield: bool)

  function PlanOf(btf: Btf, holder: TypeId, index: nat, bitOff: U32): Result<Plan> {
    match TypeById(btf, holder)
    case Err(e) => Err(e)
    case Ok(ty) =>
      if !ty.HasMembers() then Err(InvalidRelocationKindForType)
      else if index >= |ty.members| then Err(Panic)
      else
        var m := ty.members[index];
        match Resolve(btf, m.btfType)
        case Err(e) => Err(e)
        case Ok(t) =>
          ResolvedType(btf, m.btfType, MAX_RESOLVE_DEPTH);
          var bitSize := ty.MemberBitFieldSize(m);
          if bitSize > 0 then
            match btf.types[t].Size()
            case None => Err(Panic)
            case Some(declared) =>
              if declared == 0 then Err(Panic)
              else
                match WindowFrom(bitOff, bitSize, declared)
                case None => Err(InvalidTypeInfo)
                case Some(size) => Ok(Plan(t, WindowOffset(bitOff, size), size, bitSize, true))
          else
            match TypeSize(btf, t)
            case Err(e) => Err(e)
            case Ok(size) => Ok(Plan(t, bitOff / 8, size, WrapU32(size * 8), false))
  }

  /** The 32-bit value for the sign of an integer type: bit 24 of its description, or an unknown encoding. */
  function SignedBit(ty: BtfType): U64 {
    match ty
    case Enum(_, signed, _, _) => if signed then 1 else 0
    case Enum64(_, signed, _, _) => if signed then 1 else 0
    case Int(_, _, data) => if data / 0x100_0000 % 0x10 in {0, 2, 4} then 0 else 1
    case _ => 0
  }

  function ValueOf(kind: FieldKind, endian: Endian, ty: BtfType, bitOff: U32, p: Plan): Computed {
    match kind
    case FieldByteOffset =>
      if p.isBitfield then Computed(WrapU32(p.byteOff), 0, None)
      else Computed(WrapU32(p.byteOff), WrapU32(p.byteSize), Some(p.memberTypeId))
    case FieldByteSize => Computed(WrapU32(p.byteSize), 0, None)
    case FieldSigned => Computed(SignedBit(ty), 0, None)
    case FieldLShift64 => Computed(LeftShift(endian, bitOff, p.bitSize, p.byteOff, p.byteSize), 0, None)
    case FieldRShift64 => Computed(RightShift(p.bitSize), 0, None)
  }

  /** The value of a field relocation whose spec ends at member `index` of type `holder`. */
  method ComputeFieldRelocation(
    kind: FieldKind, endian: Endian, btf: Btf, holder: TypeId, index: nat, specBitOffset: nat)
    returns (r: Result<Computed>)
    ensures
      match PlanOf(btf, holder, index, WrapU32(specBitOffset))
      case Err(e) => r == Err(e)
      case Ok(p) =>
        && p.memberTypeId < |btf.types|
        && r == Ok(ValueOf(kind, endian, btf.types[p.memberTypeId], WrapU32(specBitOffset), p))
  {
    if holder >= |btf.types| {
      return Err(UnknownBtfType);
    }
    var ty := btf.types[holder];
    if !ty.HasMembers() {
      return Err(InvalidRelocationKindForType);
    }
    if index >= |ty.members| {
      return Err(Panic);
    }
    var m := ty.members[index];
    var bitOff := WrapU32(specBitOffset);
    var resolved := ResolveType(btf, m.btfType);
    if resolved.Err? {
      return Err(resolved.error);
    }
    var memberTypeId: TypeId := resolved.value;
    var memberTy := btf.types[memberTypeId];
    var bitSize := ty.MemberBitFieldSize(m);
    var isBitfield := bitSize > 0;
    var byteSize: nat, byteOff: nat;
    if isBitfield {
      if memberTy.Size().None? {
        return Err(Panic);
      }
      var window := LoadWindow(bitOff, bitSize, memberTy.Size().value);
      if window.Err? {
        return Err(window.error);
      }
      byteOff, byteSize := window.value.0, window.value.1;
    } else {
      var size := TypeSize(btf, memberTypeId);
      if size.Err? {
        return Err(size.error);
      }
      byteSize := size.value;
      bitSize := WrapU32(byteSize * 8);
      byteOff := bitOff / 8;
    }
    r := Ok(ValueOf(kind, endian, memberTy, bitOff, Plan(memberTypeId, byteOff, byteSize, bitSize, isBitfield)));
  }

  // ---------- what the values say ----------

  /** The width of a member: a bitfield has its own, any other member eight bits for each byte of its type. */
  ghost predicate HasWidth(btf: Btf, holder: TypeId, index: nat, bits: nat) {
    && holder < |btf.types| && btf.types[holder].HasMembers() && index < |btf.types[holder].members|
    && var ty := btf.types[holder];
       var m := ty.members[index];
       if ty.kflag && m.offset >= 0x100_0000 then bits == m.offset / 0x100_0000
       else exists n: nat :: HasSize(btf, m.btfType, n) && bits == 8 * n
  }

  /** The bit offset and the width of a bitfield share a word, the width on top. */
  lemma MemberOffsetPacked(ty: BtfType, m: Member)
    requires ty.HasMembers()
    ensures !ty.kflag ==> ty.MemberBitOffset(m) == m.offset && ty.MemberBitFieldSize(m) == 0
    ensures ty.kflag ==>
      && m.offset == ty.MemberBitFieldSize(m) * 0x100_0000 + ty.MemberBitOffset(m)
      && ty.MemberBitOffset(m) < 0x100_0000
  {
  }

  /** The encoding flags of an integer: 1 for signed, 2 for a character, 4 for a boolean. */
  function Encoding(data: U32): nat {
    data / 0x100_0000 % 0x10
  }

  /**
   An enum is signed when it says so, an integer when its flag is set; the loader also takes an integer
   for signed whose other flags are a combination it does not know. No other type is signed.
   */
  lemma SignedExactly(ty: BtfType)
    ensures SignedBit(ty) == 0 || SignedBit(ty) == 1
    ensures SignedBit(ty) == 1 <==>
      || (ty.Enum? && ty.signed) || (ty.Enum64? && ty.signed)
      || (ty.Int? && (Encoding(ty.data) % 2 == 1 || Encoding(ty.data) == 6 || Encoding(ty.data) >= 8))
  {
  }

  /** A member that is no bitfield is loaded from its own byte, with the size of its type. */
  lemma PlainMember(btf: Btf, endian: Endian, holder: TypeId, index: nat, bitOff: U32)
    requires PlanOf(btf, holder, index, bitOff).Ok? && !PlanOf(btf, holder, index, bitOff).value.isBitfield
    ensures
      var p := PlanOf(btf, holder, index, bitOff).value;
      && p.memberTypeId < |btf.types|
      && var ty := btf.types[p.memberTypeId];
         var offset := ValueOf(FieldByteOffset, endian, ty, bitOff, p);
         && HasSize(btf, btf.types[holder].members[index].btfType, p.byteSize)
         && ValueOf(FieldByteSize, endian, ty, bitOff, p).value == p.byteSize
         && offset == Computed(bitOff / 8, p.byteSize, Some(p.memberTypeId))
         && (p.byteSize < 0x2000_0000 ==> HasWidth(btf, holder, index, p.bitSize))
  {
    hide SizeWithin, Takes, HasSize;
    var m := btf.types[holder].members[index];
    var p := PlanOf(btf, holder, index, bitOff).value;
    ResolvedType(btf, m.btfType, MAX_RESOLVE_DEPTH);
    TypeSizeExact(btf, p.memberTypeId, p.byteSize);
    ResolvedSize(btf, m.btfType, MAX_RESOLVE_DEPTH, p.byteSize);
  }

  lemma BitfieldWidth(btf: Btf, holder: TypeId, index: nat, bitOff: U32)
    requires PlanOf(btf, holder, index, bitOff).Ok? && PlanOf(btf, holder, index, bitOff).value.isBitfield
    ensures HasWidth(btf, holder, index, PlanOf(btf, holder, index, bitOff).value.bitSize)
  {
    hide ResolveWithin;
  }

  /**
   The four values of one field belong together: loading `FieldByteSize` bytes at
   `FieldByteOffset`, then shifting left and right by the other two, leaves exactly the field, on
   either byte order and with the width the declaration gives it; for bitfields of a 1, 2, 4 or 8-byte
   type and for plain members of these sizes.
   */
  lemma RelocatedFieldIsExact(btf: Btf, holder: TypeId, index: nat, bitOff: U32, mem: seq<Byte>)
    requires PlanOf(btf, holder, index, bitOff).Ok?
    requires var p := PlanOf(btf, holder, index, bitOff).value;
      && p.memberTypeId < |btf.types|
      && p.byteOff + p.byteSize <= |mem|
      && if p.isBitfield then btf.types[p.memberTypeId].Size() in {Some(1), Some(2), Some(4), Some(8)}
         else p.byteSize in {1, 2, 4, 8} && bitOff % 8 == 0
    ensures
      var p := PlanOf(btf, holder, index, bitOff).value;
      var ty := btf.types[p.memberTypeId];
      var off := ValueOf(FieldByteOffset, LittleEndian, ty, bitOff, p).value;
      var size := ValueOf(FieldByteSize, LittleEndian, ty, bitOff, p).value;
      var right := ValueOf(FieldRShift64, LittleEndian, ty, bitOff, p).value;
      && HasWidth(btf, holder, index, p.bitSize)
      && off + size <= |mem| && bitOff + p.bitSize <= 8 * |mem|
      && Extract(Little(mem[off..off + size]), ValueOf(FieldLShift64, LittleEndian, ty, bitOff, p).value, right)
         == LittleField(mem, bitOff, p.bitSize)
      && Extract(Big(mem[off..off + size]), ValueOf(FieldLShift64, BigEndian, ty, bitOff, p).value, right)
         == BigField(mem, bitOff, p.bitSize)
  {
    hide Extract, Little, Big, LittleField, BigField, LeftShift, RightShift, PlanOf, HasWidth, HasSize;
    var p := PlanOf(btf, holder, index, bitOff).value;
    PlanFits(btf, holder, index, bitOff);
    if p.isBitfield {
      BitfieldWidth(btf, holder, index, bitOff);
    } else {
      PlainMember(btf, LittleEndian, holder, index, bitOff);
    }
    LittleExtraction(mem, bitOff, p.bitSize, p.byteOff, p.byteSize);
    BigExtraction(mem, bitOff, p.bitSize, p.byteOff, p.byteSize);
  }

  lemma PlanFits(btf: Btf, holder: TypeId, index: nat, bitOff: U32)
    requires PlanOf(btf, holder, index, bitOff).Ok?
    requires var p := PlanOf(btf, holder, index, bitOff).value;
      && p.memberTypeId < |btf.types|
      && if p.isBitfield then btf.types[p.memberTypeId].Size() in {Some(1), Some(2), Some(4), Some(8)}
         else p.byteSize in {1, 2, 4, 8} && bitOff % 8 == 0
    ensures
      var p := PlanOf(btf, holder, index, bitOff).value;
      && 0 < p.bitSize < 0x100 && p.byteSize <= 8 && p.byteOff * 8 <= bitOff
      && bitOff + p.bitSize <= (p.byteOff + p.byteSize) * 8
  {
    hide SizeWithin, ResolveWithin, WindowFrom, WindowOffset;
    var p := PlanOf(btf, holder, index, bitOff).value;
    if p.isBitfield {
      var declared := btf.types[p.memberTypeId].Size().value;
      WindowIsLeast(bitOff, p.bitSize, declared);
      WindowBelow(bitOff, p.byteSize);
    }
  }
}
