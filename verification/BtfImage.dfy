/**
 The binary form of BTF: a 24-byte header, the encoded types, the strings. Each type is three
 32-bit words and a payload whose length depends on its kind (Linux kernel,
 Documentation/bpf/btf.rst, section 2.2). Words are little-endian.
 */
module BtfImage {
  import opened Instructions
  import opened Btf
  import opened Words

  // ---------- words ----------

  function WordsBytes(ws: seq<U32>): (r: seq<Byte>)
    ensures |r| == 4 * |ws|
  {
    if ws == [] then [] else WordBytes(ws[0]) + WordsBytes(ws[1..])
  }

  /** The first `n` words of the data. */
  function ReadWords(data: seq<Byte>, n: nat): (r: seq<U32>)
    requires 4 * n <= |data|
    ensures |r| == n
  {
    if n == 0 then [] else [WordAt(data)] + ReadWords(data[4..], n - 1)
  }

  lemma {:induction false} ReadBackWords(ws: seq<U32>, rest: seq<Byte>)
    ensures ReadWords(WordsBytes(ws) + rest, |ws|) == ws
  {
    if ws != [] {
      hide WordAt, WordBytes;
      ReadBackWords(ws[1..], rest);
      var data := WordsBytes(ws) + rest;
      assert data == WordBytes(ws[0]) + (WordsBytes(ws[1..]) + rest);
      assert data[4..] == WordsBytes(ws[1..]) + rest;
      WordBack(ws[0], WordsBytes(ws[1..]) + rest);
    }
  }

  lemma {:induction false} WordsBytesConcat(a: seq<U32>, b: seq<U32>)
    ensures WordsBytes(a + b) == WordsBytes(a) + WordsBytes(b)
  {
    hide WordBytes;
    if a == [] {
      assert a + b == b && WordsBytes(a) + WordsBytes(b) == WordsBytes(b);
    } else {
      WordsBytesConcat(a[1..], b);
      assert (a + b)[0] == a[0] && (a + b)[1..] == a[1..] + b;
      assert WordBytes(a[0]) + (WordsBytes(a[1..]) + WordsBytes(b)) == WordBytes(a[0]) + WordsBytes(a[1..]) + WordsBytes(b);
    }
  }

  // ---------- lists of records ----------

  function Pairs<T>(s: seq<T>, parts: T -> (U32, U32)): (r: seq<U32>)
    ensures |r| == 2 * |s|
  {
    if s == [] then [] else [parts(s[0]).0, parts(s[0]).1] + Pairs(s[1..], parts)
  }

  function FromPairs<T>(ws: seq<U32>, make: (U32, U32) -> T): seq<T> {
    if |ws| < 2 then [] else [make(ws[0], ws[1])] + FromPairs(ws[2..], make)
  }

  function Triples<T>(s: seq<T>, parts: T -> (U32, U32, U32)): (r: seq<U32>)
    ensures |r| == 3 * |s|
  {
    if s == [] then [] else [parts(s[0]).0, parts(s[0]).1, parts(s[0]).2] + Triples(s[1..], parts)
  }

  function FromTriples<T>(ws: seq<U32>, make: (U32, U32, U32) -> T): seq<T> {
    if |ws| < 3 then [] else [make(ws[0], ws[1], ws[2])] + FromTriples(ws[3..], make)
  }

  lemma {:induction false} PairsBack<T>(s: seq<T>, parts: T -> (U32, U32), make: (U32, U32) -> T)
    requires forall x :: x in s ==> make(parts(x).0, parts(x).1) == x
    ensures FromPairs(Pairs(s, parts), make) == s
  {
    if s != [] {
      PairsBack(s[1..], parts, make);
      assert Pairs(s, parts)[2..] == Pairs(s[1..], parts);
    }
  }

  lemma {:induction false} TriplesBack<T>(s: seq<T>, parts: T -> (U32, U32, U32), make: (U32, U32, U32) -> T)
    requires forall x :: x in s ==> make(parts(x).0, parts(x).1, parts(x).2) == x
    ensures FromTriples(Triples(s, parts), make) == s
  {
    if s != [] {
      TriplesBack(s[1..], parts, make);
      assert Triples(s, parts)[3..] == Triples(s[1..], parts);
    }
  }

  function MakeMember(a: U32, b: U32, c: U32): Member { Member(a, b, c) }
  function MakeEntry(a: U32, b: U32, c: U32): Entry { Entry(a, b, c) }
  function MakeVariant64(a: U32, b: U32, c: U32): Variant64 { Variant64(a, b, c) }
  function MakeVariant(a: U32, b: U32): Variant { Variant(a, b) }
  function MakeParam(a: U32, b: U32): Param { Param(a, b) }

  function MemberParts(m: Member): (U32, U32, U32) { (WrapU32(m.nameOffset), WrapU32(m.btfType), m.offset) }
  function EntryParts(e: Entry): (U32, U32, U32) { (WrapU32(e.btfType), e.offset, e.size) }
  function Variant64Parts(v: Variant64): (U32, U32, U32) { (WrapU32(v.nameOffset), v.valueLow, v.valueHigh) }
  function VariantParts(v: Variant): (U32, U32) { (WrapU32(v.nameOffset), v.value) }
  function ParamParts(p: Param): (U32, U32) { (WrapU32(p.nameOffset), WrapU32(p.btfType)) }

  // ---------- one type ----------

  /** The second word: kind, kind flag, and the list length or linkage. */
  function Info(kind: nat, flag: bool, vlen: nat): U32
    requires kind < 32
  {
    kind * 0x100_0000 + vlen % 0x1_0000 + (if flag then 0x8000_0000 else 0)
  }

  function TypeWords(t: BtfType): seq<U32> {
    match t
    case Unknown => []
    case Fwd(n, flag) => [WrapU32(n), Info(7, flag, 0), 0]
    case Const(n, b) => [WrapU32(n), Info(10, false, 0), WrapU32(b)]
    case Volatile(n, b) => [WrapU32(n), Info(9, false, 0), WrapU32(b)]
    case Restrict(n, b) => [WrapU32(n), Info(11, false, 0), WrapU32(b)]
    case Ptr(n, b) => [WrapU32(n), Info(2, false, 0), WrapU32(b)]
    case Typedef(n, b) => [WrapU32(n), Info(8, false, 0), WrapU32(b)]
    case TypeTag(n, b) => [WrapU32(n), Info(18, false, 0), WrapU32(b)]
    case Func(n, b, linkage) => [WrapU32(n), Info(12, false, linkage), WrapU32(b)]
    case Int(n, size, data) => [WrapU32(n), Info(1, false, 0), size, data]
    case Float(n, size) => [WrapU32(n), Info(16, false, 0), size]
    case Enum(n, signed, size, vs) => [WrapU32(n), Info(6, signed, |vs|), size] + Pairs(vs, VariantParts)
    case Array(n, e, i, len) => [WrapU32(n), Info(3, false, 0), 0, WrapU32(e), WrapU32(i), len]
    case Struct(n, flag, size, ms) => [WrapU32(n), Info(4, flag, |ms|), size] + Triples(ms, MemberParts)
    case Union(n, flag, size, ms, _) => [WrapU32(n), Info(5, flag, |ms|), size] + Triples(ms, MemberParts)
    case FuncProto(n, ret, ps) => [WrapU32(n), Info(13, false, |ps|), WrapU32(ret)] + Pairs(ps, ParamParts)
    case Var(n, b, linkage) => [WrapU32(n), Info(14, false, 0), WrapU32(b), linkage]
    case DataSec(n, size, es) => [WrapU32(n), Info(15, false, |es|), size] + Triples(es, EntryParts)
    case DeclTag(n, b, index) => [WrapU32(n), Info(17, false, 0), WrapU32(b), index]
    case Enum64(n, signed, size, vs) => [WrapU32(n), Info(19, signed, |vs|), size] + Triples(vs, Variant64Parts)
  }

  function TypeBytes(t: BtfType): seq<Byte> {
    WordsBytes(TypeWords(t))
  }

  /** The size the source accounts for a type, in bytes. */
  function EncodedSize(t: BtfType): nat {
    match t
    case Int(_, _, _) => 16
    case Var(_, _, _) => 16
    case DeclTag(_, _, _) => 16
    case Array(_, _, _, _) => 24
    case Enum(_, _, _, vs) => 12 + 8 * |vs|
    case FuncProto(_, _, ps) => 12 + 8 * |ps|
    case Struct(_, _, _, ms) => 12 + 12 * |ms|
    case Union(_, _, _, ms, _) => 12 + 12 * |ms|
    case DataSec(_, _, es) => 12 + 12 * |es|
    case Enum64(_, _, _, vs) => 12 + 12 * |vs|
    case _ => 12
  }

  /** The accounted size is the encoded length, except for `Unknown`, which encodes to nothing. */
  lemma EncodedSizeExact(t: BtfType)
    ensures |TypeBytes(t)| == EncodedSize(t) <==> !t.Unknown?
  {
  }

  /** How many payload words follow the first three. */
  function PayloadWords(kind: nat, vlen: nat): nat {
    match kind
    case 1 => 1
    case 3 => 3
    case 4 => 3 * vlen
    case 5 => 3 * vlen
    case 6 => 2 * vlen
    case 13 => 2 * vlen
    case 14 => 1
    case 15 => 3 * vlen
    case 17 => 1
    case 19 => 3 * vlen
    case _ => 0
  }

  function MakeType(kind: nat, flag: bool, vlen: nat, n: U32, w: U32, p: seq<U32>): Option<BtfType>
    requires vlen < 0x1_0000 && |p| == PayloadWords(kind, vlen)
  {
    match kind
    case 0 => Some(Unknown)
    case 1 => Some(Int(n, w, p[0]))
    case 2 => Some(Ptr(n, w))
    case 3 => Some(Array(n, p[0], p[1], p[2]))
    case 4 => Some(Struct(n, flag, w, FromTriples(p, MakeMember)))
    case 5 => Some(Union(n, flag, w, FromTriples(p, MakeMember), None))
    case 6 => Some(Enum(n, flag, w, FromPairs(p, MakeVariant)))
    case 7 => Some(Fwd(n, flag))
    case 8 => Some(Typedef(n, w))
    case 9 => Some(Volatile(n, w))
    case 10 => Some(Const(n, w))
    case 11 => Some(Restrict(n, w))
    case 12 => Some(Func(n, w, vlen))
    case 13 => Some(FuncProto(n, w, FromPairs(p, MakeParam)))
    case 14 => Some(Var(n, w, p[0]))
    case 15 => Some(DataSec(n, w, FromTriples(p, MakeEntry)))
    case 16 => Some(Float(n, w))
    case 17 => Some(DeclTag(n, w, p[0]))
    case 18 => Some(TypeTag(n, w))
    case 19 => Some(Enum64(n, flag, w, FromTriples(p, MakeVariant64)))
    case _ => None
  }

  /** Reads the type at the start of the data. */
  function ReadType(data: seq<Byte>): Result<BtfType> {
    if |data| < 12 then Err(InvalidTypeInfo)
    else
      var head := ReadWords(data, 3);
      var kind, vlen, flag := head[1] / 0x100_0000 % 0x20, head[1] % 0x1_0000, head[1] >= 0x8000_0000;
      var n := PayloadWords(kind, vlen);
      if 4 * n > |data| - 12 then Err(InvalidTypeInfo)
      else
        match MakeType(kind, flag, vlen, head[0], head[2], ReadWords(data[12..], n))
        case None => Err(InvalidTypeInfo)
        case Some(t) => Ok(t)
  }

  // ---------- what can be encoded ----------

  predicate Fits32(x: int) { 0 <= x < 0x1_0000_0000 }

  /** Offsets and ids fit their 32-bit fields, and lists their 16-bit length. */
  ghost predicate Encodable(t: BtfType) {
    match t
    case Unknown => false
    case Fwd(n, _) => Fits32(n)
    case Const(n, b) => Fits32(n) && Fits32(b)
    case Volatile(n, b) => Fits32(n) && Fits32(b)
    case Restrict(n, b) => Fits32(n) && Fits32(b)
    case Ptr(n, b) => Fits32(n) && Fits32(b)
    case Typedef(n, b) => Fits32(n) && Fits32(b)
    case TypeTag(n, b) => Fits32(n) && Fits32(b)
    case Func(n, b, linkage) => Fits32(n) && Fits32(b) && linkage < 0x1_0000
    case Int(n, _, _) => Fits32(n)
    case Float(n, _) => Fits32(n)
    case Enum(n, _, _, vs) => Fits32(n) && |vs| < 0x1_0000 && forall v :: v in vs ==> Fits32(v.nameOffset)
    case Array(n, e, i, _) => Fits32(n) && Fits32(e) && Fits32(i)
    case Struct(n, _, _, ms) =>
      Fits32(n) && |ms| < 0x1_0000 && forall m :: m in ms ==> Fits32(m.nameOffset) && Fits32(m.btfType)
    case Union(n, _, _, ms, _) =>
      Fits32(n) && |ms| < 0x1_0000 && forall m :: m in ms ==> Fits32(m.nameOffset) && Fits32(m.btfType)
    case FuncProto(n, ret, ps) =>
      Fits32(n) && Fits32(ret) && |ps| < 0x1_0000 && forall p :: p in ps ==> Fits32(p.nameOffset) && Fits32(p.btfType)
    case Var(n, b, _) => Fits32(n) && Fits32(b)
    case DataSec(n, _, es) => Fits32(n) && |es| < 0x1_0000 && forall e :: e in es ==> Fits32(e.btfType)
    case DeclTag(n, b, _) => Fits32(n) && Fits32(b)
    case Enum64(n, _, _, vs) => Fits32(n) && |vs| < 0x1_0000 && forall v :: v in vs ==> Fits32(v.nameOffset)
  }

  /** The encoding forgets what a union replaced. */
  function Plain(t: BtfType): BtfType {
    if t.Union? then t.(fallback := None) else t
  }

  lemma InfoBack(kind: nat, flag: bool, vlen: nat)
    requires kind < 32 && vlen < 0x1_0000
    ensures Info(kind, flag, vlen) / 0x100_0000 % 0x20 == kind
    ensures Info(kind, flag, vlen) % 0x1_0000 == vlen
    ensures Info(kind, flag, vlen) >= 0x8000_0000 <==> flag
  {
  }

  /** Three words and the right payload read back as what they make. */
  lemma ReadHead(n: U32, kind: nat, flag: bool, vlen: nat, w: U32, payload: seq<U32>, rest: seq<Byte>)
    requires kind < 32 && vlen < 0x1_0000 && |payload| == PayloadWords(kind, vlen)
    ensures ReadType(WordsBytes([n, Info(kind, flag, vlen), w] + payload) + rest)
         == match MakeType(kind, flag, vlen, n, w, payload)
            case None => Err(InvalidTypeInfo)
            case Some(t) => Ok(t)
  {
    hide MakeType, PayloadWords, Info, WordsBytes, ReadWords;
    var head := [n, Info(kind, flag, vlen), w];
    InfoBack(kind, flag, vlen);
    WordsBytesConcat(head, payload);
    var data := WordsBytes(head + payload) + rest;
    assert data == WordsBytes(head) + (WordsBytes(payload) + rest);
    ReadBackWords(head, WordsBytes(payload) + rest);
    ReadBackWords(payload, rest);
    assert data[12..] == WordsBytes(payload) + rest;
  }

  /** Reading back an encoded type gives the type, whatever follows it. */
  lemma ReadBackType(t: BtfType, rest: seq<Byte>)
    requires Encodable(t)
    ensures ReadType(TypeBytes(t) + rest) == Ok(Plain(t))
  {
    hide TypeBytes, ReadType;
    match t
    case Unknown =>
    case Enum(n, signed, size, vs) => ReadBackEnum(t, rest);
    case FuncProto(n, ret, ps) => ReadBackFuncProto(t, rest);
    case Struct(n, flag, size, ms) => ReadBackAggregate(t, rest);
    case Union(n, flag, size, ms, _) => ReadBackAggregate(t, rest);
    case DataSec(n, size, es) => ReadBackDataSec(t, rest);
    case Enum64(n, signed, size, vs) => ReadBackEnum64(t, rest);
    case Int(n, size, data) => ReadBackFixed(t, rest);
    case Array(n, e, i, len) => ReadBackFixed(t, rest);
    case Var(n, b, linkage) => ReadBackFixed(t, rest);
    case DeclTag(n, b, index) => ReadBackFixed(t, rest);
    case Fwd(n, flag) => ReadBackShort(t, rest);
    case Func(n, b, linkage) => ReadBackShort(t, rest);
    case Float(n, size) => ReadBackShort(t, rest);
    case Ptr(n, b) => ReadBackPointer(t, rest);
    case TypeTag(n, b) => ReadBackPointer(t, rest);
    case _ => ReadBackReference(t, rest);
  }

  lemma ReadBackShort(t: BtfType, rest: seq<Byte>)
    requires Encodable(t) && (t.Fwd? || t.Func? || t.Float?)
    ensures ReadType(TypeBytes(t) + rest) == Ok(Plain(t))
  {
    hide WordsBytes, ReadType, Info;
    match t
    case Fwd(n, flag) => ReadSimple(t, n, 7, flag, 0, 0, rest);
    case Func(n, b, linkage) => ReadSimple(t, n, 12, false, linkage, b, rest);
    case Float(n, size) => ReadSimple(t, n, 16, false, 0, size, rest);
  }

  lemma ReadBackPointer(t: BtfType, rest: seq<Byte>)
    requires Encodable(t) && (t.Ptr? || t.TypeTag?)
    ensures ReadType(TypeBytes(t) + rest) == Ok(Plain(t))
  {
    hide WordsBytes, ReadType, Info;
    match t
    case Ptr(n, b) => ReadSimple(t, n, 2, false, 0, b, rest);
    case TypeTag(n, b) => ReadSimple(t, n, 18, false, 0, b, rest);
  }

  lemma ReadBackReference(t: BtfType, rest: seq<Byte>)
    requires Encodable(t) && t.IsModifier() && !t.TypeTag?
    ensures ReadType(TypeBytes(t) + rest) == Ok(Plain(t))
  {
    hide WordsBytes, ReadType, Info;
    match t
    case Const(n, b) => ReadSimple(t, n, 10, false, 0, b, rest);
    case Volatile(n, b) => ReadSimple(t, n, 9, false, 0, b, rest);
    case Restrict(n, b) => ReadSimple(t, n, 11, false, 0, b, rest);
    case Typedef(n, b) => ReadSimple(t, n, 8, false, 0, b, rest);
  }

  lemma ReadBackFixed(t: BtfType, rest: seq<Byte>)
    requires Encodable(t) && (t.Int? || t.Array? || t.Var? || t.DeclTag?)
    ensures ReadType(TypeBytes(t) + rest) == Ok(Plain(t))
  {
    hide WordsBytes, ReadType, Info;
    match t
    case Int(n, size, data) => ReadLong(t, n, 1, false, 0, size, [data], rest);
    case Array(n, e, i, len) => ReadLong(t, n, 3, false, 0, 0, [e, i, len], rest);
    case Var(n, b, linkage) => ReadLong(t, n, 14, false, 0, b, [linkage], rest);
    case DeclTag(n, b, index) => ReadLong(t, n, 17, false, 0, b, [index], rest);
  }

  lemma ReadBackEnum(t: BtfType, rest: seq<Byte>)
    requires Encodable(t) && t.Enum?
    ensures ReadType(TypeBytes(t) + rest) == Ok(Plain(t))
  {
    hide WordsBytes, ReadType, Info;
    PairsBack(t.variants, VariantParts, MakeVariant);
    ReadLong(t, t.nameOffset, 6, t.signed, |t.variants|, t.size, Pairs(t.variants, VariantParts), rest);
  }

  lemma ReadBackFuncProto(t: BtfType, rest: seq<Byte>)
    requires Encodable(t) && t.FuncProto?
    ensures ReadType(TypeBytes(t) + rest) == Ok(Plain(t))
  {
    hide WordsBytes, ReadType, Info;
    PairsBack(t.params, ParamParts, MakeParam);
    ReadLong(t, t.nameOffset, 13, false, |t.params|, t.returnType, Pairs(t.params, ParamParts), rest);
  }

  lemma ReadBackAggregate(t: BtfType, rest: seq<Byte>)
    requires Encodable(t) && t.HasMembers()
    ensures ReadType(TypeBytes(t) + rest) == Ok(Plain(t))
  {
    hide WordsBytes, ReadType, Info, Triples;
    TriplesBack(t.members, MemberParts, MakeMember);
    if t.Struct? {
      ReadLong(t, t.nameOffset, 4, t.kflag, |t.members|, t.size, Triples(t.members, MemberParts), rest);
    } else {
      ReadLong(t, t.nameOffset, 5, t.kflag, |t.members|, t.size, Triples(t.members, MemberParts), rest);
    }
  }

  lemma ReadBackDataSec(t: BtfType, rest: seq<Byte>)
    requires Encodable(t) && t.DataSec?
    ensures ReadType(TypeBytes(t) + rest) == Ok(Plain(t))
  {
    hide WordsBytes, ReadType, Info;
    TriplesBack(t.entries, EntryParts, MakeEntry);
    ReadLong(t, t.nameOffset, 15, false, |t.entries|, t.size, Triples(t.entries, EntryParts), rest);
  }

  lemma ReadBackEnum64(t: BtfType, rest: seq<Byte>)
    requires Encodable(t) && t.Enum64?
    ensures ReadType(TypeBytes(t) + rest) == Ok(Plain(t))
  {
    hide WordsBytes, ReadType, Info;
    TriplesBack(t.variants64, Variant64Parts, MakeVariant64);
    ReadLong(t, t.nameOffset, 19, t.signed, |t.variants64|, t.size, Triples(t.variants64, Variant64Parts), rest);
  }

  lemma ReadSimple(t: BtfType, n: U32, kind: nat, flag: bool, vlen: nat, w: U32, rest: seq<Byte>)
    requires kind < 32 && vlen < 0x1_0000 && PayloadWords(kind, vlen) == 0
    requires TypeWords(t) == [n, Info(kind, flag, vlen), w]
    requires MakeType(kind, flag, vlen, n, w, []) == Some(Plain(t))
    ensures ReadType(TypeBytes(t) + rest) == Ok(Plain(t))
  {
    hide WordsBytes, ReadType, Info, MakeType, TypeWords;
    assert TypeWords(t) == [n, Info(kind, flag, vlen), w] + [];
    ReadHead(n, kind, flag, vlen, w, [], rest);
  }

  lemma ReadLong(t: BtfType, n: U32, kind: nat, flag: bool, vlen: nat, w: U32, payload: seq<U32>, rest: seq<Byte>)
    requires kind < 32 && vlen < 0x1_0000 && |payload| == PayloadWords(kind, vlen)
    requires TypeWords(t) == [n, Info(kind, flag, vlen), w] + payload
    requires MakeType(kind, flag, vlen, n, w, payload) == Some(Plain(t))
    ensures ReadType(TypeBytes(t) + rest) == Ok(Plain(t))
  {
    hide WordsBytes, ReadType, Info, MakeType, TypeWords;
    ReadHead(n, kind, flag, vlen, w, payload, rest);
  }

  // ---------- the type section ----------

  function SectionBytes(types: seq<BtfType>): seq<Byte> {
    if types == [] then [] else TypeBytes(types[0]) + SectionBytes(types[1..])
  }

  function SectionSize(types: seq<BtfType>): nat {
    if types == [] then 0 else SectionSize(types[..|types| - 1]) + EncodedSize(types[|types| - 1])
  }

  lemma {:induction false} SectionSizeFront(types: seq<BtfType>)
    requires types != []
    ensures SectionSize(types) == EncodedSize(types[0]) + SectionSize(types[1..])
  {
    if |types| > 1 {
      var init := types[..|types| - 1];
      SectionSizeFront(init);
      assert init[1..] == types[1..][..|types| - 2];
    }
  }

  lemma {:induction false} SectionLength(types: seq<BtfType>)
    requires forall t :: t in types ==> !t.Unknown?
    ensures |SectionBytes(types)| == SectionSize(types)
  {
    if types != [] {
      SectionLength(types[1..]);
      SectionSizeFront(types);
      EncodedSizeExact(types[0]);
    }
  }

  function Prepend(types: seq<BtfType>, r: Result<seq<BtfType>>): Result<seq<BtfType>> {
    match r
    case Err(e) => Err(e)
    case Ok(more) => Ok(types + more)
  }

  /** Reads types until the data is used up. */
  method ReadTypeInfo(data: seq<Byte>) returns (r: Result<seq<BtfType>>)
    ensures r == ReadSection(data)
  {
    hide ReadType, EncodedSize;
    var rest := data;
    var types: seq<BtfType> := [];
    assert ReadSection(data).Ok? ==> [] + ReadSection(data).value == ReadSection(data).value;
    while rest != []
      invariant ReadSection(data) == Prepend(types, ReadSection(rest))
      decreases |rest|
    {
      var ty := ReadType(rest);
      if ty.Err? {
        return Err(ty.error);
      }
      ReadTypeLength(rest);
      var next := rest[EncodedSize(ty.value)..];
      assert ReadSection(next).Ok? ==>
        types + ([ty.value] + ReadSection(next).value) == (types + [ty.value]) + ReadSection(next).value;
      rest, types := next, types + [ty.value];
    }
    assert types + [] == types;
    r := Ok(types);
  }

  /** A type that was read takes at least twelve bytes, all of them there. */
  lemma ReadTypeLength(data: seq<Byte>)
    ensures ReadType(data).Ok? ==> 12 <= EncodedSize(ReadType(data).value) <= |data|
  {
    if ReadType(data).Ok? {
      var head := ReadWords(data, 3);
      var p := ReadWords(data[12..], PayloadWords(head[1] / 0x100_0000 % 0x20, head[1] % 0x1_0000));
      hide ReadWords;
      FromPairsLength(p, MakeVariant);
      FromPairsLength(p, MakeParam);
      FromTriplesLength(p, MakeMember);
      FromTriplesLength(p, MakeEntry);
      FromTriplesLength(p, MakeVariant64);
    }
  }

  lemma {:induction false} FromPairsLength<T>(ws: seq<U32>, make: (U32, U32) -> T)
    ensures |FromPairs(ws, make)| == |ws| / 2
    decreases |ws|
  {
    if |ws| >= 2 { FromPairsLength(ws[2..], make); }
  }

  lemma {:induction false} FromTriplesLength<T>(ws: seq<U32>, make: (U32, U32, U32) -> T)
    ensures |FromTriples(ws, make)| == |ws| / 3
    decreases |ws|
  {
    if |ws| >= 3 { FromTriplesLength(ws[3..], make); }
  }

  function ReadSection(data: seq<Byte>): Result<seq<BtfType>>
    decreases |data|
  {
    if data == [] then Ok([])
    else
      match ReadType(data)
      case Err(e) => Err(e)
      case Ok(t) =>
        ReadTypeLength(data);
        match ReadSection(data[EncodedSize(t)..])
        case Err(e) => Err(e)
        case Ok(more) => Ok([t] + more)
  }

  function PlainTypes(types: seq<BtfType>): seq<BtfType> {
    seq(|types|, i requires 0 <= i < |types| => Plain(types[i]))
  }

  lemma EncodableKnown(t: BtfType)
    requires Encodable(t)
    ensures !t.Unknown?
  {
  }

  lemma PlainSize(t: BtfType)
    ensures EncodedSize(Plain(t)) == EncodedSize(t) >= 12
  {
  }

  lemma ReadBackFirst(t: BtfType, rest: seq<Byte>)
    requires Encodable(t)
    ensures
      var data := TypeBytes(t) + rest;
      && data != [] && ReadType(data) == Ok(Plain(t))
      && EncodedSize(Plain(t)) <= |data| && data[EncodedSize(Plain(t))..] == rest
  {
    hide TypeBytes, ReadType, EncodedSize, Encodable, Plain;
    EncodableKnown(t);
    ReadBackType(t, rest);
    EncodedSizeExact(t);
    PlainSize(t);
  }

  lemma {:induction false} ReadBackSection(types: seq<BtfType>)
    requires forall t :: t in types ==> Encodable(t)
    ensures ReadSection(SectionBytes(types)) == Ok(PlainTypes(types))
  {
    hide TypeBytes, ReadType, EncodedSize, Encodable, Plain;
    if types != [] {
      ReadBackFirst(types[0], SectionBytes(types[1..]));
      ReadBackSection(types[1..]);
      assert [Plain(types[0])] + PlainTypes(types[1..]) == PlainTypes(types);
    }
  }

  // ---------- the whole image ----------

  datatype Header = Header(hdrLen: nat, typeOff: nat, typeLen: nat, strOff: nat, strLen: nat)

  // Magic number, version 1, no flags.
  const MAGIC: U32 := 0x0001_eb9f

  function ToBytes(h: Header, types: seq<BtfType>, strings: seq<Byte>): seq<Byte>
    requires types != []
  {
    WordsBytes([MAGIC, WrapU32(h.hdrLen), WrapU32(h.typeOff), WrapU32(h.typeLen), WrapU32(h.strOff), WrapU32(h.strLen)])
    + SectionBytes(types[1..]) + strings
  }

  // A parsed image: its header, its types (the first is always `Unknown`) and its strings.
  datatype Image = Image(header: Header, types: seq<BtfType>, strings: seq<Byte>)

  function Parse(data: seq<Byte>): Result<Image> {
    if |data| < 24 then Err(InvalidTypeInfo)
    else
      var w := ReadWords(data, 6);
      var h := Header(w[1], w[2], w[3], w[4], w[5]);
      var base := h.hdrLen + h.typeOff;
      if h.hdrLen + h.strOff + h.strLen > |data| then Err(InvalidTypeInfo)
      else if base + h.typeLen > |data| then Err(InvalidTypeInfo)
      else
        match ReadSection(data[base..base + h.typeLen])
        case Err(e) => Err(e)
        case Ok(types) =>
          Ok(Image(h, [Unknown] + types, data[h.hdrLen + h.strOff..h.hdrLen + h.strOff + h.strLen]))
  }

  /** The header says where everything is: 24 bytes of header, then the types, then the strings. */
  ghost predicate Canonical(h: Header, types: seq<BtfType>, strings: seq<Byte>) {
    && types != [] && types[0] == Unknown
    && h.hdrLen == 24 && h.typeOff == 0
    && h.typeLen == SectionSize(types[1..])
    && h.strOff == h.typeLen
    && h.strLen == |strings|
  }

  /** Parsing what was written gives back the header, the types and the strings. */
  lemma ParseBack(h: Header, types: seq<BtfType>, strings: seq<Byte>)
    requires Canonical(h, types, strings)
    requires Fits32(h.strOff + h.strLen)
    requires forall t :: t in types[1..] ==> Encodable(t)
    ensures Parse(ToBytes(h, types, strings)) == Ok(Image(h, PlainTypes(types), strings))
  {
    hide SectionSize, SectionBytes, WordsBytes, ReadWords, ReadSection, Encodable;
    var words := [MAGIC, WrapU32(h.hdrLen), WrapU32(h.typeOff), WrapU32(h.typeLen), WrapU32(h.strOff), WrapU32(h.strLen)];
    var section := SectionBytes(types[1..]);
    var data := ToBytes(h, types, strings);
    assert data == WordsBytes(words) + (section + strings);
    ReadBackWords(words, section + strings);
    NoUnknown(types[1..]);
    SectionLength(types[1..]);
    assert data[24..24 + h.typeLen] == section;
    assert data[24 + h.strOff..24 + h.strOff + h.strLen] == strings;
    ReadBackSection(types[1..]);
    assert [Unknown] + PlainTypes(types[1..]) == PlainTypes(types);
  }

  lemma NoUnknown(types: seq<BtfType>)
    requires forall t :: t in types ==> Encodable(t)
    ensures forall t :: t in types ==> !t.Unknown?
  {
  }
}
