/**
 Log records between eBPF programs and user space: how a record is laid out, and the code that the
 logging macros generate to write one into the ring buffer.

 A record is its own size, six header fields in a fixed order, and the arguments; each field is a
 kind, a length and that many bytes. Multi-byte numbers are little-endian here; both sides use the
 byte order of the machine they share.
 */
module LogRecord {
  import opened Instructions
  import opened Words

  datatype Level = Error | Warn | Info | Debug | Trace

  datatype Hint = Default | LowerHex | UpperHex | Ip | LowerMac | UpperMac | Pointer

  datatype ArgumentKind =
    | KDisplayHint
    | KI8 | KI16 | KI32 | KI64 | KIsize
    | KU8 | KU16 | KU32 | KU64 | KUsize
    | KF32 | KF64
    | KIpv4Addr | KIpv6Addr
    | KArrU8Len4 | KArrU8Len6 | KArrU8Len16 | KArrU16Len8
    | KBytes | KStr | KPointer

  function LevelCode(level: Level): Byte {
    match level case Error => 1 case Warn => 2 case Info => 3 case Debug => 4 case Trace => 5
  }

  function HintCode(hint: Hint): Byte {
    match hint
    case Default => 1 case LowerHex => 2 case UpperHex => 3 case Ip => 4
    case LowerMac => 5 case UpperMac => 6 case Pointer => 7
  }

  function KindCode(kind: ArgumentKind): Byte {
    match kind
    case KDisplayHint => 0
    case KI8 => 1 case KI16 => 2 case KI32 => 3 case KI64 => 4 case KIsize => 5
    case KU8 => 6 case KU16 => 7 case KU32 => 8 case KU64 => 9 case KUsize => 10
    case KF32 => 11 case KF64 => 12
    case KIpv4Addr => 13 case KIpv6Addr => 14
    case KArrU8Len4 => 15 case KArrU8Len6 => 16 case KArrU8Len16 => 17 case KArrU16Len8 => 18
    case KBytes => 19 case KStr => 20 case KPointer => 21
  }

  // Kinds of header fields, in the order they are written.
  const TARGET: Byte := 0
  const LEVEL: Byte := 1
  const MODULE: Byte := 2
  const FILE: Byte := 3
  const LINE: Byte := 4
  const NUM_ARGS: Byte := 5

  // ---------- layout ----------

  function U16Bytes(x: U16): seq<Byte> {
    [x % 0x100, x / 0x100]
  }

  // A field can hold at most 65535 bytes; longer values make the record impossible.
  datatype Field = Field(kind: Byte, value: seq<Byte>)
  {
    predicate Fits() { |value| < 0x1_0000 }

    function Slices(): (r: seq<seq<Byte>>)
      requires Fits()
      ensures |r| == 3
    {
      [[kind], U16Bytes(|value|), value]
    }

    function Bytes(): seq<Byte>
      requires Fits()
    {
      [kind] + U16Bytes(|value|) + value
    }
  }

  datatype Header = Header(target: seq<Byte>, level: Level, moduleName: seq<Byte>, file: seq<Byte>, line: U32)

  datatype Argument = Argument(kind: ArgumentKind, value: seq<Byte>)

  function HeaderFields(h: Header, numArgs: U32): seq<Field> {
    [Field(TARGET, h.target), Field(LEVEL, [LevelCode(h.level)]), Field(MODULE, h.moduleName), Field(FILE, h.file),
     Field(LINE, WordBytes(h.line)), Field(NUM_ARGS, WordBytes(numArgs))]
  }

  function ArgFields(args: seq<Argument>): (r: seq<Field>)
    ensures |r| == |args|
  {
    seq(|args|, i requires 0 <= i < |args| => Field(KindCode(args[i].kind), args[i].value))
  }

  function Fields(h: Header, args: seq<Argument>): seq<Field>
    requires |args| < 0x1_0000_0000
  {
    HeaderFields(h, |args|) + ArgFields(args)
  }

  ghost predicate AllFit(fields: seq<Field>) {
    forall f :: f in fields ==> f.Fits()
  }

  function FieldsBytes(fields: seq<Field>): seq<Byte>
    requires forall f :: f in fields ==> f.Fits()
  {
    if fields == [] then [] else FieldsBytes(fields[..|fields| - 1]) + fields[|fields| - 1].Bytes()
  }

  /** A whole record, without padding. */
  ghost function RecordBytes(fields: seq<Field>): seq<Byte>
    requires AllFit(fields) && 2 + |FieldsBytes(fields)| < 0x1_0000
  {
    U16Bytes(2 + |FieldsBytes(fields)|) + FieldsBytes(fields)
  }

  const MAX_CAPACITY: nat := 8192
  const MIN_CAPACITY: nat := 64

  ghost predicate Loggable(fields: seq<Field>) {
    AllFit(fields) && 2 + |FieldsBytes(fields)| <= MAX_CAPACITY
  }

  // ---------- the size pass ----------

  method SizeOf(fields: seq<Field>) returns (size: nat)
    requires AllFit(fields)
    ensures size == 2 + |FieldsBytes(fields)|
  {
    size := 2;
    for k := 0 to |fields|
      invariant size == 2 + |FieldsBytes(fields[..k])|
    {
      assert fields[..k + 1][..k] == fields[..k];
      var slices := fields[k].Slices();
      size := size + |slices[0]|;
      size := size + |slices[1]|;
      size := size + |slices[2]|;
    }
    assert fields[..|fields|] == fields;
  }

  // ---------- the capacity loop ----------

  predicate IsPower(n: nat) {
    n == 1 || (n > 1 && n % 2 == 0 && IsPower(n / 2))
  }

  lemma {:induction false} NoPowerBetween(low: nat, n: nat)
    requires IsPower(low) && low < n < 2 * low
    ensures !IsPower(n)
    decreases n
  {
    if n % 2 == 0 && low > 1 {
      NoPowerBetween(low / 2, n / 2);
    }
  }

  /** The least power of two that is at least 64 and `size`, computed in 16 bits; none above 8192. */
  method CapacityFor(size: U16) returns (r: Option<U16>)
    ensures r.None? <==> size > MAX_CAPACITY
    ensures r.Some? ==> IsPower(r.value) && MIN_CAPACITY <= r.value <= MAX_CAPACITY && size <= r.value
    ensures r.Some? ==> forall p: nat :: IsPower(p) && MIN_CAPACITY <= p && size <= p ==> r.value <= p
  {
    var capacity: U16 := 64;
    assert IsPower(32) && IsPower(64);
    while capacity < size
      invariant IsPower(capacity) && MIN_CAPACITY <= capacity <= MAX_CAPACITY
      invariant forall p: nat :: IsPower(p) && MIN_CAPACITY <= p && size <= p ==> capacity <= p
      decreases size - capacity
    {
      forall p: nat | IsPower(p) && MIN_CAPACITY <= p && size <= p
        ensures 2 * capacity <= p
      {
        if p < 2 * capacity {
          NoPowerBetween(capacity, p);
        }
      }
      capacity := capacity * 2 % 0x1_0000;
      if capacity > 8192 {
        PowersNear(capacity);
        return None;
      }
    }
    r := Some(capacity);
  }

  lemma PowersNear(capacity: nat)
    requires IsPower(capacity) && MAX_CAPACITY < capacity <= 2 * MAX_CAPACITY
    ensures capacity == 2 * MAX_CAPACITY
  {
    assert IsPower(128) && IsPower(1024) && IsPower(8192);
    if capacity < 2 * MAX_CAPACITY {
      NoPowerBetween(8192, capacity);
    }
  }

  // ---------- the write pass ----------

  /** A buffer reserved in the ring, and how much of it is written. */
  class Reserved {
    const buf: array<Byte>
    var pos: nat

    constructor (buf: array<Byte>)
      ensures this.buf == buf && pos == 0
    {
      this.buf := buf;
      this.pos := 0;
    }

    /** Copies the slice to the current position; false when it does not fit. */
    method Op(slice: seq<Byte>) returns (ok: bool)
      requires pos <= buf.Length
      modifies this`pos, buf
      ensures ok <==> old(pos) + |slice| <= buf.Length
      ensures pos == old(pos) + if ok then |slice| else 0
      ensures buf[..] == if ok then old(buf[..pos]) + slice + old(buf[pos + |slice|..]) else old(buf[..])
    {
      if buf.Length - pos < |slice| {
        return false;
      }
      forall i | 0 <= i < |slice| {
        buf[pos + i] := slice[i];
      }
      assert buf[..] == old(buf[..pos]) + slice + old(buf[pos + |slice|..]);
      pos := pos + |slice|;
      ok := true;
    }

    /** Writes one field, slice by slice. */
    method WriteField(field: Field) returns (ok: bool)
      requires pos <= buf.Length && field.Fits()
      modifies this`pos, buf
      ensures pos <= buf.Length
      ensures old(pos) + |field.Bytes()| <= buf.Length ==>
        ok && pos == old(pos) + |field.Bytes()| && buf[..pos] == old(buf[..pos]) + field.Bytes()
    {
      var slices := field.Slices();
      ghost var before := buf[..pos];
      ok := Op(slices[0]);
      if !ok { return; }
      assert buf[..pos] == before + [field.kind];
      ok := Op(slices[1]);
      if !ok { return; }
      assert buf[..pos] == before + [field.kind] + U16Bytes(|field.value|);
      ok := Op(slices[2]);
      if !ok { return; }
      assert buf[..pos] == before + ([field.kind] + U16Bytes(|field.value|) + field.value);
    }

    /** Writes the size and all fields; false when something does not fit. */
    method WriteRecord(size: U16, fields: seq<Field>) returns (ok: bool)
      requires AllFit(fields) && pos == 0 && size == 2 + |FieldsBytes(fields)|
      modifies this`pos, buf
      ensures size <= buf.Length ==> ok && pos == size && buf[..size] == RecordBytes(fields)
    {
      hide U16Bytes, FieldsBytes, Field.Bytes;
      NoFields(fields);
      var sizeBytes := U16Bytes(size);
      ok := Op(sizeBytes);
      if !ok { return; }
      assert buf[..pos] == sizeBytes + FieldsBytes(fields[..0]);
      for k := 0 to |fields|
        invariant size <= buf.Length ==>
          pos == 2 + |FieldsBytes(fields[..k])| && pos <= buf.Length
          && buf[..pos] == sizeBytes + FieldsBytes(fields[..k])
        invariant pos <= buf.Length
      {
        OneMoreField(fields, k);
        PrefixShorter(fields, k + 1);
        ok := WriteField(fields[k]);
        if !ok { return; }
        Joined(sizeBytes, FieldsBytes(fields[..k]), fields[k].Bytes());
      }
      assert fields[..|fields|] == fields;
      ok := true;
    }
  }

  lemma Joined(a: seq<Byte>, b: seq<Byte>, c: seq<Byte>)
    ensures a + (b + c) == a + b + c
  {
  }

  lemma NoFields(fields: seq<Field>)
    ensures FieldsBytes(fields[..0]) == []
    ensures forall x: U16 :: |U16Bytes(x)| == 2
  {
  }

  lemma OneMoreField(fields: seq<Field>, k: nat)
    requires AllFit(fields) && k < |fields|
    ensures FieldsBytes(fields[..k + 1]) == FieldsBytes(fields[..k]) + fields[k].Bytes()
  {
    assert fields[..k + 1][..k] == fields[..k];
  }

  lemma {:induction false} PrefixShorter(fields: seq<Field>, k: nat)
    requires AllFit(fields) && k <= |fields|
    ensures |FieldsBytes(fields[..k])| <= |FieldsBytes(fields)|
    decreases |fields| - k
  {
    if k == |fields| {
      assert fields[..k] == fields;
    } else {
      assert fields[..k + 1][..k] == fields[..k];
      PrefixShorter(fields, k + 1);
    }
  }

  // ---------- the whole macro ----------

  datatype Logged = NotLogged | Discarded | Submitted(buf: array<Byte>)

  /**
   The generated code for one log statement. Nothing is written when a value or the record is too
   long, or when the ring has no room; otherwise the record is at the start of a buffer of the least
   sufficient size, and it is never discarded.
   */
  method Log(header: Header, args: seq<Argument>, hasRoom: bool) returns (r: Logged)
    requires |args| < 0x1_0000_0000
    ensures r.Submitted? <==> Loggable(Fields(header, args)) && hasRoom
    ensures !r.Discarded?
    ensures r.Submitted? ==>
      var fields := Fields(header, args);
      var size := 2 + |FieldsBytes(fields)|;
      && size <= r.buf.Length && r.buf[..size] == RecordBytes(fields)
      && IsPower(r.buf.Length) && MIN_CAPACITY <= r.buf.Length <= MAX_CAPACITY
      && forall p: nat :: IsPower(p) && MIN_CAPACITY <= p && size <= p ==> r.buf.Length <= p
    ensures r.Submitted? ==> fresh(r.buf)
  {
    hide IsPower, FieldsBytes;
    var fields := Fields(header, args);
    if exists f :: f in fields && !f.Fits() {
      return NotLogged;
    }
    var size := SizeOf(fields);
    if size >= 0x1_0000 {
      return NotLogged;
    }
    var capacity := CapacityFor(size);
    if capacity.None? || !hasRoom {
      return NotLogged;
    }
    var buf := new Byte[capacity.value];
    var reserved := new Reserved(buf);
    var written := reserved.WriteRecord(size, fields);
    if !written {
      return Discarded;
    }
    r := Submitted(buf);
  }
}
