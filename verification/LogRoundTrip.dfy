/**
 What the two sides of logging promise each other: a record is read back as it was written, whatever
 follows it in its buffer, and every value is shown with the display hint it was written with.
 */
module LogRoundTrip {
  import opened Instructions
  import opened LogRecord
  import opened LogDecoder
  import opened Words
  import Utf8

  // ---------- fields ----------

  lemma {:induction false} FieldsFront(fields: seq<Field>)
    requires AllFit(fields) && fields != []
    ensures AllFit(fields[1..])
    ensures FieldsBytes(fields) == fields[0].Bytes() + FieldsBytes(fields[1..])
  {
    hide Field.Bytes, Field.Fits;
    var front, last := fields[..|fields| - 1], fields[|fields| - 1];
    if front == [] {
      assert fields[1..] == [] && FieldsBytes(front) == [];
      assert FieldsBytes(fields) == [] + fields[0].Bytes();
      assert FieldsBytes(fields[1..]) == [];
    } else {
      FieldsFront(front);
      var rest := fields[1..];
      assert front[1..] == rest[..|rest| - 1] && rest[|rest| - 1] == last;
      Joined(fields[0].Bytes(), FieldsBytes(front[1..]), last.Bytes());
    }
  }

  lemma {:induction false} FieldsAppend(a: seq<Field>, b: seq<Field>)
    requires AllFit(a + b)
    ensures AllFit(a) && AllFit(b) && FieldsBytes(a + b) == FieldsBytes(a) + FieldsBytes(b)
  {
    hide Field.Bytes, Field.Fits;
    assert forall f :: f in a + b <==> f in a || f in b;
    if b == [] {
      assert a + b == a && FieldsBytes(b) == [];
      assert FieldsBytes(a) + [] == FieldsBytes(a);
    } else {
      var front, last := b[..|b| - 1], b[|b| - 1];
      assert (a + b)[..|a + b| - 1] == a + front && (a + b)[|a + b| - 1] == last;
      FieldsAppend(a, front);
      Joined(FieldsBytes(a), FieldsBytes(front), last.Bytes());
    }
  }

  // ---------- the header ----------

  /** One field of a header that is not complete yet. */
  lemma HeaderStep(p: Partial, field: Field, rest: seq<Byte>)
    requires field.Fits() && !p.Complete() && WithField(p, field.kind, field.value).Ok?
    ensures ReadHeader(p, field.Bytes() + rest) == ReadHeader(WithField(p, field.kind, field.value).value, rest)
  {
  }

  /** The names in a header are strings of the program. */
  predicate Named(h: Header) {
    Utf8.IsText(h.target) && Utf8.IsText(h.moduleName) && Utf8.IsText(h.file)
  }

  /** The header is read back, and what follows it is left over. */
  lemma {:induction false} HeaderReadsBack(h: Header, numArgs: U32, rest: seq<Byte>)
    requires AllFit(HeaderFields(h, numArgs)) && Named(h)
    ensures ReadHeader(NOTHING_READ, FieldsBytes(HeaderFields(h, numArgs)) + rest) ==
      Ok((Partial(Some(h.target), Some(h.level), Some(h.moduleName), Some(h.file), Some(h.line), Some(numArgs)), rest))
  {
    hide Field.Bytes, FieldsBytes, TryRead, WordBytes, WordAt, LevelCode, LevelOf, Utf8.IsText;
    var f := HeaderFields(h, numArgs);
    CodesReadBack(h.level, Default, KStr);
    WordBack(h.line, []);
    WordBack(numArgs, []);
    assert WordBytes(h.line) + [] == WordBytes(h.line) && WordBytes(numArgs) + [] == WordBytes(numArgs);
    HeaderInSixSteps(f, rest);
    var p1 := NOTHING_READ.(target := Some(h.target));
    var p2 := p1.(level := Some(h.level));
    var p3 := p2.(moduleName := Some(h.moduleName));
    var p4 := p3.(file := Some(h.file));
    var p5 := p4.(line := Some(h.line));
    var r6 := rest;
    var r5 := f[5].Bytes() + r6;
    var r4 := f[4].Bytes() + r5;
    var r3 := f[3].Bytes() + r4;
    var r2 := f[2].Bytes() + r3;
    var r1 := f[1].Bytes() + r2;
    HeaderStep(NOTHING_READ, f[0], r1);
    HeaderStep(p1, f[1], r2);
    HeaderStep(p2, f[2], r3);
    HeaderStep(p3, f[3], r4);
    HeaderStep(p4, f[4], r5);
    HeaderStep(p5, f[5], r6);
  }

  lemma HeaderInSixSteps(f: seq<Field>, rest: seq<Byte>)
    requires |f| == 6 && AllFit(f)
    ensures FieldsBytes(f) + rest ==
      f[0].Bytes() + (f[1].Bytes() + (f[2].Bytes() + (f[3].Bytes() + (f[4].Bytes() + (f[5].Bytes() + rest)))))
  {
    hide Field.Bytes, FieldsBytes, Field.Fits;
    forall k | 0 <= k < 6
      ensures AllFit(f[k..])
      ensures FieldsBytes(f[k..]) == f[k].Bytes() + FieldsBytes(f[k + 1..])
    {
      FieldsFront(f[k..]);
      assert f[k..][1..] == f[k + 1..];
    }
    NoFields(f);
    assert f[0..] == f && f[6..] == f[..0];
  }

  // ---------- the arguments ----------

  /** The message of an argument list. */
  function MessageOf(args: seq<Argument>, hint: Option<Hint>): Result<seq<Piece>> {
    if args == [] then Ok([])
    else
      match EffectOf(args[0].kind, args[0].value, hint)
      case Malformed => Malformed
      case Undefined => Undefined
      case Ok(SetHint(next)) => MessageOf(args[1..], Some(next))
      case Ok(Dropped) => MessageOf(args[1..], hint)
      case Ok(Add(piece, left)) => Prepend(piece, MessageOf(args[1..], left))
  }

  lemma {:induction false} ArgsReadBack(args: seq<Argument>, hint: Option<Hint>, rest: seq<Byte>)
    requires AllFit(ArgFields(args))
    ensures ReadArgs(|args|, hint, FieldsBytes(ArgFields(args)) + rest) == MessageOf(args, hint)
    decreases |args|
  {
    hide Field.Bytes, TryRead, EffectOf, KindOf, KindCode;
    var fields := ArgFields(args);
    if args != [] {
      assert fields[1..] == ArgFields(args[1..]);
      FieldsFront(fields);
      var after := FieldsBytes(fields[1..]) + rest;
      Joined(fields[0].Bytes(), FieldsBytes(fields[1..]), rest);
      FieldReadsBack(fields[0], after);
      CodesReadBack(Error, Default, args[0].kind);
      match EffectOf(args[0].kind, args[0].value, hint)
      case Ok(SetHint(next)) => ArgsReadBack(args[1..], Some(next), rest);
      case Ok(Dropped) => ArgsReadBack(args[1..], hint, rest);
      case Ok(Add(_, left)) => ArgsReadBack(args[1..], left, rest);
      case Malformed =>
      case Undefined =>
    }
  }

  /** A record that was written is read back, whatever padding follows it. */
  lemma RecordReadsBack(h: Header, args: seq<Argument>, padding: seq<Byte>)
    requires |args| < 0x1_0000_0000 && Loggable(Fields(h, args)) && Named(h)
    ensures Decode(RecordBytes(Fields(h, args)) + padding) ==
      match MessageOf(args, None)
      case Ok(pieces) => Ok(Message(h, pieces))
      case Malformed => Malformed
      case Undefined => Undefined
  {
    hide FieldsBytes, ReadHeader, ReadArgs, MessageOf, HeaderFields, ArgFields, Named;
    var fields := Fields(h, args);
    var body := FieldsBytes(fields);
    var size := 2 + |body|;
    var buf := RecordBytes(fields) + padding;
    assert Number(buf[0], buf[1]) == size;
    assert buf[2..size] == body;
    FieldsAppend(HeaderFields(h, |args|), ArgFields(args));
    HeaderReadsBack(h, |args|, FieldsBytes(ArgFields(args)));
    ArgsReadBack(args, None, []);
    assert FieldsBytes(ArgFields(args)) + [] == FieldsBytes(ArgFields(args));
  }

  // ---------- hints ----------

  // A part of a log statement: text, or a value with the hint from the format string.
  datatype Part = Literal(text: seq<Byte>) | Parameter(hint: Hint, kind: ArgumentKind, value: seq<Byte>)
  {
    /** Values only, and strings that are text, as the type of strings guarantees. */
    predicate Typed() {
      match this
      case Literal(text) => Utf8.IsText(text)
      case Parameter(_, kind, value) => kind != KDisplayHint && (kind == KStr ==> Utf8.IsText(value))
    }
  }

  function ArgsOfPart(part: Part): seq<Argument> {
    match part
    case Literal(text) => [Argument(KStr, text)]
    case Parameter(hint, kind, value) => [Argument(KDisplayHint, [HintCode(hint)]), Argument(kind, value)]
  }

  /** The arguments the macro makes of the statement. */
  function ArgsOf(parts: seq<Part>): seq<Argument> {
    if parts == [] then [] else ArgsOfPart(parts[0]) + ArgsOf(parts[1..])
  }

  /** A value of the right size, with a hint its kind can be shown with. */
  predicate Showable(part: Part) {
    part.Parameter? && part.kind != KStr ==>
      && (WidthOf(part.kind).Some? ==> |part.value| == WidthOf(part.kind).value)
      && Renders(part.kind, Some(part.hint))
  }

  /** Text as it is, every other value with its own hint. */
  function PieceOf(part: Part): Piece {
    match part
    case Literal(text) => Text(text)
    case Parameter(hint, kind, value) => if kind == KStr then Text(value) else Shown(kind, value, Some(hint))
  }

  function Expected(parts: seq<Part>): seq<Piece> {
    seq(|parts|, i requires 0 <= i < |parts| => PieceOf(parts[i]))
  }

  lemma ExpectedFront(parts: seq<Part>)
    requires parts != []
    ensures Expected(parts) == [PieceOf(parts[0])] + Expected(parts[1..])
  {
  }

  /** What one part adds to the message, and the hint it leaves for what follows. */
  lemma PartStep(part: Part, rest: seq<Argument>, left: Option<Hint>)
    requires part.Typed()
    ensures MessageOf(ArgsOfPart(part) + rest, left) ==
      if !Showable(part) then Malformed
      else Prepend(PieceOf(part),
                   MessageOf(rest, if part.Literal? then left else if part.kind == KStr then Some(part.hint) else None))
  {
    hide HintCode, Renders, HintOf, WidthOf, Utf8.IsText;
    var args := ArgsOfPart(part) + rest;
    match part
    case Literal(_) =>
      assert args[1..] == rest;
    case Parameter(hint, kind, value) =>
      CodesReadBack(Error, hint, KStr);
      assert args[0] == Argument(KDisplayHint, [HintCode(hint)]);
      assert args[1..][0] == Argument(kind, value) && args[1..][1..] == rest;
  }

  /**
   Each value is shown with its own hint, although strings leave theirs behind; the record is
   rejected exactly when one value cannot be shown.
   */
  lemma {:induction false} OwnHints(parts: seq<Part>, left: Option<Hint>)
    requires forall p :: p in parts ==> p.Typed()
    ensures MessageOf(ArgsOf(parts), left) ==
      if forall p :: p in parts ==> Showable(p) then Ok(Expected(parts)) else Malformed
  {
    hide ArgsOfPart, PieceOf, Showable, MessageOf, Part.Typed;
    if parts == [] {
      NoMessage(left);
      assert ArgsOf(parts) == [] && Expected(parts) == [];
    } else {
      var part, rest := parts[0], parts[1..];
      PartStep(part, ArgsOf(rest), left);
      OwnHints(rest, if part.Literal? then left else if part.kind == KStr then Some(part.hint) else None);
      ExpectedFront(parts);
      assert forall p :: p in parts <==> p == part || p in rest;
    }
  }

  lemma NoMessage(left: Option<Hint>)
    ensures MessageOf([], left) == Ok([])
  {
  }

  /** From a log statement to the message in user space. */
  method LogAndRead(header: Header, parts: seq<Part>, hasRoom: bool) returns (r: Option<Result<Message>>)
    requires |ArgsOf(parts)| < 0x1_0000_0000 && Named(header)
    requires forall p :: p in parts ==> p.Typed()
    ensures r.Some? <==> Loggable(Fields(header, ArgsOf(parts))) && hasRoom
    ensures r.Some? ==>
      r.value == if forall p :: p in parts ==> Showable(p) then Ok(Message(header, Expected(parts))) else Malformed
  {
    hide Fields, FieldsBytes, ArgsOf, Decode, Expected, Showable, IsPower, RecordBytes, Named, Part.Typed;
    var logged := Log(header, ArgsOf(parts), hasRoom);
    if !logged.Submitted? {
      return None;
    }
    var buf := logged.buf[..];
    ghost var size := 2 + |FieldsBytes(Fields(header, ArgsOf(parts)))|;
    assert buf == buf[..size] + buf[size..];
    RecordReadsBack(header, ArgsOf(parts), buf[size..]);
    OwnHints(parts, None);
    var read := LogBuf(buf);
    r := Some(read);
  }

  // ---------- what the macro lets through ----------

  // The types of values that can be logged.
  datatype ValueType =
    | Integer(kind: ArgumentKind) | Float32 | Float64 | Ipv4 | Ipv6
    | ByteArray(len: nat) | ByteArrayRef(len: nat) | WordArray | ByteSlice | Str | RawPointer

  /** The kind a value is sent as; a reference to an array is sent as the array. */
  function KindFor(t: ValueType): ArgumentKind {
    match t
    case Integer(kind) => kind
    case Float32 => KF32
    case Float64 => KF64
    case Ipv4 => KIpv4Addr
    case Ipv6 => KIpv6Addr
    case ByteArray(len) => ArrayKind(len)
    case ByteArrayRef(len) => ArrayKind(len)
    case WordArray => KArrU16Len8
    case ByteSlice => KBytes
    case Str => KStr
    case RawPointer => KPointer
  }

  function ArrayKind(len: nat): ArgumentKind {
    match len case 4 => KArrU8Len4 case 6 => KArrU8Len6 case 16 => KArrU8Len16 case _ => KBytes
  }

  /** The number of bytes of an integer on a 64-bit machine. */
  function IntegerBytes(kind: ArgumentKind): nat {
    if kind in {KI8, KU8} then 1
    else if kind in {KI16, KU16} then 2
    else if kind in {KI32, KU32} then 4
    else 8
  }

  /** The number of bytes a value of the type is sent as; none when that depends on the value. */
  function BytesOf(t: ValueType): Option<nat> {
    match t
    case Integer(kind) => Some(IntegerBytes(kind))
    case Float32 => Some(4)
    case Float64 => Some(8)
    case Ipv4 => Some(4)
    case Ipv6 => Some(16)
    case ByteArray(len) => if len == 4 || len == 6 || len == 16 then Some(len) else None
    case ByteArrayRef(len) => if len == 4 || len == 6 || len == 16 then Some(len) else None
    case WordArray => Some(16)
    case ByteSlice => None
    case Str => None
    case RawPointer => Some(8)
  }

  /** The reader expects of each kind the number of bytes that its values are sent as. */
  lemma WidthsAgree(t: ValueType)
    requires t.Integer? ==> IsInteger(t.kind)
    ensures WidthOf(KindFor(t)) == BytesOf(t)
  {
  }

  /** Whether the macro accepts a value of the type for a parameter with the hint. */
  predicate Takes(hint: Hint, t: ValueType) {
    match hint
    case Default => t.Integer? || t.Float32? || t.Float64? || t.Str? || t.Ipv4? || t.Ipv6?
    case LowerHex => t.Integer? || t.ByteSlice? || t.ByteArrayRef?
    case UpperHex => t.Integer? || t.ByteSlice? || t.ByteArrayRef?
    case Ip =>
      t.Ipv4? || t.Ipv6? || (t.Integer? && t.kind == KU32) || (t.ByteArray? && (t.len == 4 || t.len == 16)) || t.WordArray?
    case LowerMac => t.ByteArray? && t.len == 6
    case UpperMac => t.ByteArray? && t.len == 6
    case Pointer => t.RawPointer?
  }

  /**
   What the macro accepts can be shown, except that arrays of 4, 6 or 16 bytes cannot be shown in
   hexadecimal: they are sent as addresses.
   */
  lemma AcceptedButNotShown(hint: Hint, t: ValueType)
    requires t.Integer? ==> IsInteger(t.kind)
    requires Takes(hint, t)
    ensures Renders(KindFor(t), Some(hint)) <==>
      !(hint in {LowerHex, UpperHex} && t.ByteArrayRef? && t.len in {4, 6, 16})
  {
  }
}
