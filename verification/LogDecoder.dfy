/**
 Reading log records in user space, and what the two sides promise each other: a record that was
 written is read back as it was, whatever follows it in its buffer, and every argument is shown with
 the display hint it was written with.
 */
module LogDecoder {
  import opened Instructions
  import opened LogRecord
  import opened Words
  import Utf8

  function LevelOf(code: Byte): Option<Level> {
    match code case 1 => Some(Error) case 2 => Some(Warn) case 3 => Some(Info) case 4 => Some(Debug) case 5 => Some(Trace)
    case _ => None
  }

  function HintOf(code: Byte): Option<Hint> {
    match code
    case 1 => Some(Default) case 2 => Some(LowerHex) case 3 => Some(UpperHex) case 4 => Some(Ip)
    case 5 => Some(LowerMac) case 6 => Some(UpperMac) case 7 => Some(Pointer)
    case _ => None
  }

  const KINDS: seq<ArgumentKind> :=
    [KDisplayHint, KI8, KI16, KI32, KI64, KIsize, KU8, KU16, KU32, KU64, KUsize, KF32, KF64, KIpv4Addr, KIpv6Addr,
     KArrU8Len4, KArrU8Len6, KArrU8Len16, KArrU16Len8, KBytes, KStr, KPointer]

  function KindOf(code: Byte): Option<ArgumentKind> {
    if code < |KINDS| then Some(KINDS[code]) else None
  }

  lemma CodesReadBack(level: Level, hint: Hint, kind: ArgumentKind)
    ensures LevelOf(LevelCode(level)) == Some(level)
    ensures HintOf(HintCode(hint)) == Some(hint)
    ensures KindOf(KindCode(kind)) == Some(kind)
  {
  }

  // ---------- reading one field ----------

  function Number(low: Byte, high: nat): nat {
    low + high * 0x100
  }

  datatype Read = Read(kind: Byte, value: seq<Byte>, rest: seq<Byte>)

  /** A field at the start of the buffer, and what follows it. */
  function TryRead(buf: seq<Byte>): (r: Option<Read>)
    ensures r.Some? ==> |r.value.rest| < |buf|
  {
    if |buf| < 3 then None
    else
      var len := Number(buf[1], buf[2]);
      if |buf| - 3 < len then None else Some(Read(buf[0], buf[3..3 + len], buf[3 + len..]))
  }

  lemma FieldReadsBack(field: Field, rest: seq<Byte>)
    requires field.Fits()
    ensures TryRead(field.Bytes() + rest) == Some(Read(field.kind, field.value, rest))
  {
  }

  // ---------- the header ----------

  // What was read of the header so far.
  datatype Partial = Partial(target: Option<seq<Byte>>, level: Option<Level>, moduleName: Option<seq<Byte>>,
                             file: Option<seq<Byte>>, line: Option<U32>, numArgs: Option<U32>)
  {
    predicate Complete() {
      target.Some? && level.Some? && moduleName.Some? && file.Some? && line.Some? && numArgs.Some?
    }
  }

  const NOTHING_READ: Partial := Partial(None, None, None, None, None, None)

  // A record that is cut short, repeats itself or has a name that is no text is malformed; one with a number that is no kind,
  // level or hint is undefined: the source would read it as an enum.
  datatype Result<+T> = Ok(value: T) | Malformed | Undefined

  /** Takes in one header field; no field may come twice. */
  function WithField(p: Partial, kind: Byte, value: seq<Byte>): Result<Partial> {
    match kind
    case 0 => if !Utf8.IsText(value) || p.target.Some? then Malformed else Ok(p.(target := Some(value)))
    case 1 =>
      if value == [] then Undefined
      else
        (match LevelOf(value[0])
         case None => Undefined
         case Some(level) => if p.level.Some? then Malformed else Ok(p.(level := Some(level))))
    case 2 => if !Utf8.IsText(value) || p.moduleName.Some? then Malformed else Ok(p.(moduleName := Some(value)))
    case 3 => if !Utf8.IsText(value) || p.file.Some? then Malformed else Ok(p.(file := Some(value)))
    case 4 => if |value| != 4 || p.line.Some? then Malformed else Ok(p.(line := Some(WordAt(value))))
    case 5 => if |value| != 4 || p.numArgs.Some? then Malformed else Ok(p.(numArgs := Some(WordAt(value))))
    case _ => Undefined
  }

  /** Reads header fields, in any order, until all are there. */
  function ReadHeader(p: Partial, buf: seq<Byte>): (r: Result<(Partial, seq<Byte>)>)
    ensures r.Ok? ==> r.value.0.Complete()
    decreases |buf|
  {
    if p.Complete() then Ok((p, buf))
    else
      match TryRead(buf)
      case None => Malformed
      case Some(read) =>
        match WithField(p, read.kind, read.value)
        case Malformed => Malformed
        case Undefined => Undefined
        case Ok(next) => ReadHeader(next, read.rest)
  }

  // ---------- the arguments ----------

  // A part of the message: text as it came, or a value and how to show it.
  datatype Piece = Text(bytes: seq<Byte>) | Shown(kind: ArgumentKind, bytes: seq<Byte>, hint: Option<Hint>)

  /** The number of bytes a value of the kind has; none when any number will do. */
  function WidthOf(kind: ArgumentKind): Option<nat> {
    match kind
    case KI8 => Some(1) case KU8 => Some(1)
    case KI16 => Some(2) case KU16 => Some(2)
    case KI32 => Some(4) case KU32 => Some(4) case KF32 => Some(4) case KIpv4Addr => Some(4) case KArrU8Len4 => Some(4)
    case KI64 => Some(8) case KU64 => Some(8) case KIsize => Some(8) case KUsize => Some(8) case KF64 => Some(8)
    case KPointer => Some(8)
    case KArrU8Len6 => Some(6)
    case KIpv6Addr => Some(16) case KArrU8Len16 => Some(16) case KArrU16Len8 => Some(16)
    case KBytes => None case KStr => None case KDisplayHint => None
  }

  predicate IsInteger(kind: ArgumentKind) {
    kind in {KI8, KI16, KI32, KI64, KIsize, KU8, KU16, KU32, KU64, KUsize}
  }

  /** Whether a value of the kind can be shown with the hint. */
  predicate Renders(kind: ArgumentKind, hint: Option<Hint>) {
    if IsInteger(kind) then hint.None? || hint.value in {Default, LowerHex, UpperHex} || (kind == KU32 && hint.value == Ip)
    else match kind
      case KF32 => hint.None? || hint.value == Default
      case KF64 => hint.None? || hint.value == Default
      case KIpv4Addr => hint.None? || hint.value in {Default, Ip}
      case KIpv6Addr => hint.None? || hint.value in {Default, Ip}
      case KArrU8Len4 => hint.None? || hint.value in {Default, Ip}
      case KArrU8Len6 => hint.Some? && hint.value in {LowerMac, UpperMac}
      case KArrU8Len16 => hint == Some(Ip)
      case KArrU16Len8 => hint == Some(Ip)
      case KBytes => hint.Some? && hint.value in {LowerHex, UpperHex}
      case KPointer => hint == Some(Hint.Pointer)
      case _ => true
  }

  // What an argument does: sets the hint for later ones, adds to the message, or nothing.
  datatype Effect = SetHint(hint: Hint) | Add(piece: Piece, hintLeft: Option<Hint>) | Dropped

  /** Strings leave the hint for the next argument, and are dropped when no text; every other value uses it up. */
  function EffectOf(kind: ArgumentKind, value: seq<Byte>, hint: Option<Hint>): Result<Effect> {
    if kind == KDisplayHint then
      if value == [] || HintOf(value[0]).None? then Undefined else Ok(SetHint(HintOf(value[0]).value))
    else if kind == KStr then Ok(if Utf8.IsText(value) then Add(Text(value), hint) else Dropped)
    else if WidthOf(kind).Some? && |value| != WidthOf(kind).value then Malformed
    else if !Renders(kind, hint) then Malformed
    else Ok(Add(Shown(kind, value, hint), None))
  }

  /** The message of `n` arguments at the start of the buffer. */
  function ReadArgs(n: nat, hint: Option<Hint>, buf: seq<Byte>): Result<seq<Piece>> {
    if n == 0 then Ok([])
    else
      match TryRead(buf)
      case None => Malformed
      case Some(read) =>
        match KindOf(read.kind)
        case None => Undefined
        case Some(kind) =>
          match EffectOf(kind, read.value, hint)
          case Malformed => Malformed
          case Undefined => Undefined
          case Ok(SetHint(next)) => ReadArgs(n - 1, Some(next), read.rest)
          case Ok(Dropped) => ReadArgs(n - 1, hint, read.rest)
          case Ok(Add(piece, left)) => Prepend(piece, ReadArgs(n - 1, left, read.rest))
  }

  function Prepend(piece: Piece, rest: Result<seq<Piece>>): Result<seq<Piece>> {
    match rest
    case Ok(pieces) => Ok([piece] + pieces)
    case Malformed => Malformed
    case Undefined => Undefined
  }

  // ---------- a record ----------

  datatype Message = Message(header: Header, pieces: seq<Piece>)

  function Decode(buf: seq<Byte>): Result<Message> {
    if |buf| < 2 then Malformed
    else
      var size := Number(buf[0], buf[1]);
      if size < 2 || |buf| < size then Malformed
      else
        match ReadHeader(NOTHING_READ, buf[2..size])
        case Malformed => Malformed
        case Undefined => Undefined
        case Ok((p, rest)) =>
          match ReadArgs(p.numArgs.value, None, rest)
          case Malformed => Malformed
          case Undefined => Undefined
          case Ok(pieces) =>
            Ok(Message(Header(p.target.value, p.level.value, p.moduleName.value, p.file.value, p.line.value), pieces))
  }

  method LogBuf(buf: seq<Byte>) returns (r: Result<Message>)
    ensures r == Decode(buf)
  {
    hide TryRead, WithField, EffectOf, KindOf;
    if |buf| < 2 {
      return Malformed;
    }
    var size := Number(buf[0], buf[1]);
    if size < 2 || |buf| < size {
      return Malformed;
    }
    var left := buf[2..size];
    var p := NOTHING_READ;
    while !p.Complete()
      invariant ReadHeader(NOTHING_READ, buf[2..size]) == ReadHeader(p, left)
      decreases |left|
    {
      var read := TryRead(left);
      if read.None? {
        return Malformed;
      }
      ReadShrinks(left);
      var next := WithField(p, read.value.kind, read.value.value);
      match next {
        case Malformed => return Malformed;
        case Undefined => return Undefined;
        case Ok(q) => p := q;
      }
      left := read.value.rest;
    }
    var pieces: seq<Piece> := [];
    var lastHint: Option<Hint> := None;
    ghost var args := left;
    PrependNone(ReadArgs(p.numArgs.value, None, args));
    for k := 0 to p.numArgs.value
      invariant ReadArgs(p.numArgs.value, None, args) == PrependAll(pieces, ReadArgs(p.numArgs.value - k, lastHint, left))
    {
      var read := TryRead(left);
      if read.None? {
        return Malformed;
      }
      var kind := KindOf(read.value.kind);
      if kind.None? {
        return Undefined;
      }
      var effect := EffectOf(kind.value, read.value.value, lastHint);
      match effect {
        case Malformed => return Malformed;
        case Undefined => return Undefined;
        case Ok(SetHint(hint)) => lastHint := Some(hint);
        case Ok(Dropped) =>
        case Ok(Add(piece, hintLeft)) =>
          PrependOne(pieces, piece, ReadArgs(p.numArgs.value - k - 1, hintLeft, read.value.rest));
          pieces := pieces + [piece];
          lastHint := hintLeft;
      }
      left := read.value.rest;
    }
    assert pieces + [] == pieces;
    r := Ok(Message(Header(p.target.value, p.level.value, p.moduleName.value, p.file.value, p.line.value), pieces));
  }

  lemma ReadShrinks(buf: seq<Byte>)
    ensures TryRead(buf).Some? ==> |TryRead(buf).value.rest| < |buf|
  {
  }

  function PrependAll(pieces: seq<Piece>, rest: Result<seq<Piece>>): Result<seq<Piece>> {
    match rest
    case Ok(more) => Ok(pieces + more)
    case Malformed => Malformed
    case Undefined => Undefined
  }

  lemma PrependNone(rest: Result<seq<Piece>>)
    ensures PrependAll([], rest) == rest
  {
    if rest.Ok? {
      assert [] + rest.value == rest.value;
    }
  }

  lemma PrependOne(pieces: seq<Piece>, piece: Piece, rest: Result<seq<Piece>>)
    ensures PrependAll(pieces, Prepend(piece, rest)) == PrependAll(pieces + [piece], rest)
  {
    if rest.Ok? {
      assert pieces + ([piece] + rest.value) == pieces + [piece] + rest.value;
    }
  }
}
