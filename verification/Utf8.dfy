/** Which byte sequences are text: UTF-8 as in section 4 of RFC 3629. */
module Utf8 {
  import opened Instructions

  predicate IsTail(b: Byte) {
    0x80 <= b < 0xC0
  }

  /** The number of bytes of the character at the start; none when there is no well-formed one. */
  function FirstLength(s: seq<Byte>): (r: Option<nat>)
    requires s != []
    ensures r.Some? ==> 0 < r.value <= |s|
  {
    var b := s[0];
    if b < 0x80 then Some(1)
    else if 0xC2 <= b < 0xE0 then if |s| >= 2 && IsTail(s[1]) then Some(2) else None
    else if 0xE0 <= b < 0xF0 then
      if |s| >= 3 && IsTail(s[1]) && IsTail(s[2]) && (b == 0xE0 ==> s[1] >= 0xA0) && (b == 0xED ==> s[1] < 0xA0)
      then Some(3) else None
    else if 0xF0 <= b < 0xF5 then
      if |s| >= 4 && IsTail(s[1]) && IsTail(s[2]) && IsTail(s[3]) && (b == 0xF0 ==> s[1] >= 0x90) && (b == 0xF4 ==> s[1] < 0x90)
      then Some(4) else None
    else None
  }

  predicate IsText(s: seq<Byte>)
    decreases |s|
  {
    s == [] || (FirstLength(s).Some? && IsText(s[FirstLength(s).value..]))
  }

  // ---------- characters ----------

  predicate IsScalar(c: nat) {
    c < 0xD800 || 0xE000 <= c < 0x11_0000
  }

  /** The bytes of one character. */
  function Encode(c: nat): seq<Byte>
    requires IsScalar(c)
  {
    if c < 0x80 then [c]
    else if c < 0x800 then [0xC0 + c / 0x40, 0x80 + c % 0x40]
    else if c < 0x1_0000 then [0xE0 + c / 0x1000, 0x80 + c / 0x40 % 0x40, 0x80 + c % 0x40]
    else [0xF0 + c / 0x4_0000, 0x80 + c / 0x1000 % 0x40, 0x80 + c / 0x40 % 0x40, 0x80 + c % 0x40]
  }

  function EncodeAll(cs: seq<nat>): seq<Byte>
    requires forall c :: c in cs ==> IsScalar(c)
  {
    if cs == [] then [] else Encode(cs[0]) + EncodeAll(cs[1..])
  }

  /** A number, and the six bits of one more byte. */
  function Joined(high: nat, tail: Byte): nat
    requires IsTail(tail)
  {
    high * 0x40 + (tail as int - 0x80)
  }

  /** The character whose bytes come first. */
  function First(s: seq<Byte>): nat
    requires s != [] && FirstLength(s).Some?
  {
    match FirstLength(s).value
    case 1 => s[0]
    case 2 => Joined(s[0] - 0xC0, s[1])
    case 3 => Joined(Joined(s[0] - 0xE0, s[1]), s[2])
    case _ => Joined(Joined(Joined(s[0] - 0xF0, s[1]), s[2]), s[3])
  }

  lemma JoinedSplits(high: nat, tail: Byte)
    requires IsTail(tail)
    ensures Joined(high, tail) / 0x40 == high && 0x80 + Joined(high, tail) % 0x40 == tail
  {
  }

  lemma Shifted(c: nat)
    ensures c / 0x1000 == c / 0x40 / 0x40 && c / 0x4_0000 == c / 0x1000 / 0x40
  {
  }

  lemma FirstEncodes(s: seq<Byte>)
    requires s != [] && FirstLength(s).Some?
    ensures IsScalar(First(s)) && Encode(First(s)) == s[..FirstLength(s).value]
  {
    match FirstLength(s).value
    case 1 =>
    case 2 => JoinedSplits(s[0] - 0xC0, s[1]);
    case 3 => ThreeBytes(s);
    case _ => FourBytes(s);
  }

  lemma ThreeBytes(s: seq<Byte>)
    requires s != [] && FirstLength(s) == Some(3)
    ensures IsScalar(First(s)) && Encode(First(s)) == s[..3]
  {
    hide Joined;
    var high := Joined(s[0] - 0xE0, s[1]);
    JoinedSplits(s[0] - 0xE0, s[1]);
    JoinedSplits(high, s[2]);
    Shifted(First(s));
    assert First(s) / 0x1000 == s[0] - 0xE0;
  }

  lemma FourBytes(s: seq<Byte>)
    requires s != [] && FirstLength(s) == Some(4)
    ensures IsScalar(First(s)) && Encode(First(s)) == s[..4]
  {
    hide Joined;
    var high := Joined(s[0] - 0xF0, s[1]);
    var middle := Joined(high, s[2]);
    JoinedSplits(s[0] - 0xF0, s[1]);
    JoinedSplits(high, s[2]);
    JoinedSplits(middle, s[3]);
    Shifted(First(s));
    assert First(s) / 0x1000 == high;
    assert First(s) / 0x4_0000 == s[0] - 0xF0;
  }

  lemma EncodedFirst(c: nat, rest: seq<Byte>)
    requires IsScalar(c)
    ensures Encode(c) != [] && FirstLength(Encode(c) + rest) == Some(|Encode(c)|)
  {
  }

  /** Text is exactly what some characters encode to. */
  lemma {:induction false} TextIsEncoded(s: seq<Byte>) returns (cs: seq<nat>)
    requires IsText(s)
    ensures (forall c :: c in cs ==> IsScalar(c)) && EncodeAll(cs) == s
    decreases |s|
  {
    hide Encode, First, FirstLength;
    if s == [] {
      cs := [];
    } else {
      var n := FirstLength(s).value;
      var rest := TextIsEncoded(s[n..]);
      FirstEncodes(s);
      cs := [First(s)] + rest;
      assert cs[1..] == rest && s == s[..n] + s[n..];
    }
  }

  lemma {:induction false} EncodedIsText(cs: seq<nat>)
    requires forall c :: c in cs ==> IsScalar(c)
    ensures IsText(EncodeAll(cs))
  {
    hide Encode, FirstLength;
    if cs != [] {
      EncodedIsText(cs[1..]);
      var rest := EncodeAll(cs[1..]);
      EncodedFirst(cs[0], rest);
      assert (Encode(cs[0]) + rest)[|Encode(cs[0])|..] == rest;
    }
  }
}
