/** 32-bit words in bytes, little-endian. */
module Words {
  import opened Instructions

  function WordBytes(w: U32): (r: seq<Byte>)
    ensures |r| == 4
  {
    [w % 0x100, w / 0x100 % 0x100, w / 0x1_0000 % 0x100, w / 0x100_0000]
  }

  function WordAt(data: seq<Byte>): U32
    requires |data| >= 4
  {
    (data[0] as int) + 0x100 * (data[1] as int) + 0x1_0000 * (data[2] as int) + 0x100_0000 * (data[3] as int)
  }

  /** A word that was written is read back, whatever follows it. */
  lemma WordBack(w: U32, rest: seq<Byte>)
    ensures WordAt(WordBytes(w) + rest) == w
  {
    WordJoins(w);
    var b, data := WordBytes(w), WordBytes(w) + rest;
    assert data[0] == b[0] && data[1] == b[1] && data[2] == b[2] && data[3] == b[3];
  }

  lemma WordJoins(w: U32)
    ensures w == w % 0x100 + 0x100 * (w / 0x100 % 0x100) + 0x1_0000 * (w / 0x1_0000 % 0x100) + 0x100_0000 * (w / 0x100_0000)
  {
    assert w / 0x1_0000 == w / 0x100 / 0x100;
    assert w / 0x100_0000 == w / 0x1_0000 / 0x100;
  }

  /** A word that was read, written again, is the bytes it was read from. */
  lemma WordThere(data: seq<Byte>)
    requires |data| >= 4
    ensures WordBytes(WordAt(data)) == data[..4]
  {
    WordParts(data[0], data[1], data[2], data[3]);
  }

  lemma WordParts(a: int, b: int, c: int, d: int)
    requires 0 <= a < 0x100 && 0 <= b < 0x100 && 0 <= c < 0x100 && 0 <= d < 0x100
    ensures var w := a + 0x100 * b + 0x1_0000 * c + 0x100_0000 * d;
      w % 0x100 == a && w / 0x100 % 0x100 == b && w / 0x1_0000 % 0x100 == c && w / 0x100_0000 == d
  {
    var w := a + 0x100 * b + 0x1_0000 * c + 0x100_0000 * d;
    assert w / 0x100 == b + 0x100 * c + 0x1_0000 * d;
    assert w / 0x1_0000 == c + 0x100 * d;
  }
}
