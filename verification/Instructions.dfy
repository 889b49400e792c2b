/**
 eBPF instructions as the linker and the patching passes see them (RFC 9669, sections 3 and 4.3).
 Machine integers are written out: `I32`, `U32` and `U64` are the value ranges, and the `Wrap`
 functions are two's-complement truncation, as in a release build.
 */
module Instructions {

  datatype Option<+T> = None | Some(value: T)

  type Byte = x: int | 0 <= x < 0x100
  type U16 = x: int | 0 <= x < 0x1_0000
  type I32 = x: int | -0x8000_0000 <= x < 0x8000_0000
  type U32 = x: int | 0 <= x < 0x1_0000_0000
  type U64 = x: int | 0 <= x < 0x1_0000_0000_0000_0000

  function WrapI32(x: int): I32 {
    (x + 0x8000_0000) % 0x1_0000_0000 - 0x8000_0000
  }

  function WrapU32(x: int): U32 {
    x % 0x1_0000_0000
  }

  function WrapU64(x: int): U64 {
    x % 0x1_0000_0000_0000_0000
  }

  // ---------- words ----------

  lemma ManyTurns(x: int, turns: int)
    ensures (x + turns * 0x1_0000_0000) % 0x1_0000_0000 == x % 0x1_0000_0000
  {
    var low := x % 0x1_0000_0000;
    assert x + turns * 0x1_0000_0000 == (x / 0x1_0000_0000 + turns) * 0x1_0000_0000 + low;
  }

  /** A signed word is what it was, in 32 bits. */
  lemma WrapsBack(x: int) returns (turns: int)
    ensures WrapI32(x) == x + turns * 0x1_0000_0000 && WrapU32(WrapI32(x)) == WrapU32(x)
  {
    turns := -((x + 0x8000_0000) / 0x1_0000_0000);
    ManyTurns(x, turns);
  }

  lemma ThirtyTwoBits(x: int, y: int)
    ensures WrapU32(WrapI32(x)) == WrapU32(x)
    ensures WrapU32(WrapI32(x + WrapI32(y))) == WrapU32(x + y)
  {
    hide WrapI32;
    var _ := WrapsBack(x);
    var turns := WrapsBack(y);
    var _ := WrapsBack(x + WrapI32(y));
    ManyTurns(x + y, turns);
  }

  lemma TwoHalves(address: U64)
    ensures WrapU32(WrapI32(address % 0x1_0000_0000)) == address % 0x1_0000_0000
    ensures WrapU32(WrapI32(address / 0x1_0000_0000)) == address / 0x1_0000_0000
  {
    hide WrapI32;
    var _ := WrapsBack(address % 0x1_0000_0000);
    var _ := WrapsBack(address / 0x1_0000_0000);
  }

  // ---------- instructions ----------

  // The size in bytes of one instruction slot.
  const INS_SIZE: nat := 8

  // Instruction classes and operations.
  const BPF_JMP: bv8 := 0x05
  const BPF_CALL: bv8 := 0x80
  const BPF_K: bv8 := 0x00
  // BPF_LD | BPF_DW | BPF_IMM, the first slot of a 64-bit immediate load.
  const LD_IMM64: bv8 := 0x18
  // BPF_JMP | BPF_CALL, the opcode of every call.
  const CALL: bv8 := 0x85

  // Meanings of the source register field.
  const BPF_PSEUDO_CALL: bv4 := 1
  const BPF_PSEUDO_MAP_FD: bv4 := 1
  const BPF_PSEUDO_MAP_VALUE: bv4 := 2
  const BPF_PSEUDO_KFUNC_CALL: bv4 := 2
  const BPF_PSEUDO_BTF_ID: bv4 := 3
  const BPF_PSEUDO_FUNC: bv4 := 4

  datatype Insn = Insn(code: bv8, dst: bv4, src: bv4, off: int, imm: I32)

  /** Whether the instruction is a program-local call. */
  predicate IsCall(ins: Insn) {
    && ins.code & 0x07 == BPF_JMP
    && ins.code & 0xF0 == BPF_CALL
    && ins.code & 0x08 == BPF_K
    && ins.src == BPF_PSEUDO_CALL
    && ins.dst == 0
    && ins.off == 0
  }

  /** The three masks together pin down the whole opcode. */
  lemma IsCallOpcode(ins: Insn)
    ensures IsCall(ins) <==> ins.code == CALL && ins.src == BPF_PSEUDO_CALL && ins.dst == 0 && ins.off == 0
  {
  }
}
