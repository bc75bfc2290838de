/**
 * The instruction word `Inst` (src/main.rs:9-21) and the numbering of `AddrMode`
 * (src/main.rs:35-41). A word is 32 bits, most significant field first:
 *
 *   [addr_mode:2][opcode:6][reg_z:4][reg_x:4][operand:16]
 *
 * with the operand held as a 16-bit two's-complement value. Each field is reduced
 * modulo its width when packed.
 */
module Encoding {
  import opened Results
  import opened Defs

  /** Rust's `u32`: one instruction word. */
  type u32 = x: int | 0 <= x < 0x1_0000_0000

  /** The record `Inst`: each field as wide as its Rust type, not as its slot in the word. */
  datatype Inst = Inst(addrMode: u8, opcode: u8, regZ: u8, regX: u8, operand: i16)

  /** True iff every field fits its slot: 2, 6, 4 and 4 bits (the operand always fits). */
  predicate Fits(inst: Inst) {
    inst.addrMode < 4 && inst.opcode < 0x40 && inst.regZ < 0x10 && inst.regX < 0x10
  }

  /** The record as the word can hold it: every field reduced modulo its width. */
  function Truncate(inst: Inst): (t: Inst)
    ensures Fits(t)
    ensures Fits(inst) ==> t == inst
  {
    Inst(inst.addrMode % 4, inst.opcode % 0x40, inst.regZ % 0x10, inst.regX % 0x10, inst.operand)
  }

  /** The numbering of the addressing modes in the 2-bit field. */
  function AddrModeCode(m: AddrMode): (c: u8)
    ensures c < 4
    ensures AddrModeOfCode(c) == Some(m)
  {
    match m
    case Inh => 0
    case Imm => 1
    case Reg => 2
    case Dir => 3
  }

  /** The addressing mode a 2-bit code stands for; every code stands for one. */
  function AddrModeOfCode(c: u8): (r: Option<AddrMode>)
    ensures r.Some? <==> c < 4
  {
    if c == 0 then Some(Inh)
    else if c == 1 then Some(Imm)
    else if c == 2 then Some(Reg)
    else if c == 3 then Some(Dir)
    else None
  }

  /** Decoding a 2-bit code then encoding it gives the code back. */
  lemma AddrModeCodeOfCode(c: u8)
    requires c < 4
    ensures AddrModeOfCode(c).Some? && AddrModeCode(AddrModeOfCode(c).value) == c
  {
  }

  /** The 16-bit two's-complement pattern of an `i16`. */
  function OperandBits(v: i16): (b: nat)
    ensures b < 0x10000
    ensures OperandValue(b) == v
  {
    if v < 0 then v + 0x10000 else v
  }

  /** The `i16` a 16-bit pattern stands for. */
  function OperandValue(b: nat): (v: i16)
    requires b < 0x10000
    ensures (v < 0) == (b >= 0x8000)
  {
    if b >= 0x8000 then b - 0x10000 else b
  }

  /** Every 16-bit pattern is the pattern of the value it stands for. */
  lemma OperandBitsValue(b: nat)
    requires b < 0x10000
    ensures OperandBits(OperandValue(b)) == b
  {
  }

  /** The big-endian word of an instruction: its four serialised bytes, most significant first. */
  function Pack(inst: Inst): (w: u32)
    ensures w == LoadBe(ToBytes(inst))
  {
    (inst.addrMode % 4) * 0x4000_0000
    + (inst.opcode % 0x40) * 0x100_0000
    + (inst.regZ % 0x10) * 0x10_0000
    + (inst.regX % 0x10) * 0x1_0000
    + OperandBits(inst.operand)
  }

  /** The instruction a word holds, read off field by field from the least significant end. */
  function Unpack(w: u32): (inst: Inst)
    ensures Fits(inst)
    ensures Pack(inst) == w
  {
    var bits := w % 0x1_0000;
    var h := w / 0x1_0000;
    var h1 := h / 0x10;
    var h2 := h1 / 0x10;
    OperandBitsValue(bits);
    Inst(h2 / 0x40, h2 % 0x40, h1 % 0x10, h % 0x10, OperandValue(bits))
  }

  /** Division by 0x10 with remainder is unique. */
  lemma DivMod16(q: nat, r: nat)
    requires r < 0x10
    ensures (q * 0x10 + r) / 0x10 == q && (q * 0x10 + r) % 0x10 == r
  {
  }

  /** Division by 0x40 with remainder is unique. */
  lemma DivMod64(q: nat, r: nat)
    requires r < 0x40
    ensures (q * 0x40 + r) / 0x40 == q && (q * 0x40 + r) % 0x40 == r
  {
  }

  /** Division by 0x1_0000 with remainder is unique. */
  lemma DivMod65536(q: nat, r: nat)
    requires r < 0x1_0000
    ensures (q * 0x1_0000 + r) / 0x1_0000 == q && (q * 0x1_0000 + r) % 0x1_0000 == r
  {
  }

  /** Unpacking a packed instruction gives back each field modulo its width. */
  lemma UnpackPack(inst: Inst)
    ensures Unpack(Pack(inst)) == Truncate(inst)
  {
    var t := Truncate(inst);
    var bits := OperandBits(inst.operand);
    var h2 := t.addrMode * 0x40 + t.opcode;
    var h1 := h2 * 0x10 + t.regZ;
    var h := h1 * 0x10 + t.regX;
    assert Pack(inst) == h * 0x1_0000 + bits;
    DivMod65536(h, bits);
    DivMod16(h1, t.regX);
    DivMod16(h2, t.regZ);
    DivMod64(t.addrMode, t.opcode);
  }

  /** An instruction whose fields fit their slots survives packing and unpacking unchanged. */
  lemma RoundTrip(inst: Inst)
    requires Fits(inst)
    ensures Unpack(Pack(inst)) == inst
  {
    UnpackPack(inst);
  }

  /** The four bytes the record serialises to, each field written most significant bit first. */
  function ToBytes(inst: Inst): (bytes: seq<u8>)
    ensures |bytes| == 4
  {
    var bits := OperandBits(inst.operand);
    [ (inst.addrMode % 4) * 0x40 + inst.opcode % 0x40,
      (inst.regZ % 0x10) * 0x10 + inst.regX % 0x10,
      bits / 0x100,
      bits % 0x100 ]
  }

  /** Four bytes read as a big-endian word. */
  function LoadBe(bytes: seq<u8>): u32
    requires |bytes| == 4
  {
    ((bytes[0] as int * 0x100 + bytes[1]) * 0x100 + bytes[2]) * 0x100 + bytes[3]
  }

  /** The addressing mode written into a word is the one read back from it. */
  lemma AddrModeSurvives(inst: Inst, m: AddrMode)
    requires inst.addrMode == AddrModeCode(m)
    ensures AddrModeOfCode(Unpack(Pack(inst)).addrMode) == Some(m)
  {
    UnpackPack(inst);
  }
}
