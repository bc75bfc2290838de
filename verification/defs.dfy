/** The records and enumerations shared by the resolver, the validator and the encoder (src/main.rs:9-88). */
module Defs {
  import opened Results

  /** Rust's `u8`. */
  type u8 = x: int | 0 <= x < 0x100

  /** Rust's `i16`. */
  type i16 = x: int | -0x8000 <= x < 0x8000

  /**
   * One entry of the instruction table, keyed by mnemonic: the numeric opcode, the
   * number of arguments after the mnemonic, and one optional flag per addressing mode.
   */
  datatype Opcode = Opcode(
    opcode: u8,
    args: u8,
    inh: Option<bool>,
    imm: Option<bool>,
    reg: Option<bool>,
    dir: Option<bool>)

  /** The four addressing modes of the instruction set. */
  datatype AddrMode = Inh | Imm | Reg | Dir

  /** The assembler's error kinds. */
  datatype Error =
    | OpcodeExpected
    | OpcodeUndefined
    | RegExpected
    | OperandExpected
    | ArgsNumber
    | ImmInvalid
    | RegInvalid
    | DirInvalid
    | InhInvalid

  /** An error together with the index of the token list it was raised for. */
  datatype AsmError = AsmError(err: Error, line: nat)
}
