/**
 * The addressing-mode resolver `parse_addr_mode_operand` (src/main.rs:218-258): the kind
 * of an instruction's last token, checked against the mode flags of its opcode.
 */
module Resolver {
  import opened Results
  import opened Defs
  import T = Tokens

  /** Rust's `flag.unwrap_or(false)`: an absent flag counts as false. */
  function Enabled(flag: Option<bool>): (b: bool)
    ensures b <==> flag == Some(true)
  {
    flag.GetOr(false)
  }

  /** The addressing mode a last token asks for: none for a label. */
  function RequestedMode(t: T.Token): Option<AddrMode> {
    match t
    case Reg(_) => Some(AddrMode.Reg)
    case Imm(_) => Some(AddrMode.Imm)
    case Dir(_) => Some(AddrMode.Dir)
    case Opcode(_) => Some(AddrMode.Inh)
    case Label(_) => None
  }

  /** True iff the opcode's flag for `m` is present and set. */
  predicate Supports(op: Opcode, m: AddrMode) {
    match m
    case Inh => Enabled(op.inh)
    case Imm => Enabled(op.imm)
    case Reg => Enabled(op.reg)
    case Dir => Enabled(op.dir)
  }

  /** The error that rejects a mode the opcode does not support. */
  function Unsupported(m: AddrMode): Error {
    match m
    case Inh => InhInvalid
    case Imm => ImmInvalid
    case Reg => RegInvalid
    case Dir => DirInvalid
  }

  /**
   * The resolver as evidently intended: a register, immediate or direct operand selects
   * its own mode, a bare mnemonic selects inherent mode, and each is accepted exactly
   * when the opcode enables that mode.
   */
  function ResolveAddrMode(operand: T.Token, op: Opcode, i: nat): (r: Result<AddrMode, AsmError>)
    ensures r.Ok? <==> RequestedMode(operand).Some? && Supports(op, RequestedMode(operand).value)
    ensures r.Ok? ==> RequestedMode(operand) == Some(r.value)
    ensures r.Err? ==> r.error.line == i
    ensures r.Err? && operand.Label? ==> r.error.err == OperandExpected
    ensures r.Err? && !operand.Label? ==> r.error.err == Unsupported(RequestedMode(operand).value)
  {
    match operand
    case Reg(_) => if Enabled(op.reg) then Ok(AddrMode.Reg) else Err(AsmError(RegInvalid, i))
    case Imm(_) => if Enabled(op.imm) then Ok(AddrMode.Imm) else Err(AsmError(ImmInvalid, i))
    case Dir(_) => if Enabled(op.dir) then Ok(AddrMode.Dir) else Err(AsmError(DirInvalid, i))
    case Opcode(_) => if Enabled(op.inh) then Ok(AddrMode.Inh) else Err(AsmError(InhInvalid, i))
    case Label(_) => Err(AsmError(OperandExpected, i))
  }

  /**
   * `parse_addr_mode_operand` as written. It agrees with the intended resolver on every
   * token except a direct one, which is gated by the `dir` flag but yields register mode,
   * and is rejected with `RegInvalid`.
   */
  function ParseAddrModeOperand(operand: T.Token, op: Opcode, i: nat): (r: Result<AddrMode, AsmError>)
    ensures !operand.Dir? ==> r == ResolveAddrMode(operand, op, i)
    ensures operand.Dir? ==> (r.Ok? <==> Supports(op, AddrMode.Dir))
    ensures operand.Dir? ==> (r.Ok? ==> r.value == AddrMode.Reg) && (r.Err? ==> r.error.err == RegInvalid)
    ensures r.Ok? ==> r.value != AddrMode.Dir
    ensures r.Err? ==> r.error.line == i && r.error.err != DirInvalid
  {
    match operand
    case Reg(_) => if Enabled(op.reg) then Ok(AddrMode.Reg) else Err(AsmError(RegInvalid, i))
    case Imm(_) => if Enabled(op.imm) then Ok(AddrMode.Imm) else Err(AsmError(ImmInvalid, i))
    case Dir(_) => if Enabled(op.dir) then Ok(AddrMode.Reg) else Err(AsmError(RegInvalid, i))
    case Opcode(_) => if Enabled(op.inh) then Ok(AddrMode.Inh) else Err(AsmError(InhInvalid, i))
    case Label(_) => Err(AsmError(OperandExpected, i))
  }

  /** The resolver as written differs from the intended one on exactly the direct tokens. */
  lemma AsWrittenDiffersOnDir(operand: T.Token, op: Opcode, i: nat)
    ensures ParseAddrModeOperand(operand, op, i) == ResolveAddrMode(operand, op, i) <==> !operand.Dir?
  {
  }

  /**
   * A concrete witness: `$10` with an opcode that enables only direct mode is accepted
   * in register mode, a mode that opcode does not enable.
   */
  lemma DirOperandResolvesToReg()
    ensures var op := Opcode(1, 1, None, None, None, Some(true));
      && ParseAddrModeOperand(T.Dir("10"), op, 0) == Ok(AddrMode.Reg)
      && !Supports(op, AddrMode.Reg)
      && ResolveAddrMode(T.Dir("10"), op, 0) == Ok(AddrMode.Dir)
  {
  }
}
