/** The lexer's tokens and the first-character rule that classifies one space-separated piece (src/main.rs). */
module Tokens {

  /**
   * One lexical unit. `Reg`, `Imm` and `Dir` carry the piece without its sigil
   * (`r`, `#`, `$`); `Label` and `Opcode` carry the whole piece.
   */
  datatype Token =
    | Label(content: string)
    | Opcode(content: string)
    | Reg(content: string)
    | Imm(content: string)
    | Dir(content: string)

  /** True iff `c` is one of the three sigils that pick a token kind by themselves. */
  predicate IsSigil(c: char) {
    c == 'r' || c == '#' || c == '$'
  }

  /** The text a token stands for: its sigil put back in front of its content. */
  function Spelling(t: Token): string {
    match t
    case Label(s) => s
    case Opcode(s) => s
    case Reg(s) => ['r'] + s
    case Imm(s) => ['#'] + s
    case Dir(s) => ['$'] + s
  }

  /**
   * The tokens the lexer can produce: a label or opcode is a non-empty piece without a
   * leading sigil, distinguished by whether it ends in a colon; the other kinds carry any content.
   */
  predicate WellFormed(t: Token) {
    match t
    case Label(s) => |s| > 0 && !IsSigil(s[0]) && s[|s| - 1] == ':'
    case Opcode(s) => |s| > 0 && !IsSigil(s[0]) && s[|s| - 1] != ':'
    case _ => true
  }

  /** Classifies one non-empty piece by its first character, then (for the rest) by its last. */
  function Classify(piece: string): (t: Token)
    requires |piece| > 0
    ensures Spelling(t) == piece
    ensures WellFormed(t)
  {
    match piece[0]
    case 'r' => Reg(piece[1..])
    case '#' => Imm(piece[1..])
    case '$' => Dir(piece[1..])
    case _ => if piece[|piece| - 1] == ':' then Label(piece) else Opcode(piece)
  }

  /** Classification is the exact inverse of spelling on the tokens the lexer can produce. */
  lemma ClassifySpelling(t: Token)
    requires WellFormed(t)
    ensures |Spelling(t)| > 0 && Classify(Spelling(t)) == t
  {
    match t
    case Reg(s) => assert (['r'] + s)[1..] == s;
    case Imm(s) => assert (['#'] + s)[1..] == s;
    case Dir(s) => assert (['$'] + s)[1..] == s;
    case _ =>
  }
}
