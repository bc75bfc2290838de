/**
 * The line validator `parse` (src/main.rs:260-289): every token list is checked in order
 * for a known leading mnemonic and the right number of arguments; the first failure ends
 * the run. No instruction is ever appended, so success yields the empty sequence.
 */
module Parser {
  import opened Results
  import opened Defs
  import T = Tokens
  import Resolver
  import Encoding
  import Lexer
  import Text

  /** Every token list has a first token (the lexer never produces an empty one). */
  predicate AllNonEmpty(tokens: seq<seq<T.Token>>) {
    forall k :: 0 <= k < |tokens| ==> |tokens[k]| > 0
  }

  /** The line passes: it starts with a mnemonic of the table and has that entry's argument count. */
  predicate Accepted(line: seq<T.Token>, opcodes: map<string, Opcode>)
    requires |line| > 0
  {
    && line[0].Opcode?
    && line[0].content in opcodes
    && opcodes[line[0].content].args == |line| - 1
  }

  /**
   * The checks of one loop iteration, with `i` the index of the token list: the table
   * entry of its mnemonic, or the first error among OpcodeExpected, OpcodeUndefined and
   * ArgsNumber.
   */
  function CheckLine(line: seq<T.Token>, opcodes: map<string, Opcode>, i: nat): (r: Result<Opcode, AsmError>)
    requires |line| > 0
    ensures r.Ok? <==> Accepted(line, opcodes)
    ensures r.Ok? ==> r.value == opcodes[line[0].content]
    ensures r.Err? ==> r.error.line == i
    ensures r.Err? ==> (r.error.err == OpcodeExpected <==> !line[0].Opcode?)
    ensures r.Err? ==> (r.error.err == OpcodeUndefined <==> line[0].Opcode? && line[0].content !in opcodes)
    ensures r.Err? ==> (r.error.err == ArgsNumber <==> line[0].Opcode? && line[0].content in opcodes)
  {
    match line[0]
    case Opcode(name) =>
      if name !in opcodes then Err(AsmError(OpcodeUndefined, i))
      else if opcodes[name].args != |line| - 1 then Err(AsmError(ArgsNumber, i))
      else Ok(opcodes[name])
    case _ => Err(AsmError(OpcodeExpected, i))
  }

  /**
   * The loop of `parse` from index `i` on. The addressing mode of the last token is
   * resolved and then dropped, and the scan of the middle arguments does nothing, so
   * neither affects the outcome.
   */
  function ParseFrom(tokens: seq<seq<T.Token>>, opcodes: map<string, Opcode>, i: nat): (r: Result<seq<Encoding.Inst>, AsmError>)
    requires AllNonEmpty(tokens)
    requires i <= |tokens|
    ensures r.Ok? <==> forall k :: i <= k < |tokens| ==> CheckLine(tokens[k], opcodes, k).Ok?
    ensures r.Ok? ==> r.value == []
    ensures r.Err? ==> i <= r.error.line < |tokens|
    ensures r.Err? ==> forall k :: i <= k < r.error.line ==> CheckLine(tokens[k], opcodes, k).Ok?
    ensures r.Err? ==> CheckLine(tokens[r.error.line], opcodes, r.error.line) == Err(r.error)
    decreases |tokens| - i
  {
    if i == |tokens| then Ok([])
    else
      var line := tokens[i];
      match CheckLine(line, opcodes, i)
      case Err(e) => Err(e)
      case Ok(op) =>
        var addrMode := Resolver.ParseAddrModeOperand(line[|line| - 1], op, i);
        ParseFrom(tokens, opcodes, i + 1)
  }

  /**
   * `parse`: succeeds (with no instructions) iff every line passes; otherwise fails with
   * the error of the first line that does not, and that error is never a resolver error.
   */
  function Parse(tokens: seq<seq<T.Token>>, opcodes: map<string, Opcode>): (r: Result<seq<Encoding.Inst>, AsmError>)
    requires AllNonEmpty(tokens)
    ensures r.Ok? <==> forall k :: 0 <= k < |tokens| ==> Accepted(tokens[k], opcodes)
    ensures r.Ok? ==> r.value == []
    ensures r.Err? ==> r.error.line < |tokens|
    ensures r.Err? ==> forall k :: 0 <= k < r.error.line ==> Accepted(tokens[k], opcodes)
    ensures r.Err? ==> !Accepted(tokens[r.error.line], opcodes)
    ensures r.Err? ==> CheckLine(tokens[r.error.line], opcodes, r.error.line) == Err(r.error)
    ensures r.Err? ==> r.error.err in {OpcodeExpected, OpcodeUndefined, ArgsNumber}
  {
    ParseFrom(tokens, opcodes, 0)
  }

  /**
   * Fail-fast: once a line fails, nothing after it is looked at; replacing every later
   * line leaves the outcome unchanged.
   */
  lemma LaterLinesIgnored(tokens: seq<seq<T.Token>>, later: seq<seq<T.Token>>, opcodes: map<string, Opcode>)
    requires AllNonEmpty(tokens) && AllNonEmpty(later)
    requires Parse(tokens, opcodes).Err?
    ensures var j := Parse(tokens, opcodes).error.line;
      && AllNonEmpty(tokens[..j + 1] + later)
      && Parse(tokens[..j + 1] + later, opcodes) == Parse(tokens, opcodes)
  {
    var r := Parse(tokens, opcodes);
    var j := r.error.line;
    var t := tokens[..j + 1] + later;
    assert forall k :: 0 <= k <= j ==> t[k] == tokens[k];
    assert AllNonEmpty(t) by {
      forall k | 0 <= k < |t|
        ensures |t[k]| > 0
      {
        if k > j {
          assert t[k] == later[k - j - 1];
        }
      }
    }
    var r' := Parse(t, opcodes);
    assert !Accepted(t[j], opcodes);
    assert r'.error.line == j;
    assert CheckLine(t[j], opcodes, j) == CheckLine(tokens[j], opcodes, j);
  }

  /** One argument too few or too many for a known mnemonic is an ArgsNumber error at that line. */
  lemma ArgumentCountExact(line: seq<T.Token>, opcodes: map<string, Opcode>, i: nat)
    requires |line| > 0 && line[0].Opcode? && line[0].content in opcodes
    requires |line| - 1 == opcodes[line[0].content].args + 1 || |line| - 1 == opcodes[line[0].content].args - 1
    ensures CheckLine(line, opcodes, i) == Err(AsmError(ArgsNumber, i))
  {
  }

  /**
   * End to end: lexing then validating fails at the first line with OpcodeExpected iff that
   * line's first piece is not a mnemonic, that is, it starts with `r`, `#` or `$`, or ends
   * with a colon (so a leading `name:` label is rejected).
   */
  lemma FirstPieceMustBeMnemonic(input: string, opcodes: map<string, Opcode>)
    requires Lexer.Lexable(input)
    requires |Lexer.NonBlankLines(input)| > 0
    ensures var first := Text.Trim(Text.Split(Lexer.NonBlankLines(input)[0], ' ')[0]);
      && |first| > 0
      && AllNonEmpty(Lexer.Lex(input))
      && (Parse(Lexer.Lex(input), opcodes) == Err(AsmError(OpcodeExpected, 0))
          <==> T.IsSigil(first[0]) || first[|first| - 1] == ':')
  {
    var line := Lexer.NonBlankLines(input)[0];
    var tokens := Lexer.Lex(input);
    var first := Text.Trim(Text.Split(line, ' ')[0]);
    assert tokens[0] == Lexer.LexLine(line);
    assert T.Spelling(tokens[0][0]) == first;
    T.ClassifySpelling(tokens[0][0]);
    var r := Parse(tokens, opcodes);
    if T.IsSigil(first[0]) || first[|first| - 1] == ':' {
      assert !tokens[0][0].Opcode?;
      assert !Accepted(tokens[0], opcodes);
      assert r.Err? && r.error.line == 0;
      assert CheckLine(tokens[0], opcodes, 0) == Err(r.error);
    }
  }
}
