/**
 * The lexer `lex` (src/main.rs:181-216): the text is trimmed and cut at line feeds, every
 * line is trimmed, blank lines are dropped, and each remaining line becomes the list of
 * tokens of its single-space-separated pieces.
 */
module Lexer {
  import opened Text
  import opened Tokens

  /**
   * Every piece of `line` is non-empty once trimmed. The lexer indexes the first
   * character of each piece, so a doubled space (an empty piece) would panic.
   */
  predicate PiecesNonEmpty(line: string) {
    var pieces := Split(line, ' ');
    forall j :: 0 <= j < |pieces| ==> |Trim(pieces[j])| > 0
  }

  /** A trimmed line the lexer can handle: a blank one (skipped) or one with no empty piece. */
  predicate LineLexable(line: string) {
    |line| == 0 || PiecesNonEmpty(line)
  }

  /** Every line can be lexed once trimmed. */
  predicate LinesLexable(lines: seq<string>) {
    forall k :: 0 <= k < |lines| ==> LineLexable(Trim(lines[k]))
  }

  /** The whole input can be lexed without a panic. */
  predicate Lexable(input: string) {
    LinesLexable(Split(Trim(input), '\n'))
  }

  /**
   * The non-blank lines, trimmed, in their original order: the lines that the lexer
   * turns into token lists.
   */
  function SelectLines(lines: seq<string>): (r: seq<string>)
    ensures |r| <= |lines|
    ensures forall k :: 0 <= k < |r| ==> |r[k]| > 0
    decreases |lines|
  {
    if |lines| == 0 then []
    else
      var line := Trim(lines[0]);
      var rest := SelectLines(lines[1..]);
      if |line| == 0 then rest else [line] + rest
  }

  /** Dropping the first line keeps the rest lexable. */
  lemma LinesLexableTail(lines: seq<string>)
    requires |lines| > 0 && LinesLexable(lines)
    ensures LineLexable(Trim(lines[0])) && LinesLexable(lines[1..])
  {
    forall k | 0 <= k < |lines[1..]|
      ensures LineLexable(Trim(lines[1..][k]))
    {
      assert lines[1..][k] == lines[k + 1];
    }
  }

  /** Each selected line of lexable lines has no empty piece. */
  lemma {:induction false} SelectLinesLexable(lines: seq<string>)
    requires LinesLexable(lines)
    ensures forall k :: 0 <= k < |SelectLines(lines)| ==> PiecesNonEmpty(SelectLines(lines)[k])
    decreases |lines|
  {
    if |lines| > 0 {
      LinesLexableTail(lines);
      SelectLinesLexable(lines[1..]);
    }
  }

  /** The non-blank trimmed lines of the whole input. */
  function NonBlankLines(input: string): seq<string> {
    SelectLines(Split(Trim(input), '\n'))
  }

  /**
   * One non-blank line to its tokens: one token per single-space-separated piece, each
   * piece trimmed and classified.
   */
  function LexLine(line: string): (r: seq<Token>)
    requires PiecesNonEmpty(line)
    ensures |r| == |Split(line, ' ')| && |r| > 0
    ensures forall j :: 0 <= j < |r| ==> Spelling(r[j]) == Trim(Split(line, ' ')[j])
    ensures forall j :: 0 <= j < |r| ==> WellFormed(r[j])
  {
    var pieces := Split(line, ' ');
    seq(|pieces|, j requires 0 <= j < |pieces| => Classify(Trim(pieces[j])))
  }

  /** The loop over the lines of `lex`: blank lines skipped, the others lexed in order. */
  function LexLines(lines: seq<string>): (r: seq<seq<Token>>)
    requires LinesLexable(lines)
    ensures |r| <= |lines|
    ensures forall k :: 0 <= k < |r| ==> |r[k]| > 0
    decreases |lines|
  {
    if |lines| == 0 then []
    else
      LinesLexableTail(lines);
      var line := Trim(lines[0]);
      if |line| == 0 then LexLines(lines[1..]) else [LexLine(line)] + LexLines(lines[1..])
  }

  /** `lex`: the token lists of the trimmed input's lines. */
  function Lex(input: string): (r: seq<seq<Token>>)
    requires Lexable(input)
    ensures |r| == |NonBlankLines(input)|
    ensures forall k :: 0 <= k < |r| ==> PiecesNonEmpty(NonBlankLines(input)[k])
    ensures forall k :: 0 <= k < |r| ==> r[k] == LexLine(NonBlankLines(input)[k])
  {
    LexLinesSelect(Split(Trim(input), '\n'));
    LexLines(Split(Trim(input), '\n'))
  }

  /**
   * Line selection: exactly one token list per non-blank trimmed line, in source order,
   * and it is the list of that line's pieces.
   */
  lemma {:induction false} LexLinesSelect(lines: seq<string>)
    requires LinesLexable(lines)
    ensures forall k :: 0 <= k < |SelectLines(lines)| ==> PiecesNonEmpty(SelectLines(lines)[k])
    ensures |LexLines(lines)| == |SelectLines(lines)|
    ensures forall k :: 0 <= k < |LexLines(lines)| ==> LexLines(lines)[k] == LexLine(SelectLines(lines)[k])
    decreases |lines|
  {
    SelectLinesLexable(lines);
    if |lines| > 0 {
      LinesLexableTail(lines);
      LexLinesSelect(lines[1..]);
    }
  }

  /** Joining two blocks of lexable lines gives lexable lines. */
  lemma LinesLexableAppend(a: seq<string>, b: seq<string>)
    requires LinesLexable(a) && LinesLexable(b)
    ensures LinesLexable(a + b)
  {
    forall k | 0 <= k < |a + b|
      ensures LineLexable(Trim((a + b)[k]))
    {
      if k < |a| {
        assert (a + b)[k] == a[k];
      } else {
        assert (a + b)[k] == b[k - |a|];
      }
    }
  }

  /** Lines are lexed independently: lexing two blocks of lines is lexing each and concatenating. */
  lemma {:induction false} LexLinesAppend(a: seq<string>, b: seq<string>)
    requires LinesLexable(a) && LinesLexable(b)
    ensures LinesLexable(a + b)
    ensures LexLines(a + b) == LexLines(a) + LexLines(b)
    decreases |a|
  {
    LinesLexableAppend(a, b);
    if |a| == 0 {
      assert a + b == b;
    } else {
      assert (a + b)[1..] == a[1..] + b;
      assert (a + b)[0] == a[0];
      LinesLexableTail(a);
      LexLinesAppend(a[1..], b);
    }
  }

  /** A line of whitespace only adds nothing, wherever it stands. */
  lemma BlankLineSkipped(a: seq<string>, blank: string, b: seq<string>)
    requires LinesLexable(a) && LinesLexable(b)
    requires AllWhitespace(blank)
    ensures LinesLexable(a + [blank] + b)
    ensures LexLines(a + [blank] + b) == LexLines(a) + LexLines(b)
  {
    var one := [blank];
    TrimBlank(blank);
    assert |Trim(one[0])| == 0;
    assert LinesLexable(one);
    assert one[1..] == [];
    assert LexLines(one) == [];
    LexLinesAppend(a, one);
    var front := LexLines(a + one);
    assert front == LexLines(a);
    LexLinesAppend(a + one, b);
  }
}
