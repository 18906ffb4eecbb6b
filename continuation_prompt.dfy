/**
 * The helper of examples/continuation_prompt.rs: it keeps the parenthesis
 * level of the edited input, asks for input to continue while parentheses
 * are open, and renders every continuation line behind a `.. ` prompt.
 */
module ContinuationPrompt {
  import opened Wrappers
  import opened Styled
  import opened Validation

  /** The block put before every continuation line. */
  const ContinuationPrefix: string := "\n.. "

  // ---------------------------------------------------------------------
  // The parenthesis level

  /** One step of the fold: `(` opens a level, `)` closes one. */
  function LevelStep(level: int, c: char): int
  {
    if c == '(' then level + 1 else if c == ')' then level - 1 else level
  }

  /** The fold over the characters of `line`, from the left, starting at 0. */
  function BracketLevel(line: string): (level: int)
    ensures -|line| <= level <= |line|
  {
    if line == [] then 0 else LevelStep(BracketLevel(line[..|line| - 1]), line[|line| - 1])
  }

  /** The level is the number of `(` minus the number of `)`. */
  lemma {:induction false} BracketLevelCounts(line: string)
    ensures BracketLevel(line) == multiset(line)['('] as int - multiset(line)[')'] as int
  {
    if line != [] {
      var init, last := line[..|line| - 1], line[|line| - 1];
      assert line == init + [last];
      BracketLevelCounts(init);
    }
  }

  // ---------------------------------------------------------------------
  // Decimal formatting of the excess count

  function Digit(d: nat): (c: char)
    requires d < 10
    ensures '0' <= c <= '9' && c as int - '0' as int == d
  {
    ['0', '1', '2', '3', '4', '5', '6', '7', '8', '9'][d]
  }

  /** `{}` applied to a non-negative integer: its decimal digits, without leading zeros. */
  function DecimalString(n: nat): (s: string)
    ensures |s| >= 1 && (|s| > 1 ==> s[0] != '0')
    ensures forall i :: 0 <= i < |s| ==> '0' <= s[i] <= '9'
  {
    if n < 10 then [Digit(n)] else DecimalString(n / 10) + [Digit(n % 10)]
  }

  /** The number a string of decimal digits denotes. */
  function DecimalValue(s: string): nat
    requires forall i :: 0 <= i < |s| ==> '0' <= s[i] <= '9'
  {
    if s == [] then 0 else DecimalValue(s[..|s| - 1]) * 10 + (s[|s| - 1] as int - '0' as int)
  }

  /** Reading back the digits gives the number. */
  lemma {:induction false} DecimalRoundTrip(n: nat)
    ensures DecimalValue(DecimalString(n)) == n
  {
    if n >= 10 {
      var s := DecimalString(n);
      assert s[..|s| - 1] == DecimalString(n / 10);
      DecimalRoundTrip(n / 10);
    }
  }

  // ---------------------------------------------------------------------
  // Validation

  /**
   * The classification `validate` makes of a level: open parentheses ask
   * for more input, excess closing ones are rejected with their count, and
   * a balanced input is accepted.
   */
  function ValidationFor(level: int): (r: ValidationResult)
    ensures r.Incomplete? <==> level > 0
    ensures r.Invalid? <==> level < 0
    ensures r.Valid? <==> level == 0
    ensures r.Incomplete? ==> r == Incomplete(2)
    ensures r.Invalid? ==> r.message == Some(" - excess " + DecimalString(-level) + " close bracket")
    ensures r.Valid? ==> r.message == None
  {
    if level > 0 then Incomplete(2)
    else if level < 0 then
      Invalid(Some(" - excess " + DecimalString(-level) + " close bracket"))
    else Valid(None)
  }

  /** After an edit, the validation of the line follows its parentheses. */
  lemma ValidationOfLine(line: string)
    ensures var r := ValidationFor(BracketLevel(line));
      && (r.Incomplete? <==> multiset(line)['('] > multiset(line)[')'])
      && (r.Invalid? <==> multiset(line)['('] < multiset(line)[')'])
      && (r.Valid? <==> multiset(line)['('] == multiset(line)[')'])
  {
    BracketLevelCounts(line);
  }

  // ---------------------------------------------------------------------
  // Splitting into lines and the continuation blocks

  /**
   * `str::split('\n')`: the pieces between the newlines, always at least
   * one; the first is the longest prefix without a newline.
   */
  function Split(s: string): (parts: seq<string>)
    ensures |parts| >= 1
    ensures forall k :: 0 <= k < |parts| ==> '\n' !in parts[k]
    ensures parts[0] <= s && (|parts[0]| < |s| ==> s[|parts[0]|] == '\n')
  {
    if s == [] then [""]
    else
      var rest := Split(s[1..]);
      if s[0] == '\n' then [""] + rest
      else [[s[0]] + rest[0]] + rest[1..]
  }

  /** The pieces joined with `sep` between neighbours. */
  function JoinWith(parts: seq<string>, sep: string): string
    requires |parts| >= 1
  {
    if |parts| == 1 then parts[0] else parts[0] + sep + JoinWith(parts[1..], sep)
  }

  /** `s` with every newline replaced by `sep`. */
  function ReplaceNewlines(s: string, sep: string): string
  {
    if s == [] then [] else (if s[0] == '\n' then sep else [s[0]]) + ReplaceNewlines(s[1..], sep)
  }

  /** Joining the pieces of a split with `sep` replaces the newlines by `sep`. */
  lemma {:induction false} JoinSplit(s: string, sep: string)
    ensures JoinWith(Split(s), sep) == ReplaceNewlines(s, sep)
  {
    if s != [] {
      var rest := Split(s[1..]);
      JoinSplit(s[1..], sep);
      if s[0] != '\n' {
        var parts := Split(s);
        assert parts[1..] == rest[1..];
        if |rest| > 1 {
          assert rest == [rest[0]] + rest[1..];
        }
      } else {
        assert Split(s)[1..] == rest;
      }
    }
  }

  /** Replacing newlines by newlines changes nothing. */
  lemma {:induction false} ReplaceNewlinesByNewline(s: string)
    ensures ReplaceNewlines(s, "\n") == s
  {
    if s != [] {
      ReplaceNewlinesByNewline(s[1..]);
      assert s == [s[0]] + s[1..];
    }
  }

  /** Splitting at newlines and joining with newlines gives back the text. */
  lemma SplitRoundTrip(s: string)
    ensures JoinWith(Split(s), "\n") == s
  {
    JoinSplit(s, "\n");
    ReplaceNewlinesByNewline(s);
  }

  /** For every later line: the prefix block, then the line, all unit-styled. */
  function ContinuationTail(lines: seq<string>): (bs: seq<Block>)
    ensures AllUnit(bs) && |bs| == 2 * |lines|
  {
    if lines == [] then []
    else [Block(Unit, ContinuationPrefix), Block(Unit, lines[0])] + ContinuationTail(lines[1..])
  }

  /** The `k`-th later line sits at `2k + 1`, right behind its prefix block. */
  lemma {:induction false} ContinuationTailAt(lines: seq<string>, k: nat)
    requires k < |lines|
    ensures ContinuationTail(lines)[2 * k] == Block(Unit, ContinuationPrefix)
    ensures ContinuationTail(lines)[2 * k + 1] == Block(Unit, lines[k])
  {
    if k > 0 {
      ContinuationTailAt(lines[1..], k - 1);
      assert 2 * k == 2 * (k - 1) + 2;
    }
  }

  /** The blocks of `highlight_line`: the first line, then each later line behind the prefix. */
  function ContinuationBlocks(line: string): (bs: seq<Block>)
    ensures AllUnit(bs)
    ensures |bs| == 2 * |Split(line)| - 1
    ensures bs[0].text == Split(line)[0]
  {
    var lines := Split(line);
    [Block(Unit, lines[0])] + ContinuationTail(lines[1..])
  }

  /**
   * Layout of the blocks: every later line `k` of the input is block `2k`,
   * preceded by the continuation prefix at `2k - 1`.
   */
  lemma ContinuationBlocksAt(line: string, k: nat)
    requires 1 <= k < |Split(line)|
    ensures ContinuationBlocks(line)[2 * k - 1] == Block(Unit, ContinuationPrefix)
    ensures ContinuationBlocks(line)[2 * k] == Block(Unit, Split(line)[k])
  {
    var lines := Split(line);
    ContinuationTailAt(lines[1..], k - 1);
    assert 2 * k - 1 == 2 * (k - 1) + 1;
  }

  lemma {:induction false} TailTexts(first: string, lines: seq<string>)
    ensures first + Texts(ContinuationTail(lines)) == JoinWith([first] + lines, ContinuationPrefix)
    decreases |lines|
  {
    if lines != [] {
      var bs := ContinuationTail(lines);
      assert bs[2..] == ContinuationTail(lines[1..]);
      TailTexts(lines[0], lines[1..]);
      assert ([first] + lines)[1..] == [lines[0]] + lines[1..];
    } else {
      assert [first] + lines == [first];
    }
  }

  /**
   * What the blocks of `highlight_line` write: the line with every newline
   * followed by the continuation prompt `.. `.
   */
  lemma ContinuationRendering(line: string)
    ensures RenderBlocks(ContinuationBlocks(line)) == ReplaceNewlines(line, ContinuationPrefix)
  {
    var lines := Split(line);
    var bs := ContinuationBlocks(line);
    RenderUnitBlocks(bs);
    assert bs[1..] == ContinuationTail(lines[1..]);
    TailTexts(lines[0], lines[1..]);
    assert [lines[0]] + lines[1..] == lines;
    JoinSplit(line, ContinuationPrefix);
  }

  // ---------------------------------------------------------------------
  // The helper

  /** The helper `InputValidator` of the example. */
  class InputValidator {
    /** Number of `(` minus number of `)` in the input. */
    var bracketLevel: int
    /** Whether the input changed since it was last rendered. */
    var needRender: bool

    constructor (bracketLevel: int, needRender: bool)
      ensures this.bracketLevel == bracketLevel && this.needRender == needRender
    {
      this.bracketLevel := bracketLevel;
      this.needRender := needRender;
    }

    /** `update_after_edit`: recounts the level and asks for rendering. */
    method UpdateAfterEdit(line: string, pos: nat, forcedRefresh: bool)
      modifies this
      ensures bracketLevel == BracketLevel(line)
      ensures bracketLevel == multiset(line)['('] as int - multiset(line)[')'] as int
      ensures needRender
    {
      bracketLevel := BracketLevel(line);
      BracketLevelCounts(line);
      needRender := true;
    }

    /** `validate`: classifies the current level; never fails, changes nothing. */
    method Validate() returns (r: Result<ValidationResult, ReadlineError>)
      ensures r == Ok(ValidationFor(bracketLevel))
    {
      r := Ok(ValidationFor(bracketLevel));
    }

    /** `highlight_char`: asks for a refresh exactly when an edit is pending. */
    method HighlightChar(line: string, pos: nat, forced: bool) returns (refresh: bool)
      ensures refresh == needRender
    {
      refresh := needRender;
    }

    /**
     * `highlight_line`: the first line, then every later line behind the
     * continuation prefix, all with the unit style; the pending edit is
     * marked as rendered.
     */
    method HighlightLine(line: string, pos: nat) returns (blocks: seq<Block>)
      modifies this
      ensures blocks == ContinuationBlocks(line)
      ensures RenderBlocks(blocks) == ReplaceNewlines(line, ContinuationPrefix)
      ensures !needRender && bracketLevel == old(bracketLevel)
    {
      var lines := Split(line);
      needRender := false;
      blocks := [Block(Unit, lines[0])] + ContinuationTail(lines[1..]);
      ContinuationRendering(line);
    }
  }
}
