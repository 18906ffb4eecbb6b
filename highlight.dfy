/**
 * The `Highlighter` capability of src/highlight.rs: its default (pass-through)
 * operations, the matching-bracket highlighter with its one-slot bracket
 * cache, and the forwarding through a mutable reference.
 *
 * Lines are `string`s holding one character per byte, as in module Brackets.
 */
module Highlight {
  import opened Wrappers
  import opened Styled
  import opened Brackets

  /** The escape character that starts every ANSI control sequence. */
  const Esc: char := '\U{1B}'

  /** SGR "bold" (1) and "blue foreground" (34), written around the matching bracket. */
  const BoldBlue: string := "\U{1B}[1;34m"

  /** SGR "reset" (0), closing the bold blue span. */
  const Reset: string := "\U{1B}[0m"

  // ---------------------------------------------------------------------
  // Default operations of the trait (used as they are by the unit
  // highlighter `()`)

  /** Default `highlight`: the line, unchanged, whatever the cursor. */
  function DefaultHighlight(line: string, pos: nat): (o: Output)
    ensures o.Plain? && Rendered(o) == line
  {
    Plain(line)
  }

  /** Default `highlight_prompt`: the prompt, unchanged. */
  function DefaultHighlightPrompt(prompt: string, isDefault: bool): (o: Output)
    ensures o.Plain? && Rendered(o) == prompt
  {
    Plain(prompt)
  }

  /** Default `highlight_hint`: the hint, unchanged. */
  function DefaultHighlightHint(hint: string): (o: Output)
    ensures o.Plain? && Rendered(o) == hint
  {
    Plain(hint)
  }

  /** Default `highlight_candidate`: the candidate, unchanged, whatever the completion type. */
  function DefaultHighlightCandidate<CompletionType>(candidate: string, completion: CompletionType): (o: Output)
    ensures o.Plain? && Rendered(o) == candidate
  {
    Plain(candidate)
  }

  /** Default `highlight_char`: never asks for a refresh. */
  function DefaultHighlightChar(line: string, pos: nat, forced: bool): (refresh: bool)
    ensures !refresh
  {
    false
  }

  // ---------------------------------------------------------------------
  // Rendering with the bracket cache

  /**
   * A cached `(bracket, position)` can be searched from in `line` without
   * slicing out of range: the backward search needs `pos <= |line|`, the
   * forward search `pos < |line|`.
   */
  predicate CacheFits(line: string, cache: Option<(char, nat)>)
  {
    cache.Some? ==> cache.value.1 <= |line| && (IsOpenBracket(cache.value.0) ==> cache.value.1 < |line|)
  }

  /**
   * What `MatchingBracketHighlighter::highlight` returns for `line` when the
   * cache holds `cache`: the line with the counterpart of the cached
   * bracket wrapped in bold blue, or the line unchanged.
   */
  function HighlightOf(line: string, cache: Option<(char, nat)>): (o: Output)
    requires |line| <= 1 || CacheFits(line, cache)
    ensures o.Plain?
  {
    if |line| <= 1 then Plain(line)
    else match cache
      case None => Plain(line)
      case Some((bracket, pos)) =>
        match MatchOf(line, pos, bracket)
        case None => Plain(line)
        case Some((m, idx)) => Plain(line[..idx] + BoldBlue + [m] + Reset + line[idx + 1..])
  }

  /**
   * The line comes back unchanged exactly when it is too short, the cache is
   * empty, or the cached bracket has no counterpart.
   */
  lemma HighlightUnchanged(line: string, cache: Option<(char, nat)>)
    requires |line| <= 1 || CacheFits(line, cache)
    ensures HighlightOf(line, cache) == Plain(line)
        <==> |line| <= 1 || cache.None? || MatchOf(line, cache.value.1, cache.value.0).None?
  {
    if |line| > 1 && cache.Some? {
      var r := MatchOf(line, cache.value.1, cache.value.0);
      if r.Some? {
        assert |HighlightOf(line, cache).text| == |line| + |BoldBlue| + |Reset|;
      }
    }
  }

  /**
   * When the line is decorated, the decorated byte is the partner of the
   * cached bracket, found after it for an opening bracket and before it for
   * a closing one, and nothing else of the line changes.
   */
  lemma HighlightWrapsCounterpart(line: string, cache: Option<(char, nat)>)
    requires |line| <= 1 || CacheFits(line, cache)
    requires HighlightOf(line, cache) != Plain(line)
    ensures |line| > 1 && cache.Some?
    ensures var (bracket, pos) := cache.value;
      && MatchOf(line, pos, bracket).Some?
      && var idx := MatchOf(line, pos, bracket).value.1;
      && idx < |line| && line[idx] == MatchingBracket(bracket)
      && (if IsOpenBracket(bracket) then pos < idx else idx < pos)
      && Rendered(HighlightOf(line, cache)) == line[..idx] + BoldBlue + [line[idx]] + Reset + line[idx + 1..]
  {
    var (bracket, pos) := cache.value;
    if IsOpenBracket(bracket) {
      MatchOfForward(line, pos, bracket);
    } else {
      MatchOfBackward(line, pos, bracket);
    }
  }

  /**
   * Removes every bold-blue and reset sequence from `s`: what a terminal
   * shows of `s`, for text that holds no other escape sequence.
   */
  function StripMarks(s: string): string
  {
    if s == [] then []
    else if BoldBlue <= s then StripMarks(s[|BoldBlue|..])
    else if Reset <= s then StripMarks(s[|Reset|..])
    else [s[0]] + StripMarks(s[1..])
  }

  /** Text without escape characters passes through `StripMarks` unchanged. */
  lemma {:induction false} StripClean(x: string, y: string)
    requires Esc !in x
    ensures StripMarks(x + y) == x + StripMarks(y)
  {
    if x != [] {
      var s := x + y;
      assert s[0] == x[0] != Esc;
      assert BoldBlue[0] == Esc && Reset[0] == Esc;
      assert !(BoldBlue <= s) && !(Reset <= s);
      assert s[1..] == x[1..] + y;
      StripClean(x[1..], y);
      assert x == [x[0]] + x[1..];
    } else {
      assert x + y == y;
    }
  }

  /** A mark at the front is dropped. */
  lemma StripMark(mark: string, y: string)
    requires mark == BoldBlue || mark == Reset
    ensures StripMarks(mark + y) == StripMarks(y)
  {
    var s := mark + y;
    assert s[..|mark|] == mark;
    if mark == BoldBlue {
      assert s[|BoldBlue|..] == y;
    } else {
      assert !(BoldBlue <= s) by {
        assert s[3] == Reset[3] != BoldBlue[3];
      }
      assert s[|Reset|..] == y;
    }
  }

  /** Stripping a byte followed by the reset sequence keeps the byte. */
  lemma StripClosed(c: char, post: string)
    requires Esc !in post && c != Esc
    ensures StripMarks([c] + (Reset + post)) == [c] + post
  {
    StripClean(post, []);
    assert post + [] == post;
    StripMark(Reset, post);
    StripClean([c], Reset + post);
  }

  /** Stripping a byte wrapped in bold blue gives back the plain text. */
  lemma StripDecorated(pre: string, c: char, post: string)
    requires Esc !in pre && Esc !in post && c != Esc
    ensures StripMarks(pre + BoldBlue + [c] + Reset + post) == pre + [c] + post
  {
    var t := [c] + (Reset + post);
    StripClosed(c, post);
    StripMark(BoldBlue, t);
    StripClean(pre, BoldBlue + t);
    assert pre + BoldBlue + [c] + Reset + post == pre + (BoldBlue + t);
    assert pre + ([c] + post) == pre + [c] + post;
  }

  /**
   * Stripping the marks from a decorated line gives back the line, so the
   * decoration never changes what is displayed nor its width.
   */
  lemma HighlightStripsBack(line: string, cache: Option<(char, nat)>)
    requires |line| <= 1 || CacheFits(line, cache)
    requires Esc !in line
    ensures StripMarks(Rendered(HighlightOf(line, cache))) == line
  {
    if HighlightOf(line, cache) == Plain(line) {
      StripClean(line, []);
      assert line + [] == line;
    } else {
      HighlightWrapsCounterpart(line, cache);
      var idx := MatchOf(line, cache.value.1, cache.value.0).value.1;
      assert line == line[..idx] + [line[idx]] + line[idx + 1..];
      StripDecorated(line[..idx], line[idx], line[idx + 1..]);
    }
  }

  // As in module Brackets, the scenario line is a parameter fixed by a
  // `requires`, which keeps the proofs stable across solver seeds.

  /** In `(a (b) c)` the first `(` is matched by the last byte. */
  lemma ScenarioMatch(l: string)
    requires l == "(a (b) c)"
    ensures MatchOf(l, 0, '(') == Some((')', 8))
  {
    ForwardDepthStep(l, 0, '(', 1);
    assert ForwardDepth(l, 0, '(', 1) == 1;
    ForwardDepthStep(l, 0, '(', 2);
    assert ForwardDepth(l, 0, '(', 2) == 1;
    ForwardDepthStep(l, 0, '(', 3);
    assert ForwardDepth(l, 0, '(', 3) == 2;
    ForwardDepthStep(l, 0, '(', 4);
    assert ForwardDepth(l, 0, '(', 4) == 2;
    ForwardDepthStep(l, 0, '(', 5);
    assert ForwardDepth(l, 0, '(', 5) == 1;
    ForwardDepthStep(l, 0, '(', 6);
    assert ForwardDepth(l, 0, '(', 6) == 1;
    ForwardDepthStep(l, 0, '(', 7);
    assert ForwardDepth(l, 0, '(', 7) == 1;
    ForwardDepthStep(l, 0, '(', 8);
    assert ForwardDepth(l, 0, '(', 8) == 0;
    assert FirstForward(l, 0, '(', 8) == Some(8);
    assert FirstForward(l, 0, '(', 5) == Some(8);
    assert FirstForward(l, 0, '(', 1) == Some(8);
  }

  /** The scenario `(a (b) c)` with the cursor on the first byte. */
  lemma HighlightScenario(l: string)
    requires l == "(a (b) c)"
    ensures AdjacentBracket(l, 0) == Some(('(', 0))
    ensures HighlightOf(l, Some(('(', 0))) == Plain("(a (b) c" + BoldBlue + ")" + Reset)
  {
    ScenarioMatch(l);
    assert l[..8] == "(a (b) c" && l[9..] == [];
  }

  // ---------------------------------------------------------------------
  // The matching-bracket highlighter

  /** `MatchingBracketHighlighter`: remembers the bracket next to the cursor. */
  class MatchingBracketHighlighter {
    /** The bracket to search from and its position, set by `highlight_char`. */
    var bracket: Option<(char, nat)>

    /** `new`: nothing cached yet. */
    constructor ()
      ensures bracket == None
    {
      bracket := None;
    }

    /** `line` may be rendered with the cached bracket. */
    predicate Fits(line: string)
      reads this
    {
      |line| <= 1 || CacheFits(line, bracket)
    }

    /**
     * `highlight_char`: a forced (final) refresh clears the cache and asks
     * for nothing; otherwise the bracket next to the cursor is cached, and a
     * refresh is asked for exactly when there is one.
     */
    method HighlightChar(line: string, pos: nat, forced: bool) returns (refresh: bool)
      modifies this
      ensures bracket == (if forced then None else AdjacentBracket(line, pos))
      ensures refresh == bracket.Some?
      ensures Fits(line)
    {
      if forced {
        bracket := None;
        return false;
      }
      bracket := CheckBracket(line, pos);
      refresh := bracket.Some?;
    }

    /**
     * `highlight`: decorates the counterpart of the cached bracket; reads
     * the cache without changing it.
     */
    method Highlight(line: string, pos: nat) returns (o: Output)
      requires Fits(line)
      ensures o == HighlightOf(line, bracket)
      ensures Esc !in line ==> StripMarks(Rendered(o)) == line
    {
      if Esc !in line {
        HighlightStripsBack(line, bracket);
      }
      if |line| <= 1 {
        return Plain(line);
      }
      if bracket.Some? {
        var (b, p) := bracket.value;
        var found := FindMatchingBracket(line, p, b);
        if found.Some? {
          var (matching, idx) := found.value;
          var copy := line[..idx] + BoldBlue + [matching] + Reset + line[idx + 1..];
          return Plain(copy);
        }
      }
      return Plain(line);
    }

    /** The prompt is left to the default. */
    method HighlightPrompt(prompt: string, isDefault: bool) returns (o: Output)
      ensures o == DefaultHighlightPrompt(prompt, isDefault)
    {
      o := DefaultHighlightPrompt(prompt, isDefault);
    }

    /** The hint is left to the default. */
    method HighlightHint(hint: string) returns (o: Output)
      ensures o == DefaultHighlightHint(hint)
    {
      o := DefaultHighlightHint(hint);
    }

    /** The completion candidate is left to the default. */
    method HighlightCandidate<CompletionType>(candidate: string, completion: CompletionType) returns (o: Output)
      ensures o == DefaultHighlightCandidate(candidate, completion)
    {
      o := DefaultHighlightCandidate(candidate, completion);
    }
  }

  /**
   * The `Highlighter` implementation for `&mut H`, here with `H` the
   * matching-bracket highlighter: every operation is passed to the target
   * and its answer returned as it is.
   */
  class HighlighterRef {
    const target: MatchingBracketHighlighter

    constructor (target: MatchingBracketHighlighter)
      ensures this.target == target
    {
      this.target := target;
    }

    method Highlight(line: string, pos: nat) returns (o: Output)
      requires target.Fits(line)
      ensures o == HighlightOf(line, target.bracket)
    {
      o := target.Highlight(line, pos);
    }

    method HighlightPrompt(prompt: string, isDefault: bool) returns (o: Output)
      ensures o == DefaultHighlightPrompt(prompt, isDefault)
    {
      o := target.HighlightPrompt(prompt, isDefault);
    }

    method HighlightHint(hint: string) returns (o: Output)
      ensures o == DefaultHighlightHint(hint)
    {
      o := target.HighlightHint(hint);
    }

    method HighlightCandidate<CompletionType>(candidate: string, completion: CompletionType) returns (o: Output)
      ensures o == DefaultHighlightCandidate(candidate, completion)
    {
      o := target.HighlightCandidate(candidate, completion);
    }

    method HighlightChar(line: string, pos: nat, forced: bool) returns (refresh: bool)
      modifies target
      ensures target.bracket == (if forced then None else AdjacentBracket(line, pos))
      ensures refresh == target.bracket.Some?
    {
      refresh := target.HighlightChar(line, pos, forced);
    }
  }

  /**
   * Refreshing and rendering twice without an edit in between renders the
   * same output twice, and a forced refresh leaves the line plain.
   */
  method RefreshTwice(h: MatchingBracketHighlighter, line: string, pos: nat)
    returns (first: Output, second: Output, final: Output)
    modifies h
    ensures first == second == HighlightOf(line, AdjacentBracket(line, pos))
    ensures final == Plain(line)
  {
    var _ := h.HighlightChar(line, pos, false);
    first := h.Highlight(line, pos);
    var _ := h.HighlightChar(line, pos, false);
    second := h.Highlight(line, pos);
    var _ := h.HighlightChar(line, pos, true);
    final := h.Highlight(line, pos);
  }
}
