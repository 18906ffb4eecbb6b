# Matching-bracket highlighting of a line editor, in Dafny

This project models the syntax-highlighting core of the `rustyline` line
editor (`src/highlight.rs`), plus the two example helpers that drive it
(`examples/continuation_prompt.rs` and `examples/input_validation.rs`), and
proves properties of that model.

- **Styled output** (module `Styled`). A `Style` is the pair of texts written
  before and after a span. The unit style `()` has two empty texts. A
  highlighter returns an `Output`: either one already-decorated text (any
  `Display` value) or a sequence of `(style, text)` blocks (`StyledBlocks`).
  Rendering writes `start + text + end` for each block, in order. The sink is
  modelled as the returned string.
- **Bracket helpers** (module `Brackets`). `matching_bracket`,
  `is_open_bracket` and `is_close_bracket` are modelled as functions. The
  loops of `find_matching_bracket` and `check_bracket` are methods. Each method
  is proved equal to a specification function:
  - `MatchOf` is the first index at which the nesting counter reaches 0. The
    counter is defined by `Balance` over a slice of the line.
  - `AdjacentBracket` is the bracket under the cursor, or the one just before
    it.
  A line is a `string` holding one character per byte of its UTF-8 encoding.
  So `|line|` is the byte length, and positions are byte offsets, as in the
  source.
- **Highlighters** (module `Highlight`):
  - The trait's default operations are functions that return their text
    unchanged. The default `highlight_char` is `false`. The unit highlighter
    `()` uses exactly these defaults.
  - `MatchingBracketHighlighter` is a class. Its one-slot cache
    `bracket: Option<(char, nat)>` is written by `HighlightChar` and only read
    by `Highlight`.
  - `HighlighterRef` is the `&mut H` implementation. It forwards every call
    to its target.
- **Validators** (modules `ContinuationPrompt`, `InputValidation`):
  - The continuation helper keeps a parenthesis level and a `need_render`
    flag. It classifies its input by that level, and renders later lines
    behind a `"\n.. "` block.
  - The SELECT validator classifies its input by prefix and then by suffix.

Two behaviours of the code are stated exactly as written:

- Past the end of the line, `check_bracket` returns a closing last byte even
  when it is at index 0. So `check_bracket(")", 1)` is `Some((')', 0))`, unlike
  the at-cursor rule that skips a closing bracket at 0. `AdjacentBracket`'s
  contract allows exactly this case. `CheckBracketExamples` exhibits it. It is
  harmless: `highlight` returns lines of length at most 1 unchanged.
- Rendering does not clamp a cached position that is out of range for the
  line. The slicing in `find_matching_bracket` would panic. So `Highlight`
  requires the cache to fit the line (`CacheFits`). `HighlightChar` ensures
  that it does for the line it was given.

## Model

| member | source | states |
|---|---|---|
| `Styled.Fmt` | src/highlight.rs:112-125 | writing an output puts into the sink exactly its rendering: a plain value as it is, blocks as start token, text and end token each in order; with unit styles only the texts |
| `Styled.RenderBlocksFront` | src/highlight.rs:117-124 | the first block's start, text and end come first, followed by the rendering of the remaining blocks |
| `Styled.RenderBlocksAppend` | src/highlight.rs:117-124 | rendering two block sequences one after the other equals rendering their concatenation |
| `Styled.RenderUnitBlocks` | src/highlight.rs:127-135 | with the unit style (empty start and end tokens) rendering blocks yields just the concatenation of their texts |
| `Brackets.IsOpenBracket` | src/highlight.rs:438-440 | an opening bracket is an ASCII byte and never a closing bracket |
| `Brackets.IsCloseBracket` | src/highlight.rs:441-443 | a closing bracket is an ASCII byte and never an opening bracket |
| `Brackets.MatchingBracket` | src/highlight.rs:427-437 | swaps `()`, `[]` and `{}` (each bracket maps to its own partner of the same kind); opening brackets map to closing ones and back; exactly the six bracket bytes are changed, every other byte maps to itself |
| `Brackets.MatchingBracketExamples` | src/highlight.rs:479-480 | the unit-test vectors: `(` maps to `)` and `)` to `(` |
| `Brackets.MatchingBracketInvolution` | src/highlight.rs:427-437 | applying the bracket swap twice gives back the byte |
| `Brackets.OpenCloseDisjoint` | src/highlight.rs:438-443 | no byte is both an opening and a closing bracket |
| `Brackets.BalanceCounts` | src/highlight.rs:357-366 | the change of the unmatched counter over a stretch is the number of same brackets minus the number of partner brackets in it |
| `Brackets.FirstForward` | src/highlight.rs:357-368 | the forward search stops at the first index where the counter is zero, or runs to the end of the line when there is none |
| `Brackets.FirstBackward` | src/highlight.rs:374-385 | the backward search stops at the first index, going left, where the counter is zero, or runs to index 0 when there is none |
| `Brackets.ForwardStaysPositive` | src/highlight.rs:357-368 | a forward counter that starts at 1 and never hits 0 stays positive |
| `Brackets.BackwardStaysPositive` | src/highlight.rs:374-385 | a backward counter that starts at 1 and never hits 0 stays positive |
| `Brackets.MatchOf` | src/highlight.rs:349-389 | the value of the search: a match carries the partner byte of the bracket and lies inside the line, after the bracket for an opening one and before it otherwise |
| `Brackets.MatchOfForward` | src/highlight.rs:353-369 | from an opening bracket, a match lies after the bracket, holds its partner byte (the debug assertion), is where the counter over the bracket's own position through the match first reaches 0, and the counter is positive before; no match means the counter never reaches 0 before the end |
| `Brackets.MatchOfBackward` | src/highlight.rs:370-387 | from a closing bracket, a match lies before it, holds the partner byte, is the first index going left where the counter reaches 0; no match means it never does down to index 0 |
| `Brackets.FindMatchingBracket` | src/highlight.rs:349-389 | the counting loop returns the first depth-0 index of the search (forward from an opening bracket, backward otherwise) together with the partner byte, or none |
| `Brackets.FindMatchingBracketUnbalanced` | src/highlight.rs:450-451 | unbalanced lines give no match in either direction |
| `Brackets.FindMatchingBracketForward` | src/highlight.rs:453-459 | forward searches find the nested partner, e.g. position 3 in `(())` from 0 |
| `Brackets.FindMatchingBracketBackward` | src/highlight.rs:456-460 | backward searches find the nested partner, e.g. position 0 in `(())` from 3 |
| `Brackets.AdjacentBracket` | src/highlight.rs:392-425 | none on an empty line; a result is a bracket byte found at its index; an opening bracket is never the last byte; a closing bracket at 0 only past the end of a one-byte line; past the end only a closing last byte is seen; otherwise the byte under the cursor decides when it is a bracket, and only a non-bracket under the cursor lets the byte before it be taken |
| `Brackets.CheckBracket` | src/highlight.rs:392-425 | the loop that inspects the cursor byte and then at most the byte before it returns exactly the adjacent bracket |
| `Brackets.CheckBracketExamples` | src/highlight.rs:465-474 | the unit-test vectors of the adjacent-bracket finder, plus the one-byte `)` line past its end |
| `Highlight.DefaultHighlight` | src/highlight.rs:209-216 | the default line rendering writes the line unchanged |
| `Highlight.DefaultHighlightPrompt` | src/highlight.rs:220-227 | the default prompt rendering writes the prompt unchanged |
| `Highlight.DefaultHighlightHint` | src/highlight.rs:230-232 | the default hint rendering writes the hint unchanged |
| `Highlight.DefaultHighlightCandidate` | src/highlight.rs:237-244 | the default candidate rendering writes the candidate unchanged, whatever the completion type |
| `Highlight.DefaultHighlightChar` | src/highlight.rs:252-255 | the default refresh predicate never asks for a refresh |
| `Highlight.HighlightOf` | src/highlight.rs:319-336 | the bracket highlighter always returns a single text, never blocks |
| `Highlight.HighlightUnchanged` | src/highlight.rs:324-335 | the line comes back unchanged exactly when it has at most one byte, the cache is empty, or the cached bracket has no counterpart |
| `Highlight.HighlightWrapsCounterpart` | src/highlight.rs:328-333 | a changed line has the counterpart of the cached bracket (after it for an opening one, before it for a closing one) wrapped in the bold-blue and reset sequences, and every other byte in place |
| `Highlight.StripClean` | src/highlight.rs:331 | text without an escape character is not touched by removing the marks |
| `Highlight.StripMark` | src/highlight.rs:331 | a bold-blue or reset sequence at the front is removed |
| `Highlight.StripClosed` | src/highlight.rs:331 | removing the reset sequence after the decorated byte keeps the byte and the rest of the line |
| `Highlight.StripDecorated` | src/highlight.rs:331 | removing the two sequences around the decorated byte gives back the plain text |
| `Highlight.HighlightStripsBack` | src/highlight.rs:324-335 | for a line without escape characters, removing the escape sequences from the rendering gives back the line, so the displayed text and its width are unchanged |
| `Highlight.ScenarioMatch` | src/highlight.rs:349-369 | in `(a (b) c)` the search from the first `(` skips the nested pair and stops at index 8 |
| `Highlight.HighlightScenario` | src/highlight.rs:318-346 | with the cursor on the first `(` of `(a (b) c)` the cache holds `('(', 0)` and the rendering decorates the `)` at index 8 |
| `Highlight.MatchingBracketHighlighter.constructor` | src/highlight.rs:307-315 | a new highlighter has nothing cached |
| `Highlight.MatchingBracketHighlighter.HighlightChar` | src/highlight.rs:338-346 | forced: the cache is cleared and no refresh is asked for; otherwise the cache becomes the adjacent bracket and a refresh is asked for exactly when there is one; the cache then fits the line |
| `Highlight.MatchingBracketHighlighter.Highlight` | src/highlight.rs:319-336 | renders the line from the cache without changing it; for a line without an escape character, stripping the escape sequences gives back the line (the exact wrapped form, for every line, is `HighlightWrapsCounterpart`) |
| `Highlight.MatchingBracketHighlighter.HighlightPrompt` | src/highlight.rs:220-227 | the bracket highlighter keeps the default prompt rendering |
| `Highlight.MatchingBracketHighlighter.HighlightHint` | src/highlight.rs:230-232 | the bracket highlighter keeps the default hint rendering |
| `Highlight.MatchingBracketHighlighter.HighlightCandidate` | src/highlight.rs:237-244 | the bracket highlighter keeps the default candidate rendering |
| `Highlight.HighlighterRef.Highlight` | src/highlight.rs:261-267 | through the reference, the line rendering is the target's |
| `Highlight.HighlighterRef.HighlightPrompt` | src/highlight.rs:269-275 | through the reference, the prompt rendering is the target's |
| `Highlight.HighlighterRef.HighlightHint` | src/highlight.rs:277-279 | through the reference, the hint rendering is the target's |
| `Highlight.HighlighterRef.HighlightCandidate` | src/highlight.rs:281-287 | through the reference, the candidate rendering is the target's |
| `Highlight.HighlighterRef.HighlightChar` | src/highlight.rs:289-291 | through the reference, the refresh answer and the cache update are the target's |
| `Highlight.RefreshTwice` | src/highlight.rs:319-346 | refreshing and rendering twice with no edit between gives the same output twice; after a forced refresh the line renders plain |
| `InputValidation.Validate` | examples/input_validation.rs:9-20 | always succeeds; invalid with the "Expect: SELECT stmt" message exactly when the input does not start with SELECT, incomplete (0) when it does but does not end with `;`, valid with no message otherwise |
| `InputValidation.CompletedBySemicolon` | examples/input_validation.rs:12-17 | appending `;` to an incomplete statement makes it valid |
| `InputValidation.InvalidStaysInvalid` | examples/input_validation.rs:12-13 | once six characters are typed, a wrong prefix stays invalid whatever follows |
| `InputValidation.ValidateExamples` | examples/input_validation.rs:12-19 | the prefix is tested first: `x;` is invalid, not valid |
| `ContinuationPrompt.BracketLevel` | examples/continuation_prompt.rs:16-24 | the fold moves the level by at most one per character, so it stays between minus and plus the line's length |
| `ContinuationPrompt.BracketLevelCounts` | examples/continuation_prompt.rs:16-24 | the fold over the characters gives the number of `(` minus the number of `)` |
| `ContinuationPrompt.DecimalString` | examples/continuation_prompt.rs:34-37 | the excess count is written as decimal digits without leading zeros |
| `ContinuationPrompt.DecimalRoundTrip` | examples/continuation_prompt.rs:34-37 | reading the written digits back gives the count |
| `ContinuationPrompt.ValidationFor` | examples/continuation_prompt.rs:31-40 | a positive level is incomplete (2), a negative one invalid with the message naming the excess count, zero is valid with no message |
| `ContinuationPrompt.ValidationOfLine` | examples/continuation_prompt.rs:15-40 | after an edit the input is incomplete, invalid or valid exactly when it has more, fewer or as many `(` as `)` |
| `ContinuationPrompt.Split` | examples/continuation_prompt.rs:55 | splitting at newlines gives at least one piece, no piece holds a newline, and the first piece is the text before the first newline |
| `ContinuationPrompt.JoinSplit` | examples/continuation_prompt.rs:55-58 | joining the pieces with a separator is the text with each newline replaced by that separator |
| `ContinuationPrompt.ReplaceNewlinesByNewline` | examples/continuation_prompt.rs:55 | replacing each newline by a newline leaves the text unchanged |
| `ContinuationPrompt.SplitRoundTrip` | examples/continuation_prompt.rs:55 | splitting at newlines and joining with newlines gives back the text |
| `ContinuationPrompt.ContinuationTail` | examples/continuation_prompt.rs:58 | the later lines produce two unit-styled blocks each |
| `ContinuationPrompt.ContinuationTailAt` | examples/continuation_prompt.rs:58 | each later line's block comes right after its own prefix block |
| `ContinuationPrompt.ContinuationBlocks` | examples/continuation_prompt.rs:55-58 | all blocks carry the unit style, there are two per line minus one, and the first text is the part before the first newline |
| `ContinuationPrompt.ContinuationBlocksAt` | examples/continuation_prompt.rs:57-58 | later line `k` is block `2k`, preceded by the `"\n.. "` block |
| `ContinuationPrompt.TailTexts` | examples/continuation_prompt.rs:57-58 | the texts of the first line and the tail blocks join the lines with `"\n.. "` |
| `ContinuationPrompt.ContinuationRendering` | examples/continuation_prompt.rs:55-58 | the rendered blocks are the line with `"\n.. "` in place of every newline |
| `ContinuationPrompt.InputValidator.UpdateAfterEdit` | examples/continuation_prompt.rs:15-26 | the level becomes the count of `(` minus the count of `)` in the line, and a render is pending |
| `ContinuationPrompt.InputValidator.Validate` | examples/continuation_prompt.rs:30-41 | always succeeds with the classification of the current level; changes no field |
| `ContinuationPrompt.InputValidator.HighlightChar` | examples/continuation_prompt.rs:45-47 | the refresh answer is whether a render is pending; no field changes |
| `ContinuationPrompt.InputValidator.HighlightLine` | examples/continuation_prompt.rs:49-59 | returns the continuation blocks, which render as the line with `"\n.. "` after each newline; clears the pending render and keeps the level |

## Left out

- `DisplayOnce::print` and its stdout writer (src/highlight.rs:45-60) are I/O. The sink is modelled as the returned string.
- `Styled.Fmt`: the sink never reports a write error, so `fmt`'s `core::fmt::Result` is always success here.
- `Style for anstyle::Style` (src/highlight.rs:150-158) renders through a foreign library, so styles stay abstract pairs of texts.
- The `style` field of `MatchingBracketHighlighter` and the derived `Default` are left out. `highlight` never reads that field. Its escape text is the literal at src/highlight.rs:331, and that literal is modelled.
- Lifetimes, `impl Trait` returns, `Cow` (borrowed versus owned) and the consume-once typing of `DisplayOnce` are left out. Outputs are plain values.
- `Highlight.HighlighterRef`: the `&mut H` implementation is modelled for `H` = `MatchingBracketHighlighter` only. A generic `H` would need traits, which this model does not use.
- `CompletionType` belongs to a configuration module that is not part of this model. It is an opaque type parameter.
- The commented-out `ansi-str` implementations and the feature-gated `styled_text` test (src/highlight.rs:137-147, 173-185, 491-501) are left out.
- Every `main` function is left out, along with the editor, key bindings and terminal modes they drive.
- examples/read_password.rs is left out: its logic depends on Unicode display width and on terminal cursor visibility.
- examples/input_multiline.rs is left out: it is wiring through derive macros. `MatchingBracketValidator` is not part of this model.
- `Highlight.MatchingBracketHighlighter.Highlight` requires that the cached position fits the line. The source would panic on an out-of-range slice. It never clamps.
- `Brackets.FindMatchingBracket`: the `unmatched` counter is an unbounded integer here. The source uses `i32`, which could only overflow after 2^31 nested brackets.
- `ContinuationPrompt.InputValidator.UpdateAfterEdit`: `bracket_level` is an unbounded integer here. The source uses `i32`, where overflow, and negating `i32::MIN` in `validate`, would take more than 2^31 parentheses.
- UTF-8 is not decoded. A line is modelled as its bytes, one character each, which is what the byte-level scanning relies on. The continuation helper's character fold reads the same text as characters.
- `ValidationContext` is reduced to the input text it supplies. The library's `validate` module is not part of this model, beyond the `ValidationResult` shapes.
- `highlight_line` in examples/continuation_prompt.rs belongs to a `split-highlight` variant of the trait. That variant is not in src/highlight.rs. It is modelled as the example declares it.
