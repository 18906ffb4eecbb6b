/**
 * The byte-level bracket helpers of src/highlight.rs: classifying brackets,
 * finding the bracket next to the cursor and searching for its counterpart.
 *
 * A line is a `string` holding one character per byte of its UTF-8 encoding,
 * so `|line|` is the byte length and positions are byte offsets. Only the
 * ASCII brackets `(){}[]` are ever matched.
 */
module Brackets {
  import opened Wrappers

  /**
   * `is_open_bracket`. Every bracket is an ASCII byte, which never occurs
   * inside a multi-byte UTF-8 sequence, so scanning bytes is safe.
   */
  predicate IsOpenBracket(c: char)
    ensures IsOpenBracket(c) ==> c as int < 128 && c != '}' && c != ']' && c != ')'
  {
    c == '{' || c == '[' || c == '('
  }

  /** `is_close_bracket`; like the opening brackets, only ASCII bytes. */
  predicate IsCloseBracket(c: char)
    ensures IsCloseBracket(c) ==> c as int < 128 && c != '{' && c != '[' && c != '('
  {
    c == '}' || c == ']' || c == ')'
  }

  predicate IsBracket(c: char)
  {
    IsOpenBracket(c) || IsCloseBracket(c)
  }

  /** `matching_bracket`: swaps each bracket with its partner, keeps every other byte. */
  function MatchingBracket(c: char): (m: char)
    ensures IsOpenBracket(c) <==> IsCloseBracket(m)
    ensures IsCloseBracket(c) <==> IsOpenBracket(m)
    ensures m == c <==> !IsBracket(c)
    ensures IsBracket(c) ==> [c, m] in {"()", ")(", "[]", "][", "{}", "}{"}
  {
    match c
    case '{' => '}'
    case '}' => '{'
    case '[' => ']'
    case ']' => '['
    case '(' => ')'
    case ')' => '('
    case _ => c
  }

  /** The unit tests of `matching_bracket`. */
  lemma MatchingBracketExamples()
    ensures MatchingBracket('(') == ')' && MatchingBracket(')') == '('
  {
  }

  /** Applying `matching_bracket` twice gives back the byte. */
  lemma MatchingBracketInvolution(c: char)
    ensures MatchingBracket(MatchingBracket(c)) == c
  {
  }

  /** No byte is both an opening and a closing bracket. */
  lemma OpenCloseDisjoint(c: char)
    ensures !(IsOpenBracket(c) && IsCloseBracket(c))
  {
  }

  // ---------------------------------------------------------------------
  // Nesting depth

  /**
   * How one byte moves the unmatched counter of a search for the partner of
   * `bracket`: the partner closes one level (it is tested first), another
   * `bracket` opens one.
   */
  function Step(c: char, bracket: char): int
  {
    if c == MatchingBracket(bracket) then -1 else if c == bracket then 1 else 0
  }

  /** The net change of the unmatched counter over the bytes of `s`. */
  function Balance(s: string, bracket: char): int
  {
    if s == [] then 0 else Balance(s[..|s| - 1], bracket) + Step(s[|s| - 1], bracket)
  }

  lemma {:induction false} BalanceAppend(a: string, b: string, bracket: char)
    ensures Balance(a + b, bracket) == Balance(a, bracket) + Balance(b, bracket)
    decreases |b|
  {
    if b == [] {
      assert a + b == a;
    } else {
      assert (a + b)[..|a + b| - 1] == a + b[..|b| - 1];
      BalanceAppend(a, b[..|b| - 1], bracket);
    }
  }

  /**
   * For a real bracket the balance is the number of copies of the bracket
   * minus the number of copies of its partner.
   */
  lemma {:induction false} BalanceCounts(s: string, bracket: char)
    requires IsBracket(bracket)
    ensures Balance(s, bracket) == multiset(s)[bracket] as int - multiset(s)[MatchingBracket(bracket)] as int
  {
    if s != [] {
      var init, last := s[..|s| - 1], s[|s| - 1];
      assert s == init + [last];
      BalanceCounts(init, bracket);
    }
  }

  /**
   * The unmatched counter of the forward search from an opening bracket at
   * `pos`, once the byte at `i` has been read: one for the bracket itself
   * plus the balance of `line[pos+1..=i]`.
   */
  function ForwardDepth(line: string, pos: nat, bracket: char, i: nat): int
    requires pos < i < |line|
  {
    1 + Balance(line[pos + 1..i + 1], bracket)
  }

  /**
   * The unmatched counter of the backward search from a closing bracket at
   * `pos`, once the byte at `i` has been read: one plus the balance of
   * `line[i..pos]`.
   */
  function BackwardDepth(line: string, pos: nat, bracket: char, i: nat): int
    requires i < pos <= |line|
  {
    1 + Balance(line[i..pos], bracket)
  }

  /** The first index at or after `i` where the forward counter is zero. */
  function FirstForward(line: string, pos: nat, bracket: char, i: nat): (r: Option<nat>)
    requires pos < i <= |line|
    ensures r.Some? ==> i <= r.value < |line| && ForwardDepth(line, pos, bracket, r.value) == 0
    ensures r.Some? ==> forall j :: i <= j < r.value ==> ForwardDepth(line, pos, bracket, j) != 0
    ensures r.None? ==> forall j :: i <= j < |line| ==> ForwardDepth(line, pos, bracket, j) != 0
    decreases |line| - i
  {
    if i == |line| then None
    else if ForwardDepth(line, pos, bracket, i) == 0 then Some(i)
    else FirstForward(line, pos, bracket, i + 1)
  }

  /** The first index at or before `i`, going leftwards, where the backward counter is zero. */
  function FirstBackward(line: string, pos: nat, bracket: char, i: int): (r: Option<nat>)
    requires -1 <= i < pos <= |line|
    ensures r.Some? ==> r.value <= i && BackwardDepth(line, pos, bracket, r.value) == 0
    ensures r.Some? ==> forall j :: r.value < j <= i ==> BackwardDepth(line, pos, bracket, j) != 0
    ensures r.None? ==> forall j :: 0 <= j <= i ==> BackwardDepth(line, pos, bracket, j) != 0
    decreases i + 1
  {
    if i < 0 then None
    else if BackwardDepth(line, pos, bracket, i) == 0 then Some(i)
    else FirstBackward(line, pos, bracket, i - 1)
  }

  /** A forward counter that has never been zero has stayed positive. */
  lemma {:induction false} ForwardStaysPositive(line: string, pos: nat, bracket: char, i: nat)
    requires pos < i < |line|
    requires forall j :: pos < j <= i ==> ForwardDepth(line, pos, bracket, j) != 0
    ensures forall j :: pos < j <= i ==> ForwardDepth(line, pos, bracket, j) > 0
    decreases i
  {
    if i > pos + 1 {
      ForwardStaysPositive(line, pos, bracket, i - 1);
    }
    ForwardDepthStep(line, pos, bracket, i);
  }

  /** Reading the byte at `i` moves the forward counter by that byte's step. */
  lemma ForwardDepthStep(line: string, pos: nat, bracket: char, i: nat)
    requires pos < i < |line|
    ensures ForwardDepth(line, pos, bracket, i)
         == (if i == pos + 1 then 1 else ForwardDepth(line, pos, bracket, i - 1)) + Step(line[i], bracket)
  {
    var s := line[pos + 1..i + 1];
    assert s[|s| - 1] == line[i];
    assert s[..|s| - 1] == line[pos + 1..i];
    assert Balance(s, bracket) == Balance(line[pos + 1..i], bracket) + Step(line[i], bracket);
    if i == pos + 1 {
      assert line[pos + 1..i] == [];
    }
  }

  /** Reading the byte at `i` moves the backward counter by that byte's step. */
  lemma BackwardDepthStep(line: string, pos: nat, bracket: char, i: nat)
    requires i < pos <= |line|
    ensures BackwardDepth(line, pos, bracket, i)
         == (if i + 1 == pos then 1 else BackwardDepth(line, pos, bracket, i + 1)) + Step(line[i], bracket)
  {
    assert line[i..pos] == [line[i]] + line[i + 1..pos];
    BalanceAppend([line[i]], line[i + 1..pos], bracket);
    assert [line[i]][..0] == [];
    if i + 1 == pos {
      assert line[i + 1..pos] == [];
    }
  }

  /** A backward counter that has never been zero has stayed positive. */
  lemma {:induction false} BackwardStaysPositive(line: string, pos: nat, bracket: char, i: nat)
    requires i < pos <= |line|
    requires forall j :: i <= j < pos ==> BackwardDepth(line, pos, bracket, j) != 0
    ensures forall j :: i <= j < pos ==> BackwardDepth(line, pos, bracket, j) > 0
    decreases pos - i
  {
    if i + 1 < pos {
      BackwardStaysPositive(line, pos, bracket, i + 1);
    }
    BackwardDepthStep(line, pos, bracket, i);
  }

  // ---------------------------------------------------------------------
  // find_matching_bracket

  /**
   * What `find_matching_bracket(line, pos, bracket)` returns: the partner
   * byte and the first index, scanning forward from an opening bracket or
   * backward from anything else, at which the unmatched counter drops to 0.
   */
  function MatchOf(line: string, pos: nat, bracket: char): (r: Option<(char, nat)>)
    requires pos <= |line|
    requires IsOpenBracket(bracket) ==> pos < |line|
    ensures r.Some? ==> r.value.0 == MatchingBracket(bracket) && r.value.1 < |line|
    ensures r.Some? ==> if IsOpenBracket(bracket) then pos < r.value.1 else r.value.1 < pos
  {
    var found :=
      if IsOpenBracket(bracket) then FirstForward(line, pos, bracket, pos + 1)
      else FirstBackward(line, pos, bracket, pos - 1);
    if found.Some? then Some((MatchingBracket(bracket), found.value)) else None
  }

  /**
   * The forward search: a match is the first index after `pos` where the
   * counter reaches 0, it holds the partner byte, and the counter stays
   * positive before it; no match means the counter never reaches 0.
   */
  lemma MatchOfForward(line: string, pos: nat, bracket: char)
    requires pos < |line| && IsOpenBracket(bracket)
    ensures var r := MatchOf(line, pos, bracket);
      && (r.Some? ==>
            && pos < r.value.1 < |line|
            && r.value.0 == MatchingBracket(bracket) && line[r.value.1] == r.value.0
            && ForwardDepth(line, pos, bracket, r.value.1) == 0
            && forall j :: pos < j < r.value.1 ==> ForwardDepth(line, pos, bracket, j) > 0)
      && (r.None? ==> forall j :: pos < j < |line| ==> ForwardDepth(line, pos, bracket, j) > 0)
  {
    var r := MatchOf(line, pos, bracket);
    if r.Some? {
      var i := r.value.1;
      if i > pos + 1 {
        ForwardStaysPositive(line, pos, bracket, i - 1);
      }
      ForwardDepthStep(line, pos, bracket, i);
    } else if pos + 1 < |line| {
      ForwardStaysPositive(line, pos, bracket, |line| - 1);
    }
  }

  /**
   * The backward search: a match is the first index before `pos`, going
   * leftwards, where the counter reaches 0, it holds the partner byte, and
   * the counter stays positive between it and `pos`; no match means the
   * counter never reaches 0 down to index 0.
   */
  lemma MatchOfBackward(line: string, pos: nat, bracket: char)
    requires pos <= |line| && !IsOpenBracket(bracket)
    ensures var r := MatchOf(line, pos, bracket);
      && (r.Some? ==>
            && r.value.1 < pos
            && r.value.0 == MatchingBracket(bracket) && line[r.value.1] == r.value.0
            && BackwardDepth(line, pos, bracket, r.value.1) == 0
            && forall j :: r.value.1 < j < pos ==> BackwardDepth(line, pos, bracket, j) > 0)
      && (r.None? ==> forall j :: 0 <= j < pos ==> BackwardDepth(line, pos, bracket, j) > 0)
  {
    var r := MatchOf(line, pos, bracket);
    if r.Some? {
      var i := r.value.1;
      if i + 1 < pos {
        BackwardStaysPositive(line, pos, bracket, i + 1);
      }
      BackwardDepthStep(line, pos, bracket, i);
    } else if 0 < pos {
      BackwardStaysPositive(line, pos, bracket, 0);
    }
  }

  /**
   * `find_matching_bracket`: scans forward from an opening bracket, or
   * backward from a closing one, keeping the count of unmatched brackets.
   */
  method FindMatchingBracket(line: string, pos: nat, bracket: char) returns (r: Option<(char, nat)>)
    requires pos <= |line|
    requires IsOpenBracket(bracket) ==> pos < |line|
    ensures r == MatchOf(line, pos, bracket)
    ensures r.Some? ==> r.value.1 < |line| && line[r.value.1] == r.value.0 == MatchingBracket(bracket)
    ensures r.Some? ==> if IsOpenBracket(bracket) then pos < r.value.1 else r.value.1 < pos
  {
    var matching := MatchingBracket(bracket);
    var unmatched := 1;
    var idx: nat;
    if IsOpenBracket(bracket) {
      MatchOfForward(line, pos, bracket);
      idx := pos + 1;
      while idx < |line|
        invariant pos < idx <= |line|
        invariant unmatched == (if idx == pos + 1 then 1 else ForwardDepth(line, pos, bracket, idx - 1))
        invariant FirstForward(line, pos, bracket, pos + 1) == FirstForward(line, pos, bracket, idx)
      {
        var b := line[idx];
        ForwardDepthStep(line, pos, bracket, idx);
        if b == matching {
          unmatched := unmatched - 1;
          if unmatched == 0 {
            return Some((matching, idx));
          }
        } else if b == bracket {
          unmatched := unmatched + 1;
        }
        idx := idx + 1;
      }
    } else {
      MatchOfBackward(line, pos, bracket);
      idx := pos;
      while idx > 0
        invariant idx <= pos
        invariant unmatched == (if idx == pos then 1 else BackwardDepth(line, pos, bracket, idx))
        invariant FirstBackward(line, pos, bracket, pos - 1) == FirstBackward(line, pos, bracket, idx - 1)
      {
        var b := line[idx - 1];
        BackwardDepthStep(line, pos, bracket, idx - 1);
        if b == matching {
          unmatched := unmatched - 1;
          if unmatched == 0 {
            return Some((matching, idx - 1));
          }
        } else if b == bracket {
          unmatched := unmatched + 1;
        }
        idx := idx - 1;
      }
    }
    return None;
  }

  // ---------------------------------------------------------------------
  // check_bracket

  /**
   * Whether the bracket at `p` may seed a search: a closing bracket needs
   * something before it, an opening bracket something after it.
   */
  predicate Seeds(line: string, p: nat)
    requires p < |line|
  {
    (IsCloseBracket(line[p]) && p > 0) || (IsOpenBracket(line[p]) && p + 1 < |line|)
  }

  /**
   * What `check_bracket(line, pos)` returns: the bracket under the cursor,
   * else the one just before it; past the end of the line only a closing
   * last byte is seen.
   */
  function AdjacentBracket(line: string, pos: nat): (r: Option<(char, nat)>)
    ensures |line| == 0 ==> r.None?
    ensures r.Some? ==> r.value.1 < |line| && line[r.value.1] == r.value.0 && IsBracket(r.value.0)
    ensures r.Some? && IsOpenBracket(r.value.0) ==> r.value.1 + 1 < |line|
    ensures r.Some? && IsCloseBracket(r.value.0) && r.value.1 == 0 ==> pos >= |line| == 1
    ensures pos >= |line| > 0 ==>
      (r.Some? <==> IsCloseBracket(line[|line| - 1])) && (r.Some? ==> r.value.1 == |line| - 1)
    ensures pos < |line| && IsBracket(line[pos]) ==>
      r == (if Seeds(line, pos) then Some((line[pos], pos)) else None)
    ensures pos < |line| && !IsBracket(line[pos]) ==>
      r == (if pos > 0 && Seeds(line, pos - 1) then Some((line[pos - 1], pos - 1)) else None)
  {
    if |line| == 0 then None
    else if pos >= |line| then
      var b := line[|line| - 1];
      if IsCloseBracket(b) then Some((b, |line| - 1)) else None
    else if IsBracket(line[pos]) then
      if Seeds(line, pos) then Some((line[pos], pos)) else None
    else if pos > 0 && IsBracket(line[pos - 1]) && Seeds(line, pos - 1) then
      Some((line[pos - 1], pos - 1))
    else None
  }

  /** `check_bracket`: looks under the cursor, then at most once just before it. */
  method CheckBracket(line: string, pos: nat) returns (r: Option<(char, nat)>)
    ensures r == AdjacentBracket(line, pos)
  {
    if |line| == 0 {
      return None;
    }
    if pos >= |line| {
      var p := |line| - 1;
      var b := line[p];
      r := if IsCloseBracket(b) then Some((b, p)) else None;
    } else {
      var p: nat := pos;
      var underCursor := true;
      while true
        invariant p < |line|
        invariant underCursor ==> p == pos
        invariant !underCursor ==> p + 1 == pos && !IsBracket(line[pos])
        decreases underCursor
      {
        var b := line[p];
        if IsCloseBracket(b) {
          return if p == 0 then None else Some((b, p));
        } else if IsOpenBracket(b) {
          return if p + 1 == |line| then None else Some((b, p));
        } else if underCursor && p > 0 {
          underCursor := false;
          p := p - 1;
        } else {
          return None;
        }
      }
    }
  }

  // ---------------------------------------------------------------------
  // The unit tests of src/highlight.rs, as facts about the model

  // The example lemmas take their literal line as a parameter fixed by a
  // `requires`: this keeps the solver from unfolding the literal, so the
  // proofs stay stable across solver seeds.

  lemma FindMatchingBracketUnbalanced(open: string, close: string)
    requires open == "(..." && close == "...)"
    ensures MatchOf(open, 0, '(') == None
    ensures MatchOf(close, 3, ')') == None
  {
    ForwardDepthStep(open, 0, '(', 1);
    assert ForwardDepth(open, 0, '(', 1) == 1;
    ForwardDepthStep(open, 0, '(', 2);
    assert ForwardDepth(open, 0, '(', 2) == 1;
    ForwardDepthStep(open, 0, '(', 3);
    assert ForwardDepth(open, 0, '(', 3) == 1;
    BackwardDepthStep(close, 3, ')', 2);
    assert BackwardDepth(close, 3, ')', 2) == 1;
    BackwardDepthStep(close, 3, ')', 1);
    assert BackwardDepth(close, 3, ')', 1) == 1;
    BackwardDepthStep(close, 3, ')', 0);
    assert BackwardDepth(close, 3, ')', 0) == 1;
  }

  lemma FindMatchingBracketForward(adjacent: string, distant: string, nested: string)
    requires adjacent == "().." && distant == "(..)" && nested == "(())"
    ensures MatchOf(adjacent, 0, '(') == Some((')', 1))
    ensures MatchOf(distant, 0, '(') == Some((')', 3))
    ensures MatchOf(nested, 0, '(') == Some((')', 3))
  {
    ForwardDepthStep(adjacent, 0, '(', 1);
    assert ForwardDepth(adjacent, 0, '(', 1) == 0;
    ForwardDepthStep(distant, 0, '(', 1);
    assert ForwardDepth(distant, 0, '(', 1) == 1;
    ForwardDepthStep(distant, 0, '(', 2);
    assert ForwardDepth(distant, 0, '(', 2) == 1;
    ForwardDepthStep(distant, 0, '(', 3);
    assert ForwardDepth(distant, 0, '(', 3) == 0;
    ForwardDepthStep(nested, 0, '(', 1);
    assert ForwardDepth(nested, 0, '(', 1) == 2;
    ForwardDepthStep(nested, 0, '(', 2);
    assert ForwardDepth(nested, 0, '(', 2) == 1;
    ForwardDepthStep(nested, 0, '(', 3);
    assert ForwardDepth(nested, 0, '(', 3) == 0;
  }

  lemma FindMatchingBracketBackward(adjacent: string, distant: string, nested: string)
    requires adjacent == "..()" && distant == "(..)" && nested == "(())"
    ensures MatchOf(adjacent, 3, ')') == Some(('(', 2))
    ensures MatchOf(distant, 3, ')') == Some(('(', 0))
    ensures MatchOf(nested, 3, ')') == Some(('(', 0))
  {
    BackwardDepthStep(adjacent, 3, ')', 2);
    assert BackwardDepth(adjacent, 3, ')', 2) == 0;
    BackwardDepthStep(distant, 3, ')', 2);
    assert BackwardDepth(distant, 3, ')', 2) == 1;
    BackwardDepthStep(distant, 3, ')', 1);
    assert BackwardDepth(distant, 3, ')', 1) == 1;
    BackwardDepthStep(distant, 3, ')', 0);
    assert BackwardDepth(distant, 3, ')', 0) == 0;
    BackwardDepthStep(nested, 3, ')', 2);
    assert BackwardDepth(nested, 3, ')', 2) == 2;
    BackwardDepthStep(nested, 3, ')', 1);
    assert BackwardDepth(nested, 3, ')', 1) == 1;
    BackwardDepthStep(nested, 3, ')', 0);
    assert BackwardDepth(nested, 3, ')', 0) == 0;
  }

  lemma CheckBracketExamples()
    ensures AdjacentBracket(")...", 0) == None
    ensures AdjacentBracket("(...", 2) == None
    ensures AdjacentBracket("...(", 3) == None
    ensures AdjacentBracket("...(", 4) == None
    ensures AdjacentBracket("..).", 4) == None
    ensures AdjacentBracket("(...", 0) == Some(('(', 0))
    ensures AdjacentBracket("(...", 1) == Some(('(', 0))
    ensures AdjacentBracket("...)", 3) == Some((')', 3))
    ensures AdjacentBracket("...)", 4) == Some((')', 3))
    ensures AdjacentBracket(")", 1) == Some((')', 0))
  {
  }
}
