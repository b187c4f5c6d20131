/** The hand-written XML reader of io/XMLParser.cpp. The input stream is
    a string and a position; end of file is the position |s|. */
module XmlParser {

  import opened Wrappers
  import opened OpenHashMap
  import opened XmlTree
  import opened SeqUtil

  // ---------------------------------------------------------------------
  // Character classes of the C locale (ASCII)

  predicate IsSpace(c: char) {
    c == ' ' || c == '\t' || c == '\n' || c == '\U{B}' || c == '\U{C}' || c == '\r'
  }

  predicate IsAlpha(c: char) {
    ('a' <= c <= 'z') || ('A' <= c <= 'Z')
  }

  predicate IsDigit(c: char) {
    '0' <= c <= '9'
  }

  predicate IsAlnum(c: char) {
    IsAlpha(c) || IsDigit(c)
  }

  /** The kinds of markup getMarkupType tells apart. */
  datatype MarkupType = Normal | Closing | Comment | Process | Escape

  /** The characters the extraction operator `>>` delivers: all but the
      whitespace it skips. */
  function NonSpace(t: string): (r: string)
    ensures |r| <= |t|
  {
    if t == [] then []
    else NonSpace(t[..|t| - 1]) + (if IsSpace(t[|t| - 1]) then [] else [t[|t| - 1]])
  }

  /** The number of double quotes in t. */
  function Quotes(t: string): nat {
    if t == [] then 0 else Quotes(t[..|t| - 1]) + (if t[|t| - 1] == '"' then 1 else 0)
  }

  /** After t, the reader is inside a quoted string. */
  predicate InQuote(t: string) {
    Quotes(t) % 2 == 1
  }

  /** Bracket depth of t: '[' and ']' outside quoted strings. */
  function Depth(t: string): int {
    if t == [] then 0
    else
      var u := t[..|t| - 1];
      var c := t[|t| - 1];
      Depth(u) + (if InQuote(u) then 0 else if c == '[' then 1 else if c == ']' then -1 else 0)
  }

  lemma PrefixStep(s: string, pos: nat, i: nat)
    requires pos <= i < |s|
    ensures s[pos..i + 1][..i - pos] == s[pos..i] && s[pos..i + 1][i - pos] == s[i]
    ensures |s[pos..i + 1]| == i - pos + 1
  {
  }

  // ---------------------------------------------------------------------
  // jumpToNextMarkup

  /** Eats everything up to and including the next '<', or the whole input. */
  function JumpToNextMarkup(s: string, pos: nat): (p: nat)
    requires pos <= |s|
    ensures pos <= p <= |s|
    ensures p == |s| || (p > pos && s[p - 1] == '<')
    ensures forall k | pos <= k < p - 1 :: s[k] != '<'
    ensures p == |s| && p > pos && s[p - 1] != '<' ==> forall k | pos <= k < p :: s[k] != '<'
    ensures pos < |s| ==> p > pos
    decreases |s| - pos
  {
    if pos == |s| then pos
    else if s[pos] == '<' then pos + 1
    else JumpToNextMarkup(s, pos + 1)
  }

  // ---------------------------------------------------------------------
  // getMarkupType

  /** The type is read from the first character inside the markup; '!' is
      consumed and the next character tells comments from escapes. At end
      of input the peeked EOF falls to the default case. */
  function GetMarkupType(s: string, pos: nat): (r: (MarkupType, nat))
    requires pos <= |s|
    ensures r.1 <= |s|
    ensures r.0 == Process <==> pos < |s| && s[pos] == '?'
    ensures r.0 == Closing <==> pos < |s| && s[pos] == '/'
    ensures r.0 == Comment <==> pos + 1 < |s| && s[pos] == '!' && s[pos + 1] == '-'
    ensures r.0 == Escape <==> pos < |s| && s[pos] == '!' && !(pos + 1 < |s| && s[pos + 1] == '-')
    ensures r.0 == Normal <==> pos == |s| || (s[pos] != '?' && s[pos] != '!' && s[pos] != '/')
    ensures r.1 == if r.0 == Comment || r.0 == Escape then pos + 1 else pos
  {
    if pos == |s| then (Normal, pos)
    else if s[pos] == '?' then (Process, pos)
    else if s[pos] == '!' then
      (if pos + 1 < |s| && s[pos + 1] == '-' then Comment else Escape, pos + 1)
    else if s[pos] == '/' then (Closing, pos)
    else (Normal, pos)
  }

  // ---------------------------------------------------------------------
  // jumpToEndOfComment

  /** One transition of the comment automaton on a non-blank character;
      4 is the final state. */
  function CommentStep(state: int, c: char): int {
    if state == 3 && c == '>' then 4
    else if c == '-' then (if state == 1 then 2 else 3)
    else 1
  }

  /** What the automaton state means: 3 after "--", 2 after a lone '-'. */
  function CommentState(read: string): int {
    if |read| >= 2 && read[|read| - 1] == '-' && read[|read| - 2] == '-' then 3
    else if |read| >= 1 && read[|read| - 1] == '-' then 2
    else 1
  }

  /** The comment ends at m: a '>' whose preceding non-blank characters
      end with "--". */
  predicate CommentEndsAt(s: string, pos: nat, m: nat)
    requires pos <= m <= |s|
  {
    m > pos && s[m - 1] == '>' && CommentState(NonSpace(s[pos..m - 1])) == 3
  }

  function CommentFrom(s: string, i: nat, state: int): (n: nat)
    requires i <= |s|
    ensures i <= n <= |s|
    decreases |s| - i
  {
    if i == |s| then i
    else if IsSpace(s[i]) then CommentFrom(s, i + 1, state)
    else if CommentStep(state, s[i]) == 4 then i + 1
    else CommentFrom(s, i + 1, CommentStep(state, s[i]))
  }

  /** jumpToEndOfComment: stops right after the first "-->" (blanks
      between its characters are skipped by `>>`), or at end of input. */
  function JumpToEndOfComment(s: string, pos: nat): (n: nat)
    requires pos <= |s|
    ensures pos <= n <= |s|
    ensures n == |s| || CommentEndsAt(s, pos, n)
    ensures forall m | pos <= m < n :: !CommentEndsAt(s, pos, m)
  {
    CommentFromCorrect(s, pos, pos, 1);
    CommentFrom(s, pos, 1)
  }

  lemma {:induction false} CommentFromCorrect(s: string, pos: nat, i: nat, state: int)
    requires pos <= i <= |s|
    requires state == CommentState(NonSpace(s[pos..i]))
    requires forall m | pos <= m <= i :: !CommentEndsAt(s, pos, m)
    ensures CommentFrom(s, i, state) == |s| || CommentEndsAt(s, pos, CommentFrom(s, i, state))
    ensures forall m | pos <= m < CommentFrom(s, i, state) :: !CommentEndsAt(s, pos, m)
    decreases |s| - i
  {
    if i < |s| {
      CommentAdvance(s, pos, i, state);
      if !CommentEndsAt(s, pos, i + 1) {
        CommentFromCorrect(s, pos, i + 1, CommentNext(state, s[i]));
      }
    }
  }

  /** The comment automaton's state after one more character. */
  function CommentNext(state: int, c: char): int {
    if IsSpace(c) then state else CommentStep(state, c)
  }

  /** One character of the comment: either the comment ends right after
      it, or the automaton moves on in the state that describes the
      longer prefix. */
  lemma CommentAdvance(s: string, pos: nat, i: nat, state: int)
    requires pos <= i < |s|
    requires state == CommentState(NonSpace(s[pos..i]))
    requires forall m | pos <= m <= i :: !CommentEndsAt(s, pos, m)
    ensures CommentEndsAt(s, pos, i + 1) ==> CommentFrom(s, i, state) == i + 1
    ensures !CommentEndsAt(s, pos, i + 1) ==>
              && CommentFrom(s, i, state) == CommentFrom(s, i + 1, CommentNext(state, s[i]))
              && CommentNext(state, s[i]) == CommentState(NonSpace(s[pos..i + 1]))
              && forall m | pos <= m <= i + 1 :: !CommentEndsAt(s, pos, m)
  {
    PrefixStep(s, pos, i);
    var read := NonSpace(s[pos..i]);
    assert s[pos..i + 1][..i + 1 - pos - 1] == s[pos..i];
    if IsSpace(s[i]) {
      assert NonSpace(s[pos..i + 1]) == read;
      assert !CommentEndsAt(s, pos, i + 1);
    } else {
      assert NonSpace(s[pos..i + 1]) == read + [s[i]];
      if CommentStep(state, s[i]) == 4 {
        assert CommentEndsAt(s, pos, i + 1);
      } else {
        assert !CommentEndsAt(s, pos, i + 1);
      }
    }
  }

  // ---------------------------------------------------------------------
  // jumpToEndOfMarkup

  /** The markup ends at m: a '>' outside double quotes. */
  predicate MarkupEndsAt(s: string, pos: nat, m: nat)
    requires pos <= m <= |s|
  {
    m > pos && s[m - 1] == '>' && !InQuote(s[pos..m - 1])
  }

  /** The automaton: state 1 outside quotes, 2 inside. */
  function MarkupFrom(s: string, i: nat, state: int): (n: nat)
    requires i <= |s|
    ensures i <= n <= |s|
    decreases |s| - i
  {
    if i == |s| then i
    else if IsSpace(s[i]) then MarkupFrom(s, i + 1, state)
    else if state == 1 && s[i] == '>' then i + 1
    else if s[i] == '"' then MarkupFrom(s, i + 1, if state == 1 then 2 else 1)
    else MarkupFrom(s, i + 1, state)
  }

  /** jumpToEndOfMarkup: stops right after the first '>' that is not
      inside a quoted string, or at end of input. */
  function JumpToEndOfMarkup(s: string, pos: nat): (n: nat)
    requires pos <= |s|
    ensures pos <= n <= |s|
    ensures n == |s| || MarkupEndsAt(s, pos, n)
    ensures forall m | pos <= m < n :: !MarkupEndsAt(s, pos, m)
  {
    MarkupFromCorrect(s, pos, pos, 1);
    MarkupFrom(s, pos, 1)
  }

  lemma {:induction false} MarkupFromCorrect(s: string, pos: nat, i: nat, state: int)
    requires pos <= i <= |s|
    requires state == if InQuote(s[pos..i]) then 2 else 1
    requires forall m | pos <= m <= i :: !MarkupEndsAt(s, pos, m)
    ensures MarkupFrom(s, i, state) == |s| || MarkupEndsAt(s, pos, MarkupFrom(s, i, state))
    ensures forall m | pos <= m < MarkupFrom(s, i, state) :: !MarkupEndsAt(s, pos, m)
    decreases |s| - i
  {
    if i < |s| {
      MarkupAdvance(s, pos, i, state);
      if !MarkupEndsAt(s, pos, i + 1) {
        MarkupFromCorrect(s, pos, i + 1, MarkupNext(state, s[i]));
      }
    }
  }

  /** The markup automaton's state after one more character: a quote
      toggles it. */
  function MarkupNext(state: int, c: char): int {
    if !IsSpace(c) && c == '"' then (if state == 1 then 2 else 1) else state
  }

  /** One character of the markup: either it is the closing '>' or the
      automaton moves on in the state that describes the longer prefix. */
  lemma MarkupAdvance(s: string, pos: nat, i: nat, state: int)
    requires pos <= i < |s|
    requires state == if InQuote(s[pos..i]) then 2 else 1
    requires forall m | pos <= m <= i :: !MarkupEndsAt(s, pos, m)
    ensures MarkupEndsAt(s, pos, i + 1) ==> MarkupFrom(s, i, state) == i + 1
    ensures !MarkupEndsAt(s, pos, i + 1) ==>
              && MarkupFrom(s, i, state) == MarkupFrom(s, i + 1, MarkupNext(state, s[i]))
              && MarkupNext(state, s[i]) == (if InQuote(s[pos..i + 1]) then 2 else 1)
              && forall m | pos <= m <= i + 1 :: !MarkupEndsAt(s, pos, m)
  {
    PrefixStep(s, pos, i);
    assert s[pos..i + 1][..i + 1 - pos - 1] == s[pos..i];
    assert Quotes(s[pos..i + 1]) == Quotes(s[pos..i]) + (if s[i] == '"' then 1 else 0);
    assert MarkupEndsAt(s, pos, i + 1) <==> state == 1 && s[i] == '>';
  }

  // ---------------------------------------------------------------------
  // jumpToEndOfEscape

  /** The escape ends at m: a '>' outside quotes with every '[' closed. */
  predicate EscapeEndsAt(s: string, pos: nat, m: nat)
    requires pos <= m <= |s|
  {
    m > pos && s[m - 1] == '>' && !InQuote(s[pos..m - 1]) && Depth(s[pos..m - 1]) == 0
  }

  /** The automaton: state 1 outside quotes, 2 inside, and a bracket
      counter that may go negative on a stray ']'. */
  function EscapeFrom(s: string, i: nat, state: int, stack: int): (n: nat)
    requires i <= |s|
    ensures i <= n <= |s|
    decreases |s| - i
  {
    if i == |s| then i
    else if IsSpace(s[i]) then EscapeFrom(s, i + 1, state, stack)
    else if state == 2 then EscapeFrom(s, i + 1, if s[i] == '"' then 1 else 2, stack)
    else if s[i] == '"' then EscapeFrom(s, i + 1, 2, stack)
    else if s[i] == '[' then EscapeFrom(s, i + 1, 1, stack + 1)
    else if s[i] == ']' then EscapeFrom(s, i + 1, 1, stack - 1)
    else if s[i] == '>' && stack == 0 then i + 1
    else EscapeFrom(s, i + 1, 1, stack)
  }

  /** jumpToEndOfEscape: stops right after the first '>' outside quotes at
      bracket depth 0, or at end of input. */
  function JumpToEndOfEscape(s: string, pos: nat): (n: nat)
    requires pos <= |s|
    ensures pos <= n <= |s|
    ensures n == |s| || EscapeEndsAt(s, pos, n)
    ensures forall m | pos <= m < n :: !EscapeEndsAt(s, pos, m)
  {
    EscapeFromCorrect(s, pos, pos, 1, 0);
    EscapeFrom(s, pos, 1, 0)
  }

  /** How reading one more character moves the quote parity and the depth. */
  lemma EscapeStep(s: string, pos: nat, i: nat)
    requires pos <= i < |s|
    ensures InQuote(s[pos..i + 1]) <==> (InQuote(s[pos..i]) != (s[i] == '"'))
    ensures Depth(s[pos..i + 1]) == Depth(s[pos..i]) +
              (if InQuote(s[pos..i]) then 0 else if s[i] == '[' then 1 else if s[i] == ']' then -1 else 0)
  {
    var t := s[pos..i + 1];
    assert t[..|t| - 1] == s[pos..i] && t[|t| - 1] == s[i];
  }

  lemma {:induction false} EscapeFromCorrect(s: string, pos: nat, i: nat, state: int, stack: int)
    requires pos <= i <= |s|
    requires state == (if InQuote(s[pos..i]) then 2 else 1) && stack == Depth(s[pos..i])
    requires forall m | pos <= m <= i :: !EscapeEndsAt(s, pos, m)
    ensures EscapeFrom(s, i, state, stack) == |s| || EscapeEndsAt(s, pos, EscapeFrom(s, i, state, stack))
    ensures forall m | pos <= m < EscapeFrom(s, i, state, stack) :: !EscapeEndsAt(s, pos, m)
    decreases |s| - i
  {
    if i < |s| {
      EscapeAdvance(s, pos, i, state, stack);
      if !EscapeEndsAt(s, pos, i + 1) {
        var next := EscapeNext(state, stack, s[i]);
        EscapeFromCorrect(s, pos, i + 1, next.0, next.1);
      }
    }
  }

  /** The escape automaton's quote state and bracket counter after one
      more character. */
  function EscapeNext(state: int, stack: int, c: char): (int, int) {
    if IsSpace(c) then (state, stack)
    else if state == 2 then (if c == '"' then 1 else 2, stack)
    else if c == '"' then (2, stack)
    else if c == '[' then (1, stack + 1)
    else if c == ']' then (1, stack - 1)
    else (1, stack)
  }

  /** One character of the escape: either it is the closing '>' or the
      automaton moves on in the state that describes the longer prefix. */
  lemma EscapeAdvance(s: string, pos: nat, i: nat, state: int, stack: int)
    requires pos <= i < |s|
    requires state == (if InQuote(s[pos..i]) then 2 else 1) && stack == Depth(s[pos..i])
    requires forall m | pos <= m <= i :: !EscapeEndsAt(s, pos, m)
    ensures EscapeEndsAt(s, pos, i + 1) ==> EscapeFrom(s, i, state, stack) == i + 1
    ensures !EscapeEndsAt(s, pos, i + 1) ==>
              var next := EscapeNext(state, stack, s[i]);
              && EscapeFrom(s, i, state, stack) == EscapeFrom(s, i + 1, next.0, next.1)
              && next.0 == (if InQuote(s[pos..i + 1]) then 2 else 1)
              && next.1 == Depth(s[pos..i + 1])
              && forall m | pos <= m <= i + 1 :: !EscapeEndsAt(s, pos, m)
  {
    EscapeStep(s, pos, i);
    var c := s[i];
    assert EscapeEndsAt(s, pos, i + 1) <==> !IsSpace(c) && state == 1 && c == '>' && stack == 0;
  }

  // ---------------------------------------------------------------------
  // readWhiteSpace, readLabel, readQuotedString

  function ReadWhiteSpace(s: string, pos: nat): (p: nat)
    requires pos <= |s|
    ensures pos <= p <= |s|
    ensures forall k | pos <= k < p :: IsSpace(s[k])
    ensures p == |s| || !IsSpace(s[p])
    decreases |s| - pos
  {
    if pos < |s| && IsSpace(s[pos]) then ReadWhiteSpace(s, pos + 1) else pos
  }

  /** The end of the run of alphanumerics starting at pos. */
  function AlnumRun(s: string, pos: nat): (p: nat)
    requires pos <= |s|
    ensures pos <= p <= |s|
    ensures forall k | pos <= k < p :: IsAlnum(s[k])
    ensures p == |s| || !IsAlnum(s[p])
    decreases |s| - pos
  {
    if pos < |s| && IsAlnum(s[pos]) then AlnumRun(s, pos + 1) else pos
  }

  /** A label: a letter followed by letters and digits. */
  predicate IsLabel(l: string) {
    |l| >= 1 && IsAlpha(l[0]) && forall k | 1 <= k < |l| :: IsAlnum(l[k])
  }

  /** readLabel: a letter, then alphanumerics; the first other character
      is put back. Reaching end of input is an error, even after a letter. */
  function ReadLabel(s: string, pos: nat): (r: Result<(string, nat)>)
    requires pos <= |s|
    ensures r.Success? <==> pos < |s| && IsAlpha(s[pos]) && AlnumRun(s, pos + 1) < |s|
    ensures r.Success? ==> IsLabel(r.value.0) && pos < r.value.1 < |s|
    ensures r.Success? ==> r.value.0 == s[pos..r.value.1] && !IsAlnum(s[r.value.1])
  {
    if pos == |s| then Failure("unexpected end of file")
    else if !IsAlpha(s[pos]) then Failure("invalid identifier")
    else
      var p := AlnumRun(s, pos + 1);
      if p == |s| then Failure("unexpected end of file")
      else Success((s[pos..p], p))
  }

  /** readQuotedString: an opening '"', then everything up to the next '"'. */
  function ReadQuotedString(s: string, pos: nat): (r: Result<(string, nat)>)
    requires pos <= |s|
    ensures r.Success? ==> pos + 2 <= r.value.1 <= |s|
    ensures r.Success? ==> s[pos..r.value.1] == ['"'] + r.value.0 + ['"']
    ensures r.Success? ==> '"' !in r.value.0
    ensures (pos < |s| && s[pos] == '"' && '"' in s[pos + 1..]) <==> r.Success?
  {
    if pos == |s| then Failure("unexpected end of file")
    else if s[pos] != '"' then Failure("missing attribute value")
    else
      var q := FindChar(s, '"', pos + 1);
      if q == |s| then
        NoQuoteAfter(s, pos + 1);
        Failure("unexpected end of file")
      else
        QuotedSlice(s, pos, q);
        Success((s[pos + 1..q], q + 1))
  }

  /** When the search for a quote runs to the end, there is none. */
  lemma NoQuoteAfter(s: string, pos: nat)
    requires pos <= |s| && FindChar(s, '"', pos) == |s|
    ensures '"' !in s[pos..]
  {
    var t := s[pos..];
    forall k | 0 <= k < |t| ensures t[k] != '"' {
      assert t[k] == s[pos + k];
    }
  }

  /** The text between two quotes, with them. */
  lemma QuotedSlice(s: string, pos: nat, q: nat)
    requires pos < q < |s| && s[pos] == '"' && s[q] == '"'
    ensures '"' in s[pos + 1..]
    ensures s[pos..q + 1] == ['"'] + s[pos + 1..q] + ['"']
  {
    assert s[pos + 1..][q - pos - 1] == '"';
    var v := s[pos + 1..q];
    var w := ['"'] + v + ['"'];
    assert |w| == q + 1 - pos;
    forall k | 0 <= k < |w| ensures w[k] == s[pos..q + 1][k] {
      if 0 < k < |w| - 1 {
        assert w[k] == v[k - 1];
      }
    }
  }

  /** Writing a label and reading it back gives the label. */
  lemma LabelRoundTrip(l: string, rest: string)
    requires IsLabel(l) && |rest| > 0 && !IsAlnum(rest[0])
    ensures ReadLabel(l + rest, 0) == Success((l, |l|))
  {
    var s := l + rest;
    AlnumRunStops(s, 1, |l|);
    assert s[0..|l|] == l;
  }

  lemma {:induction false} AlnumRunStops(s: string, pos: nat, stop: nat)
    requires pos <= stop < |s|
    requires forall k | pos <= k < stop :: IsAlnum(s[k])
    requires !IsAlnum(s[stop])
    ensures AlnumRun(s, pos) == stop
    decreases stop - pos
  {
    if pos < stop {
      AlnumRunStops(s, pos + 1, stop);
    }
  }

  /** Quoting a string without '"' and reading it back gives the string. */
  lemma QuotedRoundTrip(v: string, rest: string)
    requires '"' !in v
    ensures ReadQuotedString(['"'] + v + ['"'] + rest, 0) == Success((v, |v| + 2))
  {
    var s := ['"'] + v + ['"'] + rest;
    FindCharFinds(s, '"', 1, |v| + 1);
    assert s[1..|v| + 1] == v;
  }

  // ---------------------------------------------------------------------
  // readAttributes and getNextMarkup

  /** One `name = "value"` pair of readAttributes, with the blanks after
      it: the pair and the position after them. */
  function ReadPair(s: string, pos: nat): (r: Result<((string, string), nat)>)
    requires pos <= |s|
    ensures r.Success? ==> pos < r.value.1 <= |s|
    ensures r.Success? ==> IsLabel(r.value.0.0) && '"' !in r.value.0.1
    ensures r.Success? ==> pos + |r.value.0.0| <= |s| && s[pos..pos + |r.value.0.0|] == r.value.0.0
  {
    var nameAt :- ReadLabel(s, pos);
    var valueAt :- ReadValue(s, nameAt.1, nameAt.0);
    Success(((nameAt.0, valueAt.0), valueAt.1))
  }

  /** The part of an attribute after its name: blanks, '=', blanks, the
      quoted value, blanks. */
  function ReadValue(s: string, p1: nat, name: string): (r: Result<(string, nat)>)
    requires p1 <= |s|
    ensures r.Success? ==> p1 < r.value.1 <= |s| && '"' !in r.value.0
  {
    var p2 := ReadWhiteSpace(s, p1);
    if p2 == |s| || s[p2] != '=' then Failure("missing value for attribute " + name)
    else
      var p3 := ReadWhiteSpace(s, p2 + 1);
      var valueAt :- ReadQuotedString(s, p3);
      Success((valueAt.0, ReadWhiteSpace(s, valueAt.1)))
  }

  /** The pairs the loop of readAttributes reads, in order, while the next
      character is a letter: the syntax of an attribute list, apart from
      any node. */
  function AttributeList(s: string, pos: nat): (r: Result<(seq<(string, string)>, nat)>)
    requires pos <= |s|
    ensures r.Success? ==> pos <= r.value.1 <= |s| && (r.value.1 == |s| || !IsAlpha(s[r.value.1]))
    ensures r.Success? ==> Writable(r.value.0)
    decreases |s| - pos
  {
    if pos == |s| || !IsAlpha(s[pos]) then Success(([], pos))
    else
      var pairAt :- ReadPair(s, pos);
      var restAt :- AttributeList(s, pairAt.1);
      WritableCons(pairAt.0, restAt.0);
      Success(([pairAt.0] + restAt.0, restAt.1))
  }

  /** Pairs that can be written: names are labels, values hold no '"'. */
  predicate Writable(pairs: seq<(string, string)>) {
    forall i | 0 <= i < |pairs| :: IsLabel(pairs[i].0) && '"' !in pairs[i].1
  }

  /** A writable pair before writable pairs. */
  lemma WritableCons(pair: (string, string), rest: seq<(string, string)>)
    requires IsLabel(pair.0) && '"' !in pair.1 && Writable(rest)
    ensures Writable([pair] + rest)
  {
    var l := [pair] + rest;
    forall i | 0 <= i < |l|
      ensures IsLabel(l[i].0) && '"' !in l[i].1
    {
      if i > 0 {
        assert l[i] == rest[i - 1];
      }
    }
  }

  /** What a name reads as once `pairs` are added in order over a table
      where it read `before`: the value of its last pair, else `before`. */
  function Binding(before: Option<string>, pairs: seq<(string, string)>, name: string): Option<string>
    decreases |pairs|
  {
    if pairs == [] then before
    else Binding(if pairs[0].0 == name then Some(pairs[0].1) else before, pairs[1..], name)
  }

  /** The last pair of a name decides; a name in no pair keeps `before`. */
  lemma {:induction false} BindingLast(before: Option<string>, pairs: seq<(string, string)>, name: string)
    ensures (forall i | 0 <= i < |pairs| :: pairs[i].0 != name) ==> Binding(before, pairs, name) == before
    ensures pairs != [] && pairs[|pairs| - 1].0 == name ==> Binding(before, pairs, name) == Some(pairs[|pairs| - 1].1)
    decreases |pairs|
  {
    if pairs != [] {
      var next := if pairs[0].0 == name then Some(pairs[0].1) else before;
      BindingLast(next, pairs[1..], name);
      if |pairs| == 1 {
        assert pairs[1..] == [];
      } else {
        assert pairs[1..][|pairs| - 2] == pairs[|pairs| - 1];
      }
    }
  }

  /** Binding the first pair, then the rest. */
  lemma BindingCons(before: Option<string>, pair: (string, string), rest: seq<(string, string)>, name: string)
    ensures Binding(before, [pair] + rest, name)
            == Binding(if pair.0 == name then Some(pair.1) else before, rest, name)
  {
    assert ([pair] + rest)[1..] == rest;
  }

  /** An attribute list starting with a letter is its first pair, then
      the list after it. */
  lemma AttributeListCons(s: string, pos: nat, pair: (string, string), next: nat)
    requires pos < |s| && IsAlpha(s[pos]) && ReadPair(s, pos) == Success((pair, next))
    ensures AttributeList(s, next).Failure? ==> AttributeList(s, pos).Failure?
    ensures AttributeList(s, next).Success? ==>
              AttributeList(s, pos) == Success(([pair] + AttributeList(s, next).value.0, AttributeList(s, next).value.1))
  {
  }

  /** The pairs added to a node one after the other, as the loop of
      readAttributes does; an insert can fail only as OpenHashMap.Add
      does. Afterwards every name reads as the last value the pairs gave
      it, or as before when no pair names it. */
  function AddAll(node: Node, pairs: seq<(string, string)>): (r: Result<Node>)
    requires Valid(node.attributes)
    ensures r.Success? ==> Valid(r.value.attributes)
    ensures r.Success? ==> r.value.markup == node.markup && r.value.children == node.children
    ensures r.Success? ==> forall name ::
              Scan(r.value.attributes.slots, name) == Binding(Scan(node.attributes.slots, name), pairs, name)
    decreases |pairs|
  {
    if pairs == [] then Success(node)
    else
      var node2 :- AddAttribute(node, pairs[0].0, pairs[0].1);
      var r := AddAll(node2, pairs[1..]);
      assert r.Success? ==> forall name ::
               Scan(r.value.attributes.slots, name) == Binding(Scan(node.attributes.slots, name), pairs, name) by {
        if r.Success? {
          forall name
            ensures Scan(r.value.attributes.slots, name) == Binding(Scan(node.attributes.slots, name), pairs, name)
          {
            BindingCons(Scan(node.attributes.slots, name), pairs[0], pairs[1..], name);
            assert [pairs[0]] + pairs[1..] == pairs;
          }
        }
      }
      r
  }

  /** readAttributes: `name = "value"` pairs while the next character is a
      letter, each added to the node: it fails when the text is not an
      attribute list, and otherwise adds the pairs of the list in order. */
  function ReadAttributes(s: string, pos: nat, node: Node): (r: Result<(Node, nat)>)
    requires pos <= |s| && Valid(node.attributes)
    ensures r.Success? ==> pos <= r.value.1 <= |s| && Valid(r.value.0.attributes)
    ensures r.Success? ==> r.value.0.markup == node.markup && r.value.0.children == node.children
    ensures AttributeList(s, pos).Failure? ==> r.Failure?
    ensures AttributeList(s, pos).Success? ==>
              (r.Success? <==> AddAll(node, AttributeList(s, pos).value.0).Success?)
    ensures r.Success? ==>
              r.value == (AddAll(node, AttributeList(s, pos).value.0).value, AttributeList(s, pos).value.1)
    ensures r.Success? ==> forall name ::
              Scan(r.value.0.attributes.slots, name)
              == Binding(Scan(node.attributes.slots, name), AttributeList(s, pos).value.0, name)
    decreases |s| - pos
  {
    if pos == |s| || !IsAlpha(s[pos]) then Success((node, pos))
    else
      var pairAt :- ReadPair(s, pos);
      var ((name, value), p5) := pairAt;
      AttributeListCons(s, pos, (name, value), p5);
      AddAllCons(node, (name, value), if AttributeList(s, p5).Success? then AttributeList(s, p5).value.0 else []);
      var node2 :- AddAttribute(node, name, value);
      ReadAttributes(s, p5, node2)
  }

  /** Adding a first pair, then the rest. */
  lemma AddAllCons(node: Node, pair: (string, string), rest: seq<(string, string)>)
    requires Valid(node.attributes)
    ensures AddAttribute(node, pair.0, pair.1).Failure? ==> AddAll(node, [pair] + rest).Failure?
    ensures AddAttribute(node, pair.0, pair.1).Success? ==>
              AddAll(node, [pair] + rest) == AddAll(AddAttribute(node, pair.0, pair.1).value, rest)
  {
    assert ([pair] + rest)[0] == pair && ([pair] + rest)[1..] == rest;
  }

  /** What getNextMarkup hands back: a closing markup or a whole element. */
  datatype Markup = ClosingMarkup | Element(node: Node)

  /** The do-while of getNextMarkup: skip processing instructions, escapes
      and comments until a normal or a closing markup. The result is the
      type and the position just after its lead '<' (and, for '/', before it). */
  function SkipToMarkup(s: string, pos: nat): (r: (MarkupType, nat))
    requires pos <= |s|
    ensures r.0 == Normal || r.0 == Closing
    ensures pos <= r.1 <= |s|
    ensures r.0 == Closing ==> pos < r.1 < |s| && s[r.1] == '/' && s[r.1 - 1] == '<'
    ensures r.0 == Normal && r.1 < |s| ==> pos < r.1 && s[r.1 - 1] == '<'
    decreases |s| - pos
  {
    var q := JumpToNextMarkup(s, pos);
    var (ty, q2) := GetMarkupType(s, q);
    if ty == Normal || ty == Closing then (ty, q2)
    else SkipToMarkup(s, SkipMarkup(s, ty, q2))
  }

  /** The end of a skipped processing instruction, escape or comment. */
  function SkipMarkup(s: string, ty: MarkupType, pos: nat): (n: nat)
    requires pos <= |s|
    ensures pos <= n <= |s|
  {
    match ty
    case Process => JumpToEndOfMarkup(s, pos)
    case Escape => JumpToEndOfEscape(s, pos)
    case Comment => JumpToEndOfComment(s, pos)
    case _ => pos
  }

  /** The opening of an element: its label, then its attributes. The
      label is the text at pos, and the node holds exactly the attribute
      list that follows it, added in order to a fresh node. */
  function ReadOpening(s: string, pos: nat): (r: Result<(Node, nat)>)
    requires pos <= |s|
    ensures r.Success? ==> pos < r.value.1 <= |s|
    ensures r.Success? ==> WellFormed(r.value.0) && IsLabel(r.value.0.markup) && r.value.0.children == []
    ensures ReadLabel(s, pos).Failure? ==> r.Failure?
    ensures r.Success? ==> ReadLabel(s, pos).Success? && r.value.0.markup == ReadLabel(s, pos).value.0
  {
    var tagAt :- ReadLabel(s, pos);
    var (tag, p1) := tagAt;
    var p2 := ReadWhiteSpace(s, p1);
    var nodeAt :- ReadAttributes(s, p2, NewNode(tag));
    var (node, p3) := nodeAt;
    assert node.children == [] && node.markup == tag;
    assert WellFormed(node);
    Success((node, p3))
  }

  /** The opening is the label's fresh node with the attribute list read
      after it added in order; it fails when the list or an insert does. */
  lemma OpeningAttributes(s: string, pos: nat, tag: string, p1: nat)
    requires pos <= |s| && ReadLabel(s, pos) == Success((tag, p1))
    ensures AttributeList(s, ReadWhiteSpace(s, p1)).Failure? ==> ReadOpening(s, pos).Failure?
    ensures AttributeList(s, ReadWhiteSpace(s, p1)).Success? ==>
              var attrs := AttributeList(s, ReadWhiteSpace(s, p1)).value;
              && (ReadOpening(s, pos).Success? <==> AddAll(NewNode(tag), attrs.0).Success?)
              && (ReadOpening(s, pos).Success? ==> ReadOpening(s, pos).value == (AddAll(NewNode(tag), attrs.0).value, attrs.1))
  {
    var p2 := ReadWhiteSpace(s, p1);
    assert ReadOpening(s, pos) == (var nodeAt :- ReadAttributes(s, p2, NewNode(tag)); Success(nodeAt));
  }

  /** getNextMarkup: skip to the next normal or closing markup; a normal
      one is read as a whole element. A closing markup is reported at its
      '/', the rest of it unread (MarkupFromText states the rest). */
  function GetNextMarkup(s: string, pos: nat): (r: Result<(Markup, nat)>)
    requires pos <= |s|
    ensures r.Success? ==> pos < r.value.1 <= |s|
    ensures r.Success? && r.value.0.ClosingMarkup? ==>
              r.value.1 < |s| && s[r.value.1] == '/' && s[r.value.1 - 1] == '<'
    ensures r.Success? && r.value.0.Element? ==>
              WellFormed(r.value.0.node) && IsLabel(r.value.0.node.markup)
    decreases |s| - pos, 1
  {
    var (ty, p) := SkipToMarkup(s, pos);
    if ty == Closing then Success((ClosingMarkup, p))
    else ReadElement(s, p)
  }

  /** pos is the '/' of a closing markup "</". */
  predicate ClosedAt(s: string, q: nat) {
    0 < q < |s| && s[q] == '/' && s[q - 1] == '<'
  }

  /** The opening at pos is read and followed by '/'. */
  predicate SelfClosed(s: string, pos: nat)
    requires pos <= |s|
  {
    ReadOpening(s, pos).Success? && ReadOpening(s, pos).value.1 < |s| && s[ReadOpening(s, pos).value.1] == '/'
  }

  /** The element part of getNextMarkup. A '/' right after the attributes
      closes the element with no children; otherwise children are read
      until a closing markup, whose name is never looked at
      (ElementFromOpening states both cases). */
  function ReadElement(s: string, pos: nat): (r: Result<(Markup, nat)>)
    requires pos <= |s|
    ensures r.Success? ==> pos < r.value.1 <= |s| && r.value.0.Element?
    ensures r.Success? ==> WellFormed(r.value.0.node) && IsLabel(r.value.0.node.markup)
    decreases |s| - pos, 0
  {
    var openAt :- ReadOpening(s, pos);
    var (node, p3) := openAt;
    if p3 < |s| && s[p3] == '/' then Success((Element(node), p3 + 1))
    else
      var p4 := if p3 < |s| then p3 + 1 else p3;
      ReadChildren(s, p4, node)
  }

  /** The child loop of getNextMarkup: append every element until the
      first closing markup. The node keeps its label, attributes and
      earlier children, and the loop ends at the '/' of a closing markup. */
  function ReadChildren(s: string, pos: nat, node: Node): (r: Result<(Markup, nat)>)
    requires pos <= |s| && WellFormed(node)
    ensures r.Success? ==> pos < r.value.1 <= |s| && r.value.0.Element?
    ensures r.Success? ==> WellFormed(r.value.0.node)
    ensures r.Success? ==> r.value.0.node.markup == node.markup && r.value.0.node.attributes == node.attributes
    ensures r.Success? ==> r.value.1 < |s| && s[r.value.1] == '/' && s[r.value.1 - 1] == '<'
    ensures r.Success? ==>
              |r.value.0.node.children| >= |node.children| && r.value.0.node.children[..|node.children|] == node.children
    decreases |s| - pos, 2
  {
    var mAt :- GetNextMarkup(s, pos);
    var (m, p) := mAt;
    match m
    case ClosingMarkup => Success((Element(node), p))
    case Element(child) =>
      var r := ReadChildren(s, p, AddChild(node, child));
      if r.Success? then
        KeepsEarlierChildren(node, child, r.value.0.node.children);
        r
      else r
  }

  /** Children that start with those of AddChild(node, child) start with
      those of node. */
  lemma KeepsEarlierChildren(node: Node, child: Node, c: seq<Node>)
    requires |c| >= |AddChild(node, child).children| && c[..|AddChild(node, child).children|] == AddChild(node, child).children
    ensures |c| >= |node.children| && c[..|node.children|] == node.children
  {
    var k := |node.children|;
    assert c[..k] == c[..k + 1][..k];
  }

  /** An element has the label and attributes of its opening. When '/'
      follows the opening, the element is that opening's node, childless,
      just after the '/'; otherwise it ends at the '/' of a closing
      markup. */
  lemma ElementFromOpening(s: string, pos: nat)
    requires pos <= |s|
    ensures ReadOpening(s, pos).Failure? ==> ReadElement(s, pos).Failure?
    ensures ReadElement(s, pos).Success? ==>
              && ReadOpening(s, pos).Success?
              && ReadElement(s, pos).value.0.node.markup == ReadOpening(s, pos).value.0.markup
              && ReadElement(s, pos).value.0.node.attributes == ReadOpening(s, pos).value.0.attributes
    ensures SelfClosed(s, pos) ==>
              ReadElement(s, pos) == Success((Element(ReadOpening(s, pos).value.0), ReadOpening(s, pos).value.1 + 1))
    ensures SelfClosed(s, pos) ==> ReadOpening(s, pos).value.0.children == []
    ensures ReadElement(s, pos).Success? && !SelfClosed(s, pos) ==>
              ClosedAt(s, ReadElement(s, pos).value.1)
  {
    var o := ReadOpening(s, pos);
    if o.Failure? {
      FailedOpeningStep(s, pos);
    } else {
      var (node, p3) := o.value;
      if p3 < |s| && s[p3] == '/' {
        SelfClosedStep(s, pos, node, p3);
      } else {
        ChildrenStep(s, pos, node, p3, if p3 < |s| then p3 + 1 else p3);
      }
    }
  }

  /** ReadElement fails with its opening. */
  lemma FailedOpeningStep(s: string, pos: nat)
    requires pos <= |s| && ReadOpening(s, pos).Failure?
    ensures ReadElement(s, pos).Failure?
  {
  }

  /** ReadElement when '/' follows the opening. */
  lemma SelfClosedStep(s: string, pos: nat, node: Node, p3: nat)
    requires pos <= |s| && ReadOpening(s, pos) == Success((node, p3))
    requires p3 < |s| && s[p3] == '/'
    ensures ReadElement(s, pos) == Success((Element(node), p3 + 1))
  {
  }

  /** ReadElement when the opening is followed by children. */
  lemma ChildrenStep(s: string, pos: nat, node: Node, p3: nat, p4: nat)
    requires pos <= |s| && ReadOpening(s, pos) == Success((node, p3))
    requires !(p3 < |s| && s[p3] == '/') && p4 == (if p3 < |s| then p3 + 1 else p3)
    ensures p4 <= |s| && WellFormed(node)
    ensures ReadElement(s, pos) == ReadChildren(s, p4, node)
    ensures ReadElement(s, pos).Success? ==>
              && ClosedAt(s, ReadElement(s, pos).value.1)
              && ReadElement(s, pos).value.0.node.markup == node.markup
              && ReadElement(s, pos).value.0.node.attributes == node.attributes
  {
    ElementIsChildren(s, pos, node, p3, p4);
    var r := ReadChildren(s, p4, node);
    assert r.Success? ==> ClosedAt(s, r.value.1) && r.value.0.node.markup == node.markup;
  }

  /** ReadElement hands an opening not closed by '/' to the children loop. */
  lemma ElementIsChildren(s: string, pos: nat, node: Node, p3: nat, p4: nat)
    requires pos <= |s| && ReadOpening(s, pos) == Success((node, p3))
    requires !(p3 < |s| && s[p3] == '/') && p4 == (if p3 < |s| then p3 + 1 else p3)
    ensures p4 <= |s| && WellFormed(node)
    ensures ReadElement(s, pos) == ReadChildren(s, p4, node)
  {
  }

  /** The markup getNextMarkup reports is the one the skipping reaches: a
      closing markup at its '/', or the element of the opening there. */
  lemma MarkupFromText(s: string, pos: nat)
    requires pos <= |s|
    ensures SkipToMarkup(s, pos).0 == Closing ==> GetNextMarkup(s, pos) == Success((ClosingMarkup, SkipToMarkup(s, pos).1))
    ensures GetNextMarkup(s, pos).Success? && GetNextMarkup(s, pos).value.0.Element? ==>
              SkipToMarkup(s, pos).0 == Normal && ReadOpening(s, SkipToMarkup(s, pos).1).Success?
              && GetNextMarkup(s, pos).value.0.node.markup == ReadOpening(s, SkipToMarkup(s, pos).1).value.0.markup
              && GetNextMarkup(s, pos).value.0.node.attributes == ReadOpening(s, SkipToMarkup(s, pos).1).value.0.attributes
  {
    ElementFromOpening(s, SkipToMarkup(s, pos).1);
  }

  /** A closing markup next ends the children at once, whatever its name. */
  lemma ClosingEndsChildren(s: string, pos: nat, node: Node)
    requires pos <= |s| && WellFormed(node)
    requires SkipToMarkup(s, pos).0 == Closing
    ensures ReadChildren(s, pos, node) == Success((Element(node), SkipToMarkup(s, pos).1))
  {
    MarkupFromText(s, pos);
  }

  /** An element read to its children is its opening's node with the
      elements read after it appended in order: the first child read is
      the first child of the result. */
  lemma ChildrenInOrder(s: string, pos: nat, node: Node, child: Node, p: nat)
    requires pos <= |s| && WellFormed(node)
    requires GetNextMarkup(s, pos) == Success((Element(child), p))
    ensures ReadChildren(s, pos, node) == ReadChildren(s, p, AddChild(node, child))
    ensures ReadChildren(s, pos, node).Success? ==>
              ReadChildren(s, pos, node).value.0.node.children[..|node.children| + 1] == node.children + [child]
  {
    var r := ReadChildren(s, p, AddChild(node, child));
    if r.Success? {
      assert AddChild(node, child).children == node.children + [child];
    }
  }

  /** When the next markup is a normal one whose opening is followed by
      '/', getNextMarkup gives that opening's node, childless, just after
      the '/'. */
  lemma SelfClosingMarkup(s: string, pos: nat, q: nat, n: Node, p: nat)
    requires pos <= |s|
    requires SkipToMarkup(s, pos) == (Normal, q) && ReadOpening(s, q) == Success((n, p))
    requires p < |s| && s[p] == '/'
    ensures GetNextMarkup(s, pos) == Success((Element(n), p + 1))
    ensures n.children == []
  {
    NormalMarkupStep(s, pos, q);
    SelfClosedStep(s, q, n, p);
  }

  /** getNextMarkup reads the element of a normal markup. */
  lemma NormalMarkupStep(s: string, pos: nat, q: nat)
    requires pos <= |s| && SkipToMarkup(s, pos) == (Normal, q)
    ensures q <= |s| && GetNextMarkup(s, pos) == ReadElement(s, q)
  {
  }

  /** parseAndCreateTree: the first element of the input, or an error when
      the input holds none or is malformed. The tree is the node of the
      first normal markup's opening, with its label and attributes. */
  function ParseAndCreateTree(s: string): (r: Result<Node>)
    ensures r.Success? ==> WellFormed(r.value) && IsLabel(r.value.markup)
    ensures SkipToMarkup(s, 0).0 == Closing ==> r.Failure?
    ensures r.Success? ==>
              SkipToMarkup(s, 0).0 == Normal && ReadOpening(s, SkipToMarkup(s, 0).1).Success?
              && r.value.markup == ReadOpening(s, SkipToMarkup(s, 0).1).value.0.markup
              && r.value.attributes == ReadOpening(s, SkipToMarkup(s, 0).1).value.0.attributes
  {
    MarkupFromText(s, 0);
    var mAt :- GetNextMarkup(s, 0);
    var m := mAt.0;
    if m.ClosingMarkup? then Failure("empty or malformed XML file")
    else Success(m.node)
  }

  /** The tree of an input whose first markup is an element is that element. */
  lemma ParseOfElement(s: string, n: Node, p: nat)
    requires GetNextMarkup(s, 0) == Success((Element(n), p))
    ensures ParseAndCreateTree(s) == Success(n)
  {
  }

  // ---------------------------------------------------------------------
  // Elements written out and read back

  /** One attribute written as `name="value"` and a blank. */
  function PairText(pair: (string, string)): string {
    pair.0 + "=\"" + pair.1 + "\" "
  }

  /** The text of attribute pairs, written one after the other. */
  function AttributesText(pairs: seq<(string, string)>): string {
    if pairs == [] then "" else PairText(pairs[0]) + AttributesText(pairs[1..])
  }

  /** A run of blanks. */
  predicate AllSpace(w: string) {
    forall k | 0 <= k < |w| :: IsSpace(w[k])
  }

  /** Labels, one per element name. */
  predicate AllLabels(cs: seq<string>) {
    forall i | 0 <= i < |cs| :: IsLabel(cs[i])
  }

  /** A childless element written as `<label/>`. */
  function LeafText(c: string): string {
    "<" + c + "/>"
  }

  /** The text of childless elements written one after the other. */
  function LeavesText(cs: seq<string>): string {
    if cs == [] then "" else LeafText(cs[0]) + LeavesText(cs[1..])
  }

  /** The nodes those elements read as. */
  function Leaves(cs: seq<string>): (r: seq<Node>)
    ensures |r| == |cs|
  {
    if cs == [] then [] else [NewNode(cs[0])] + Leaves(cs[1..])
  }

  /** An element written with its label, blanks, attributes and
      childless elements inside, then "</" and any text at all. */
  function ElementText(a: string, w: string, pairs: seq<(string, string)>, cs: seq<string>, rest: string): string {
    "<" + a + w + AttributesText(pairs) + ">" + LeavesText(cs) + "</" + rest
  }

  /** The same opening closed at once as `<label attributes/>`, then any text. */
  function SelfClosingText(a: string, w: string, pairs: seq<(string, string)>, rest: string): string {
    "<" + a + w + AttributesText(pairs) + "/>" + rest
  }

  /** Pairs after the first are writable too, and the first one is. */
  lemma WritableTail(pairs: seq<(string, string)>)
    requires Writable(pairs) && pairs != []
    ensures IsLabel(pairs[0].0) && '"' !in pairs[0].1 && Writable(pairs[1..])
  {
    forall i | 0 <= i < |pairs[1..]|
      ensures IsLabel(pairs[1..][i].0) && '"' !in pairs[1..][i].1
    {
      assert pairs[1..][i] == pairs[i + 1];
    }
  }

  /** Labels after the first are labels too, and the first one is. */
  lemma LabelsTail(cs: seq<string>)
    requires AllLabels(cs) && cs != []
    ensures IsLabel(cs[0]) && AllLabels(cs[1..])
  {
    forall i | 0 <= i < |cs[1..]|
      ensures IsLabel(cs[1..][i])
    {
      assert cs[1..][i] == cs[i + 1];
    }
  }

  /** Written attributes start with the first name's first letter. */
  lemma AttributesTextStart(pairs: seq<(string, string)>)
    requires Writable(pairs) && pairs != []
    ensures AttributesText(pairs) != [] && AttributesText(pairs)[0] == pairs[0].0[0] && IsAlpha(pairs[0].0[0])
  {
    WritableTail(pairs);
    assert AttributesText(pairs) == pairs[0].0 + ("=\"" + pairs[0].1 + "\" " + AttributesText(pairs[1..]));
  }

  /** The first '<' from pos on is the one at q. */
  lemma JumpAt(s: string, pos: nat, q: nat)
    requires pos <= q < |s| && s[q] == '<'
    requires forall k | pos <= k < q :: s[k] != '<'
    ensures JumpToNextMarkup(s, pos) == q + 1
  {
  }

  /** A label read up to the first character that is not alphanumeric. */
  lemma LabelAt(s: string, pos: nat, l: string)
    requires IsLabel(l) && pos + |l| < |s| && s[pos..pos + |l|] == l && !IsAlnum(s[pos + |l|])
    ensures ReadLabel(s, pos) == Success((l, pos + |l|))
    ensures IsAlpha(s[pos])
  {
    forall k | pos + 1 <= k < pos + |l|
      ensures IsAlnum(s[k])
    {
      assert s[k] == s[pos..pos + |l|][k - pos];
    }
    assert s[pos] == s[pos..pos + |l|][0];
    var p := AlnumRun(s, pos + 1);
    assert p == pos + |l|;
  }

  /** A quoted string without '"' inside is read whole. */
  lemma QuotedAt(s: string, pos: nat, v: string)
    requires pos + |v| + 2 <= |s| && s[pos] == '"' && s[pos + |v| + 1] == '"'
    requires s[pos + 1..pos + |v| + 1] == v && '"' !in v
    ensures ReadQuotedString(s, pos) == Success((v, pos + |v| + 2))
  {
    forall k | pos + 1 <= k < pos + |v| + 1
      ensures s[k] != '"'
    {
      assert s[k] == v[k - pos - 1];
    }
    FindCharFinds(s, '"', pos + 1, pos + |v| + 1);
  }

  /** The characters of a written pair, one by one. */
  lemma PairChars(s: string, pos: nat, name: string, value: string)
    requires pos + |PairText((name, value))| <= |s|
    requires s[pos..pos + |PairText((name, value))|] == PairText((name, value))
    ensures |PairText((name, value))| == |name| + |value| + 4
    ensures s[pos..pos + |name|] == name && s[pos + |name|] == '=' && s[pos + |name| + 1] == '"'
    ensures s[pos + |name| + 2..pos + |name| + 2 + |value|] == value
    ensures s[pos + |name| + 2 + |value|] == '"' && s[pos + |name| + 3 + |value|] == ' '
  {
    var a := name + "=\"";
    var b := a + value;
    assert PairText((name, value)) == b + "\" ";
    SliceSplit(s, pos, b, "\" ");
    SliceSplit(s, pos, a, value);
    SliceSplit(s, pos, name, "=\"");
    var p1 := pos + |name|;
    assert s[p1] == s[p1..p1 + 2][0];
    assert s[p1 + 1] == s[p1..p1 + 2][1];
    var p3 := p1 + 2 + |value|;
    assert s[p3] == s[p3..p3 + 2][0];
    assert s[p3 + 1] == s[p3..p3 + 2][1];
  }

  /** `name="value"` and a blank, character by character, read as one
      pair. */
  lemma PairAt(s: string, pos: nat, name: string, value: string, p5: nat)
    requires IsLabel(name) && '"' !in value
    requires p5 == pos + |name| + |value| + 4 && p5 <= |s|
    requires s[pos..pos + |name|] == name && s[pos + |name|] == '=' && s[pos + |name| + 1] == '"'
    requires s[pos + |name| + 2..pos + |name| + 2 + |value|] == value
    requires s[pos + |name| + 2 + |value|] == '"' && s[pos + |name| + 3 + |value|] == ' '
    requires p5 == |s| || !IsSpace(s[p5])
    ensures ReadPair(s, pos) == Success(((name, value), p5))
    ensures IsAlpha(s[pos])
  {
    var p1 := pos + |name|;
    LabelAt(s, pos, name);
    QuotedAt(s, p1 + 1, value);
    PairOfParts(s, pos, name, p1, value, p1 + 1 + |value| + 2, p5);
  }

  /** A pair whose label and quoted value are read, with '=' between them
      and one blank after. */
  lemma PairOfParts(s: string, pos: nat, name: string, p1: nat, value: string, p4: nat, p5: nat)
    requires pos <= |s| && ReadLabel(s, pos) == Success((name, p1))
    requires p1 + 1 < |s| && s[p1] == '=' && s[p1 + 1] == '"'
    requires ReadQuotedString(s, p1 + 1) == Success((value, p4))
    requires p5 == p4 + 1 && p4 < |s| && s[p4] == ' ' && (p5 == |s| || !IsSpace(s[p5]))
    ensures ReadPair(s, pos) == Success(((name, value), p5))
  {
    assert ReadWhiteSpace(s, p1) == p1;
    assert ReadWhiteSpace(s, p1 + 1) == p1 + 1;
    assert ReadWhiteSpace(s, p4) == p5;
    assert ReadValue(s, p1, name) == Success((value, p5));
  }

  /** Written pairs read back as the same list, up to a character that is
      neither a letter nor a blank. */
  lemma {:induction false} AttributeListAt(s: string, pos: nat, pairs: seq<(string, string)>, e: nat)
    requires Writable(pairs)
    requires e == pos + |AttributesText(pairs)| && e <= |s| && s[pos..e] == AttributesText(pairs)
    requires e == |s| || (!IsAlpha(s[e]) && !IsSpace(s[e]))
    ensures AttributeList(s, pos) == Success((pairs, e))
    decreases |pairs|, 1
  {
    if pairs == [] {
      AttributeListEnd(s, pos);
    } else {
      AttributeListConsAt(s, pos, pairs, e);
    }
  }

  /** The step of AttributeListAt: the first written pair, then the
      others. */
  lemma {:induction false} AttributeListConsAt(s: string, pos: nat, pairs: seq<(string, string)>, e: nat)
    requires Writable(pairs) && pairs != []
    requires e == pos + |AttributesText(pairs)| && e <= |s| && s[pos..e] == AttributesText(pairs)
    requires e == |s| || (!IsAlpha(s[e]) && !IsSpace(s[e]))
    ensures AttributeList(s, pos) == Success((pairs, e))
    decreases |pairs|, 0
  {
    var q := pos + |PairText(pairs[0])|;
    FirstPairAt(s, pos, pairs, q, e);
    AttributeListAt(s, q, pairs[1..], e);
    AttributeListStep(s, pos, pairs, q, e);
  }

  /** No attribute where neither a letter nor a blank follows. */
  lemma AttributeListEnd(s: string, pos: nat)
    requires pos <= |s| && (pos == |s| || (!IsAlpha(s[pos]) && !IsSpace(s[pos])))
    ensures AttributeList(s, pos) == Success(([], pos))
  {
  }

  /** The first pair read, then the others: all of them. */
  lemma AttributeListStep(s: string, pos: nat, pairs: seq<(string, string)>, q: nat, e: nat)
    requires pairs != [] && pos < |s| && IsAlpha(s[pos]) && ReadPair(s, pos) == Success((pairs[0], q))
    requires AttributeList(s, q) == Success((pairs[1..], e))
    ensures AttributeList(s, pos) == Success((pairs, e))
  {
    AttributeListCons(s, pos, pairs[0], q);
    HeadTail(pairs);
  }

  /** The first of written pairs is read as itself, and the rest of the
      text holds the rest of the pairs. */
  lemma FirstPairAt(s: string, pos: nat, pairs: seq<(string, string)>, q: nat, e: nat)
    requires Writable(pairs) && pairs != [] && q == pos + |PairText(pairs[0])|
    requires e == pos + |AttributesText(pairs)| && e <= |s| && s[pos..e] == AttributesText(pairs)
    requires e == |s| || (!IsAlpha(s[e]) && !IsSpace(s[e]))
    ensures pos < |s| && IsAlpha(s[pos]) && ReadPair(s, pos) == Success((pairs[0], q))
    ensures Writable(pairs[1..]) && e == q + |AttributesText(pairs[1..])| && s[q..e] == AttributesText(pairs[1..])
  {
    var (name, value) := pairs[0];
    var head := PairText(pairs[0]);
    var rest := AttributesText(pairs[1..]);
    SliceSplit(s, pos, head, rest);
    WritableTail(pairs);
    PairChars(s, pos, name, value);
    if rest != [] {
      AttributesTextStart(pairs[1..]);
      SliceHead(s, q, rest);
    }
    PairAt(s, pos, name, value, q);
  }

  /** The characters of an opening written as a label, blanks and
      attributes. */
  lemma OpeningChars(s: string, pos: nat, a: string, w: string, pairs: seq<(string, string)>, e: nat)
    requires e == pos + |a| + |w| + |AttributesText(pairs)| && e <= |s|
    requires s[pos..e] == a + w + AttributesText(pairs)
    ensures s[pos..pos + |a|] == a
    ensures forall k | pos + |a| <= k < pos + |a| + |w| :: s[k] == w[k - pos - |a|]
    ensures s[pos + |a| + |w|..e] == AttributesText(pairs)
  {
    var t := AttributesText(pairs);
    SliceSplit(s, pos, a + w, t);
    SliceSplit(s, pos, a, w);
    forall k | pos + |a| <= k < pos + |a| + |w|
      ensures s[k] == w[k - pos - |a|]
    {
      assert s[k] == s[pos + |a|..pos + |a| + |w|][k - pos - |a|];
    }
  }

  /** An opening written as a label, blanks and attributes reads back as
      the label's node with those attributes, up to the character after
      them, which is neither alphanumeric nor blank. */
  lemma OpeningAt(s: string, pos: nat, a: string, w: string, pairs: seq<(string, string)>, e: nat)
    requires IsLabel(a) && AllSpace(w) && Writable(pairs) && (pairs != [] ==> |w| >= 1)
    requires e == pos + |a| + |w| + |AttributesText(pairs)| && e < |s|
    requires s[pos..e] == a + w + AttributesText(pairs)
    requires !IsAlnum(s[e]) && !IsSpace(s[e])
    ensures AddAll(NewNode(a), pairs).Failure? ==> ReadOpening(s, pos).Failure?
    ensures AddAll(NewNode(a), pairs).Success? ==> ReadOpening(s, pos) == Success((AddAll(NewNode(a), pairs).value, e))
    ensures IsAlpha(s[pos])
  {
    var t := AttributesText(pairs);
    var p1 := pos + |a|;
    var p2 := p1 + |w|;
    OpeningChars(s, pos, a, w, pairs, e);
    if t != [] {
      AttributesTextStart(pairs);
      SliceHead(s, p2, t);
    }
    if |w| > 0 {
      assert s[p1] == w[0];
    } else {
      assert p1 == e;
    }
    LabelAt(s, pos, a);
    WhiteSpaceRun(s, p1, p2);
    AttributeListAt(s, p2, pairs, e);
    OpeningAttributes(s, pos, a, p1);
  }

  /** Blanks from pos up to a character that is not one. */
  lemma WhiteSpaceRun(s: string, pos: nat, q: nat)
    requires pos <= q <= |s| && forall k | pos <= k < q :: IsSpace(s[k])
    requires q == |s| || !IsSpace(s[q])
    ensures ReadWhiteSpace(s, pos) == q
  {
  }

  /** The markup after the first '<' from pos on, when it is a closing one
      or a normal one starting with a letter. */
  lemma MarkupAt(s: string, pos: nat, q: nat)
    requires pos <= q && q + 1 < |s| && s[q] == '<' && (s[q + 1] == '/' || IsAlpha(s[q + 1]))
    requires forall k | pos <= k < q :: s[k] != '<'
    ensures SkipToMarkup(s, pos) == (if s[q + 1] == '/' then Closing else Normal, q + 1)
  {
    JumpAt(s, pos, q);
  }

  /** An input whose first markup cannot be read has no tree. */
  lemma ParseOfFailure(s: string)
    requires GetNextMarkup(s, 0).Failure?
    ensures ParseAndCreateTree(s).Failure?
  {
  }

  /** The characters of `<label/>`. */
  lemma LeafChars(s: string, q: nat, c: string)
    requires q + |c| + 3 <= |s| && s[q..q + |c| + 3] == LeafText(c)
    ensures s[q] == '<' && s[q + 1..q + 1 + |c|] == c && s[q + 1 + |c|] == '/' && s[q + 2 + |c|] == '>'
    ensures s[q + |c| + 2] == '>'
  {
    SliceSplit(s, q, "<" + c, "/>");
    SliceSplit(s, q, "<", c);
    SliceHead(s, q, "<");
    var w := s[q + 1 + |c|..q + 3 + |c|];
    assert s[q + 1 + |c|] == w[0] && s[q + 2 + |c|] == w[1];
  }

  /** The opening of `<label/>` is read as the label's fresh node, up to
      the '/'. */
  lemma LeafOpening(s: string, q: nat, c: string)
    requires IsLabel(c) && q + |c| + 3 <= |s| && s[q..q + |c| + 3] == LeafText(c)
    ensures s[q] == '<' && IsAlpha(s[q + 1]) && s[q + 1 + |c|] == '/' && s[q + 2 + |c|] == '>'
    ensures ReadOpening(s, q + 1) == Success((NewNode(c), q + 1 + |c|))
  {
    LeafChars(s, q, c);
    SliceHead(s, q + 1, c);
    assert c + "" + AttributesText([]) == c;
    OpeningAt(s, q + 1, c, "", [], q + 1 + |c|);
    assert AddAll(NewNode(c), []) == Success(NewNode(c));
  }

  /** The next markup from pos is the written `<label/>` at q. */
  lemma LeafAt(s: string, pos: nat, q: nat, c: string)
    requires IsLabel(c) && pos <= q && q + |c| + 3 <= |s| && s[q..q + |c| + 3] == LeafText(c)
    requires forall k | pos <= k < q :: s[k] != '<'
    ensures GetNextMarkup(s, pos) == Success((Element(NewNode(c)), q + 2 + |c|)) && s[q + 2 + |c|] == '>'
  {
    LeafOpening(s, q, c);
    MarkupAt(s, pos, q);
    SelfClosingMarkup(s, pos, q + 1, NewNode(c), q + 1 + |c|);
  }

  /** The children end at a "</" that no '<' precedes. */
  lemma EndAt(s: string, pos: nat, q: nat, node: Node)
    requires WellFormed(node) && pos <= q && q + 2 <= |s| && s[q..q + 2] == "</"
    requires forall k | pos <= k < q :: s[k] != '<'
    ensures ReadChildren(s, pos, node) == Success((Element(node), q + 1))
  {
    assert s[q] == s[q..q + 2][0] && s[q + 1] == s[q..q + 2][1];
    MarkupAt(s, pos, q);
    ClosingEndsChildren(s, pos, node);
  }

  /** Childless elements written after an opening are read as its
      children, in order, until the "</" that follows them. */
  lemma {:induction false} LeavesAt(s: string, pos: nat, d: nat, node: Node, cs: seq<string>, z: nat)
    requires WellFormed(node) && AllLabels(cs)
    requires z == pos + d + |LeavesText(cs)| && z + 2 <= |s|
    requires forall k | pos <= k < pos + d :: s[k] != '<'
    requires s[pos + d..z + 2] == LeavesText(cs) + "</"
    ensures ReadChildren(s, pos, node) == Success((Element(node.(children := node.children + Leaves(cs))), z + 1))
    decreases |cs|
  {
    var q := pos + d;
    if cs == [] {
      EndAt(s, pos, q, node);
      assert node.children + Leaves(cs) == node.children;
      assert node.(children := node.children + Leaves(cs)) == node;
    } else {
      var c := cs[0];
      var node2 := AddChild(node, NewNode(c));
      LeavesTextSplit(s, q, cs, z);
      LabelsTail(cs);
      LeafChars(s, q, c);
      assert WellFormed(node2);
      assert forall k | q + |c| + 2 <= k < q + |c| + 2 + 1 :: s[k] != '<';
      LeavesAt(s, q + |c| + 2, 1, node2, cs[1..], z);
      FirstLeafStep(s, pos, q, node, c);
      LeavesOfCons(node, cs, node2);
    }
  }

  /** A written leaf first: the children loop goes on after it with the
      leaf added. */
  lemma FirstLeafStep(s: string, pos: nat, q: nat, node: Node, c: string)
    requires WellFormed(node) && IsLabel(c) && pos <= q && q + |c| + 3 <= |s| && s[q..q + |c| + 3] == LeafText(c)
    requires forall k | pos <= k < q :: s[k] != '<'
    ensures ReadChildren(s, pos, node) == ReadChildren(s, q + |c| + 2, AddChild(node, NewNode(c)))
  {
    LeafAt(s, pos, q, c);
    ChildrenInOrder(s, pos, node, NewNode(c), q + 2 + |c|);
  }

  /** The first leaf added as a child, then the others: all of them. */
  lemma LeavesOfCons(node: Node, cs: seq<string>, node2: Node)
    requires cs != [] && node2 == AddChild(node, NewNode(cs[0]))
    ensures node2.(children := node2.children + Leaves(cs[1..])) == node.(children := node.children + Leaves(cs))
  {
    var first := NewNode(cs[0]);
    AppendChild(node, first, Leaves(cs[1..]));
    assert Leaves(cs) == [first] + Leaves(cs[1..]);
  }

  /** Written leaves are the first leaf, then the others. */
  lemma LeavesTextSplit(s: string, q: nat, cs: seq<string>, z: nat)
    requires cs != [] && z == q + |LeavesText(cs)| && z + 2 <= |s|
    requires s[q..z + 2] == LeavesText(cs) + "</"
    ensures z == q + |cs[0]| + 3 + |LeavesText(cs[1..])|
    ensures s[q..q + |cs[0]| + 3] == LeafText(cs[0])
    ensures s[q + |cs[0]| + 3..z + 2] == LeavesText(cs[1..]) + "</"
    ensures s[q + |cs[0]| + 2 + 1..z + 2] == LeavesText(cs[1..]) + "</"
    ensures z == q + |cs[0]| + 2 + 1 + |LeavesText(cs[1..])|
  {
    var head := LeafText(cs[0]);
    var tail := LeavesText(cs[1..]) + "</";
    assert LeavesText(cs) == head + LeavesText(cs[1..]);
    assert LeavesText(cs) + "</" == head + tail;
    assert |head| == |cs[0]| + 3;
    SliceSplit(s, q, head, tail);
  }

  /** Adding one child, then others, adds them all. */
  lemma AppendChild(node: Node, x: Node, xs: seq<Node>)
    ensures AddChild(node, x).(children := AddChild(node, x).children + xs) == node.(children := node.children + ([x] + xs))
  {
    assert AddChild(node, x).children + xs == node.children + ([x] + xs);
  }

  /** The characters of an element written by ElementText. */
  lemma ElementChars(s: string, a: string, w: string, pairs: seq<(string, string)>, cs: seq<string>, rest: string, e: nat, z: nat)
    requires s == ElementText(a, w, pairs, cs, rest)
    requires e == 1 + |a| + |w| + |AttributesText(pairs)| && z == e + 1 + |LeavesText(cs)|
    ensures z + 2 <= |s| && s[0] == '<' && s[1..e] == a + w + AttributesText(pairs) && s[e] == '>'
    ensures s[e + 1..z + 2] == LeavesText(cs) + "</"
  {
    var open := a + w + AttributesText(pairs);
    var body := LeavesText(cs) + "</";
    var t := "<" + open + ">" + body;
    assert s == t + rest;
    SliceSplit(s, 0, "<" + open + ">", body);
    SliceSplit(s, 0, "<" + open, ">");
    SliceSplit(s, 0, "<", open);
    assert s[0] == s[0..1][0];
    assert s[e] == s[e..e + 1][0];
  }

  /** The characters of an element written by SelfClosingText. */
  lemma SelfClosingChars(a: string, w: string, pairs: seq<(string, string)>, rest: string)
    ensures var s := SelfClosingText(a, w, pairs, rest);
            var e := 1 + |a| + |w| + |AttributesText(pairs)|;
            && e < |s| && s[0] == '<' && s[1..e] == a + w + AttributesText(pairs) && s[e] == '/'
  {
  }

  /** An input starting with an opening followed by '>', childless
      elements and "</" reads as that opening's node with those children. */
  lemma ElementAt(s: string, n: Node, e: nat, cs: seq<string>, z: nat)
    requires 1 < |s| && s[0] == '<' && IsAlpha(s[1]) && ReadOpening(s, 1) == Success((n, e))
    requires AllLabels(cs) && e < z && z == e + 1 + |LeavesText(cs)| && z + 2 <= |s|
    requires s[e] == '>' && s[e + 1..z + 2] == LeavesText(cs) + "</"
    ensures ParseAndCreateTree(s) == Success(n.(children := Leaves(cs)))
  {
    var r := ReadChildren(s, e + 1, n);
    LeavesAfterOpening(s, e + 1, n, cs, z);
    OpeningThenChildren(s, n, e, r);
  }

  /** Written leaves after a fresh opening become its only children. */
  lemma LeavesAfterOpening(s: string, pos: nat, n: Node, cs: seq<string>, z: nat)
    requires WellFormed(n) && n.children == [] && AllLabels(cs)
    requires z == pos + |LeavesText(cs)| && z + 2 <= |s|
    requires s[pos..z + 2] == LeavesText(cs) + "</"
    ensures ReadChildren(s, pos, n) == Success((Element(n.(children := Leaves(cs))), z + 1))
  {
    LeavesAt(s, pos, 0, n, cs, z);
    assert n.children + Leaves(cs) == Leaves(cs);
  }

  /** An input starting with an opening followed by children reads as the
      node the children loop gives. */
  lemma OpeningThenChildren(s: string, n: Node, e: nat, r: Result<(Markup, nat)>)
    requires 1 < |s| && s[0] == '<' && IsAlpha(s[1]) && ReadOpening(s, 1) == Success((n, e))
    requires e < |s| && s[e] != '/' && r == ReadChildren(s, e + 1, n) && r.Success?
    ensures r.value.0.Element? && ParseAndCreateTree(s) == Success(r.value.0.node)
  {
    FirstMarkupNormal(s);
    NormalMarkupStep(s, 0, 1);
    ChildrenStep(s, 1, n, e, e + 1);
    ParseOfElement(s, r.value.0.node, r.value.1);
  }

  /** An input starting with an opening followed by '/' reads as that
      opening's node. */
  lemma SelfClosingAt(s: string, n: Node, e: nat)
    requires 1 < |s| && s[0] == '<' && IsAlpha(s[1]) && ReadOpening(s, 1) == Success((n, e))
    requires e < |s| && s[e] == '/'
    ensures ParseAndCreateTree(s) == Success(n)
  {
    FirstMarkupSelfClosing(s, n, e);
    ParseOfElement(s, n, e + 1);
  }

  /** The first markup of such an input is that opening's node. */
  lemma FirstMarkupSelfClosing(s: string, n: Node, e: nat)
    requires 1 < |s| && s[0] == '<' && IsAlpha(s[1]) && ReadOpening(s, 1) == Success((n, e))
    requires e < |s| && s[e] == '/'
    ensures GetNextMarkup(s, 0) == Success((Element(n), e + 1))
  {
    FirstMarkupNormal(s);
    SelfClosingMarkup(s, 0, 1, n, e);
  }

  /** An input starting with '<' and a letter starts with a normal markup. */
  lemma FirstMarkupNormal(s: string)
    requires 1 < |s| && s[0] == '<' && IsAlpha(s[1])
    ensures SkipToMarkup(s, 0) == (Normal, 1)
  {
    MarkupAt(s, 0, 0);
  }

  /** An input starting with an opening that cannot be read has no tree. */
  lemma FailedOpeningAt(s: string)
    requires 1 < |s| && s[0] == '<' && IsAlpha(s[1]) && ReadOpening(s, 1).Failure?
    ensures ParseAndCreateTree(s).Failure?
  {
    FailedFirstMarkup(s);
    ParseOfFailure(s);
  }

  /** The first markup of such an input cannot be read. */
  lemma FailedFirstMarkup(s: string)
    requires 1 < |s| && s[0] == '<' && IsAlpha(s[1]) && ReadOpening(s, 1).Failure?
    ensures GetNextMarkup(s, 0).Failure?
  {
    FirstMarkupNormal(s);
    NormalMarkupStep(s, 0, 1);
    ElementFromOpening(s, 1);
  }

  /** An element written out reads back as its label, its attributes in
      order and its children, whatever name and text follow the "</" that
      closes it: the closing name is never compared with the label. */
  lemma ClosingNameNotChecked(a: string, w: string, pairs: seq<(string, string)>, cs: seq<string>, rest: string)
    requires IsLabel(a) && AllSpace(w) && Writable(pairs) && (pairs != [] ==> |w| >= 1) && AllLabels(cs)
    ensures AddAll(NewNode(a), pairs).Failure? ==> ParseAndCreateTree(ElementText(a, w, pairs, cs, rest)).Failure?
    ensures AddAll(NewNode(a), pairs).Success? ==>
              ParseAndCreateTree(ElementText(a, w, pairs, cs, rest))
              == Success(AddAll(NewNode(a), pairs).value.(children := Leaves(cs)))
  {
    var s := ElementText(a, w, pairs, cs, rest);
    var e := 1 + |a| + |w| + |AttributesText(pairs)|;
    ElementChars(s, a, w, pairs, cs, rest, e, e + 1 + |LeavesText(cs)|);
    OpeningAt(s, 1, a, w, pairs, e);
    if AddAll(NewNode(a), pairs).Success? {
      ElementAt(s, AddAll(NewNode(a), pairs).value, e, cs, e + 1 + |LeavesText(cs)|);
    } else {
      FailedOpeningAt(s);
    }
  }

  /** An element written as `<label attributes/>` reads back as its label
      with its attributes, whatever text follows. */
  lemma SelfClosingRoundTrip(a: string, w: string, pairs: seq<(string, string)>, rest: string)
    requires IsLabel(a) && AllSpace(w) && Writable(pairs) && (pairs != [] ==> |w| >= 1)
    ensures AddAll(NewNode(a), pairs).Failure? ==> ParseAndCreateTree(SelfClosingText(a, w, pairs, rest)).Failure?
    ensures AddAll(NewNode(a), pairs).Success? ==>
              ParseAndCreateTree(SelfClosingText(a, w, pairs, rest)) == Success(AddAll(NewNode(a), pairs).value)
  {
    var s := SelfClosingText(a, w, pairs, rest);
    var e := 1 + |a| + |w| + |AttributesText(pairs)|;
    SelfClosingChars(a, w, pairs, rest);
    OpeningAt(s, 1, a, w, pairs, e);
    if AddAll(NewNode(a), pairs).Success? {
      SelfClosingAt(s, AddAll(NewNode(a), pairs).value, e);
    } else {
      FailedOpeningAt(s);
    }
  }

  /** A leading comment is skipped, and "<a/>" is a childless element. */
  lemma CommentThenSelfClosing()
    ensures GetNextMarkup("<!--x--><a/>", 0).Success?
    ensures GetNextMarkup("<!--x--><a/>", 0).value.1 == 11
    ensures GetNextMarkup("<!--x--><a/>", 0).value.0.Element?
    ensures GetNextMarkup("<!--x--><a/>", 0).value.0.node.markup == "a"
    ensures GetNextMarkup("<!--x--><a/>", 0).value.0.node.children == []
  {
    var s := "<!--x--><a/>";
    var n := NewNode("a");
    CommentSkipped();
    SelfClosingRead();
    SelfClosingMarkup(s, 0, 9, n, 10);
  }

  /** The comment "<!--x-->" is passed over up to the markup after it. */
  lemma CommentSkipped()
    ensures SkipToMarkup("<!--x--><a/>", 0) == (Normal, 9)
  {
    var s := "<!--x--><a/>";
    assert JumpToNextMarkup(s, 0) == 1;
    assert GetMarkupType(s, 1) == (Comment, 2);
    CommentOfX();
    assert SkipMarkup(s, Comment, 2) == 8;
    assert JumpToNextMarkup(s, 8) == 9;
    assert s[8] == '<' && s[9] == 'a';
    assert GetMarkupType(s, 9) == (Normal, 9);
    assert SkipToMarkup(s, 8) == (Normal, 9);
  }

  /** The comment automaton runs over "x--" and stops after '>'. */
  lemma CommentOfX()
    ensures JumpToEndOfComment("<!--x--><a/>", 2) == 8
  {
    var s := "<!--x--><a/>";
    assert CommentFrom(s, 7, 3) == 8;
    assert CommentFrom(s, 2, 1) == 8;
  }

  /** "a/>" after the lead '<' is an element a closed on the spot. */
  lemma SelfClosingRead()
    ensures ReadOpening("<!--x--><a/>", 9) == Success((NewNode("a"), 10))
    ensures ReadElement("<!--x--><a/>", 9) == Success((Element(NewNode("a")), 11))
  {
    var s := "<!--x--><a/>";
    LabelAt9();
    var n := NewNode("a");
    assert ReadAttributes(s, 10, n) == Success((n, 10));
    assert ReadOpening(s, 9) == Success((n, 10));
    SelfClosedStep(s, 9, n, 10);
  }

  lemma LabelAt9()
    ensures ReadLabel("<!--x--><a/>", 9) == Success(("a", 10))
  {
    var s := "<!--x--><a/>";
    assert AlnumRun(s, 10) == 10;
    assert s[9..10] == "a";
  }
}
