/** Cleaning a raw model reply into the answer that is stored and spoken
    (`extract_final_answer`): reasoning blocks go, "thinking" noise goes, and only
    the last paragraph is kept, trimmed. The four patterns are written as explicit
    left-to-right scans with the semantics of Python's `re.sub` and `str.replace`. */
module Reply {
  import opened Text

  /** Delimiters of a reasoning block. */
  const Open: string := "<think>"
  const Close: string := "</think>"

  /** The status line the model runner prints after its reasoning. */
  const DoneThinking: string := "...done thinking."

  /** The word matched, in any letter case, by the noise pattern. */
  const Thinking: string := "thinking"

  /** The paragraph separator. */
  const Blank: string := "\n\n"

  // ---------------------------------------------------------------------------
  // Reasoning blocks
  // ---------------------------------------------------------------------------

  /** At or after index `from`, an opening tag is followed (not necessarily at once) by
      a closing tag: the closed-block pattern has a match there. */
  ghost predicate HasClosedBlock(s: string, from: nat) {
    exists i: nat, k: nat :: from <= i && i + |Open| <= k && OccursAt(s, Open, i) && OccursAt(s, Close, k)
  }

  /** When no block can start at index i, whether one starts at or after i is decided
      from index i + 1 on. */
  lemma {:induction false} ClosedBlockStep(s: string, i: nat)
    requires !OccursAt(s, Open, i) || FindFrom(s, Close, i + |Open|).None?
    ensures HasClosedBlock(s, i) <==> HasClosedBlock(s, i + 1)
  {
    FindFromSpec(s, Close, i + |Open|);
    if HasClosedBlock(s, i) {
      var i', k :| i <= i' && i' + |Open| <= k && OccursAt(s, Open, i') && OccursAt(s, Close, k);
      assert i' != i;
    }
  }

  /** The non-greedy block pattern of the first cleaning step, across line breaks,
      applied from index i on: each opening tag that has a closing tag after it is cut
      out together with the shortest stretch reaching the first such closing tag, and
      the scan resumes after it; an opening tag with no closing tag after it is kept.
      The scan never lengthens what it covers. */
  function StripClosedFrom(s: string, i: nat): (r: string)
    requires i <= |s|
    ensures |r| <= |s| - i
    decreases |s| - i
  {
    if i == |s| then []
    else if OccursAt(s, Open, i) && FindFrom(s, Close, i + |Open|).Some? then
      StripClosedFrom(s, FindFrom(s, Close, i + |Open|).value + |Close|)
    else
      [s[i]] + StripClosedFrom(s, i + 1)
  }

  /** The text from i on comes back unchanged exactly when no block is there to match,
      and each cut removes at least the two tags. */
  lemma {:induction false} StripClosedFromSpec(s: string, i: nat)
    requires i <= |s|
    ensures !HasClosedBlock(s, i) ==> StripClosedFrom(s, i) == s[i..]
    ensures HasClosedBlock(s, i) ==> |StripClosedFrom(s, i)| + |Open| + |Close| <= |s| - i
    decreases |s| - i
  {
    if i == |s| {
    } else if OccursAt(s, Open, i) && FindFrom(s, Close, i + |Open|).Some? {
      var k := FindFrom(s, Close, i + |Open|).value;
      assert OccursAt(s, Open, i) && OccursAt(s, Close, k);
      StripAtBlock(s, i, k);
    } else {
      ClosedBlockStep(s, i);
      StripClosedFromSpec(s, i + 1);
      StripCopiesOne(s, i);
      assert [s[i]] + s[i + 1..] == s[i..];
    }
  }

  /** The first cleaning step of `extract_final_answer`: closed reasoning blocks
      removed, shortest match first. */
  function StripClosedThink(s: string): (r: string)
    ensures |r| <= |s|
    ensures r == s <==> !HasClosedBlock(s, 0)
  {
    StripClosedFromSpec(s, 0);
    StripClosedFrom(s, 0)
  }

  /** The second cleaning step: the greedy pattern for an opening tag, across line
      breaks, so everything from the first opening tag to the end of the text is
      dropped. */
  function StripUnterminatedThink(s: string): (r: string)
    ensures |r| <= |s| && r == s[..|r|]
    ensures !Contains(r, Open)
    ensures r == s <==> !Contains(s, Open)
    ensures Contains(s, Open) ==> OccursAt(s, Open, |r|)
    ensures forall k: nat :: k < |r| ==> !OccursAt(s, Open, k)
  {
    FindFromSpec(s, Open, 0);
    match FindFrom(s, Open, 0)
    case None => s
    case Some(i) =>
      NoEarlierOccurrence(s, Open, i);
      s[..i]
  }

  /** The scan from index i copies everything before the first opening tag j and then
      cuts from j through the first closing tag c that starts at or after the end of the
      opening tag; it resumes after that closing tag. */
  lemma {:induction false} StripClosedFirstBlock(s: string, i: nat, j: nat, c: nat)
    requires i <= j && OccursAt(s, Open, j)
    requires forall k: nat :: i <= k < j ==> !OccursAt(s, Open, k)
    requires j + |Open| <= c && OccursAt(s, Close, c)
    requires forall k: nat :: j + |Open| <= k < c ==> !OccursAt(s, Close, k)
    ensures StripClosedFrom(s, i) == s[i..j] + StripClosedFrom(s, c + |Close|)
    decreases j - i
  {
    if i == j {
      FindFromFirst(s, Close, j + |Open|, c);
      StripAtBlock(s, i, c);
    } else {
      assert !OccursAt(s, Open, i);
      StripClosedFirstBlock(s, i + 1, j, c);
      StripCopiesChar(s, i, j, StripClosedFrom(s, c + |Close|));
    }
  }

  lemma {:induction false} StripAtBlock(s: string, i: nat, c: nat)
    requires OccursAt(s, Open, i) && FindFrom(s, Close, i + |Open|) == Some(c)
    ensures StripClosedFrom(s, i) == s[i..i] + StripClosedFrom(s, c + |Close|)
  {
    assert i < |s|;
    assert OccursAt(s, Open, i) && FindFrom(s, Close, i + |Open|).Some?;
    assert s[i..i] == [];
  }

  lemma {:induction false} StripCopiesChar(s: string, i: nat, j: nat, tail: string)
    requires i < j <= |s| && !OccursAt(s, Open, i)
    requires StripClosedFrom(s, i + 1) == s[i + 1..j] + tail
    ensures StripClosedFrom(s, i) == s[i..j] + tail
  {
    StripCopiesOne(s, i);
    SliceCons(s, i, j, tail);
  }

  lemma {:induction false} StripCopiesOne(s: string, i: nat)
    requires i < |s| && !(OccursAt(s, Open, i) && FindFrom(s, Close, i + |Open|).Some?)
    ensures StripClosedFrom(s, i) == [s[i]] + StripClosedFrom(s, i + 1)
  {
  }

  lemma {:induction false} SliceCons(s: string, i: nat, j: nat, tail: string)
    requires i < j <= |s|
    ensures [s[i]] + (s[i + 1..j] + tail) == s[i..j] + tail
  {
    assert s[i..j] == [s[i]] + s[i + 1..j];
  }

  /** A closing tag that was not preceded by an opening tag of its own survives: the
      shortest match for the first block ends at the first closing tag. */
  lemma {:induction false} StripClosedStrayClose(s: string)
    requires s == "<think>a</think>b</think>"
    ensures StripClosedThink(s) == "b</think>"
  {
    OneBlockThenStray(s);
    StripClosedFirstBlock(s, 0, 0, 8);
    StripClosedFromSpec(s, 16);
  }

  lemma {:induction false} OneBlockThenStray(s: string)
    requires s == "<think>a</think>b</think>"
    ensures OccursAt(s, Open, 0) && OccursAt(s, Close, 8)
    ensures forall k: nat :: 7 <= k < 8 ==> !OccursAt(s, Close, k)
    ensures s[16..] == "b</think>" && !HasClosedBlock(s, 16)
  {
    assert s[0..7] == Open;
    assert s[8..16] == Close;
    assert !OccursAt(s, Close, 7) by {
      assert s[7] != Close[0];
    }
    assert !OccursAt(s, Open, 16) by {
      assert s[16] != Open[0];
    }
    assert !OccursAt(s, Open, 17) by {
      assert s[18] != Open[1];
    }
    assert !OccursAt(s, Open, 18) by {
      assert s[18] != Open[0];
    }
    assert forall k: nat :: 16 <= k ==> !OccursAt(s, Open, k);
  }

  /** Both reasoning steps of `extract_final_answer` together. */
  function StripThink(s: string): (r: string)
    ensures !Contains(r, Open)
    ensures |r| <= |s|
  {
    StripUnterminatedThink(StripClosedThink(s))
  }

  /** A text without an opening tag has no closed block either. */
  lemma {:induction false} NoOpenNoBlock(s: string)
    requires !Contains(s, Open)
    ensures !HasClosedBlock(s, 0)
  {
  }

  /** Stripping reasoning twice is stripping it once: what the first pass leaves has no
      opening tag, on which both steps are the identity. */
  lemma {:induction false} StripThinkIdempotent(s: string)
    ensures StripThink(StripThink(s)) == StripThink(s)
  {
    var r := StripThink(s);
    NoOpenNoBlock(r);
    assert StripClosedThink(r) == r;
  }

  // ---------------------------------------------------------------------------
  // "thinking" noise
  // ---------------------------------------------------------------------------

  /** c matches the lower-case ASCII letter l under Python's IGNORECASE on a str
      pattern: l itself, its upper case, and for i and k the non-ASCII letters that
      fold onto them (U+0130 and U+0131 onto i, the Kelvin sign U+212A onto k). */
  predicate FoldsTo(c: char, l: char) {
    || c == l
    || c as int == l as int - 32
    || (l == 'i' && (c == '\U{0130}' || c == '\U{0131}'))
    || (l == 'k' && c == '\U{212A}')
  }

  /** `(?i)thinking` matches at index i. */
  predicate ThinkingAt(s: string, i: nat) {
    && i + |Thinking| <= |s|
    && forall m :: 0 <= m < |Thinking| ==> FoldsTo(s[i + m], Thinking[m])
  }

  predicate IsDot(c: char) {
    c == '.'
  }

  /** A pattern that is deleted wherever it matches: a literal text (`str.replace`) or
      the noise pattern `(?i)thinking\.*` (`re.sub`). */
  datatype Pattern = Literal(text: string) | ThinkingDots

  /** Length of the match of p at index i of s; 0 when p does not match there. */
  function MatchLen(p: Pattern, s: string, i: nat): (n: nat)
    requires p.Literal? ==> |p.text| > 0
    ensures n == 0 || i + n <= |s|
    ensures p.Literal? ==> (n != 0 <==> OccursAt(s, p.text, i))
    ensures p.ThinkingDots? ==> (n != 0 <==> ThinkingAt(s, i))
    ensures p.Literal? && n != 0 ==> n == |p.text|
    ensures p.ThinkingDots? && n != 0 ==> && |Thinking| <= n
                                           && (forall m :: i + |Thinking| <= m < i + n ==> IsDot(s[m]))
                                           && (i + n == |s| || !IsDot(s[i + n]))
  {
    match p
    case Literal(t) => if OccursAt(s, t, i) then |t| else 0
    case ThinkingDots => if ThinkingAt(s, i) then RunEnd(s, i + |Thinking|, IsDot) - i else 0
  }

  /** Every match of p found scanning from index i to the right deleted, in a single
      pass: after a match the scan resumes behind it, so the text joined across a
      deletion is not searched again. */
  function RemoveMatches(p: Pattern, s: string, i: nat): (r: string)
    requires p.Literal? ==> |p.text| > 0
    requires i <= |s|
    ensures |r| <= |s| - i
    decreases |s| - i
  {
    if i == |s| then []
    else
      var n := MatchLen(p, s, i);
      if n != 0 then RemoveMatches(p, s, i + n) else [s[i]] + RemoveMatches(p, s, i + 1)
  }

  /** The text comes back unchanged exactly when p matches nowhere from i on: a match
      shortens it, and without one every character is copied. */
  lemma {:induction false} RemoveMatchesUnchanged(p: Pattern, s: string, i: nat)
    requires p.Literal? ==> |p.text| > 0
    requires i <= |s|
    ensures RemoveMatches(p, s, i) == s[i..] <==> forall k: nat :: i <= k < |s| ==> MatchLen(p, s, k) == 0
  {
    if forall k: nat :: i <= k < |s| ==> MatchLen(p, s, k) == 0 {
      KeepUnmatched(p, s, i, |s|);
      assert s[i..|s|] == s[i..];
    } else {
      var k: nat :| i <= k < |s| && MatchLen(p, s, k) != 0;
      MatchShortens(p, s, i, k);
    }
  }

  /** A match anywhere from i on makes the pass shorter than what it scans. */
  lemma {:induction false} MatchShortens(p: Pattern, s: string, i: nat, k: nat)
    requires p.Literal? ==> |p.text| > 0
    requires i <= k < |s| && MatchLen(p, s, k) != 0
    ensures |RemoveMatches(p, s, i)| < |s| - i
    decreases k - i
  {
    if MatchLen(p, s, i) == 0 {
      MatchShortens(p, s, i + 1, k);
    }
  }

  /** A stretch where p matches nowhere is kept as it is. */
  lemma {:induction false} KeepUnmatched(p: Pattern, s: string, i: nat, j: nat)
    requires p.Literal? ==> |p.text| > 0
    requires i <= j <= |s|
    requires forall k: nat :: i <= k < j ==> MatchLen(p, s, k) == 0
    ensures RemoveMatches(p, s, i) == s[i..j] + RemoveMatches(p, s, j)
    decreases j - i
  {
    if i < j {
      var rest, last := RemoveMatches(p, s, i + 1), RemoveMatches(p, s, j);
      calc {
        RemoveMatches(p, s, i);
        == { UnmatchedStep(p, s, i); }
        [s[i]] + rest;
        == { KeepUnmatched(p, s, i + 1, j); }
        [s[i]] + (s[i + 1..j] + last);
        == { ConsAppend(s[i], s[i + 1..j], last); }
        ([s[i]] + s[i + 1..j]) + last;
        == { assert s[i..j] == [s[i]] + s[i + 1..j]; }
        s[i..j] + last;
      }
    }
  }

  lemma {:induction false} ConsAppend(c: char, a: string, b: string)
    ensures [c] + (a + b) == ([c] + a) + b
  {
  }

  /** Where p does not match, the character is copied and the scan moves one on. */
  lemma {:induction false} UnmatchedStep(p: Pattern, s: string, i: nat)
    requires p.Literal? ==> |p.text| > 0
    requires i < |s| && MatchLen(p, s, i) == 0
    ensures RemoveMatches(p, s, i) == [s[i]] + RemoveMatches(p, s, i + 1)
  {
  }

  /** Where p matches, the whole match is skipped. */
  lemma {:induction false} MatchedStep(p: Pattern, s: string, i: nat)
    requires p.Literal? ==> |p.text| > 0
    requires i < |s| && MatchLen(p, s, i) != 0
    ensures RemoveMatches(p, s, i) == RemoveMatches(p, s, i + MatchLen(p, s, i))
  {
  }

  /** The pass copies the text up to the first match, deletes that match and carries
      on behind it. */
  lemma {:induction false} RemoveMatchesFirst(p: Pattern, s: string, from: nat, i: nat)
    requires p.Literal? ==> |p.text| > 0
    requires from <= i < |s| && MatchLen(p, s, i) != 0
    requires forall k: nat :: from <= k < i ==> MatchLen(p, s, k) == 0
    ensures RemoveMatches(p, s, from) == s[from..i] + RemoveMatches(p, s, i + MatchLen(p, s, i))
  {
    KeepUnmatched(p, s, from, i);
    MatchedStep(p, s, i);
  }

  /** Whether and how far p matches depends only on the text from the match on. */
  lemma {:induction false} MatchLenShift(p: Pattern, s: string, a: nat, k: nat)
    requires p.Literal? ==> |p.text| > 0
    requires a <= |s|
    ensures MatchLen(p, s, a + k) == MatchLen(p, s[a..], k)
  {
    match p
    case Literal(t) =>
      OccursShift(s, t, a, k);
    case ThinkingDots =>
      ThinkingAtShift(s, a, k);
      if ThinkingAt(s, a + k) {
        RunEndShift(s, a, k + |Thinking|, IsDot);
      }
  }

  lemma {:induction false} ThinkingAtShift(s: string, a: nat, k: nat)
    requires a <= |s|
    ensures ThinkingAt(s, a + k) <==> ThinkingAt(s[a..], k)
  {
  }

  /** A pass started at index a + b of s is the pass started at b of s[a..]. */
  lemma {:induction false} RemoveMatchesShift(p: Pattern, s: string, a: nat, b: nat)
    requires p.Literal? ==> |p.text| > 0
    requires a + b <= |s|
    ensures RemoveMatches(p, s, a + b) == RemoveMatches(p, s[a..], b)
    decreases |s| - a - b
  {
    if a + b < |s| {
      if MatchLen(p, s, a + b) != 0 {
        var n := MatchLen(p, s, a + b);
        RemoveMatchesShift(p, s, a, b + n);
        ShiftMatchedAt(p, s, a, b, n);
      } else {
        var next := b + 1;
        RemoveMatchesShift(p, s, a, next);
        ShiftUnmatchedAt(p, s, a, b, next);
      }
    }
  }

  lemma {:induction false} ShiftMatchedAt(p: Pattern, s: string, a: nat, b: nat, n: nat)
    requires p.Literal? ==> |p.text| > 0
    requires a + b < |s| && n != 0 && MatchLen(p, s, a + b) == n
    requires RemoveMatches(p, s, a + (b + n)) == RemoveMatches(p, s[a..], b + n)
    ensures RemoveMatches(p, s, a + b) == RemoveMatches(p, s[a..], b)
  {
    MatchLenShift(p, s, a, b);
    ShiftMatched(p, s, s[a..], a + b, b, n);
  }

  lemma {:induction false} ShiftUnmatchedAt(p: Pattern, s: string, a: nat, b: nat, next: nat)
    requires p.Literal? ==> |p.text| > 0
    requires a + b < |s| && MatchLen(p, s, a + b) == 0 && next == b + 1
    requires RemoveMatches(p, s, a + next) == RemoveMatches(p, s[a..], next)
    ensures RemoveMatches(p, s, a + b) == RemoveMatches(p, s[a..], b)
  {
    MatchLenShift(p, s, a, b);
    ShiftUnmatched(p, s, s[a..], a + b, b, a + next, next);
  }

  lemma {:induction false} ShiftMatched(p: Pattern, s: string, t: string, i: nat, j: nat, n: nat)
    requires p.Literal? ==> |p.text| > 0
    requires i < |s| && j < |t| && n != 0
    requires MatchLen(p, s, i) == n && MatchLen(p, t, j) == n
    requires RemoveMatches(p, s, i + n) == RemoveMatches(p, t, j + n)
    ensures RemoveMatches(p, s, i) == RemoveMatches(p, t, j)
  {
    MatchedStep(p, s, i);
    MatchedStep(p, t, j);
  }

  lemma {:induction false} ShiftUnmatched(p: Pattern, s: string, t: string, i: nat, j: nat, i1: nat, j1: nat)
    requires p.Literal? ==> |p.text| > 0
    requires i < |s| && j < |t| && s[i] == t[j] && i1 == i + 1 && j1 == j + 1
    requires MatchLen(p, s, i) == 0 && MatchLen(p, t, j) == 0
    requires RemoveMatches(p, s, i1) == RemoveMatches(p, t, j1)
    ensures RemoveMatches(p, s, i) == RemoveMatches(p, t, j)
  {
    UnmatchedStep(p, s, i);
    UnmatchedStep(p, t, j);
  }

  /** The third cleaning step: every "...done thinking." deleted. */
  function RemoveDoneThinking(s: string): (r: string)
    ensures |r| <= |s|
    ensures r == s <==> !Contains(s, DoneThinking)
  {
    var p := Literal(DoneThinking);
    assert s[0..] == s;
    forall k: nat | k < |s|
      ensures MatchLen(p, s, k) == 0 <==> !OccursAt(s, DoneThinking, k)
    {
    }
    RemoveMatchesUnchanged(p, s, 0);
    RemoveMatches(p, s, 0)
  }

  /** The fourth cleaning step: every "thinking" in any letter case, with the dots that follow it,
      deleted in one pass. */
  function RemoveThinkingNoise(s: string): (r: string)
    ensures |r| <= |s|
    ensures r == s <==> forall k: nat :: k < |s| ==> !ThinkingAt(s, k)
  {
    assert s[0..] == s;
    forall k: nat | k < |s|
      ensures MatchLen(ThinkingDots, s, k) == 0 <==> !ThinkingAt(s, k)
    {
    }
    RemoveMatchesUnchanged(ThinkingDots, s, 0);
    RemoveMatches(ThinkingDots, s, 0)
  }

  /** The text before the first "...done thinking." is kept, that occurrence goes, and
      the rest is cleaned the same way. */
  lemma {:induction false} RemoveDoneThinkingFirst(s: string, i: nat)
    requires OccursAt(s, DoneThinking, i)
    requires forall k: nat :: k < i ==> !OccursAt(s, DoneThinking, k)
    ensures RemoveDoneThinking(s) == s[..i] + RemoveDoneThinking(s[i + |DoneThinking|..])
  {
    var p := Literal(DoneThinking);
    FirstMatchThenRest(p, s, i);
  }

  /** The text before the first "thinking" is kept, that word and the whole run of
      dots after it go, and the rest is cleaned the same way. */
  lemma {:induction false} RemoveThinkingNoiseFirst(s: string, i: nat)
    requires ThinkingAt(s, i)
    requires forall k: nat :: k < i ==> !ThinkingAt(s, k)
    ensures RemoveThinkingNoise(s) == s[..i] + RemoveThinkingNoise(s[RunEnd(s, i + |Thinking|, IsDot)..])
  {
    FirstMatchThenRest(ThinkingDots, s, i);
  }

  /** A whole pass is the text up to the first match followed by a fresh pass over what
      follows that match. */
  lemma {:induction false} FirstMatchThenRest(p: Pattern, s: string, i: nat)
    requires p.Literal? ==> |p.text| > 0
    requires i < |s| && MatchLen(p, s, i) != 0
    requires forall k: nat :: k < i ==> MatchLen(p, s, k) == 0
    ensures RemoveMatches(p, s, 0) == s[..i] + RemoveMatches(p, s[i + MatchLen(p, s, i)..], 0)
  {
    var e := i + MatchLen(p, s, i);
    assert RemoveMatches(p, s, 0) == s[0..i] + RemoveMatches(p, s, e) by {
      RemoveMatchesFirst(p, s, 0, i);
    }
    assert RemoveMatches(p, s, e) == RemoveMatches(p, s[e..], 0) by {
      RemoveMatchesOfTail(p, s, e);
    }
    assert s[0..i] == s[..i];
  }

  lemma {:induction false} RemoveMatchesOfTail(p: Pattern, s: string, e: nat)
    requires p.Literal? ==> |p.text| > 0
    requires e <= |s|
    ensures RemoveMatches(p, s, e) == RemoveMatches(p, s[e..], 0)
  {
    RemoveMatchesShift(p, s, e, 0);
    assert e + 0 == e;
  }

  /** All four cleaning steps of `extract_final_answer`: the reply with reasoning and
      noise removed. */
  function Clean(text: string): (r: string)
    ensures |r| <= |text|
    ensures && !Contains(text, Open) && !Contains(text, DoneThinking)
            && (forall k: nat :: k < |text| ==> !ThinkingAt(text, k))
            ==> r == text
  {
    assert !Contains(text, Open) ==> !HasClosedBlock(text, 0) by {
      if !Contains(text, Open) {
        NoOpenNoBlock(text);
      }
    }
    RemoveThinkingNoise(RemoveDoneThinking(StripThink(text)))
  }

  // ---------------------------------------------------------------------------
  // The final paragraph
  // ---------------------------------------------------------------------------

  /** The paragraph step of `extract_final_answer`: the text kept before the final
      strip, namely the last paragraph of the stripped text when the cleaned text c has
      a blank line, else c itself. It has no blank line. */
  function Cut(c: string): (r: string)
    ensures !Contains(c, Blank) ==> r == c
    ensures !Contains(r, Blank)
  {
    if Contains(c, Blank) then LastPart(Strip(c), Blank) else c
  }

  /** What is cut is a piece of c free of blank lines. */
  lemma {:induction false} CutIsPiece(c: string)
    ensures IsPiece(c, Cut(c)) && !Contains(Cut(c), Blank)
  {
    if Contains(c, Blank) {
      assert Cut(c) == LastPart(Strip(c), Blank);
      LastParagraphIsPiece(c);
    } else {
      assert Cut(c) == c;
      PieceOfItself(c);
    }
  }

  /** The last paragraph of the stripped text is a piece of the text. */
  lemma {:induction false} LastParagraphIsPiece(c: string)
    ensures IsPiece(c, LastPart(Strip(c), Blank))
  {
    var t := Strip(c);
    var cut := LastPart(t, Blank);
    StripIsPiece(c);
    var i: nat :| OccursAt(c, t, i);
    LastPartIsPiece(t, Blank);
    OccursTrans(c, t, cut, i, |t| - |cut|);
  }

  /** So is its strip. */
  lemma {:induction false} StripOfCutIsPiece(c: string)
    ensures IsPiece(c, Strip(Cut(c))) && !Contains(Strip(Cut(c)), Blank)
  {
    var cut := Cut(c);
    CutIsPiece(c);
    var i: nat :| OccursAt(c, cut, i);
    var k: nat :| OccursAt(cut, Strip(cut), k);
    OccursTrans(c, cut, Strip(cut), i, k);
    NoOccurrenceInPiece(cut, Strip(cut), k, Blank);
  }

  /** r is the stripped tail of t that starts right where a blank line ends and holds
      none itself. */
  ghost predicate AfterLastBlank(t: string, r: string) {
    exists e: nat :: e <= |t| && EndsAt(t, Blank, e) && !Contains(t[e..], Blank) && r == Strip(t[e..])
  }

  /** Without a blank line in the stripped text, the answer is the stripped text. */
  lemma {:induction false} CutWithoutBlank(c: string)
    requires !Contains(Strip(c), Blank)
    ensures Strip(Cut(c)) == Strip(c)
  {
    if Contains(c, Blank) {
      StripOfStripped(Strip(c));
    }
  }

  /** With one, the answer is the stripped tail that follows a blank line. */
  lemma {:induction false} CutWithBlank(c: string)
    requires Contains(Strip(c), Blank)
    ensures AfterLastBlank(Strip(c), Strip(Cut(c)))
  {
    var t := Strip(c);
    assert Contains(c, Blank) by {
      StripIsPiece(c);
      var j: nat :| OccursAt(c, t, j);
      if !Contains(c, Blank) {
        NoOccurrenceInPiece(c, t, j, Blank);
      }
    }
    var cut := LastPart(t, Blank);
    var e := |t| - |cut|;
    assert Cut(c) == cut == t[e..];
    assert EndsAt(t, Blank, e) && !Contains(t[e..], Blank);
    assert Strip(Cut(c)) == Strip(t[e..]);
  }

  /** The end of `extract_final_answer`: when the cleaned text c has a blank line,
      keep the last paragraph of its stripped form; then strip. The result has no surrounding whitespace, no
      blank line, and is a piece of c. When the stripped text has no blank line, it is
      that stripped text; otherwise it is the stripped tail that follows a blank line
      and has none itself. */
  function FinalParagraph(c: string): (r: string)
    ensures IsStripped(r)
    ensures !Contains(r, Blank)
    ensures IsPiece(c, r)
    ensures !Contains(Strip(c), Blank) ==> r == Strip(c)
    ensures Contains(Strip(c), Blank) ==> AfterLastBlank(Strip(c), r)
  {
    StripOfCutIsPiece(c);
    if Contains(Strip(c), Blank) then
      CutWithBlank(c);
      Strip(Cut(c))
    else
      CutWithoutBlank(c);
      Strip(Cut(c))
  }

  /** `extract_final_answer`: the answer the model gives, with no reasoning block opening
      tag surviving the think-stripping, no surrounding whitespace, no blank line, and
      every character taken from the cleaned reply. */
  function ExtractFinalAnswer(text: string): (r: string)
    ensures IsStripped(r)
    ensures !Contains(r, Blank)
    ensures IsPiece(Clean(text), r)
  {
    FinalParagraph(Clean(text))
  }

  // ---------------------------------------------------------------------------
  // Consequences
  // ---------------------------------------------------------------------------

  /** A reply made of one reasoning block followed by an answer gives that answer,
      stripped, provided neither the reasoning nor the answer holds a `<` and the
      answer holds no noise and no blank line. */
  lemma {:induction false} SingleBlockThenAnswer(x: string, y: string)
    requires '<' !in x && '<' !in y
    requires !Contains(y, DoneThinking)
    requires forall k: nat :: k < |y| ==> !ThinkingAt(y, k)
    requires !Contains(y, Blank)
    ensures ExtractFinalAnswer(Open + x + Close + y) == Strip(y)
  {
    var s := Open + x + Close + y;
    var c := |Open| + |x|;
    var d := c + |Close|;
    assert s[..|Open|] == Open;
    assert OccursAt(s, Open, 0);
    assert s[c..d] == Close;
    forall k: nat | |Open| <= k < c
      ensures !OccursAt(s, Close, k)
    {
      assert s[k] == x[k - |Open|];
      if OccursAt(s, Close, k) {
        OccurrenceHead(s, Close, k);
      }
    }
    FindFromFirst(s, Close, |Open|, c);
    assert s[d..] == y;
    forall i: nat | d <= i < |s|
      ensures !OccursAt(s, Open, i)
    {
      assert s[i] == y[i - d];
      if OccursAt(s, Open, i) {
        OccurrenceHead(s, Open, i);
      }
    }
    StripClosedFromSpec(s, d);
    assert StripClosedFrom(s, d) == y;
    assert StripClosedThink(s) == y;
    AbsentWithoutHead(y, Open);
    assert StripThink(s) == y;
    assert Clean(s) == y;
    var j: nat :| OccursAt(y, Strip(y), j);
    NoOccurrenceInPiece(y, Strip(y), j, Blank);
  }

  /** The noise pass is a single pass, so deleting a match can join text into a new
      match: cleaning a reply twice need not give what cleaning it once gives. */
  lemma {:induction false} ExtractFinalAnswerNotIdempotent(s: string)
    requires s == "thinthinkingking"
    ensures ExtractFinalAnswer(s) == "thinking"
    ensures ExtractFinalAnswer(ExtractFinalAnswer(s)) == ""
  {
    AnswerOfJoined(s);
    AnswerOfThinking(ExtractFinalAnswer(s));
  }

  /** The joined reply is answered with the new "thinking". */
  lemma {:induction false} AnswerOfJoined(s: string)
    requires s == "thinthinkingking"
    ensures ExtractFinalAnswer(s) == "thinking"
  {
    var t := "thinking";
    assert Clean(s) == t by {
      PlainJoined(s);
      CleanOfPlainText(s);
      NoiseJoinsAcrossMatch(s);
    }
    assert FinalParagraph(t) == t by {
      PlainThinking(t);
      FinalParagraphOfLine(t);
    }
  }

  lemma {:induction false} PlainJoined(s: string)
    requires s == "thinthinkingking"
    ensures '<' !in s && '.' !in s
  {
  }

  lemma {:induction false} PlainThinking(t: string)
    requires t == "thinking"
    ensures IsStripped(t) && '\n' !in t && '<' !in t && '.' !in t
  {
  }

  /** The noise alone is answered with nothing. */
  lemma {:induction false} AnswerOfThinking(t: string)
    requires t == "thinking"
    ensures ExtractFinalAnswer(t) == ""
  {
    PlainThinking(t);
    CleanOfPlainText(t);
    NoiseOfThinking(t);
    FinalParagraphOfLine([]);
  }

  /** A single stripped line is its own final paragraph. */
  lemma {:induction false} FinalParagraphOfLine(c: string)
    requires IsStripped(c)
    requires '\n' !in c
    ensures FinalParagraph(c) == c
  {
    StripOfStripped(c);
    AbsentWithoutHead(c, Blank);
  }

  /** Text with neither `<` nor `.` reaches the noise pass unchanged. */
  lemma {:induction false} CleanOfPlainText(s: string)
    requires '<' !in s && '.' !in s
    ensures Clean(s) == RemoveThinkingNoise(s)
  {
    AbsentWithoutHead(s, Open);
    AbsentWithoutHead(s, DoneThinking);
    NoOpenNoBlock(s);
    assert StripClosedThink(s) == s;
    assert StripThink(s) == s;
  }

  /** Deleting the inner "thinking" joins "thin" and "king" into a new one. */
  lemma {:induction false} NoiseJoinsAcrossMatch(s: string)
    requires s == "thinthinkingking"
    ensures RemoveThinkingNoise(s) == "thinking"
  {
    JoinedHeadUnmatched(s);
    KeepUnmatched(ThinkingDots, s, 0, 4);
    InnerMatchDeleted(s);
    assert s[0..4] + s[12..] == "thinking";
  }

  /** No noise match starts in the leading "thin". */
  lemma {:induction false} JoinedHeadUnmatched(s: string)
    requires s == "thinthinkingking"
    ensures forall k: nat :: 0 <= k < 4 ==> MatchLen(ThinkingDots, s, k) == 0
  {
    forall k: nat | k < 4
      ensures MatchLen(ThinkingDots, s, k) == 0
    {
      if k == 0 {
        assert !FoldsTo(s[k + 4], Thinking[4]);
      } else {
        assert !FoldsTo(s[k], Thinking[0]);
      }
    }
  }

  /** The inner "thinking" is deleted and the trailing "king" is kept. */
  lemma {:induction false} InnerMatchDeleted(s: string)
    requires s == "thinthinkingking"
    ensures RemoveMatches(ThinkingDots, s, 4) == s[12..]
  {
    assert ThinkingAt(s, 4);
    assert RunEnd(s, 12, IsDot) == 12;
    assert RemoveMatches(ThinkingDots, s, 4) == RemoveMatches(ThinkingDots, s, 12);
    RemoveMatchesUnchanged(ThinkingDots, s, 12);
  }

  /** The noise pattern alone is deleted whole. */
  lemma {:induction false} NoiseOfThinking(t: string)
    requires t == "thinking"
    ensures RemoveThinkingNoise(t) == []
  {
    assert ThinkingAt(t, 0);
    assert RunEnd(t, 8, IsDot) == 8;
    assert RemoveMatches(ThinkingDots, t, 8) == [];
  }
}
