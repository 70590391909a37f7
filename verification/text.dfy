/** Character and substring primitives shared by the reply-text transforms:
    Python's whitespace class, substring search, `strip()` and `split()`. */
module Text {

  datatype Option<+T> = None | Some(value: T)

  /** Python's `str.isspace()`. It is also the class that `\s` matches in a str
      pattern and the set of characters `str.strip()` removes. */
  predicate IsSpace(c: char) {
    var n := c as int;
    || (0x09 <= n <= 0x0D)
    || (0x1C <= n <= 0x20)
    || n == 0x85
    || n == 0xA0
    || n == 0x1680
    || (0x2000 <= n <= 0x200A)
    || n == 0x2028
    || n == 0x2029
    || n == 0x202F
    || n == 0x205F
    || n == 0x3000
  }

  /** p occurs in s starting at index i. */
  predicate OccursAt(s: string, p: string, i: nat) {
    i + |p| <= |s| && s[i..i + |p|] == p
  }

  /** The first occurrence of p in s that starts at or after `from`. */
  function FindFrom(s: string, p: string, from: nat): (r: Option<nat>)
    ensures r.Some? ==> from <= r.value && OccursAt(s, p, r.value)
    decreases |s| - from
  {
    if from + |p| > |s| then None
    else if s[from..from + |p|] == p then Some(from)
    else FindFrom(s, p, from + 1)
  }

  /** FindFrom finds the first occurrence at or after `from`, and None means there is none. */
  lemma {:induction false} FindFromSpec(s: string, p: string, from: nat)
    ensures FindFrom(s, p, from).Some? ==> forall k: nat :: from <= k < FindFrom(s, p, from).value ==> !OccursAt(s, p, k)
    ensures FindFrom(s, p, from).None? ==> forall k: nat :: from <= k ==> !OccursAt(s, p, k)
    decreases |s| - from
  {
    if from + |p| <= |s| && s[from..from + |p|] != p {
      FindFromSpec(s, p, from + 1);
    }
  }

  /** An occurrence at c with none between `from` and c is the one FindFrom finds. */
  lemma {:induction false} FindFromFirst(s: string, p: string, from: nat, c: nat)
    requires from <= c && OccursAt(s, p, c)
    requires forall k: nat :: from <= k < c ==> !OccursAt(s, p, k)
    ensures FindFrom(s, p, from) == Some(c)
    decreases c - from
  {
    if from < c {
      FindFromFirst(s, p, from + 1, c);
    }
  }

  /** Python's `p in s`. */
  function Contains(s: string, p: string): (b: bool)
    ensures b <==> exists i: nat :: OccursAt(s, p, i)
  {
    FindFromSpec(s, p, 0);
    FindFrom(s, p, 0).Some?
  }

  /** An occurrence inside the slice s[lo..hi] is an occurrence in s, shifted by lo,
      that ends no later than hi; and conversely. */
  lemma {:induction false} OccursInSlice(s: string, lo: nat, hi: nat, p: string, k: nat)
    requires lo <= hi <= |s|
    ensures OccursAt(s[lo..hi], p, k) <==> lo + k + |p| <= hi && OccursAt(s, p, lo + k)
  {
    if lo + k + |p| <= hi {
      var t := s[lo..hi];
      var a, b := t[k..k + |p|], s[lo + k..lo + k + |p|];
      assert |a| == |b|;
      forall j | 0 <= j < |a|
        ensures a[j] == b[j]
      {
        assert a[j] == t[k + j] == s[lo + k + j];
      }
      assert a == b;
    }
  }

  /** A prefix of a slice is the shorter slice. */
  lemma {:induction false} PrefixOfSlice(s: string, i: nat, n: nat, m: nat)
    requires m <= n && i + n <= |s|
    ensures s[i..i + n][..m] == s[i..i + m]
  {
    var a, b := s[i..i + n][..m], s[i..i + m];
    forall j | 0 <= j < m
      ensures a[j] == b[j]
    {
      assert a[j] == s[i + j] == b[j];
    }
  }

  /** An occurrence at or after a is an occurrence in the tail s[a..]. */
  lemma {:induction false} OccursInTail(s: string, a: nat, p: string, k: nat)
    requires a <= k && OccursAt(s, p, k)
    ensures OccursAt(s[a..], p, k - a)
  {
    OccursInSlice(s, a, |s|, p, k - a);
    assert s[a..|s|] == s[a..];
  }

  /** A slice of a text in which p does not occur does not contain p either. */
  lemma {:induction false} NoOccurrenceInSlice(s: string, lo: nat, hi: nat, p: string)
    requires lo <= hi <= |s|
    requires !Contains(s, p)
    ensures !Contains(s[lo..hi], p)
  {
    forall k: nat | OccursAt(s[lo..hi], p, k)
      ensures false
    {
      OccursInSlice(s, lo, hi, p, k);
    }
  }

  /** End of the run of characters satisfying `inRun` that starts at k: how far a
      greedy `\s*` or `\.*` reaches. */
  function RunEnd(s: string, k: nat, inRun: char -> bool): (j: nat)
    requires k <= |s|
    ensures k <= j <= |s|
    ensures forall m :: k <= m < j ==> inRun(s[m])
    ensures j == |s| || !inRun(s[j])
    decreases |s| - k
  {
    if k < |s| && inRun(s[k]) then RunEnd(s, k + 1, inRun) else k
  }

  /** Start of the run of whitespace that ends at k, scanning backwards. */
  function SpaceRunStart(s: string, k: nat): (j: nat)
    requires k <= |s|
    ensures j <= k
    ensures forall m :: j <= m < k ==> IsSpace(s[m])
    ensures j == 0 || !IsSpace(s[j - 1])
  {
    if k > 0 && IsSpace(s[k - 1]) then SpaceRunStart(s, k - 1) else k
  }

  /** t occurs somewhere in s. */
  ghost predicate IsPiece(s: string, t: string) {
    exists i: nat :: OccursAt(s, t, i)
  }

  /** r has no whitespace at either end. */
  predicate IsStripped(r: string) {
    r == [] || (!IsSpace(r[0]) && !IsSpace(r[|r| - 1]))
  }

  /** s is r with only whitespace added before and after it. */
  ghost predicate Pads(s: string, r: string) {
    exists i: nat ::
      && OccursAt(s, r, i)
      && (forall m :: 0 <= m < i ==> IsSpace(s[m]))
      && (forall m :: i + |r| <= m < |s| ==> IsSpace(s[m]))
  }

  /** Python's `str.strip()` with no argument: the text with its leading and trailing
      whitespace removed, and nothing else. */
  function Strip(s: string): (r: string)
    ensures IsStripped(r)
    ensures Pads(s, r)
  {
    var a := RunEnd(s, 0, IsSpace);
    var b := SpaceRunStart(s, |s|);
    if b <= a then
      assert OccursAt(s, [], a);
      []
    else
      assert OccursAt(s, s[a..b], a);
      s[a..b]
  }

  /** The strip of a text is a piece of it. */
  lemma {:induction false} StripIsPiece(s: string)
    ensures IsPiece(s, Strip(s))
  {
  }

  /** An occurrence starts with the first character of what occurs. */
  lemma {:induction false} OccurrenceHead(s: string, p: string, i: nat)
    requires |p| > 0 && OccursAt(s, p, i)
    ensures s[i] == p[0]
  {
    assert s[i] == s[i..i + |p|][0];
  }

  /** A text lacking the first character of p does not contain p. */
  lemma {:induction false} AbsentWithoutHead(s: string, p: string)
    requires |p| > 0 && p[0] !in s
    ensures !Contains(s, p)
  {
    forall i: nat | OccursAt(s, p, i)
      ensures false
    {
      OccurrenceHead(s, p, i);
    }
  }

  /** A character past the first is a character of the tail. */
  lemma {:induction false} CharOfTail(s: string, i: nat)
    requires 0 < i < |s|
    ensures s[i] in s[1..]
  {
    assert s[i] == s[1..][i - 1];
  }

  /** Every text is a piece of itself. */
  lemma {:induction false} PieceOfItself(s: string)
    ensures OccursAt(s, s, 0)
  {
    assert s[0..|s|] == s;
  }

  /** Occurrence is transitive: a piece of a piece of s is a piece of s. */
  lemma {:induction false} OccursTrans(s: string, t: string, u: string, i: nat, j: nat)
    requires OccursAt(s, t, i) && OccursAt(t, u, j)
    ensures OccursAt(s, u, i + j)
  {
    OccursInSlice(s, i, i + |t|, u, j);
  }

  /** A text in which p does not occur has no piece in which p occurs. */
  lemma {:induction false} NoOccurrenceInPiece(s: string, t: string, i: nat, p: string)
    requires OccursAt(s, t, i) && !Contains(s, p)
    ensures !Contains(t, p)
  {
    NoOccurrenceInSlice(s, i, i + |t|, p);
  }

  /** A text that is already stripped is its own strip. */
  lemma {:induction false} StripOfStripped(s: string)
    requires IsStripped(s)
    ensures Strip(s) == s
  {
  }

  /** The text before the first occurrence of p does not contain p. */
  lemma {:induction false} NoEarlierOccurrence(s: string, p: string, i: nat)
    requires |p| > 0 && i <= |s|
    requires forall k: nat :: k < i ==> !OccursAt(s, p, k)
    ensures !Contains(s[..i], p)
  {
    forall k: nat | OccursAt(s[..i], p, k)
      ensures false
    {
      OccursInSlice(s, 0, i, p, k);
    }
  }

  /** An occurrence of p ends at index e of s. */
  predicate EndsAt(s: string, p: string, e: nat) {
    |p| <= e && OccursAt(s, p, e - |p|)
  }

  /** Where the text after the last cut begins, the cuts being made, from index `from`
      on, at each occurrence of sep found scanning from the left, the scan resuming
      behind each one. No occurrence starts at or after that index; it is `from` when
      none starts from `from` on, and otherwise an occurrence ends right there. */
  function LastCut(s: string, sep: string, from: nat): (k: nat)
    requires |sep| > 0 && from <= |s|
    ensures from <= k <= |s|
    decreases |s| - from
  {
    match FindFrom(s, sep, from)
    case None => from
    case Some(i) => LastCut(s, sep, i + |sep|)
  }

  /** What the cut index means: no occurrence starts at or after it; it is `from` when
      none starts from `from` on, and otherwise an occurrence ends right there. */
  lemma {:induction false} LastCutSpec(s: string, sep: string, from: nat)
    requires |sep| > 0 && from <= |s|
    ensures forall j: nat :: LastCut(s, sep, from) <= j ==> !OccursAt(s, sep, j)
    ensures (forall j: nat :: from <= j ==> !OccursAt(s, sep, j)) ==> LastCut(s, sep, from) == from
    ensures LastCut(s, sep, from) != from ==> EndsAt(s, sep, LastCut(s, sep, from))
    decreases |s| - from
  {
    FindFromSpec(s, sep, from);
    match FindFrom(s, sep, from)
    case None =>
      assert LastCut(s, sep, from) == from;
    case Some(i) =>
      var next := i + |sep|;
      LastCutSpec(s, sep, next);
      assert LastCut(s, sep, from) == LastCut(s, sep, next);
      assert EndsAt(s, sep, next);
      assert OccursAt(s, sep, i);
  }

  /** The first cut from `from` is made at the first occurrence found from there. */
  lemma {:induction false} LastCutUnfold(s: string, sep: string, from: nat)
    requires |sep| > 0 && from <= |s|
    ensures FindFrom(s, sep, from).Some? ==>
              LastCut(s, sep, from) == LastCut(s, sep, FindFrom(s, sep, from).value + |sep|)
  {
  }

  /** A tail of s holds no occurrence of p when none starts in s at or after its start. */
  lemma {:induction false} NoOccurrenceInTail(s: string, k: nat, p: string)
    requires k <= |s|
    requires forall j: nat :: k <= j ==> !OccursAt(s, p, j)
    ensures !Contains(s[k..], p)
  {
    forall j: nat | OccursAt(s[k..], p, j)
      ensures false
    {
      assert s[k..|s|] == s[k..];
      OccursInSlice(s, k, |s|, p, j);
    }
  }

  /** The last part is the piece that ends the text. */
  lemma {:induction false} LastPartIsPiece(s: string, sep: string)
    requires |sep| > 0
    ensures OccursAt(s, LastPart(s, sep), |s| - |LastPart(s, sep)|)
  {
    var r := LastPart(s, sep);
    assert s[|s| - |r|..|s|] == s[|s| - |r|..];
  }

  /** Python's `s.split(sep)[-1]`: the text after the last cut. It is a tail of s free of
      sep; it is s itself when sep does not occur, and otherwise an occurrence of sep
      ends right where it begins. */
  function LastPart(s: string, sep: string): (r: string)
    requires |sep| > 0
    ensures |r| <= |s| && r == s[|s| - |r|..]
    ensures !Contains(r, sep)
    ensures !Contains(s, sep) ==> r == s
    ensures Contains(s, sep) ==> EndsAt(s, sep, |s| - |r|)
  {
    var k := LastCut(s, sep, 0);
    LastCutSpec(s, sep, 0);
    NoOccurrenceInTail(s, k, sep);
    assert s[0..] == s;
    s[k..]
  }

  /** An occurrence in s at or after a is an occurrence in the tail s[a..], and back. */
  lemma {:induction false} OccursShift(s: string, p: string, a: nat, k: nat)
    requires a <= |s|
    ensures OccursAt(s, p, a + k) <==> OccursAt(s[a..], p, k)
  {
    OccursInSlice(s, a, |s|, p, k);
    assert s[a..|s|] == s[a..];
  }

  /** Searching s from a + b finds what searching the tail s[a..] from b finds, shifted
      by a. */
  lemma {:induction false} FindFromShift(s: string, p: string, a: nat, b: nat)
    requires a + b <= |s|
    ensures FindFrom(s, p, a + b).None? <==> FindFrom(s[a..], p, b).None?
    ensures FindFrom(s, p, a + b).Some? ==> FindFrom(s, p, a + b).value == a + FindFrom(s[a..], p, b).value
  {
    var t := s[a..];
    FindFromSpec(t, p, b);
    match FindFrom(t, p, b)
    case None =>
      if FindFrom(s, p, a + b).Some? {
        var c := FindFrom(s, p, a + b).value;
        OccursShift(s, p, a, c - a);
      }
    case Some(i) =>
      OccursShift(s, p, a, i);
      forall k: nat | a + b <= k < a + i
        ensures !OccursAt(s, p, k)
      {
        OccursShift(s, p, a, k - a);
      }
      FindFromFirst(s, p, a + b, a + i);
  }

  /** The cuts made in s from a + b on are those made in the tail s[a..] from b on. */
  lemma {:induction false} LastCutShift(s: string, sep: string, a: nat, b: nat)
    requires |sep| > 0 && a + b <= |s|
    ensures LastCut(s, sep, a + b) == a + LastCut(s[a..], sep, b)
    decreases |s| - a - b
  {
    var t := s[a..];
    match FindFrom(t, sep, b)
    case None =>
      ShiftCutNone(s, t, sep, a, b);
    case Some(i) =>
      var next := i + |sep|;
      LastCutShift(s, sep, a, next);
      ShiftCutSome(s, t, sep, a, b, i, next);
  }

  /** LastCutShift when the tail has no further occurrence: neither scan cuts again. */
  lemma {:induction false} ShiftCutNone(s: string, t: string, sep: string, a: nat, b: nat)
    requires |sep| > 0 && a + b <= |s| && t == s[a..]
    requires FindFrom(t, sep, b).None?
    ensures LastCut(s, sep, a + b) == a + LastCut(t, sep, b)
  {
    FindFromShift(s, sep, a, b);
  }

  /** LastCutShift when the tail has a further occurrence: both scans cut there. */
  lemma {:induction false} ShiftCutSome(s: string, t: string, sep: string, a: nat, b: nat, i: nat, next: nat)
    requires |sep| > 0 && a + b <= |s| && t == s[a..]
    requires FindFrom(t, sep, b) == Some(i) && next == i + |sep| && a + next <= |s|
    requires LastCut(s, sep, a + next) == a + LastCut(t, sep, next)
    ensures LastCut(s, sep, a + b) == a + LastCut(t, sep, b)
  {
    FindFromShift(s, sep, a, b);
    CutStepPair(s, t, sep, a + b, b, a + i, i, a + next, next, a);
  }

  /** Two scans that find their next occurrences at matching places make matching cuts. */
  lemma {:induction false} CutStepPair(s: string, t: string, sep: string, x: nat, y: nat, xi: nat, yi: nat, xn: nat, yn: nat, a: nat)
    requires |sep| > 0 && x <= |s| && y <= |t|
    requires FindFrom(s, sep, x) == Some(xi) && FindFrom(t, sep, y) == Some(yi)
    requires xn == xi + |sep| && yn == yi + |sep| && xn <= |s| && yn <= |t|
    requires LastCut(s, sep, xn) == a + LastCut(t, sep, yn)
    ensures LastCut(s, sep, x) == a + LastCut(t, sep, y)
  {
    assert LastCut(s, sep, x) == LastCut(s, sep, xn) by {
      LastCutUnfold(s, sep, x);
    }
    assert LastCut(t, sep, y) == LastCut(t, sep, yn) by {
      LastCutUnfold(t, sep, y);
    }
  }

  /** The first cut is made at the first occurrence. */
  lemma {:induction false} LastCutAtFirst(s: string, sep: string, i: nat)
    requires |sep| > 0 && OccursAt(s, sep, i)
    requires forall k: nat :: k < i ==> !OccursAt(s, sep, k)
    ensures LastCut(s, sep, 0) == LastCut(s, sep, i + |sep|)
  {
    FindFromFirst(s, sep, 0, i);
  }

  /** The last part starts where the last cut ends. */
  lemma {:induction false} LastPartFromCut(s: string, sep: string)
    requires |sep| > 0
    ensures LastPart(s, sep) == s[LastCut(s, sep, 0)..]
  {
  }

  /** `split` cuts at the first occurrence of sep and goes on with the text after it, so
      the last part of s is the last part of what follows the first occurrence. With
      the no-occurrence case of LastPart this fixes the result for every text, also
      when occurrences overlap. */
  lemma {:induction false} LastPartAfterFirst(s: string, sep: string, i: nat)
    requires |sep| > 0 && OccursAt(s, sep, i)
    requires forall k: nat :: k < i ==> !OccursAt(s, sep, k)
    ensures LastPart(s, sep) == LastPart(s[i + |sep|..], sep)
  {
    CutAfterFirst(s, sep, i);
    SameCutSamePart(s, sep, i + |sep|);
  }

  /** When the last cut in s is the last cut in the tail s[a..], shifted, both texts have
      the same last part. */
  lemma {:induction false} SameCutSamePart(s: string, sep: string, a: nat)
    requires |sep| > 0 && a <= |s|
    requires LastCut(s, sep, 0) == a + LastCut(s[a..], sep, 0)
    ensures LastPart(s, sep) == LastPart(s[a..], sep)
  {
    LastPartFromCut(s, sep);
    LastPartFromCut(s[a..], sep);
    DropOfDrop(s, a, LastCut(s[a..], sep, 0));
  }

  /** The last cut in s is the last cut in the text after its first occurrence, shifted
      to where that text starts. */
  lemma {:induction false} CutAfterFirst(s: string, sep: string, i: nat)
    requires |sep| > 0 && OccursAt(s, sep, i)
    requires forall k: nat :: k < i ==> !OccursAt(s, sep, k)
    ensures LastCut(s, sep, 0) == i + |sep| + LastCut(s[i + |sep|..], sep, 0)
  {
    LastCutAtFirst(s, sep, i);
    CutThroughTail(s, sep, i + |sep|);
  }

  /** When the scans from the start and from a make the same last cut, it lies in the
      tail s[a..]. */
  lemma {:induction false} CutThroughTail(s: string, sep: string, a: nat)
    requires |sep| > 0 && a <= |s|
    requires LastCut(s, sep, 0) == LastCut(s, sep, a)
    ensures LastCut(s, sep, 0) == a + LastCut(s[a..], sep, 0)
  {
    LastCutOfTail(s, sep, a);
  }

  /** The cuts made in s from a on are those made in the tail s[a..] from its start. */
  lemma {:induction false} LastCutOfTail(s: string, sep: string, a: nat)
    requires |sep| > 0 && a <= |s|
    ensures LastCut(s, sep, a) == a + LastCut(s[a..], sep, 0)
  {
    LastCutShift(s, sep, a, 0);
    assert a + 0 == a;
  }

  /** Dropping a then k characters drops a + k. */
  lemma {:induction false} DropOfDrop(s: string, a: nat, k: nat)
    requires a + k <= |s|
    ensures s[a + k..] == s[a..][k..]
  {
  }

  /** With overlapping separators the cut follows the first one: "a\n\n\nb" splits
      into "a" and "\nb". */
  lemma {:induction false} LastPartOverlapping(s: string, sep: string)
    requires s == "a\n\n\nb" && sep == "\n\n"
    ensures LastPart(s, sep) == "\nb"
  {
    OverlapStartsAtOne(s, sep);
    LastPartAfterFirst(s, sep, 1);
    NoBlankInNewlineB(s[3..], sep);
  }

  lemma {:induction false} OverlapStartsAtOne(s: string, sep: string)
    requires s == "a\n\n\nb" && sep == "\n\n"
    ensures OccursAt(s, sep, 1) && !OccursAt(s, sep, 0) && s[3..] == "\nb"
  {
    assert s[1..3] == sep;
    assert s[0] != sep[0];
  }

  lemma {:induction false} NoBlankInNewlineB(t: string, sep: string)
    requires t == "\nb" && sep == "\n\n"
    ensures !Contains(t, sep) && LastPart(t, sep) == t
  {
    assert !OccursAt(t, sep, 0) by {
      assert t[1] != sep[1];
    }
    assert forall k: nat :: OccursAt(t, sep, k) ==> k == 0;
  }

  /** A run that starts at a + k of s ends where the run starting at k of s[a..] ends,
      shifted by a. */
  lemma {:induction false} RunEndShift(s: string, a: nat, k: nat, inRun: char -> bool)
    requires a + k <= |s|
    ensures RunEnd(s, a + k, inRun) == a + RunEnd(s[a..], k, inRun)
    decreases |s| - a - k
  {
    if a + k < |s| && inRun(s[a + k]) {
      assert s[a..][k] == s[a + k];
      RunEndShift(s, a, k + 1, inRun);
    }
  }
}
