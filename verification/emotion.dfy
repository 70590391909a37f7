/** Emotion tags carried by a reply: picking the tag (`extrair_emocao`) and cutting
    the bracketed marker out of the text before it is spoken (`remover_emocao`). */
module Emotion {
  import opened Text

  /** The closed set of expressions the face can show. */
  datatype Emotion = Happy | Sad | Angry | Surprised | Suspicious | Sleepy | Neutral

  /** The tag's name: what a reply writes between brackets and the key of its pose. */
  function Name(e: Emotion): string {
    match e
    case Happy => "happy"
    case Sad => "sad"
    case Angry => "angry"
    case Surprised => "surprised"
    case Suspicious => "suspicious"
    case Sleepy => "sleepy"
    case Neutral => "neutral"
  }

  /** The literal marker `[name]`. */
  function Marker(e: Emotion): string {
    "[" + Name(e) + "]"
  }

  /** The order in which tags are tried, both by the extraction loop and by the
      alternation of the removal pattern. */
  const Priority: seq<Emotion> := [Happy, Sad, Angry, Surprised, Suspicious, Sleepy, Neutral]

  /** Where e stands in Priority. */
  function Rank(e: Emotion): (k: nat)
    ensures k < |Priority| && Priority[k] == e
  {
    match e
    case Happy => 0
    case Sad => 1
    case Angry => 2
    case Surprised => 3
    case Suspicious => 4
    case Sleepy => 5
    case Neutral => 6
  }

  /** The tags are pairwise distinct, so Rank undoes indexing into Priority. */
  lemma {:induction false} RankOfPriority(k: nat)
    requires k < |Priority|
    ensures Rank(Priority[k]) == k
  {
  }

  /** The first tag, from position k of Priority on, for which `present` holds. */
  function FirstPresent(present: Emotion -> bool, k: nat): (r: Option<Emotion>)
    requires k <= |Priority|
    ensures r.Some? ==> k <= Rank(r.value) && present(r.value)
    ensures forall d :: k <= Rank(d) && (r.None? || Rank(d) < Rank(r.value)) ==> !present(d)
    decreases |Priority| - k
  {
    if k == |Priority| then None
    else
      RankOfPriority(k);
      if present(Priority[k]) then Some(Priority[k]) else FirstPresent(present, k + 1)
  }

  /** `extrair_emocao`: the first tag in Priority whose marker occurs anywhere in the
      text; Neutral when no marker of the seven occurs. */
  function Extract(text: string): (e: Emotion)
    ensures Contains(text, Marker(e)) || (e == Neutral && forall d :: !Contains(text, Marker(d)))
    ensures forall d :: Rank(d) < Rank(e) ==> !Contains(text, Marker(d))
  {
    match FirstPresent(d => Contains(text, Marker(d)), 0)
    case Some(e) => e
    case None => Neutral
  }

  /** The contract of Extract pins the tag down: any tag meeting it is the one returned. */
  lemma {:induction false} ExtractIsTheOnlyChoice(text: string, e: Emotion)
    requires Contains(text, Marker(e)) || (e == Neutral && forall d :: !Contains(text, Marker(d)))
    requires forall d :: Rank(d) < Rank(e) ==> !Contains(text, Marker(d))
    ensures Extract(text) == e
  {
    var x := Extract(text);
    assert Priority[Rank(x)] == x && Priority[Rank(e)] == e;
  }

  /** Where a marker occurs does not matter, only which markers occur. */
  lemma {:induction false} ExtractDependsOnlyOnMarkersPresent(s: string, t: string)
    requires forall d :: Contains(s, Marker(d)) <==> Contains(t, Marker(d))
    ensures Extract(s) == Extract(t)
  {
    ExtractIsTheOnlyChoice(t, Extract(s));
  }

  /** A reply carrying exactly one of the seven markers yields that tag. */
  lemma {:induction false} ExtractSingleMarker(text: string, e: Emotion)
    requires Contains(text, Marker(e))
    requires forall d :: d != e ==> !Contains(text, Marker(d))
    ensures Extract(text) == e
  {
    ExtractIsTheOnlyChoice(text, e);
  }

  /** A marker starts with an opening bracket followed by the first letter of its name. */
  lemma {:induction false} MarkerHead(s: string, d: Emotion, i: nat)
    requires OccursAt(s, Marker(d), i)
    ensures i + 1 < |s| && s[i] == '[' && s[i + 1] == Name(d)[0]
  {
    assert s[i] == s[i..i + |Marker(d)|][0];
    assert s[i + 1] == s[i..i + |Marker(d)|][1];
  }

  /** Inside a marker, between its brackets, there is no bracket. */
  lemma {:induction false} BracketOnlyAtEnds(e: Emotion)
    ensures Marker(e)[|Marker(e)| - 1] == ']'
    ensures forall k :: 0 < k < |Marker(e)| - 1 ==> Marker(e)[k] != ']'
    ensures forall k :: 0 < k < |Marker(e)| ==> Marker(e)[k] != '['
  {
  }

  /** No marker is a proper prefix of another one. */
  lemma {:induction false} MarkersPrefixFree(d: Emotion, e: Emotion)
    ensures |Marker(d)| <= |Marker(e)| && Marker(e)[..|Marker(d)|] == Marker(d) ==> d == e
  {
    var md, me := Marker(d), Marker(e);
    BracketOnlyAtEnds(d);
    BracketOnlyAtEnds(e);
    if |md| < |me| {
      assert me[..|md|][|md| - 1] == me[|md| - 1] != ']';
    } else if |md| == |me| && me[..|md|] == md {
      assert md == me;
      assert Name(d) == md[1..|md| - 1] == Name(e);
    }
  }

  /** Hence at most one marker starts at any index. */
  lemma {:induction false} AtMostOneMarkerAt(s: string, i: nat, d: Emotion, e: Emotion)
    requires OccursAt(s, Marker(d), i) && OccursAt(s, Marker(e), i)
    ensures d == e
  {
    var md, me := Marker(d), Marker(e);
    if |md| <= |me| {
      PrefixOfSlice(s, i, |me|, |md|);
      MarkersPrefixFree(d, e);
    } else {
      PrefixOfSlice(s, i, |md|, |me|);
      MarkersPrefixFree(e, d);
    }
  }

  /** A marker outside the seven, such as `[furious]`, is never taken for a tag. */
  lemma {:induction false} ExtractIgnoresUnknownMarker(s: string)
    requires s == "[furious] Grr!"
    ensures Extract(s) == Neutral
  {
    FuriousHasNoMarker(s);
    ExtractIsTheOnlyChoice(s, Neutral);
  }

  /** A bracketed word outside the seven is no marker: `[furious]` has its bracket only
      at the start, and no tag begins with `f`. */
  lemma {:induction false} FuriousHasNoMarker(s: string)
    requires s == "[furious] Grr!"
    ensures forall d :: !Contains(s, Marker(d))
  {
    assert s[1] == 'f' && '[' !in s[1..];
    forall d, i: nat | OccursAt(s, Marker(d), i)
      ensures false
    {
      MarkerHead(s, d, i);
      if i > 0 {
        CharOfTail(s, i);
      }
    }
  }

  /** The marker that the removal pattern matches at index i, the alternatives being
      tried in Priority order; None when no marker starts there. */
  function MarkerAt(s: string, i: nat): (r: Option<Emotion>)
    ensures r.Some? ==> OccursAt(s, Marker(r.value), i)
    ensures r.None? ==> forall d :: !OccursAt(s, Marker(d), i)
  {
    FirstPresent(d => OccursAt(s, Marker(d), i), 0)
  }

  /** The leftmost index at or after `from` where some marker starts. */
  function FindMarker(s: string, from: nat): (r: Option<nat>)
    ensures r.Some? ==> from <= r.value < |s| && MarkerAt(s, r.value).Some?
    ensures forall k: nat, d :: from <= k && (r.None? || k < r.value) ==> !OccursAt(s, Marker(d), k)
    decreases |s| - from
  {
    if from >= |s| then None
    else if MarkerAt(s, from).Some? then Some(from)
    else FindMarker(s, from + 1)
  }

  /** r is s with the leftmost marker (tag e, at index i) and the whitespace run that
      follows it (up to index j) cut out. */
  ghost predicate CutsLeftmostMarker(s: string, r: string, i: nat, e: Emotion, j: nat) {
    && OccursAt(s, Marker(e), i)
    && (forall k: nat, d :: k < i ==> !OccursAt(s, Marker(d), k))
    && i + |Marker(e)| <= j <= |s|
    && (forall m :: i + |Marker(e)| <= m < j ==> IsSpace(s[m]))
    && (j == |s| || !IsSpace(s[j]))
    && r == s[..i] + s[j..]
  }

  /** `remover_emocao`: a single substitution of the marker pattern followed by `\s*`.
      When a marker is found, it and its trailing whitespace go, so the text shrinks. */
  function RemoveMarker(s: string): (r: string)
    ensures |r| <= |s|
    ensures FindMarker(s, 0).Some? ==> |r| < |s|
  {
    match FindMarker(s, 0)
    case None => s
    case Some(i) =>
      var e := MarkerAt(s, i).value;
      var j := RunEnd(s, i + |Marker(e)|, IsSpace);
      s[..i] + s[j..]
  }

  /** What the removal means: the text is unchanged exactly when it carries no marker;
      otherwise only the leftmost marker and its trailing whitespace go, and every other
      character, later markers included, stays where it was. */
  lemma {:induction false} RemoveMarkerCutsLeftmost(s: string)
    ensures RemoveMarker(s) == s <==> forall d :: !Contains(s, Marker(d))
    ensures (exists d :: Contains(s, Marker(d))) ==>
              exists i: nat, e, j: nat :: CutsLeftmostMarker(s, RemoveMarker(s), i, e, j)
  {
    match FindMarker(s, 0)
    case None =>
      assert RemoveMarker(s) == s;
      forall d
        ensures !Contains(s, Marker(d))
      {
      }
    case Some(i) =>
      var e := MarkerAt(s, i).value;
      var j := RunEnd(s, i + |Marker(e)|, IsSpace);
      assert RemoveMarker(s) == s[..i] + s[j..] && |RemoveMarker(s)| < |s|;
      assert CutsLeftmostMarker(s, RemoveMarker(s), i, e, j);
      assert Contains(s, Marker(e));
  }

  /** The tag extracted is the first in Priority, wherever its marker stands ... */
  lemma {:induction false} ExtractPrefersPriorityOverPosition(s: string)
    requires s == "[sad] Oi [happy]"
    ensures Extract(s) == Happy
  {
    assert OccursAt(s, Marker(Happy), 9);
    ExtractIsTheOnlyChoice(s, Happy);
  }

  /** ... while the marker removed is the leftmost one, so the two can differ. */
  lemma {:induction false} RemoveMarkerTakesLeftmost(s: string)
    requires s == "[sad] Oi [happy]"
    ensures RemoveMarker(s) == "Oi [happy]"
  {
    assert OccursAt(s, Marker(Sad), 0);
    assert FindMarker(s, 0) == Some(0);
    var e := MarkerAt(s, 0).value;
    AtMostOneMarkerAt(s, 0, e, Sad);
    var j := RunEnd(s, 5, IsSpace);
    assert IsSpace(s[5]) && !IsSpace(s[6]);
    assert j == 6;
  }

  /** A reply in the format the persona asks for: one marker, a space, then the body. */
  function Tagged(e: Emotion, body: string): string {
    Marker(e) + " " + body
  }

  /** In a tagged reply whose body carries no marker, the only marker is the tag. */
  lemma {:induction false} OnlyMarkerIsTheTag(e: Emotion, body: string, d: Emotion, i: nat)
    requires forall c :: !Contains(body, Marker(c))
    requires OccursAt(Tagged(e, body), Marker(d), i)
    ensures i == 0 && d == e
  {
    var s, m := Tagged(e, body), |Marker(e)|;
    if i == 0 {
      assert OccursAt(s, Marker(e), 0) by {
        assert s[..m] == Marker(e);
      }
      AtMostOneMarkerAt(s, 0, d, e);
    } else if i < m {
      assert s[i] == Marker(e)[i];
      BracketOnlyAtEnds(e);
      MarkerHead(s, d, i);
    } else if i == m {
      assert s[i] == ' ';
      MarkerHead(s, d, i);
    } else {
      assert s[m + 1..] == body;
      OccursInTail(s, m + 1, Marker(d), i);
    }
  }

  /** The two operations split a tagged reply back into its parts: the tag comes out of
      the extraction and the body out of the removal, whatever the body says, provided
      it carries no marker and does not start with whitespace. */
  lemma {:induction false} TaggedRoundTrip(e: Emotion, body: string)
    requires forall c :: !Contains(body, Marker(c))
    requires body == [] || !IsSpace(body[0])
    ensures Extract(Tagged(e, body)) == e
    ensures RemoveMarker(Tagged(e, body)) == body
  {
    TaggedExtract(e, body);
    TaggedRemove(e, body);
  }

  /** The tag of a tagged reply is the only marker in it, hence the tag extracted. */
  lemma {:induction false} TaggedExtract(e: Emotion, body: string)
    requires forall c :: !Contains(body, Marker(c))
    ensures Extract(Tagged(e, body)) == e
  {
    var s := Tagged(e, body);
    assert OccursAt(s, Marker(e), 0) by {
      assert s[..|Marker(e)|] == Marker(e);
    }
    forall d | Contains(s, Marker(d))
      ensures d == e
    {
      var i: nat :| OccursAt(s, Marker(d), i);
      OnlyMarkerIsTheTag(e, body, d, i);
    }
    ExtractIsTheOnlyChoice(s, e);
  }

  /** The tag of a tagged reply starts at index 0, so it is the marker removed, with the
      one space after it. */
  lemma {:induction false} TaggedRemove(e: Emotion, body: string)
    requires body == [] || !IsSpace(body[0])
    ensures RemoveMarker(Tagged(e, body)) == body
  {
    var s, m := Tagged(e, body), |Marker(e)|;
    assert OccursAt(s, Marker(e), 0) by {
      assert s[..m] == Marker(e);
    }
    assert FindMarker(s, 0) == Some(0);
    assert MarkerAt(s, 0) == Some(e) by {
      AtMostOneMarkerAt(s, 0, MarkerAt(s, 0).value, e);
    }
    assert RunEnd(s, m, IsSpace) == m + 1 by {
      assert IsSpace(s[m]);
      assert m + 1 == |s| || s[m + 1] == body[0];
    }
    assert s[m + 1..] == body;
  }
}
