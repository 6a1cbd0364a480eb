/**
 * The response segmenter of `generateReview`: the model's free-text reply is
 * split on the start marker, fragments that are blank once trimmed are
 * dropped, and each remaining fragment loses its first end marker and is
 * trimmed. The result is the list of review texts, in document order.
 */
module Segmenter {
  import opened Strings
  import opened Lists

  /** The literal that starts each review in the reply. */
  const ReviewMarker: string := "###REVIEW###"
  /** The literal that ends each review in the reply. */
  const EndMarker: string := "###END###"

  /** Neither marker holds a whitespace character. */
  lemma MarkersHaveNoWhitespace()
    ensures forall k | 0 <= k < |ReviewMarker| :: !IsWhitespace(ReviewMarker[k])
    ensures forall k | 0 <= k < |EndMarker| :: !IsWhitespace(EndMarker[k])
  {
  }

  /** The filter callback: the fragment is more than whitespace. */
  predicate HasContent(fragment: string): (kept: bool)
    ensures kept <==> exists i | 0 <= i < |fragment| :: !IsWhitespace(fragment[i])
  {
    |Trim(fragment)| > 0
  }

  /** The map callback: the first end marker goes, then the text is trimmed. */
  function Clean(fragment: string): (item: string)
    ensures IsTrimmed(item)
    ensures !Contains(fragment, EndMarker) ==> item == Trim(fragment)
  {
    Trim(ReplaceFirst(fragment, EndMarker, ""))
  }

  /** The fragments of a reply: the pieces between its start markers. */
  function Fragments(text: string): (fragments: seq<string>)
    ensures |fragments| == Count(text, ReviewMarker) + 1
    ensures Join(fragments, ReviewMarker) == text
  {
    SplitCount(text, ReviewMarker);
    SplitJoin(text, ReviewMarker);
    Split(text, ReviewMarker)
  }

  /** The split, filter and map chain that turns a reply into review texts. */
  function Segment(text: string): (items: seq<string>)
    ensures forall k | 0 <= k < |items| :: IsTrimmed(items[k])
    ensures |items| <= Count(text, ReviewMarker) + 1
  {
    Map(Clean, Filter(HasContent, Fragments(text)))
  }

  /** Positions, among the fragments of a reply, of those that become reviews. */
  function Sources(text: string): seq<nat> {
    Origins(HasContent, Fragments(text), 0)
  }

  /** The k-th review text is the cleaned fragment at the k-th source position. */
  lemma SourcesGiveItems(text: string)
    ensures |Sources(text)| == |Segment(text)|
    ensures forall k | 0 <= k < |Sources(text)| ::
      Sources(text)[k] < |Fragments(text)| && Segment(text)[k] == Clean(Fragments(text)[Sources(text)[k]])
  {
    var fragments := Fragments(text);
    assert fragments[0..] == fragments;
    FilterPicksOrigins(HasContent, fragments, 0);
  }

  /** Source fragments have content and do not hold the start marker. */
  lemma SourcesHaveContent(text: string)
    ensures forall k | 0 <= k < |Sources(text)| ::
      Sources(text)[k] < |Fragments(text)| &&
      HasContent(Fragments(text)[Sources(text)[k]]) &&
      !Contains(Fragments(text)[Sources(text)[k]], ReviewMarker)
  {
    var fragments := Fragments(text);
    var sources := Sources(text);
    assert fragments == Split(text, ReviewMarker);
    assert sources == Origins(HasContent, fragments, 0);
    SplitPiecesLackSeparator(text, ReviewMarker);
    OriginsAccepted(HasContent, fragments, 0);
    forall k | 0 <= k < |sources|
      ensures sources[k] < |fragments| && HasContent(fragments[sources[k]])
      ensures !Contains(fragments[sources[k]], ReviewMarker)
    {
      var j := sources[k];
      assert j < |fragments| && HasContent(fragments[j]);
    }
  }

  /**
   * Items appear in document order: the k-th review text is the cleaned form
   * of the fragment at the k-th source position, and the source positions
   * strictly increase. They are exactly the fragments with content, and none
   * of those holds the start marker.
   */
  lemma SegmentInDocumentOrder(text: string)
    ensures |Sources(text)| == |Segment(text)|
    ensures forall k | 0 <= k < |Sources(text)| ::
      Sources(text)[k] < |Fragments(text)| &&
      HasContent(Fragments(text)[Sources(text)[k]]) &&
      !Contains(Fragments(text)[Sources(text)[k]], ReviewMarker) &&
      Segment(text)[k] == Clean(Fragments(text)[Sources(text)[k]])
    ensures forall k, l | 0 <= k < l < |Sources(text)| :: Sources(text)[k] < Sources(text)[l]
    ensures forall j | 0 <= j < |Fragments(text)| && HasContent(Fragments(text)[j]) :: j in Sources(text)
  {
    SourcesGiveItems(text);
    SourcesHaveContent(text);
    OriginsIncrease(HasContent, Fragments(text), 0);
    OriginsComplete(HasContent, Fragments(text), 0);
  }

  /** A reply that is empty or only whitespace yields no reviews. */
  lemma BlankReplyGivesNothing(text: string)
    requires IsBlank(text)
    ensures Segment(text) == []
  {
    var fragments := Fragments(text);
    SplitBlank(text, ReviewMarker);
    FilterNone(HasContent, fragments);
  }

  /**
   * A reply without the start marker is a single fragment: it yields one
   * review, the reply with its first end marker removed and trimmed, unless
   * it is blank.
   */
  lemma ReplyWithoutStartMarker(text: string)
    requires !Contains(text, ReviewMarker)
    ensures Segment(text) == if IsBlank(text) then [] else [Clean(text)]
  {
    SplitWithoutSeparator(text, ReviewMarker);
    assert Fragments(text) == [text];
    assert [text][1..] == [];
    assert Filter(HasContent, [text]) == if HasContent(text) then [text] else [];
    assert HasContent(text) <==> !IsBlank(text);
  }

  /** A reply with no markers at all yields itself, trimmed, unless blank. */
  lemma ReplyWithoutMarkers(text: string)
    requires !Contains(text, ReviewMarker) && !Contains(text, EndMarker)
    ensures Segment(text) == if IsBlank(text) then [] else [Trim(text)]
  {
    ReplyWithoutStartMarker(text);
  }

  /** Cleaning a fragment without end marker cannot bring in a pattern it lacks. */
  lemma CleanLacks(fragment: string, pat: string)
    requires !Contains(fragment, EndMarker) && !Contains(fragment, pat)
    ensures !Contains(Clean(fragment), pat)
  {
    assert Clean(fragment) == Trim(fragment);
    TrimLacks(fragment, pat);
  }

  /**
   * The fragment has no end marker, or its first end marker ends the
   * fragment or is followed by whitespace, as in the format the prompt asks
   * for. Removing that marker then cannot splice a start marker together.
   */
  predicate EndMarkerAtBreak(fragment: string) {
    match IndexOf(fragment, EndMarker)
    case None => true
    case Some(i) => i + |EndMarker| == |fragment| || IsWhitespace(fragment[i + |EndMarker|])
  }

  /** A fragment whose first end marker follows `x` and is followed by nothing or whitespace. */
  lemma EndMarkerAtBreakBetween(x: string, z: string)
    requires forall j: nat | j < |x| :: !OccursAt(x + EndMarker + z, EndMarker, j)
    requires z == [] || IsWhitespace(z[0])
    ensures EndMarkerAtBreak(x + EndMarker + z)
  {
    var f := x + EndMarker + z;
    OccursBetween(x, EndMarker, z);
    IndexOfAt(f, EndMarker, |x|);
    if z != [] {
      assert f[|x| + |EndMarker|] == z[0];
    }
  }

  /**
   * When every fragment of the reply has its first end marker at a break, no
   * review text holds the start marker: what surrounds the removed marker
   * lacks it, and cannot form it across the joint.
   */
  lemma ItemsLackStartMarkerAtBreaks(text: string)
    requires forall k | 0 <= k < |Fragments(text)| :: EndMarkerAtBreak(Fragments(text)[k])
    ensures forall k | 0 <= k < |Segment(text)| :: !Contains(Segment(text)[k], ReviewMarker)
  {
    var fragments := Fragments(text);
    var items := Segment(text);
    var o := Sources(text);
    SourcesGiveItems(text);
    SourcesHaveContent(text);
    forall k | 0 <= k < |items| ensures !Contains(items[k], ReviewMarker) {
      FragmentCleanLacksStartMarker(fragments[o[k]]);
    }
  }

  /** A fragment without start marker whose first end marker is at a break cleans to text without one. */
  lemma FragmentCleanLacksStartMarker(fragment: string)
    requires EndMarkerAtBreak(fragment) && !Contains(fragment, ReviewMarker)
    ensures !Contains(Clean(fragment), ReviewMarker)
  {
    match IndexOf(fragment, EndMarker) {
      case None => CleanLacks(fragment, ReviewMarker);
      case Some(i) => CleanKeepsOutStartMarker(fragment, i);
    }
  }

  /**
   * Cutting out the first end marker, at `i`, where it ends the fragment or
   * is followed by whitespace, and trimming cannot bring in the start marker.
   */
  lemma CleanKeepsOutStartMarker(fragment: string, i: nat)
    requires OccursAt(fragment, EndMarker, i) && forall j: nat | j < i :: !OccursAt(fragment, EndMarker, j)
    requires i + |EndMarker| == |fragment| || IsWhitespace(fragment[i + |EndMarker|])
    requires !Contains(fragment, ReviewMarker)
    ensures !Contains(Clean(fragment), ReviewMarker)
  {
    CleanSplices(fragment, i);
    MarkersHaveNoWhitespace();
    CutBeforeWhitespaceLacks(fragment, i, i + |EndMarker|, ReviewMarker);
  }

  /**
   * When the reply holds no end marker, no review text holds the start
   * marker: no fragment has an end marker to remove.
   */
  lemma ItemsLackStartMarker(text: string)
    requires !Contains(text, EndMarker)
    ensures forall k | 0 <= k < |Segment(text)| :: !Contains(Segment(text)[k], ReviewMarker)
  {
    var fragments := Fragments(text);
    SplitLacks(text, ReviewMarker, EndMarker);
    forall k | 0 <= k < |fragments| ensures EndMarkerAtBreak(fragments[k]) {
      assert IndexOf(fragments[k], EndMarker).None?;
    }
    ItemsLackStartMarkerAtBreaks(text);
  }

  /**
   * Only the first end marker of a fragment is removed: when a second one
   * follows the first, the review text still contains an end marker.
   */
  lemma LaterEndMarkersStay(fragment: string, i: nat)
    requires OccursAt(fragment, EndMarker, i) && forall j: nat | j < i :: !OccursAt(fragment, EndMarker, j)
    requires Contains(fragment[i + |EndMarker|..], EndMarker)
    ensures Contains(Clean(fragment), EndMarker)
  {
    CleanSplices(fragment, i);
    TrimKeepsEndMarker(fragment[..i], fragment[i + |EndMarker|..]);
  }

  /** An end marker after the splice point survives the trim. */
  lemma TrimKeepsEndMarker(before: string, rest: string)
    requires Contains(rest, EndMarker)
    ensures Contains(Trim(before + rest), EndMarker)
  {
    ContainsAfterPrefix(before, rest, EndMarker);
    assert EndMarker[0] == '#' && EndMarker[8] == '#';
    TrimKeepsContains(before + rest, EndMarker);
  }

  /** Cleaning trims what is left once the first end marker, at `i`, is cut out. */
  lemma CleanSplices(fragment: string, i: nat)
    requires OccursAt(fragment, EndMarker, i) && forall j: nat | j < i :: !OccursAt(fragment, EndMarker, j)
    ensures Clean(fragment) == Trim(fragment[..i] + fragment[i + |EndMarker|..])
  {
    ReplaceFirstAt(fragment, EndMarker, "", i);
    assert fragment[..i] + "" + fragment[i + |EndMarker|..] == fragment[..i] + fragment[i + |EndMarker|..];
  }

  /**
   * Where the first end marker of a fragment is at `i` and what surrounds it
   * is text padded with whitespace, cleaning gives that text.
   */
  lemma CleanAt(fragment: string, i: nat, a: string, x: string, b: string)
    requires OccursAt(fragment, EndMarker, i) && forall j: nat | j < i :: !OccursAt(fragment, EndMarker, j)
    requires fragment[..i] + fragment[i + |EndMarker|..] == a + x + b
    requires IsBlank(a) && IsBlank(b) && x != [] && !IsWhitespace(x[0]) && !IsWhitespace(x[|x| - 1])
    ensures Clean(fragment) == x
  {
    ReplaceFirstAt(fragment, EndMarker, "", i);
    assert fragment[..i] + "" + fragment[i + |EndMarker|..] == a + x + b;
    TrimPadded(a, x, b);
  }

  /** A blank string has no end marker starting anywhere inside it. */
  lemma BlankPrefixHasNoMarker(a: string, s: string, j: nat)
    requires IsBlank(a) && |a| <= |s| && s[..|a|] == a && j < |a|
    ensures !OccursAt(s, EndMarker, j)
  {
    assert s[j] == a[j];
    if j + |EndMarker| <= |s| { assert s[j..j + |EndMarker|][0] == s[j]; }
  }

  /**
   * The filter runs before the end marker is removed, so a fragment that is
   * only an end marker amid whitespace passes the filter and becomes an
   * empty review text.
   */
  lemma EndMarkerAmidBlanksGivesEmptyItem(a: string, b: string)
    requires IsBlank(a) && IsBlank(b)
    ensures HasContent(a + EndMarker + b) && Clean(a + EndMarker + b) == ""
  {
    var f := a + EndMarker + b;
    assert f[|a|] == '#';
    assert !IsBlank(f);
    OccursBetween(a, EndMarker, b);
    forall j: nat | j < |a| ensures !OccursAt(f, EndMarker, j) {
      BlankPrefixHasNoMarker(a, f, j);
    }
    ReplaceFirstAt(f, EndMarker, "", |a|);
    assert a + "" + b == a + b;
    BlankConcat(a, b);
    assert Clean(f) == Trim(a + b);
  }
}
