/**
 * Concrete replies and the review texts the segmenter provably yields for
 * them. Each reply is written as a
 * concatenation of the two markers and short literals, so where a marker
 * occurs follows from how the reply is built. The few windows that could
 * still hold a marker are ruled out character by character in small lemmas.
 */
module SegmenterExamples {
  import opened Strings
  import opened Lists
  import opened Segmenter

  /** `###REVIEW### A ###END### ###REVIEW### B ###END###`: two reviews in the requested format. */
  const TwoReviews: string := ReviewMarker + " A " + EndMarker + " " + ReviewMarker + " B " + EndMarker
  /** `###REVIEW###   ###END######REVIEW###X###END###`: the first review is only an end marker amid spaces. */
  const BlankFirstReview: string := ReviewMarker + "   " + EndMarker + ReviewMarker + "X" + EndMarker
  /** `###REV###END###IEW###`: removing the end marker splices a start marker together. */
  const SplicedReply: string := "###REV" + EndMarker + "IEW###"
  /** A reply in which the model used no markers at all. */
  const PlainReply: string := "no markers at all"

  /** A window whose character at offset `p` differs from the pattern's cannot hold it. */
  lemma WindowMismatch(s: string, pat: string, j: nat, p: nat)
    requires p < |pat| && j + p < |s| && s[j + p] != pat[p]
    ensures !OccursAt(s, pat, j)
  {
    if j + |pat| <= |s| {
      assert s[j..j + |pat|][p] == s[j + p];
    }
  }

  /**
   * A reply that opens with the start marker and holds one more, right after
   * `a`, splits into an empty fragment, `a` and `b`.
   */
  lemma SplitTwoMarked(a: string, b: string)
    requires forall j: nat | j < |a| :: !OccursAt(a + ReviewMarker + b, ReviewMarker, j)
    requires !Contains(b, ReviewMarker)
    ensures Fragments(ReviewMarker + a + ReviewMarker + b) == ["", a, b]
  {
    var s := ReviewMarker + a + ReviewMarker + b;
    var rest := a + ReviewMarker + b;
    assert s == [] + ReviewMarker + rest;
    SplitAtFirstMarker([], rest);
    SplitAtFirstMarker(a, b);
    SplitWithoutSeparator(b, ReviewMarker);
    assert Split(s, ReviewMarker) == [[]] + ([a] + [b]);
  }

  /** Text with its first start marker right after `a` splits into `a` and the fragments of `b`. */
  lemma SplitAtFirstMarker(a: string, b: string)
    requires forall j: nat | j < |a| :: !OccursAt(a + ReviewMarker + b, ReviewMarker, j)
    ensures Split(a + ReviewMarker + b, ReviewMarker) == [a] + Split(b, ReviewMarker)
  {
    var s := a + ReviewMarker + b;
    OccursBetween(a, ReviewMarker, b);
    SplitFirstAt(s, ReviewMarker, |a|);
  }

  /**
   * A fragment made of text, the end marker and more text, with no end marker
   * starting in the first text, has content and cleans to the padded `t`.
   */
  lemma CleanBetween(x: string, z: string, a: string, t: string, b: string)
    requires forall j: nat | j < |x| :: !OccursAt(x + EndMarker + z, EndMarker, j)
    requires x + z == a + t + b
    requires IsBlank(a) && IsBlank(b) && t != [] && !IsWhitespace(t[0]) && !IsWhitespace(t[|t| - 1])
    ensures HasContent(x + EndMarker + z) && Clean(x + EndMarker + z) == t
  {
    var f := x + EndMarker + z;
    assert f[|x|] == '#';
    assert !IsBlank(f);
    OccursBetween(x, EndMarker, z);
    CleanAt(f, |x|, a, t, b);
  }

  /** Filtering three elements of which the callback rejects only the first. */
  lemma FilterDropsFirstOfThree<T>(keep: T -> bool, x: T, y: T, z: T)
    requires !keep(x) && keep(y) && keep(z)
    ensures Filter(keep, [x, y, z]) == [y, z]
  {
    var xs := [x, y, z];
    assert xs[1..] == [y, z];
    assert xs[1..][1..] == [z];
    assert xs[1..][1..][1..] == [];
    assert Filter(keep, [z]) == [z];
    assert Filter(keep, [y, z]) == [y] + [z];
    assert Filter(keep, xs) == [] + [y, z];
  }

  /** Mapping a pair maps each of its elements. */
  lemma MapPair<T, U>(f: T -> U, y: T, z: T)
    ensures Map(f, [y, z]) == [f(y), f(z)]
  {
    var ys := Map(f, [y, z]);
    assert ys[0] == f(y) && ys[1] == f(z);
  }

  /** Three fragments of which the first is blank give two review texts. */
  lemma SegmentOfThree(text: string, x: string, y: string, z: string)
    requires Fragments(text) == [x, y, z] && !HasContent(x) && HasContent(y) && HasContent(z)
    ensures Segment(text) == [Clean(y), Clean(z)]
  {
    FilterDropsFirstOfThree(HasContent, x, y, z);
    assert Segment(text) == Map(Clean, [y, z]);
    MapPair(Clean, y, z);
  }

  /** The reply with two reviews splits into an empty fragment and one per review. */
  lemma TwoReviewsFragments(a: string, b: string)
    requires a == " A " + EndMarker + " " && b == " B " + EndMarker
    ensures Fragments(ReviewMarker + a + ReviewMarker + b) == ["", a, b]
  {
    var rest := a + ReviewMarker + b;
    MarkersHaveNoWhitespace();
    assert rest[0] == ' ' && rest[12] == ' ' && b[0] == ' ';
    forall j: nat | j < |a| ensures !OccursAt(rest, ReviewMarker, j) {
      WindowOverWhitespace(rest, ReviewMarker, j, if j == 0 then 0 else 12);
    }
    forall j: nat | j <= |b| ensures !OccursAt(b, ReviewMarker, j) {
      if j == 0 {
        WindowOverWhitespace(b, ReviewMarker, j, 0);
      }
    }
    SplitTwoMarked(a, b);
  }

  /** A letter between spaces, followed by the end marker and blank text, cleans to the letter. */
  lemma LetterBeforeEndMarker(c: char, z: string)
    requires !IsWhitespace(c) && IsBlank(z)
    ensures HasContent([' ', c, ' '] + EndMarker + z) && Clean([' ', c, ' '] + EndMarker + z) == [c]
  {
    var x := [' ', c, ' '];
    MarkersHaveNoWhitespace();
    forall j: nat | j < 3 ensures !OccursAt(x + EndMarker + z, EndMarker, j) {
      WindowOverWhitespace(x + EndMarker + z, EndMarker, j, 2);
    }
    assert x + z == [' '] + [c] + ([' '] + z);
    assert IsBlank([' '] + z) by {
      forall i | 0 <= i < |[' '] + z| ensures IsWhitespace(([' '] + z)[i]) {
        if i > 0 { assert ([' '] + z)[i] == z[i - 1]; }
      }
    }
    CleanBetween(x, z, [' '], [c], [' '] + z);
  }

  /** A reply in the requested format yields its reviews, in order. */
  lemma TwoReviewsSegment()
    ensures Segment(TwoReviews) == ["A", "B"]
  {
    var a := " A " + EndMarker + " ";
    var b := " B " + EndMarker;
    assert TwoReviews == ReviewMarker + a + ReviewMarker + b;
    TwoReviewsFragments(a, b);
    assert IsBlank(" ") && IsBlank("") && !IsWhitespace('A') && !IsWhitespace('B');
    LetterBeforeEndMarker('A', " ");
    LetterBeforeEndMarker('B', "");
    assert a == [' ', 'A', ' '] + EndMarker + " " && b == [' ', 'B', ' '] + EndMarker + "";
    SegmentOfThree(TwoReviews, "", a, b);
  }

  /**
   * The reply in the requested format meets the condition under which no
   * review text holds the start marker.
   */
  lemma TwoReviewsEndMarkersAtBreaks()
    ensures forall k | 0 <= k < |Fragments(TwoReviews)| :: EndMarkerAtBreak(Fragments(TwoReviews)[k])
    ensures forall k | 0 <= k < |Segment(TwoReviews)| :: !Contains(Segment(TwoReviews)[k], ReviewMarker)
  {
    var a := " A " + EndMarker + " ";
    var b := " B " + EndMarker;
    assert TwoReviews == ReviewMarker + a + ReviewMarker + b;
    TwoReviewsFragments(a, b);
    assert a == [' ', 'A', ' '] + EndMarker + " " && b == [' ', 'B', ' '] + EndMarker + "";
    LetterFragmentAtBreak('A', " ");
    LetterFragmentAtBreak('B', "");
    assert IndexOf("", EndMarker).None?;
    ItemsLackStartMarkerAtBreaks(TwoReviews);
  }

  /** In a letter between spaces followed by the end marker, the end marker is at a break when `z` is. */
  lemma LetterFragmentAtBreak(c: char, z: string)
    requires z == [] || IsWhitespace(z[0])
    ensures EndMarkerAtBreak([' ', c, ' '] + EndMarker + z)
  {
    var x := [' ', c, ' '];
    MarkersHaveNoWhitespace();
    forall j: nat | j < 3 ensures !OccursAt(x + EndMarker + z, EndMarker, j) {
      WindowOverWhitespace(x + EndMarker + z, EndMarker, j, 2);
    }
    EndMarkerAtBreakBetween(x, z);
  }

  /** No start marker begins inside an end marker that it follows. */
  lemma NoStartMarkerInEndMarker(y: string)
    ensures forall j: nat | j < |EndMarker| :: !OccursAt(EndMarker + ReviewMarker + y, ReviewMarker, j)
  {
    var s := EndMarker + ReviewMarker + y;
    assert s[3] == 'E' && s[4] == 'N' && s[5] == 'D' && s[9] == '#' && s[10] == '#' && s[11] == '#';
    assert ReviewMarker[0] == '#' && ReviewMarker[1] == '#' && ReviewMarker[2] == '#' && ReviewMarker[3] == 'R';
    forall j: nat | j < |EndMarker| ensures !OccursAt(s, ReviewMarker, j) {
      if j <= 3 {
        WindowMismatch(s, ReviewMarker, j, 3 - j);
      } else if j <= 5 {
        WindowMismatch(s, ReviewMarker, j, 0);
      } else {
        WindowMismatch(s, ReviewMarker, j, 3);
      }
    }
  }

  /** The reply with a blank first review splits into an empty fragment and one per review. */
  lemma BlankFirstReviewFragments(a: string, b: string)
    requires a == "   " + EndMarker && b == "X" + EndMarker
    ensures Fragments(ReviewMarker + a + ReviewMarker + b) == ["", a, b]
  {
    var rest := a + ReviewMarker + b;
    MarkersHaveNoWhitespace();
    NoStartMarkerInEndMarker(b);
    assert rest == "   " + (EndMarker + ReviewMarker + b);
    assert rest[2] == ' ';
    forall j: nat | j < |a| ensures !OccursAt(rest, ReviewMarker, j) {
      if j < 3 {
        WindowOverWhitespace(rest, ReviewMarker, j, 2);
      } else if OccursAt(rest, ReviewMarker, j) {
        OccursAfterPrefix("   ", EndMarker + ReviewMarker + b, ReviewMarker, j - 3);
      }
    }
    SplitTwoMarked(a, b);
  }

  /** An end marker after three spaces has content but cleans to "", and "X###END###" cleans to "X". */
  lemma BlankFirstReviewCleaned()
    ensures HasContent("   " + EndMarker + "") && Clean("   " + EndMarker + "") == ""
    ensures HasContent("X" + EndMarker + "") && Clean("X" + EndMarker + "") == "X"
  {
    assert IsBlank("   ") && IsBlank("");
    EndMarkerAmidBlanksGivesEmptyItem("   ", "");
    WindowMismatch("X" + EndMarker + "", EndMarker, 0, 0);
    assert "X" + "" == "" + "X" + "";
    assert !IsWhitespace('X');
    CleanBetween("X", "", "", "X", "");
  }

  /**
   * A fragment that is only an end marker amid whitespace passes the filter
   * before the marker is removed, so the reply yields an empty first review.
   */
  lemma BlankFirstReviewSegment()
    ensures Segment(BlankFirstReview) == ["", "X"]
  {
    var a := "   " + EndMarker;
    var b := "X" + EndMarker;
    assert BlankFirstReview == ReviewMarker + a + ReviewMarker + b;
    BlankFirstReviewFragments(a, b);
    BlankFirstReviewCleaned();
    assert a == "   " + EndMarker + "" && b == "X" + EndMarker + "";
    assert IsBlank("");
    SegmentOfThree(BlankFirstReview, "", a, b);
  }

  /** The spliced reply holds no start marker. */
  lemma SplicedReplyLacksStartMarker(s: string)
    requires s == "###REV" + EndMarker + "IEW###"
    ensures !Contains(s, ReviewMarker)
  {
    assert s[3] == 'R' && s[4] == 'E' && s[5] == 'V' && s[6] == '#' && s[9] == 'E';
    assert ReviewMarker[0] == '#' && ReviewMarker[1] == '#' && ReviewMarker[2] == '#';
    assert ReviewMarker[3] == 'R' && ReviewMarker[6] == 'I';
    forall j: nat | j <= |s| ensures !OccursAt(s, ReviewMarker, j) {
      if j == 0 {
        WindowMismatch(s, ReviewMarker, j, 6);
      } else if j <= 3 {
        WindowMismatch(s, ReviewMarker, j, 3 - j);
      } else if j <= 5 {
        WindowMismatch(s, ReviewMarker, j, 0);
      } else if j <= 9 {
        WindowMismatch(s, ReviewMarker, j, 9 - j);
      }
    }
  }

  /** Cleaning the spliced reply gives the start marker. */
  lemma SplicedReplyCleaned(s: string)
    requires s == "###REV" + EndMarker + "IEW###"
    ensures Clean(s) == ReviewMarker
  {
    assert s[3] == 'R' && s[4] == 'E' && s[5] == 'V';
    assert EndMarker[0] == '#' && EndMarker[1] == '#' && EndMarker[2] == '#' && EndMarker[3] == 'E';
    forall j: nat | j < 6 ensures !OccursAt(s, EndMarker, j) {
      if j <= 3 {
        WindowMismatch(s, EndMarker, j, 3 - j);
      } else {
        WindowMismatch(s, EndMarker, j, 0);
      }
    }
    forall k | 0 <= k < 12 ensures ("###REV" + "IEW###")[k] == ReviewMarker[k] { }
    assert "###REV" + "IEW###" == "" + ReviewMarker + "";
    assert IsBlank("") && !IsWhitespace(ReviewMarker[0]) && !IsWhitespace(ReviewMarker[11]);
    CleanBetween("###REV", "IEW###", "", ReviewMarker, "");
  }

  /** The spliced reply yields the start marker as its one review. */
  lemma SplicedReplySegment(s: string)
    requires s == "###REV" + EndMarker + "IEW###"
    ensures !Contains(s, ReviewMarker) && Segment(s) == [ReviewMarker]
  {
    SplicedReplyLacksStartMarker(s);
    SplicedReplyCleaned(s);
    assert s[0] == '#';
    assert !IsBlank(s);
    ReplyWithoutStartMarker(s);
  }

  /**
   * Removing the first end marker can splice a start marker together: a
   * reply without start marker yields one review that holds one.
   */
  lemma SplicedReplyGivesStartMarker()
    ensures Segment(SplicedReply) == [ReviewMarker]
    ensures !Contains(SplicedReply, ReviewMarker) && Contains(Segment(SplicedReply)[0], ReviewMarker)
  {
    SplicedReplySegment(SplicedReply);
    OnlyItemIsStartMarker(Segment(SplicedReply));
  }

  /** A list whose one item is the start marker has an item holding it. */
  lemma OnlyItemIsStartMarker(items: seq<string>)
    requires items == [ReviewMarker]
    ensures Contains(items[0], ReviewMarker)
  {
    assert items[0] == [] + ReviewMarker + [];
    OccursBetween([], ReviewMarker, []);
  }

  /**
   * Two whitespace characters, at `p` and `q`, that leave no stretch of
   * `|pat|` characters free of whitespace (before `p`, between them, or
   * after `q`) keep out any pattern that holds no whitespace.
   */
  lemma TwoSpacesBlockPattern(s: string, pat: string, p: nat, q: nat)
    requires p < q < |s| && IsWhitespace(s[p]) && IsWhitespace(s[q])
    requires p < |pat| && q - p <= |pat| && |s| - q <= |pat|
    requires forall k | 0 <= k < |pat| :: !IsWhitespace(pat[k])
    ensures !Contains(s, pat)
  {
    forall j: nat | j <= |s| ensures !OccursAt(s, pat, j) {
      if j <= p {
        WindowOverWhitespace(s, pat, j, p);
      } else if j <= q {
        WindowOverWhitespace(s, pat, j, q);
      }
    }
  }

  /** A reply with no markers yields itself as its only review. */
  lemma PlainReplySegment()
    ensures Segment(PlainReply) == [PlainReply]
  {
    var s := PlainReply;
    assert |s| == 17 && s[2] == ' ' && s[10] == ' ' && s[0] == 'n' && s[16] == 'l';
    MarkersHaveNoWhitespace();
    TwoSpacesBlockPattern(s, ReviewMarker, 2, 10);
    TwoSpacesBlockPattern(s, EndMarker, 2, 10);
    TrimOfTrimmed(s);
    ReplyWithoutMarkers(s);
  }
}
