/**
 * The state of the review generator page and its generation handler: the
 * pasted reviews, the selected category, the loading flag, the error text
 * and the list of generated review records, newest first.
 */
module Page {
  import opened Wrappers
  import opened Strings
  import opened Segmenter
  import opened Prompt
  import opened Display

  /** The choices of the category selector, in display order. */
  const Categories: seq<string> :=
    ["General Experience", "Technical Skills", "Communication", "Leadership", "Problem Solving"]
  /** The category selected when the page opens. */
  const DefaultCategory: string := "General Experience"
  /** Every generated record carries this rating. */
  const FiveStars: nat := 5
  /** What the handler stores when the text model call fails. */
  const ErrorMessage: string := "Error generating review. Please try again."

  /** One generated review as the page stores and shows it. */
  datatype Review = Review(text: string, category: string, rating: nat, timestamp: string, id: string)

  /** What the text model call gives back: the reply text, or a failure. */
  datatype Reply = Generated(text: string) | Failed

  /** What the handler sends out, with the category captured at call time. */
  datatype Request = Request(prompt: string, category: string)

  /** The texts of a list of records, in list order. */
  function Texts(list: seq<Review>): (texts: seq<string>)
    ensures |texts| == |list| && forall k | 0 <= k < |list| :: texts[k] == list[k].text
  {
    if list == [] then [] else [list[0].text] + Texts(list[1..])
  }

  /** A sequence in reverse order. */
  function Reverse<T>(xs: seq<T>): (r: seq<T>)
    ensures |r| == |xs|
  {
    if xs == [] then [] else Reverse(xs[1..]) + [xs[0]]
  }

  /** Position k of a reversed sequence holds position |xs| - 1 - k. */
  lemma {:induction false} ReverseAt<T>(xs: seq<T>)
    ensures forall k | 0 <= k < |xs| :: Reverse(xs)[k] == xs[|xs| - 1 - k]
  {
    if xs != [] {
      ReverseAt(xs[1..]);
      var r := Reverse(xs);
      forall k | 0 <= k < |xs| ensures r[k] == xs[|xs| - 1 - k] {
        if k < |xs| - 1 {
          assert r[k] == Reverse(xs[1..])[k];
        }
      }
    }
  }

  /** The record made for a review text in the i-th turn of the loop. */
  function Record(text: string, i: nat, category: string, clock: nat -> string, random: nat -> string): (r: Review)
    ensures r.text == text && r.category == category && r.rating == FiveStars
    ensures r.timestamp == clock(i) && r.id == random(i)
  {
    Review(text, category, FiveStars, clock(i), random(i))
  }

  /**
   * The list after a batch is installed: one record per review text, the last
   * text first, each with the captured category, five stars, and the
   * timestamp and id drawn for its turn of the loop.
   */
  function Installed(texts: seq<string>, category: string, clock: nat -> string, random: nat -> string): seq<Review> {
    seq(|texts|, k requires 0 <= k < |texts| => Record(texts[|texts| - 1 - k], |texts| - 1 - k, category, clock, random))
  }

  /** Installing one more text puts its record in front. */
  lemma InstalledPrepends(texts: seq<string>, i: nat, category: string, clock: nat -> string, random: nat -> string)
    requires i < |texts|
    ensures Installed(texts[..i + 1], category, clock, random)
      == [Record(texts[i], i, category, clock, random)] + Installed(texts[..i], category, clock, random)
  {
    var longer := Installed(texts[..i + 1], category, clock, random);
    var shorter := Installed(texts[..i], category, clock, random);
    var front := [Record(texts[i], i, category, clock, random)];
    forall k | 0 <= k < i + 1 ensures longer[k] == (front + shorter)[k] {
      if k > 0 {
        assert longer[k] == Record(texts[i - k], i - k, category, clock, random);
        assert shorter[k - 1] == Record(texts[i - k], i - k, category, clock, random);
      }
    }
  }

  /** After a batch the list holds exactly the review texts, in reverse order. */
  lemma InstalledReversesTexts(texts: seq<string>, category: string, clock: nat -> string, random: nat -> string)
    ensures Texts(Installed(texts, category, clock, random)) == Reverse(texts)
  {
    var list := Installed(texts, category, clock, random);
    var n := |texts|;
    var shown := Texts(list);
    var reversed := Reverse(texts);
    ReverseAt(texts);
    forall k | 0 <= k < n ensures shown[k] == reversed[k] {
      assert list[k].text == texts[n - 1 - k];
    }
  }

  /** Every record of a batch has the captured category and five stars. */
  lemma InstalledRecords(texts: seq<string>, category: string, clock: nat -> string, random: nat -> string)
    ensures |Installed(texts, category, clock, random)| == |texts|
    ensures forall k | 0 <= k < |texts| ::
      Installed(texts, category, clock, random)[k].category == category &&
      Installed(texts, category, clock, random)[k].rating == FiveStars
  {
    var list := Installed(texts, category, clock, random);
    var n := |texts|;
    forall k | 0 <= k < n ensures list[k].category == category && list[k].rating == FiveStars {
      assert list[k] == Record(texts[n - 1 - k], n - 1 - k, category, clock, random);
    }
  }

  /**
   * A blank reply is not a failure: the list is still cleared, and stays
   * empty.
   */
  lemma BlankReplyEmptiesList(text: string, category: string, clock: nat -> string, random: nat -> string)
    requires IsBlank(text)
    ensures Installed(Segment(text), category, clock, random) == []
  {
    BlankReplyGivesNothing(text);
  }

  /**
   * Because the list is cleared first, the "Previous Reviews" section only
   * ever shows records of the latest reply: a reply with at most three
   * reviews, as the prompt asks for, leaves it empty and shows them all as
   * the latest batch.
   */
  lemma RequestedBatchHasNoPrevious(texts: seq<string>, category: string, clock: nat -> string, random: nat -> string)
    requires |texts| <= BatchSize
    ensures PreviousReviews(Installed(texts, category, clock, random)) == []
    ensures LatestBatch(Installed(texts, category, clock, random)) == Installed(texts, category, clock, random)
  {
    var list := Installed(texts, category, clock, random);
    assert |list| == |texts|;
    assert list[..|list|] == list;
  }

  /** `disabled={loading || !inputReviews.trim()}`, negated. */
  function ButtonEnabled(loading: bool, input: string): (enabled: bool)
    ensures enabled <==> !loading && exists i | 0 <= i < |input| :: !IsWhitespace(input[i])
  {
    !loading && Trim(input) != ""
  }

  /** The page component's state. */
  class ReviewPage {
    var inputReviews: string
    var generatedReview: string
    var loading: bool
    var selectedCategory: string
    var generatedReviews: seq<Review>

    /** The selector only offers the listed categories, and every record has five stars. */
    predicate Valid()
      reads this
    {
      selectedCategory in Categories &&
      forall k | 0 <= k < |generatedReviews| :: generatedReviews[k].rating == FiveStars
    }

    /** The initial state of the page. */
    constructor ()
      ensures Valid()
      ensures inputReviews == "" && generatedReview == "" && !loading
      ensures selectedCategory == DefaultCategory && generatedReviews == []
    {
      inputReviews := "";
      generatedReview := "";
      loading := false;
      selectedCategory := DefaultCategory;
      generatedReviews := [];
    }

    /** Typing in the text area. */
    method SetInput(text: string)
      requires Valid()
      modifies this
      ensures Valid()
      ensures inputReviews == text
      ensures generatedReview == old(generatedReview) && loading == old(loading)
      ensures selectedCategory == old(selectedCategory) && generatedReviews == old(generatedReviews)
    {
      inputReviews := text;
    }

    /** Choosing an option of the category selector. */
    method SelectCategory(category: string)
      requires Valid() && category in Categories
      modifies this
      ensures Valid()
      ensures selectedCategory == category
      ensures inputReviews == old(inputReviews) && generatedReview == old(generatedReview)
      ensures loading == old(loading) && generatedReviews == old(generatedReviews)
    {
      selectedCategory := category;
    }

    /**
     * The handler up to the text model call: the loading flag goes up and the
     * prompt is built from the reviews and category as they are now.
     */
    method Begin() returns (request: Request)
      requires Valid()
      modifies this
      ensures Valid()
      ensures loading
      ensures request.prompt == BuildPrompt(inputReviews, selectedCategory)
      ensures request.category == selectedCategory
      ensures inputReviews == old(inputReviews) && generatedReview == old(generatedReview)
      ensures selectedCategory == old(selectedCategory) && generatedReviews == old(generatedReviews)
    {
      loading := true;
      request := Request(BuildPrompt(inputReviews, selectedCategory), selectedCategory);
    }

    /**
     * A click on the generate button: nothing happens while the button is
     * disabled; otherwise the handler starts.
     */
    method Press() returns (request: Option<Request>)
      requires Valid()
      modifies this
      ensures Valid()
      ensures request.Some? <==> old(ButtonEnabled(loading, inputReviews))
      ensures request.None? ==> unchanged(this)
      ensures request.Some? ==> loading && request.value.category == selectedCategory
      ensures request.Some? ==> request.value.prompt == BuildPrompt(inputReviews, selectedCategory)
      ensures inputReviews == old(inputReviews) && generatedReview == old(generatedReview)
      ensures selectedCategory == old(selectedCategory) && generatedReviews == old(generatedReviews)
    {
      if ButtonEnabled(loading, inputReviews) {
        var started := Begin();
        request := Some(started);
      } else {
        request := None;
      }
    }

    /**
     * The list is emptied, then each review text in turn is made a record
     * and put in front of the list.
     */
    method InstallBatch(texts: seq<string>, category: string, clock: nat -> string, random: nat -> string)
      requires Valid()
      modifies this
      ensures Valid()
      ensures generatedReviews == Installed(texts, category, clock, random)
      ensures inputReviews == old(inputReviews) && generatedReview == old(generatedReview)
      ensures loading == old(loading) && selectedCategory == old(selectedCategory)
    {
      generatedReviews := [];
      for i := 0 to |texts|
        invariant generatedReviews == Installed(texts[..i], category, clock, random)
        invariant forall k | 0 <= k < |generatedReviews| :: generatedReviews[k].rating == FiveStars
        invariant inputReviews == old(inputReviews) && generatedReview == old(generatedReview)
        invariant loading == old(loading) && selectedCategory == old(selectedCategory)
      {
        InstalledPrepends(texts, i, category, clock, random);
        var newReview := Review(texts[i], category, FiveStars, clock(i), random(i));
        generatedReviews := [newReview] + generatedReviews;
      }
      assert texts[..|texts|] == texts;
    }

    /**
     * The handler after the text model call. A reply is segmented and
     * replaces the list; a failure stores the error text and keeps the list.
     * Either way the loading flag goes down.
     */
    method Complete(request: Request, reply: Reply, clock: nat -> string, random: nat -> string)
      requires Valid()
      modifies this
      ensures Valid()
      ensures !loading
      ensures inputReviews == old(inputReviews) && selectedCategory == old(selectedCategory)
      ensures reply.Failed? ==> generatedReviews == old(generatedReviews) && generatedReview == ErrorMessage
      ensures reply.Generated? ==>
        generatedReviews == Installed(Segment(reply.text), request.category, clock, random) &&
        generatedReview == old(generatedReview)
    {
      match reply {
        case Failed =>
          generatedReview := ErrorMessage;
        case Generated(text) =>
          var reviews := Segment(text);
          InstallBatch(reviews, request.category, clock, random);
      }
      loading := false;
    }

    /**
     * A whole run of the handler for a given reply: the new records carry the
     * category selected when it started, and hold the reply's review texts
     * newest first.
     */
    method Generate(reply: Reply, clock: nat -> string, random: nat -> string)
      requires Valid()
      modifies this
      ensures Valid()
      ensures !loading
      ensures inputReviews == old(inputReviews) && selectedCategory == old(selectedCategory)
      ensures reply.Failed? ==> generatedReviews == old(generatedReviews) && generatedReview == ErrorMessage
      ensures reply.Generated? ==>
        generatedReviews == Installed(Segment(reply.text), old(selectedCategory), clock, random) &&
        generatedReview == old(generatedReview)
      ensures reply.Generated? ==>
        Texts(generatedReviews) == Reverse(Segment(reply.text)) &&
        forall k | 0 <= k < |generatedReviews| ::
          generatedReviews[k].category == old(selectedCategory) && generatedReviews[k].rating == FiveStars
    {
      var request := Begin();
      Complete(request, reply, clock, random);
      if reply.Generated? {
        InstalledReversesTexts(Segment(reply.text), request.category, clock, random);
        InstalledRecords(Segment(reply.text), request.category, clock, random);
      }
    }
  }
}
