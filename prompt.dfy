/**
 * The prompt that `generateReview` sends to the text model: fixed wording
 * around the pasted reviews and the selected category, asking for three
 * reviews framed by the same markers the segmenter splits on.
 */
module Prompt {
  import opened Strings
  import opened Segmenter

  /** The text before the pasted reviews, up to the opening quote. */
  const PromptHead: string := "Based on these customer reviews about Shashank: \""
  /** How many reviews the prompt asks for, as written in it. */
  const RequestedCount: string := "3"
  /** The text between the pasted reviews and the category; it states the count. */
  const PromptMiddle: string := "\"\n      Generate " + RequestedCount + " different, authentic "
  /** The tail's wording up to the quoted start marker. */
  const AskFormat: string :=
    " reviews about Shashank with 5 star rating sentiment.\n      Format each review to start with \""
  /** The tail's wording between the two quoted markers. */
  const AskEnd: string := "\" and end with \""
  /** The tail's wording after the quoted end marker. */
  const AskTone: string := "\".\n      Keep them natural and conversational."
  /** The text after the category; it quotes both markers. */
  const PromptTail: string := AskFormat + ReviewMarker + AskEnd + EndMarker + AskTone

  /** Where the category starts in a prompt for `input`. */
  function CategoryStart(input: string): nat {
    |PromptHead| + |input| + |PromptMiddle|
  }

  /**
   * The template literal: the reviews are quoted after the head, the category
   * follows the middle, and the tail comes last.
   */
  function BuildPrompt(input: string, category: string): (prompt: string)
    ensures |prompt| == CategoryStart(input) + |category| + |PromptTail|
    ensures prompt[..|PromptHead|] == PromptHead
    ensures prompt[|PromptHead|..|PromptHead| + |input|] == input
    ensures prompt[CategoryStart(input)..CategoryStart(input) + |category|] == category
    ensures prompt[CategoryStart(input) + |category|..] == PromptTail
  {
    PromptHead + input + PromptMiddle + category + PromptTail
  }

  /** Text that quotes two patterns between other text contains both. */
  lemma QuotesBoth(lead: string, a: string, r: string, b: string, e: string, c: string)
    ensures Contains(lead + (a + r + b + e + c), r)
    ensures Contains(lead + (a + r + b + e + c), e)
  {
    var s := lead + (a + r + b + e + c);
    assert s == (lead + a) + r + (b + e + c);
    OccursBetween(lead + a, r, b + e + c);
    assert s == (lead + a + r + b) + e + c;
    OccursBetween(lead + a + r + b, e, c);
  }

  /**
   * Every prompt states the requested count and asks for both markers,
   * whatever the reviews and category.
   */
  lemma PromptNamesMarkers(input: string, category: string)
    ensures Contains(BuildPrompt(input, category), ReviewMarker)
    ensures Contains(BuildPrompt(input, category), EndMarker)
    ensures Contains(BuildPrompt(input, category), RequestedCount)
  {
    var lead := PromptHead + input + PromptMiddle + category;
    assert BuildPrompt(input, category) == lead + PromptTail;
    QuotesBoth(lead, AskFormat, ReviewMarker, AskEnd, EndMarker, AskTone);
    assert BuildPrompt(input, category) ==
      PromptHead + input + ("\"\n      Generate " + RequestedCount + " different, authentic ") + category + PromptTail;
    QuotedInMiddle(PromptHead, input, "\"\n      Generate ", RequestedCount, " different, authentic ", category, PromptTail);
  }

  /** Text placed inside the middle part of a five-part string occurs in it. */
  lemma QuotedInMiddle(head: string, input: string, a: string, x: string, b: string, category: string, tail: string)
    ensures Contains(head + input + (a + x + b) + category + tail, x)
  {
    var s := head + input + (a + x + b) + category + tail;
    assert s == (head + input + a) + x + (b + category + tail);
    OccursBetween(head + input + a, x, b + category + tail);
  }

  /** Every prompt holds the pasted reviews and the category verbatim. */
  lemma PromptQuotesInputs(input: string, category: string)
    ensures Contains(BuildPrompt(input, category), input)
    ensures Contains(BuildPrompt(input, category), category)
  {
    var prompt := BuildPrompt(input, category);
    assert OccursAt(prompt, input, |PromptHead|);
    assert OccursAt(prompt, category, CategoryStart(input));
  }

  /** For a fixed category, the prompt determines the pasted reviews. */
  lemma PromptDeterminesInput(input1: string, input2: string, category: string)
    requires BuildPrompt(input1, category) == BuildPrompt(input2, category)
    ensures input1 == input2
  {
    var prompt := BuildPrompt(input1, category);
    assert |input1| == |input2|;
    assert input1 == prompt[|PromptHead|..|PromptHead| + |input1|] == input2;
  }

  /** For fixed reviews, the prompt determines the category. */
  lemma PromptDeterminesCategory(input: string, category1: string, category2: string)
    requires BuildPrompt(input, category1) == BuildPrompt(input, category2)
    ensures category1 == category2
  {
    var prompt := BuildPrompt(input, category1);
    var c := CategoryStart(input);
    assert |category1| == |category2|;
    assert category1 == prompt[c..c + |category1|] == category2;
  }
}
