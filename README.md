# reviewgen — a verified model of the review generator page

The repository is one React page, `app/page.js`. It asks a text model for
reviews of Shashank in a chosen category, cuts the model's reply into
review texts, and lists them with the newest first. This project models
the parts of that page that hold logic, in Dafny:

- `strings.dfy` (module `Strings`): the JavaScript string operations the
  page relies on. It covers `String.prototype.trim` with the exact ECMAScript
  whitespace and line-terminator set, `indexOf`, `replace` with a string
  pattern (first occurrence only, replacement inserted verbatim), and `split` with a string separator
  (non-overlapping occurrences, scanned left to right, at least one piece).
  Independent reference definitions (`Join`, `Count`) are used to state what
  `split` returns.
- `lists.dfy` (module `Lists`): `Array.prototype.filter` and `map`, plus the
  positions of the kept elements, used to state document order.
- `segmenter.dfy` (module `Segmenter`): the split, filter and map chain of
  `generateReview`, which turns the reply into review texts.
- `examples.dfy` (module `SegmenterExamples`): concrete replies and the
  review texts the segmenter provably yields for them.
- `prompt.dfy` (module `Prompt`): the prompt template.
- `display.dfy` (module `Display`): the "Latest Generated Batch" and
  "Previous Reviews" slices, the heading count, and the conditions that
  show each section.
- `page.dfy` (module `Page`): the page state as a class `ReviewPage`. It
  holds the input text, the error text, the loading flag, the selected
  category and the review list. Its methods are the text area, the
  selector, the guarded generate button, the loop that installs a batch,
  and the two halves of the handler around the text model call. Every
  method keeps the class invariant `Valid`: the category is one of the five
  the selector offers, and every record has five stars.

The call to the text model is the only suspension point of the handler, so
the handler is modelled in two steps:

- `Begin` sets the loading flag and builds the request.
- `Complete` takes the model's reply, or a failure, and applies the rest.

`Generate` runs both steps in order. The reply is an input to the model.
So are the timestamp and the id that each turn of the installation loop
draws: `clock(i)` and `random(i)` for turn `i`.

Two behaviours of the code a reader may not expect:

- A fragment that is only an end marker amid whitespace passes the blank
  filter, which runs before the marker is removed. So the reply
  `###REVIEW###   ###END######REVIEW###X###END###` yields `["", "X"]`: the
  first review text is empty. This is shown by
  `SegmenterExamples.BlankFirstReviewSegment` and, for every such fragment,
  by `Segmenter.EndMarkerAmidBlanksGivesEmptyItem`.
- A reply is never treated as a failure, whatever it holds. The list is
  cleared and refilled with the reply's review texts, so a blank reply
  leaves it empty (`Page.BlankReplyEmptiesList`). Only a failure of the call
  itself keeps the old list and sets the error text.

## Model

| member | source | states |
|---|---|---|
| Strings.TrimStart | app/page.js:39 | the result is a suffix of the input, what it drops is whitespace, and it starts with a non-whitespace character unless empty |
| Strings.TrimEnd | app/page.js:39 | the result is a prefix of the input, what it drops is whitespace, and it ends with a non-whitespace character unless empty |
| Strings.Trim | app/page.js:39-40 | the result has no whitespace at either end, and it is empty exactly when the input is only whitespace |
| Strings.TrimIsInfix | app/page.js:39-40 | the trimmed text is the infix of the input left once a whitespace-only prefix and a whitespace-only suffix are cut off |
| Strings.TrimOfTrimmed | app/page.js:40 | a string with no whitespace at either end is its own trim |
| Strings.TrimPadded | app/page.js:40 | trimming text padded with whitespace on both sides gives the text back, the empty text included |
| Strings.TrimIdempotent | app/page.js:40 | trimming twice is trimming once |
| Strings.TrimKeepsOccurrence | app/page.js:40 | trimming keeps each occurrence of a pattern that starts and ends with non-whitespace, shifted left by the leading whitespace cut off |
| Strings.TrimLacks | app/page.js:40 | trimming cannot bring in a pattern the text lacks |
| Strings.IndexOf | app/page.js:38-40 | the result is the first index at which the pattern occurs, and it is None exactly when the pattern does not occur |
| Strings.ReplaceFirst | app/page.js:40 | a string without the pattern comes back unchanged; otherwise the length changes by the replacement minus the pattern |
| Strings.ReplaceFirstAt | app/page.js:40 | only the first occurrence is replaced, and the text after it, later occurrences included, is kept |
| Strings.Split | app/page.js:38 | its own contract gives only that there is at least one piece; `SplitJoin`, `SplitCount`, `SplitFirstAt`, `SplitWithoutSeparator` and `SplitPiecesLackSeparator` state what the pieces are |
| Strings.SplitJoin | app/page.js:38 | joining the pieces of a split with the separator gives the input back |
| Strings.SplitCount | app/page.js:38 | a split has one piece more than the separator's non-overlapping, left-to-right occurrences |
| Strings.SplitPiecesLackSeparator | app/page.js:38 | no piece of a split contains the separator |
| Strings.SplitFirstAt | app/page.js:38 | where the first separator is at i, the first piece is the text before i and the rest is split after the separator |
| Strings.SplitWithoutSeparator | app/page.js:38 | a string without the separator splits into itself alone |
| Strings.SplitBlank | app/page.js:38 | a whitespace-only string splits into whitespace-only pieces |
| Strings.SplitLacks | app/page.js:38 | a string without a pattern splits into pieces without it |
| Lists.Filter | app/page.js:39 | the kept elements are no more than the input and all pass the callback |
| Lists.FilterPicksOrigins | app/page.js:39 | the k-th kept element is the input element at the k-th accepted position |
| Lists.OriginsIncrease | app/page.js:39 | the accepted positions strictly increase, so filtering keeps input order |
| Lists.OriginsComplete | app/page.js:39 | every position the callback accepts is among the kept positions |
| Lists.FilterNone | app/page.js:39 | nothing is kept when the callback rejects every element |
| Lists.Map | app/page.js:40 | the result has the input's length and holds the callback's value of each element in place |
| Segmenter.HasContent | app/page.js:39 | the filter callback keeps a fragment exactly when it holds a non-whitespace character |
| Segmenter.Clean | app/page.js:40 | a cleaned fragment has no whitespace at either end, and without an end marker it is the fragment trimmed |
| Segmenter.CleanAt | app/page.js:40 | where the first end marker sits between whitespace-padded text, cleaning gives that text |
| Segmenter.Fragments | app/page.js:38 | there is one fragment more than there are start markers, and joining them with the marker gives the reply back |
| Segmenter.Segment | app/page.js:37-40 | every review text is trimmed, and there are at most one more than the start markers in the reply |
| Segmenter.SegmentInDocumentOrder | app/page.js:37-40 | the k-th review text is the cleaned k-th fragment with content; those fragments come in increasing order, none is skipped, and none holds the start marker |
| Segmenter.BlankReplyGivesNothing | app/page.js:38-39 | an empty or whitespace-only reply yields no review |
| Segmenter.ReplyWithoutStartMarker | app/page.js:37-40 | a reply without start marker yields nothing if blank, else one review: the reply with its first end marker removed, trimmed |
| Segmenter.ReplyWithoutMarkers | app/page.js:37-40 | a reply with no markers at all yields nothing if blank, else itself trimmed |
| Segmenter.CleanLacks | app/page.js:40 | cleaning a fragment without end marker cannot bring in a pattern the fragment lacks |
| Segmenter.ItemsLackStartMarkerAtBreaks | app/page.js:37-40 | when the first end marker of every fragment ends the fragment or is followed by whitespace, as in the format the prompt asks for, no review text holds the start marker |
| Segmenter.CleanKeepsOutStartMarker | app/page.js:40 | cutting out a first end marker that ends the fragment or precedes whitespace, and trimming, cannot form a start marker from the text around it |
| Segmenter.ItemsLackStartMarker | app/page.js:37-40 | when the reply holds no end marker, no review text holds the start marker |
| Segmenter.LaterEndMarkersStay | app/page.js:40 | when a second end marker follows the first in a fragment, the review text still holds an end marker |
| Segmenter.EndMarkerAmidBlanksGivesEmptyItem | app/page.js:39-40 | a fragment that is only an end marker amid whitespace passes the filter and becomes an empty review text |
| SegmenterExamples.TwoReviewsSegment | app/page.js:37-40 | the reply `###REVIEW### A ###END### ###REVIEW### B ###END###` yields `["A", "B"]` |
| SegmenterExamples.BlankFirstReviewSegment | app/page.js:39-40 | the reply `###REVIEW###   ###END######REVIEW###X###END###` yields `["", "X"]` |
| SegmenterExamples.PlainReplySegment | app/page.js:37-40 | the reply `no markers at all` yields `["no markers at all"]` |
| SegmenterExamples.TwoReviewsEndMarkersAtBreaks | app/page.js:30 | the two-review reply in the prompt's format meets the end-marker condition, so none of its review texts holds the start marker |
| SegmenterExamples.SplicedReplyGivesStartMarker | app/page.js:37-40 | the reply `###REV###END###IEW###` has no start marker, yet yields one review that is the start marker |
| Prompt.BuildPrompt | app/page.js:28-31 | the prompt is the fixed head, the pasted reviews, the fixed middle, the category and the fixed tail, each at its own offset |
| Prompt.PromptNamesMarkers | app/page.js:29-30 | every prompt states the count of three and quotes both markers |
| Prompt.PromptQuotesInputs | app/page.js:28-29 | every prompt holds the pasted reviews and the category verbatim |
| Prompt.PromptDeterminesInput | app/page.js:28 | for a fixed category, different pasted reviews give different prompts |
| Prompt.PromptDeterminesCategory | app/page.js:29 | for fixed pasted reviews, different categories give different prompts |
| Display.Slice | app/page.js:186 | `slice(start, end)` clamps both bounds to the length and keeps the elements between them, in place |
| Display.SliceFrom | app/page.js:250 | `slice(start)` keeps the elements from the clamped start on, in place |
| Display.HeaderCount | app/page.js:174 | the heading count is 3 or the list length, whichever is smaller |
| Display.LatestBatch | app/page.js:180-186 | the latest batch is the first records, as many as the heading count, and it is non-empty exactly when the section is shown |
| Display.PreviousReviews | app/page.js:244-250 | the previous reviews are the records after the latest batch, and they are non-empty exactly when the section is shown |
| Display.ShowsLatestBatch | app/page.js:172-180 | the heading count and the latest batch are shown exactly when the heading count is positive, so the heading never reads zero; `LatestBatch` is non-empty exactly then |
| Display.ShowsPreviousReviews | app/page.js:244 | "Previous Reviews" is shown only when the latest batch above it is shown and full; `PreviousReviews` is non-empty exactly then |
| Display.ShowsEmptyNotice | app/page.js:299 | the empty notice is shown exactly when the latest batch is not |
| Display.ShownSections | app/page.js:180-299 | exactly one of the empty notice and the latest batch is shown, the previous reviews only appear with a latest batch, and with the notice both sections are empty |
| Display.SectionsPartitionList | app/page.js:186-250 | the two sections together show the whole list, in order, each record once |
| Page.Installed | app/page.js:42-53 | the list after a batch: one record per review text, last text first, each with the captured category, five stars and its turn's timestamp and id |
| Page.Record | app/page.js:45-51 | the record of one loop turn holds the review text, the captured category, rating 5, and the timestamp and id drawn in that turn |
| Page.InstalledPrepends | app/page.js:52 | installing one more text puts its record in front of the list |
| Page.InstalledReversesTexts | app/page.js:42-53 | after a batch the list holds exactly the review texts, in reverse order |
| Page.InstalledRecords | app/page.js:45-48 | every record of a batch has the captured category and five stars |
| Page.BlankReplyEmptiesList | app/page.js:37-42 | a blank reply leaves the list empty after it is cleared |
| Page.RequestedBatchHasNoPrevious | app/page.js:42-53 | a batch of at most three reviews leaves "Previous Reviews" empty and shows the whole list as the latest batch |
| Page.ButtonEnabled | app/page.js:133 | the button is enabled exactly when not loading and the input has a non-whitespace character |
| Page.ReviewPage.constructor | app/page.js:16-21 | the page opens with empty input, no error text, not loading, the first category and an empty list |
| Page.ReviewPage.SetInput | app/page.js:126 | typing replaces the input and changes nothing else; the state stays valid |
| Page.ReviewPage.SelectCategory | app/page.js:108 | choosing an option replaces the category and changes nothing else; the state stays valid |
| Page.ReviewPage.Begin | app/page.js:25-31 | the loading flag goes up and the request carries the prompt and category as they are now; nothing else changes |
| Page.ReviewPage.Press | app/page.js:131-133 | a click starts the handler exactly when the button is enabled, and changes nothing otherwise |
| Page.ReviewPage.InstallBatch | app/page.js:42-53 | clearing the list and prepending one record per text leaves exactly the installed list, every record with five stars |
| Page.ReviewPage.Complete | app/page.js:33-58 | the loading flag goes down; a failure keeps the list and sets the error text; a reply replaces the list with its installed review texts |
| Page.ReviewPage.Generate | app/page.js:23-60 | a whole run ends not loading; after a reply the list is the installed list of its review texts, with the category selected when the run started and each turn's timestamp and id, the texts newest first and five stars each, and the error text is kept; after a failure the list is kept and the error text set |

## Left out

- The text model client and the network call (app/page.js:3, 5, 26, 33-35) are not modelled. The reply is an input: a text, or a failure.
- `copyToClipboard` (app/page.js:62-85) is not modelled. It uses the browser clipboard, DOM `innerHTML` and a timer.
- `new Date().toISOString()` and the `Math.random()` id (app/page.js:49-50) are caller-supplied functions of the loop turn. Ids are not claimed to be unique, because the code does not make them so.
- `console.error` (app/page.js:55) is output only and is not modelled.
- The JSX markup (app/page.js:87-309) is not modelled beyond the slices and the show conditions. That includes the "Review n" labels, the repeated star glyphs, the date formatting and the spinner.
- React's update scheduling is not modelled. The functional updates of the loop are applied one after another, in call order. The handler reads the category captured when it started, which `Request.category` carries into `Complete`.
- Strings are sequences of Unicode characters, not UTF-16 code units. The whitespace set is the ECMAScript WhiteSpace and LineTerminator set, with the Zs space separators listed explicitly.
- Page.ReviewPage.Begin: does not check the loading flag or the input, because the handler itself does not. Only the disabled button guards it, and `Press` models that guard.
- Page.ReviewPage.Complete: does not distinguish a failure of `response.text()` from a failure of the call; both are the one failure case.
- Page.ReviewPage.SelectCategory: requires one of the five listed categories, because the selector offers no other value.
- The JavaScript library methods are modelled only as far as the page uses them. `Strings.Split` takes a non-empty string separator: no limit argument, no regular expression, no empty separator. `Display.Slice` and `Display.SliceFrom` take non-negative bounds; JavaScript counts negative bounds from the end. The `Lists.Filter` and `Lists.Map` callbacks receive only the element, not its index or the array. `Strings.ReplaceFirst` inserts the replacement verbatim; `$` patterns such as `$&` are not expanded, and the page's replacement `""` has none.
- Strings.Trim: its own ensures do not say that only whitespace is cut off. `Strings.TrimIsInfix` states that for every input: the result sits between a whitespace-only prefix and a whitespace-only suffix. Stating it on the function itself makes every use of `Trim` too costly for the verifier.
- Segmenter.ItemsLackStartMarkerAtBreaks: requires that in every fragment the first end marker ends the fragment or is followed by whitespace. A reply in the prompt's format meets this whenever each end marker is followed by whitespace, the next start marker or the end of the reply; the split removes that start marker, so the end marker then ends its fragment. Without some condition the property fails, because removing the first end marker can splice a start marker together, as `SegmenterExamples.SplicedReplyGivesStartMarker` shows. `Segmenter.ItemsLackStartMarker` is the special case of a reply with no end marker.
