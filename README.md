# Wikipedia agent and slide deck tool — a Dafny model

This project models the logic of `tools.py`. The file holds two tools that an
LLM agent calls.

- `WikipediaAgent` searches Wikipedia, retrieves pages, summaries, links and
  categories, and cleans the HTML it receives. Two helpers sit on top of it:
  `create_knowledge_base` and `search_and_summarize`.
- `PowerPointTool` builds and reads a slide deck through `python-pptx`.

The model has five modules.

- `Wrappers` (`wrappers.dfy`): `Option` and `Result`.
- `TextCleaning` (`text_cleaning.dfy`): the two cleaners, `_extract_text_from_html`
  and `_clean_html`, built from their passes.
  - Each `re.sub` is a left-to-right scan that takes the first match at each
    position and never overlaps matches: `Delete(Tag, ·)` for `<[^>]+>`,
    `Delete(Reference, ·)` for `\[\d+\]`, and `CollapseWhitespace` for `\s+`.
  - `Replace` is `str.replace` and `Strip` is `str.strip()`.
  - `DecodeEntities` is the chain of four `replace` calls, in source order.
- `UrlQuote` (`url_quote.dfy`): `urllib.parse.quote` with its default
  `safe='/'`, and the page address built from it.
  - `quote` encodes the title as UTF-8 (RFC 3629).
  - It percent-encodes every byte that is neither unreserved (section 2.3 of
    RFC 3986) nor `/`, writing `%` and two upper-case hex digits (section 2.1).
- `Wikipedia` (`wikipedia.dfy`): every HTTP request is an input `Reply`.
  - A reply is either a transport failure or a response with a status and the
    part of the JSON body the agent reads.
  - The operations take replies and return results or the error the agent
    raises.
  - The loops of the source are `method`s proved against recursive
    specification functions.
- `Slides` (`slides.dfy`): the class `PowerPointTool`, whose field `slides`
  stands for the presentation `self.prs`.
  - A slide is its layout number and its shapes. A shape has paragraphs, a
    picture or optional text.
  - A slide handle is the slide's position in the deck.

## Behaviour worth knowing

These facts about `tools.py` follow from its code, and the model keeps each of them.

- `get_page` turns a summary reply with a status other than 200 into an empty
  summary (tools.py:113-115). A transport failure of the summary request is not
  caught there: it is re-raised as the page error (tools.py:133-134).
- `search_and_summarize` catches nothing. The first exception from
  `get_summary` ends the whole call (tools.py:341-353).
- `search` sends `limit` to the API as `srlimit` (tools.py:66). It does not cap
  the number of results itself (tools.py:76-83).
- `load_presentation` with a path that does not exist keeps the current deck
  (tools.py:405-409).
- The two cleaners (tools.py:282-298) have these properties.
  - `_extract_text_from_html` is not idempotent. It removes reference markers
    after collapsing whitespace, so `a [1] b` gives `a  b`, with two spaces.
  - A reference marker nested in another survives: `[1[2]]` gives `[1]`.
  - `_clean_html` decodes `&lt;` and `&gt;` after removing tags, so it can
    return markup: `&lt;b&gt;` gives `<b>`.
  - Removing a tag can join the two halves of an entity, which is then
    decoded: `&l<b>t;` gives `<`.
- `get_slide_text` with a negative index counts from the end, as Python
  indexing does. An index before the first slide raises `IndexError`
  (tools.py:506-509).
- `add_content_slide` with no points leaves the one empty paragraph that
  `text_frame.clear()` keeps (tools.py:435-444).

## Model

| member | source | states |
|---|---|---|
| TextCleaning.TagAt | tools.py:285 | a match of `<[^>]+>` at the head: `<`, at least one character other than `>`, then the first `>`; no match when `<` is directly followed by `>` or no `>` follows |
| TextCleaning.TagAtComplete | tools.py:285 | every `<`-then-non-`>`-characters-then-`>` span at the head is found, with its full length |
| TextCleaning.ReferenceAt | tools.py:289 | a match of `\[\d+\]` at the head is `[`, one or more digits and `]` |
| TextCleaning.ReferenceAtComplete | tools.py:289 | every `[digits]` span at the head is found, with its full length |
| TextCleaning.Delete | tools.py:285-289 | one substitution pass never lengthens the text |
| TextCleaning.DeleteSubseq | tools.py:285-289 | a deletion pass keeps the surviving characters in their order |
| TextCleaning.MatchFreeUnchanged | tools.py:285-289 | a text without a match is left alone |
| TextCleaning.StripTags | tools.py:285 | tag removal keeps the surviving characters in their order, adds none and never lengthens the text |
| TextCleaning.RemoveReferences | tools.py:289 | marker removal keeps the surviving characters in their order, adds none and never lengthens the text |
| TextCleaning.StripTagsTagFree | tools.py:285 | after tag removal no tag span remains |
| TextCleaning.StripTagsIdempotent | tools.py:285 | a second tag pass changes nothing, and tag removal leaves a text alone exactly when it has no tag |
| TextCleaning.NoOpenerMatchFree | tools.py:285-289 | a text without `<` (resp. `[`) has no tag (resp. marker) and is left alone |
| TextCleaning.NoCloserNoTag | tools.py:285 | without a `>` there is no tag, so a lone `<` survives |
| TextCleaning.EmptyBracketsSurvive | tools.py:285 | `<>` is not a tag: it survives, and removal goes on after it |
| TextCleaning.TagDeleted | tools.py:285 | `<x>` with a non-empty `x` without `>` is deleted whole, so `<<b>>` leaves `>` |
| TextCleaning.NestedReferenceSurvives | tools.py:289 | a marker nested in another marker is removed in one pass and reveals an outer marker that survives: `[1[2]]` gives `[1]`, which still matches |
| TextCleaning.SpaceRun | tools.py:287 | the maximal run of whitespace at the head |
| TextCleaning.CollapseWhitespace | tools.py:287 | collapsing never lengthens the text |
| TextCleaning.CollapseRun | tools.py:287 | a whole run of whitespace, of any length and kind, becomes exactly one space, and the scan goes on after it |
| TextCleaning.CollapseWhitespaceCollapsed | tools.py:287 | after collapsing, every whitespace character is a single plain space |
| TextCleaning.CollapsedUnchanged | tools.py:287 | an already collapsed text is left alone |
| TextCleaning.CollapseWhitespaceIdempotent | tools.py:287 | collapsing twice is collapsing once |
| TextCleaning.CollapseKeepsVisible | tools.py:287 | collapsing keeps every character other than whitespace, in order |
| TextCleaning.Strip | tools.py:290 | the result has no whitespace at either end, is a slice of the input after its leading whitespace, and only whitespace follows it |
| TextCleaning.StripUnchanged | tools.py:290 | a text without whitespace at either end is left alone |
| TextCleaning.StripIdempotent | tools.py:290 | stripping twice is stripping once |
| TextCleaning.StripKeepsVisible | tools.py:290 | stripping removes only whitespace and keeps the rest in order |
| TextCleaning.StripEmptyIffBlank | tools.py:290 | the stripped text is empty exactly when the text is all whitespace |
| TextCleaning.Replace | tools.py:297 | `str.replace` with a replacement no longer than the pattern never lengthens the text |
| TextCleaning.ReplaceAbsent | tools.py:297 | a text in which the pattern does not occur is left alone |
| TextCleaning.ReplaceAmpFreePrefix | tools.py:297 | an entity never starts inside text without `&` |
| TextCleaning.DecodeEntities | tools.py:297 | decoding never lengthens the text |
| TextCleaning.DecodeEntitiesNoAmpersand | tools.py:297 | a text without `&` is not changed by decoding |
| TextCleaning.DecodeQuotAfterAmp | tools.py:297 | `&quot;` is decoded before `&amp;`, so `&amp;quot;` gives `&quot;` |
| TextCleaning.DecodeAmpThenLt | tools.py:297 | `&amp;` is decoded before `&lt;`, so `&amp;lt;` gives `<` |
| TextCleaning.DecodeEscapedMarkup | tools.py:297 | `&lt;x&gt;` with no `&` in `x` decodes to `<x>` |
| TextCleaning.CleanHtml | tools.py:292-298 | `_clean_html` never lengthens its input and returns text with no whitespace at either end |
| TextCleaning.CleanHtmlPlainText | tools.py:292-298 | text with neither `<` nor `&` is only stripped |
| TextCleaning.CleanHtmlKeepsOrder | tools.py:292-298 | for input without `&`, the cleaned text keeps the input's characters in their order and adds none |
| TextCleaning.CleanHtmlJoinsEntity | tools.py:295-298 | deleting a tag can join the halves of an entity, which is then decoded: `&l<x>t;` gives `<` |
| TextCleaning.CleanHtmlDecodedTagsSurvive | tools.py:295-297 | decoded `<`/`>` are not stripped again: `&lt;x&gt;` gives `<x>`, which a tag pass would delete |
| TextCleaning.ExtractText | tools.py:282-290 | `_extract_text_from_html` never lengthens its input and returns text with no whitespace at either end |
| TextCleaning.ExtractTextKeepsOrder | tools.py:282-290 | the extracted text keeps the input's visible characters in their order and adds none, and its only whitespace is the plain space |
| TextCleaning.CollapseTagFree | tools.py:287 | collapsing whitespace never creates a tag in tag-free text |
| TextCleaning.RemoveReferencesTagFree | tools.py:289 | removing reference markers never creates a tag in tag-free text |
| TextCleaning.StripTagFree | tools.py:290 | stripping never creates a tag in tag-free text |
| TextCleaning.ExtractTextTagFree | tools.py:282-290 | the extracted text holds no tag: no position starts a match of `<[^>]+>` |
| TextCleaning.ExtractTextUnchanged | tools.py:282-290 | a text that is already clean is left alone |
| TextCleaning.ExtractTextNotIdempotent | tools.py:287-290 | the cleaner is not idempotent: `a [1] b` gives `a  b` (the marker goes after the whitespace pass), and a second pass gives `a b` |
| UrlQuote.Utf8 | tools.py:82 | a character takes one to four bytes, one exactly when it is ASCII, continuation bytes in 0x80..0xBF |
| UrlQuote.Utf8RoundTrip | tools.py:82 | decoding the UTF-8 encoding of a string gives its code points back |
| UrlQuote.Utf8EncodeInjective | tools.py:82 | different strings have different UTF-8 encodings |
| UrlQuote.PercentEncodeByte | tools.py:82 | a byte stays itself exactly when it is a safe ASCII character, and otherwise becomes `%` and two upper-case hex digits |
| UrlQuote.PercentRoundTrip | tools.py:82 | percent-decoding undoes percent-encoding |
| UrlQuote.Quote | tools.py:82 | `quote` never shortens its input and emits only safe characters, `%` and hex digits |
| UrlQuote.QuoteInjective | tools.py:82 | different titles are quoted differently |
| UrlQuote.QuoteSafeUnchanged | tools.py:82 | a title made only of safe characters is its own quotation |
| UrlQuote.QuoteSpace | tools.py:82 | a space becomes `%20` |
| UrlQuote.PageUrl | tools.py:82 | the page address is never shorter than the title |
| UrlQuote.PageUrlInjective | tools.py:82 | within one language edition, different titles get different page addresses |
| UrlQuote.PageUrlShape | tools.py:127 | the address starts with `https://` and ends with the quoted title |
| Wikipedia.Search | tools.py:70-88 | a search fails exactly when its request fails, with the request's cause; otherwise there is one result per hit, in order, each built from its hit |
| Wikipedia.ResultFor | tools.py:77-83 | a result keeps its hit's title, and its snippet is no longer than the hit's |
| Wikipedia.SearchResultsShape | tools.py:77-83 | every snippet comes back with no whitespace at either end and no longer than the one received, and hits with different titles get different urls |
| Wikipedia.GetPageLinks | tools.py:238-251 | the link titles of all entries concatenated in entry order, or `[]` when the request fails |
| Wikipedia.AllLinksAppend | tools.py:244-246 | link lists of consecutive entries concatenate |
| Wikipedia.AllLinksMembership | tools.py:244-246 | a title is in the link list exactly when some entry lists it |
| Wikipedia.CategoryName | tools.py:273 | removing `Category:` never lengthens a title |
| Wikipedia.CategoryNames | tools.py:272-275 | one name per category title, in order |
| Wikipedia.GetPageCategories | tools.py:264-280 | the category names of all entries in entry order, or `[]` when the request fails |
| Wikipedia.AllCategoriesByTitle | tools.py:270-275 | the k-th name is the k-th category title with every `Category:` removed |
| Wikipedia.CategoryNameOfPrefixed | tools.py:273 | `Category:n` gives `n` when `n` holds no further `Category:` |
| Wikipedia.GetSummary | tools.py:158-170 | the summary fails exactly when its request fails; otherwise it is the extract of the first page whose id is not `-1` (`""` when that page has none), or none |
| Wikipedia.FirstExtractNone | tools.py:162-167 | there is no summary exactly when every page id is `-1` |
| Wikipedia.FirstExtractOfFirstLive | tools.py:162-167 | the summary is the extract of the first page that exists |
| Wikipedia.SummaryText | tools.py:115-128 | a non-empty summary comes from a 200 reply carrying that extract |
| Wikipedia.GetPage | tools.py:102-134 | a page is absent exactly on a 404; the call fails exactly when the content request fails otherwise or the summary request cannot be made, and the error carries the failing request's cause; on success the page echoes the title, holds the extracted text, the page address, the summary text, the categories, and the links only when they were asked for |
| Wikipedia.CreateKnowledgeBase | tools.py:313-326 | the knowledge base is built topic by topic from the retrieval outcomes |
| Wikipedia.KnowledgeBaseKeys | tools.py:315-323 | a topic is a key exactly when some retrieval for it found a page |
| Wikipedia.KnowledgeBaseLastWins | tools.py:317-318 | a topic retrieved more than once keeps the page of its last successful retrieval |
| Wikipedia.FirstFailure | tools.py:344-345 | the position of the first result whose summary fails |
| Wikipedia.SearchAndSummarize | tools.py:341-353 | a failed search fails; otherwise the first failing summary fails the whole call, and without one there is one entry per result, in order, with its title, url, summary and snippet |
| Wikipedia.FirstFailureAt | tools.py:344-345 | the loop stops at the first failing summary |
| Wikipedia.FirstFailureNone | tools.py:344-351 | when no summary fails, the loop runs over every result |
| Slides.Lines | tools.py:420-421 | setting a frame's text makes one paragraph per line, none holding a newline |
| Slides.JoinLines | tools.py:420-421 | reading back a frame gives the text it was set to |
| Slides.LinesJoin | tools.py:420-421 | splitting a join of newline-free lines gives the lines back |
| Slides.Join | tools.py:516 | a join of at least one part starts with the first part |
| Slides.FrameTextOfText | tools.py:459-460 | a text box or placeholder reads back the text it was set to |
| Slides.TextOf | tools.py:513 | exactly pictures and shapes without text have no `text` |
| Slides.NonBlankTextsFilter | tools.py:523-525 | the texts `extract_all_text` keeps are the slide's texts with the blank ones dropped, in order |
| Slides.DropBlank | tools.py:524 | no kept text is blank, and a text is kept exactly when it is one of the slide's texts and not blank |
| Slides.DropBlankAppend | tools.py:523-525 | filtering distributes over concatenation |
| Slides.WithShape | tools.py:456-477 | adding a shape puts it on top and leaves the layout and the other shapes unchanged |
| Slides.TitleSlide | tools.py:412-423 | a title slide has the title layout and two shapes, which read back as the title and the subtitle |
| Slides.BodyParagraphs | tools.py:435-444 | the body holds the points in order, all at level 0; with no points it holds one empty paragraph, the one `text_frame.clear()` keeps |
| Slides.ContentSlide | tools.py:425-446 | a content slide has the content layout; its title reads back as the title, and its body placeholder holds the points in order at level 0, or one empty paragraph |
| Slides.ContentSlideBody | tools.py:438-444 | the body paragraphs of a content slide are its points in order, all at level 0 |
| Slides.TitleSlideText | tools.py:412-423 | a title slide reads back as the title and the subtitle on two lines |
| Slides.ContentSlideText | tools.py:425-446 | a content slide reads back as the title, then the points one per line; with no points it reads back as the title and a newline, from the empty paragraph `clear()` keeps |
| Slides.Decimal | tools.py:526 | `str(n)` is made of digits only, and has no leading zero unless `n` is 0 |
| Slides.Label | tools.py:526 | a key is `Slide ` followed by a numeral of digits only with no leading zero |
| Slides.DecimalRoundTrip | tools.py:526 | the slide number in a key reads back as that number |
| Slides.LabelInjective | tools.py:526 | different slides get different keys |
| Slides.LabelsMembership | tools.py:521-526 | the keys of `n` slides are exactly `Slide 1` .. `Slide n` |
| Slides.LabelsSize | tools.py:521-526 | there are as many keys as slides |
| Slides.CollectTexts | tools.py:510-514 | the inner loop of `get_slide_text` collects the slide's texts |
| Slides.CollectNonBlankTexts | tools.py:522-525 | the inner loop of `extract_all_text` collects the non-blank texts |
| Slides.TextsByLabelExtend | tools.py:521-526 | each loop step adds the next slide's texts under a fresh key |
| Slides.PowerPointTool.constructor | tools.py:395-396 | a new tool holds an empty presentation |
| Slides.PowerPointTool.CreateNewPresentation | tools.py:398-401 | the deck is replaced by an empty one |
| Slides.PowerPointTool.LoadPresentation | tools.py:403-410 | an existing path replaces the deck with the stored one; a missing path keeps the current deck |
| Slides.PowerPointTool.AddTitleSlide | tools.py:412-423 | exactly one title slide is appended, earlier slides are unchanged, and its position is returned |
| Slides.PowerPointTool.AddContentSlide | tools.py:425-446 | exactly one content slide is appended, its body paragraphs built point by point, earlier slides unchanged |
| Slides.PowerPointTool.AddBlankSlide | tools.py:448-452 | exactly one slide with no shapes is appended |
| Slides.PowerPointTool.AddTextBox | tools.py:454-461 | a text box holding the text is added on top of that slide and nothing else changes |
| Slides.PowerPointTool.AddImage | tools.py:463-478 | a missing file changes nothing and gives none; otherwise a picture is added on top of that slide, with the explicit size exactly when width and height are both truthy |
| Slides.PowerPointTool.GetSlideCount | tools.py:500-502 | the number of slides |
| Slides.PowerPointTool.GetSlideText | tools.py:504-516 | the out-of-range text for an index at or past the count; otherwise the slide's texts joined with newlines, a negative index counting from the end and one before the first slide raising `IndexError` |
| Slides.PowerPointTool.ExtractAllText | tools.py:518-527 | the keys are exactly `Slide 1` .. `Slide n`, one per slide, each holding that slide's non-blank texts in shape order |
| Slides.PowerPointTool.CreateSamplePresentation | tools.py:534-551 | the three sample slides are appended after the existing ones, with the sample texts and the text box at 1, 1, 8, 2 inches |
| Slides.PowerPointTool.AddSampleSlides | tools.py:536-549 | a title slide, a content slide and a blank slide with a text box are appended, in that order |

## Left out

- HTTP: `requests`, the request parameters, the headers and the user agent are not modelled. Every reply is an input.
- HTTP: JSON decoding errors and a `KeyError` on an item without `title` are not modelled.
- HTTP: `srlimit`, `exsentences`, `pllimit` and `cllimit` only shape the server's answer, so the model has no client-side cap.
- `get_random_page` is only a request and a read of the first element.
- `get_page_links` and `get_page_categories` only forward to the internal helpers, which are modelled.
- The text of a wrapped exception is its cause (a transport message or a status), not a formatted string.
- Python's `\s` is the set `str.isspace` accepts. `\d` is narrowed to the ASCII digits; Unicode decimal digits are not modelled.
- `python-pptx` is abstract: layouts are their numbers and placeholders their indices.
- `python-pptx`: `Inches` and `Pt` units are plain reals, and saving and loading files are the `files` and `images` inputs.
- `python-pptx`: a path that exists but holds no readable deck or image makes `Presentation` (tools.py:406) and `add_picture` (tools.py:470-475) raise; the `files` and `images` inputs only say whether a path exists, so the model cannot express that failure.
- `python-pptx`: the slide methods use layouts 0, 1 and 6 and the body placeholder with index 1 (tools.py:414, 427, 450); after `load_presentation` these come from the loaded deck's template, but the model always builds the shapes of the default template.
- Slides.BodyParagraphs, Slides.ContentSlideText, Slides.PowerPointTool.GetSlideText: `python-pptx` stores a `"\n"` inside a bullet point as a line break and reads it back as `"\v"`; the model keeps the paragraph text as given, so such a point reads back with `"\n"`.
- Slides.FrameTextOfText: `python-pptx` escapes control characters other than tab, newline and vertical tab when text is assigned (`\r` reads back as `_x000D_`). The model does not capture this, so a frame reads back its text only when the text has no such characters.
- `save_presentation` is not modelled: it writes a file through the library, and serialisation is outside the model.
- `format_text` and `set_slide_background_color` only set font and fill attributes on library objects.
- `print` output, the `__main__` demo blocks and the example functions are not modelled.
- `Agent.py` is agent configuration without logic, and is not part of this model.
- Slides.PowerPointTool.AddTextBox: a slide handle is a position in the deck, so the model requires `index < |slides|` and does not capture a handle that outlives a reload of the deck.
- Slides.PowerPointTool.AddImage: the same holds for its slide handle, which is also required to satisfy `index < |slides|`.
- Wikipedia.KnowledgeBase: the knowledge base is a `map`, so the insertion order of the Python dict (tools.py:319) is not modelled. The keys identify the entries.
- Slides.PowerPointTool.ExtractAllText: the result is a `map`, so the insertion order of the Python dict (tools.py:526) is not modelled. The keys identify the slides.
- TextCleaning.CleanHtml: the order of characters is preserved only for input without `&`. Removing a tag can join the two halves of an entity, which is then decoded (`&l<b>t;` gives `<`, as CleanHtmlJoinsEntity proves), so no general statement holds.
- Wikipedia.CreateKnowledgeBase: the per-topic calls to `get_page` are given as their outcomes, in topic order, rather than made.
- Wikipedia.SearchAndSummarize: the search result and `get_summary` are given as an outcome and a function rather than called.
