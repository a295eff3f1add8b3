# Paragraph chunking of langchain-prompt-to-wikipedia, modelled in Dafny

The program asks a language model for a Wikipedia URL, fetches the article,
cuts the extracted text into a bounded excerpt and has the model summarize
it. The only logic of its own is the cutting, done by `TrafilaturaChain` in
`app.py`. This project models that part and proves what it does.

- `_get_paragraphs_from_text(text, max_length)` splits the text into
  sentences with `re.findall('[^\.!?]+[\.!?]', text)`. It then packs the
  sentences greedily into paragraphs, checking the budget against the raw
  sentence lengths but building each paragraph from the stripped sentences.
- The tail of `_get_text` drops every `"\n"` from the extracted text and
  packs it under a budget of 500. It then concatenates the first ten
  paragraphs, with no separator, into the excerpt.

Modules, one per file:

- `StringOps` (`string_ops.dfy`): the Python string operations involved.
  - `str.strip()` over the exact character set of Python's `str.isspace()`.
  - `str.replace("\n", "")`.
  - `"".join`, plus `" ".join` as the reference shape of a paragraph.
- `Segmentation` (`segmentation.dfy`): the regular expression as a recursive
  function `Sentences`. It is characterized completely.
  - Every text is its sentences, the stray terminators between them, and a
    tail without terminators (`SentencesCover`).
  - Any text put together that way yields exactly those sentences
    (`SentencesUnique`).
- `Packing` (`packing.dfy`): the packing.
  - `Groups` is the grouping of the sentences, placed one at a time by
    `Place`.
  - `Render` is the string the source builds for a group; `Paragraphs` is
    the resulting list.
  - `ParagraphsFromText` is the source's loop, in place, with its
    accumulators `currentParagraph` and `currentLength`. It is proved to
    return `Paragraphs`.
  - The guarantees of the packing are proved about `Groups`. They also
    characterize it: no other grouping has all of them (`GroupsUnique`).
- `Extractor` (`extractor.dfy`): the newline removal, the budget of 500 and
  the ten-paragraph truncation.
  - `GetText` is the method.
  - `Excerpt` is the function that specifies it.
- `Scenarios` (`scenarios.dfy`): the text "Hello world. This is a test! Is
  it? Yes." worked through under a wide budget and under a budget smaller
  than its first sentence.

Python's `len` counts code points, and so does `|s|` on a Dafny `string`
for every text without lone surrogates (see "Left out"). Integers are
unbounded on both sides.

The code can emit `""` as a paragraph in two cases:

- When the very first sentence is longer than the budget, the `else` branch
  flushes the still-empty accumulator.
- When the text holds no sentence at all, the result is `[""]`.

Both cases are proved (`Packing.EmptyParagraphs`, `Packing.Paragraphs`,
`Scenarios.TinyBudget`). No other paragraph is ever empty.

## Model

| member | source | states |
|---|---|---|
| StringOps.LeadingSpace | app.py:53 | the number of leading characters `strip()` removes: all of them are whitespace, and the next one is not |
| StringOps.TrailingSpace | app.py:53 | the number of trailing characters `strip()` removes: all of them are whitespace, and the one before them is not |
| StringOps.IsSpaceRanges | app.py:53 | the characters `strip()` removes are exactly the code points of Python's `str.isspace()`: U+0009 to U+000D, U+001C to U+0020, U+0085, U+00A0, U+1680, U+2000 to U+200A, U+2028, U+2029, U+202F, U+205F and U+3000 |
| StringOps.Strip | app.py:53 | `sentence.strip()`: the result has no whitespace at either end and is no longer than its input |
| StringOps.StripCharacterized | app.py:56 | whitespace around a trimmed core strips to exactly that core, so stripping removes only whitespace at the ends |
| StringOps.StripSplits | app.py:59 | every string is its stripped form, a contiguous slice, with only whitespace on either side |
| StringOps.StripKeepsLast | app.py:53 | a string ending in a non-whitespace character (a sentence terminator) keeps it and does not strip to `""` |
| StringOps.StripLacks | app.py:56 | stripping introduces no character |
| StringOps.TotalLengthAtLeast | app.py:49-58 | the summed raw length that `current_length` keeps is at least the length of each string counted in it |
| StringOps.Concat | app.py:44 | `"".join(parts)`: its length is the summed length of the parts |
| StringOps.ConcatAppend | app.py:44 | joining two lists one after the other gives the two joins one after the other |
| StringOps.ConcatOne | app.py:44 | joining a single part gives that part |
| StringOps.ConcatLacks | app.py:44 | `"".join` of parts that lack a character lacks it too |
| StringOps.JoinSpaceTrimmed | app.py:53 | words that are non-empty and trimmed, joined by single spaces, give a non-empty trimmed string that starts with the first word and ends with the last |
| StringOps.RemoveNewlines | app.py:42 | `replace("\n", "")`: the result has no `"\n"` and is no longer than its input |
| StringOps.RemoveNewlinesAppend | app.py:42 | removal distributes over concatenation |
| StringOps.RemoveNewlinesKeeps | app.py:42 | a string with no `"\n"` is left as it is |
| StringOps.RemoveNewlinesLacks | app.py:42 | removal introduces no character |
| Segmentation.RunLength | app.py:47 | how far the greedy `[^\.!?]+` runs: no terminator up to there, and a terminator or the end right after |
| Segmentation.Sentences | app.py:47 | `re.findall`: every match has length at least 2, ends in `.`, `!` or `?`, and has no terminator before that |
| Segmentation.SentencesCover | app.py:47 | the text is the matches in left-to-right order, interleaved with runs of stray terminators and followed by a tail with no terminator; so matches do not overlap and nothing else is dropped |
| Segmentation.SentencesUnique | app.py:47 | for any text assembled from sentences, stray terminators and a terminator-free tail, `findall` returns exactly those sentences |
| Segmentation.SentencesLack | app.py:47 | a character absent from the text is absent from every match |
| Packing.Groups | app.py:48-59 | there is always at least one group, because of the unconditional final flush |
| Packing.Paragraphs | app.py:46-60 | the returned list is never empty, every paragraph is stripped, and it is `[""]` when the text has no sentence |
| Packing.Place | app.py:52-58 | one loop turn, on groups: the sentence joins the last group when its raw length still fits, and opens a new group otherwise; the result is never empty |
| Packing.PlaceShape | app.py:52-58 | one loop turn changes only the end: the groups before the last are kept, at most one group is added, and the sentence ends the last group |
| Packing.Accumulate | app.py:48-57 | `current_paragraph` after adding each sentence stripped and followed by a space: for a non-empty group it ends in the space that the final `strip()` removes |
| Packing.Render | app.py:56-59 | the paragraph emitted for a group, `current_paragraph.strip()`: it is trimmed, and it is `""` for the empty group |
| Packing.RenderAll | app.py:56-59 | the emitted paragraphs, one per group |
| Packing.RenderAllAt | app.py:56-59 | paragraph `k` is group `k`, rendered, so the paragraphs keep the order of the groups |
| Packing.PlaceFlatten | app.py:51-58 | one loop turn appends the sentence to the grouped sequence |
| Packing.GroupsFlatten | app.py:51-59 | order and no loss: the groups, read in order, are exactly the sentences, with nothing dropped or duplicated |
| Packing.GroupsKeep | app.py:51-58 | a property every sentence has holds of every sentence in every group |
| Packing.PlaceWithinBudget | app.py:52-55 | one loop turn keeps every group of two or more sentences, and a non-empty first group, within the budget |
| Packing.GroupsWithinBudget | app.py:52-55 | every group of two or more sentences has a raw length of at most `max_length` |
| Packing.GroupsOnlyFirstEmpty | app.py:49-58 | only the first group can be empty |
| Packing.GroupsGreedy | app.py:52-58 | every group after the first opens with a sentence that would have taken the group before it over the budget |
| Packing.GroupsFirst | app.py:49-56 | the first group is empty exactly when the first sentence is longer than the budget, and then another group follows |
| Packing.OverlongAlone | app.py:52-58 | a sentence longer than `max_length` is alone in its group |
| Packing.GroupsUnique | app.py:51-59 | any grouping of the sentences in order where only the first group may be empty, groups stay within budget and every split was forced is the one the loop builds |
| Packing.GroupsCharacterized | app.py:51-59 | a grouping is the loop's grouping if and only if it has those four properties |
| Packing.AccumulateSnoc | app.py:53-54 | adding a sentence appends its stripped form and one space to `current_paragraph` and its raw length to `current_length` |
| Packing.AccumulateJoins | app.py:53-57 | `current_paragraph` for a non-empty group is its stripped sentences joined by single spaces, plus one trailing space |
| Packing.RenderJoins | app.py:56-59 | an emitted paragraph is its sentences, each stripped, joined by single spaces, and it is `""` exactly when the group is empty |
| Packing.ParagraphText | app.py:53-59 | paragraph `k` is the sentences of group `k`, stripped and joined by single spaces |
| Packing.EmptyParagraphs | app.py:49-56 | the first paragraph is `""` exactly when the first sentence is over the budget; no later paragraph is empty |
| Packing.ParagraphsLack | app.py:47-59 | a character other than the space that is absent from the text is absent from every paragraph |
| Packing.PackJoin | app.py:52-54 | a turn whose sentence fits: the sentence joins the group being filled, `current_paragraph` gets its stripped form and a space, and `current_length` grows by its raw length |
| Packing.PackOpen | app.py:55-58 | a turn whose sentence does not fit: the group being filled is flushed as its stripped paragraph, and the sentence alone starts the next group, with `current_length` its raw length |
| Packing.PackFinish | app.py:59 | the unconditional final flush appends the last group, stripped, which completes the rendered grouping of all sentences |
| Packing.ParagraphsFromText | app.py:46-60 | the loop's result, with the invariant that `current_length` is the raw length of the sentences held; it equals `Paragraphs` |
| Extractor.Take | app.py:44 | the slice `[0:10]`: the first `min(10, len)` paragraphs, in order |
| Extractor.Excerpt | app.py:42-44 | the excerpt has no `"\n"` |
| Extractor.ExcerptWithoutSentence | app.py:42-44 | a text with no `.`, `!` or `?` gives the empty excerpt |
| Extractor.ExcerptOfFlatText | app.py:42-44 | a text without line breaks is packed as it stands |
| Extractor.ExcerptIgnoresNewlines | app.py:42 | inserting a line break anywhere leaves the excerpt unchanged |
| Extractor.GetText | app.py:42-44 | the method's excerpt is `Excerpt` of the extracted text and contains no `"\n"` |
| Scenarios.TextSentences | app.py:47 | "Hello world. This is a test! Is it? Yes." has four matches, each after the first keeping its leading space |
| Scenarios.WideBudget | app.py:46-60 | under any budget of 40 or more (raw lengths 12, 16, 7 and 5), that text is one paragraph with the sentences joined by single spaces |
| Scenarios.TinyBudget | app.py:46-60 | under a budget of 5, that text gives `""` followed by each stripped sentence alone |

## Left out

- The fetch and the extraction, `trafilatura.fetch_url`, `trafilatura.extract` and `json.loads` (app.py:39-41). They are network I/O and a foreign library. The extracted `text` field is the input of `Extractor.GetText`. A failed fetch or extraction is not modelled.
- The `Chain` plumbing (app.py:26-36, 62-63): `input_keys`, `output_keys` and `_call` only route a dictionary entry to `_get_text`.
- `init_llm_chain`, `ChatOpenAI`, `LLMChain` and `SimpleSequentialChain` (app.py:65-123). They call a remote language model through a library whose code is not part of this model.
- Reading `secrets.json`, setting `OPENAI_API_KEY`, `input()` and `logger` calls. These are startup and console I/O.
- `templates.py`: two constant prompt strings, sent only to the external model.
- The regular-expression engine as such. `Segmentation.Sentences` is the meaning of this one pattern under `findall`, not a general matcher.
- Texts holding a lone surrogate code point (U+D800 to U+DFFF), which a Python `str` can carry, for example from `json.loads` of an escaped `"\ud800"`. A Dafny `char` cannot be a surrogate, so such texts are outside the model.
