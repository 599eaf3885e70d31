# Slide knowledge extraction for PPT Q&A

This project models the text-extraction core of a small Streamlit tool that
answers a question from a PowerPoint deck. `extract_slide_knowledge` walks
the slides in order. For each slide it takes the title placeholder's text,
or `""` when there is none. It then grows a `content` buffer from every
text-frame shape whose text is not exactly the title: it adds the shape's
text, stripped, and a newline. A slide yields the block
`title.strip() + "\n" + content.strip()` when the raw title or the raw buffer
is non-empty. The "Get Answer" handler warns when the file or the question is
missing. It reports "No content found" when no block comes out, and otherwise
goes on to embedding and scoring.

Files:

- `pystr.dfy` (module `PyStr`): Python's whitespace predicate and `str.strip()`.
- `deck.dfy` (module `Deck`): shapes, slides and the title placeholder
  lookup, as plain values standing for the python-pptx objects.
- `lists.dfy` (module `Lists`): the two accumulation patterns the
  extractor uses, stated once for any element type. One concatenates
  pieces in order (`content += ...`). The other keeps only the present
  results (`if ...: slide_knowledge.append(...)`).
- `knowledge.dfy` (module `Knowledge`): the extractor as a method with the
  source's two nested loops, the functions that specify it, and the
  properties proved about them.
- `handler.dfy` (module `Handler`): the handler's guard branches.

Three consequences of app.py that are easy to miss:

- The test at app.py:23 uses the untrimmed title and the raw `content`
  buffer, not their stripped forms. A slide whose title is only whitespace,
  or with a contributing shape whose text is only whitespace, still yields a
  block, whose trimmed title and trimmed content may both be empty.
  `BlankTitleEmitted` and `EntryShape` state this.
- app.py:22 ends every contributing shape's piece with `"\n"`, and
  app.py:24 strips the whole buffer, so the last of these newlines never
  appears in a block.
- The guard at app.py:32 only asks whether a file object was uploaded. Any
  uploaded file passes it, even an empty one; a file that cannot be parsed
  fails later, inside the `try` block.

## Model

| member | source | states |
|---|---|---|
| `PyStr.LeadingSpaces` | app.py:22 | the count of leading whitespace characters: every one of them is whitespace and the next character is not |
| `PyStr.TrailingSpaces` | app.py:22 | the count of trailing whitespace characters: every one of them is whitespace and the character before them is not |
| `PyStr.StripSpec` | app.py:22 | `strip()` removes only a whitespace prefix and a whitespace suffix; the result is empty exactly when the input is all whitespace, and otherwise neither starts nor ends with whitespace |
| `PyStr.StripIdempotent` | app.py:22 | stripping an already stripped string changes nothing |
| `Deck.TitleIndex` | app.py:18 | finds the first title placeholder among the slide's shapes, or reports that there is none |
| `Deck.TitleText` | app.py:18 | the title is the text of the first title placeholder, and `""` when the slide has no title placeholder |
| `Lists.ConcatMapAppend` | app.py:19-22 | a buffer grown piece by piece with `+=` over `xs + ys` is the buffer over `xs` followed by the buffer over `ys` |
| `Lists.ConcatMapSkip` | app.py:21-22 | an element that adds nothing to the buffer can be left out without changing it |
| `Lists.ConcatMapEmptyIff` | app.py:19-23 | the buffer is empty exactly when every element adds nothing |
| `Lists.ConcatMapAll` | app.py:22-24 | every character of the buffer satisfies a predicate exactly when every character of every piece does |
| `Lists.FilterMapAppend` | app.py:16-24 | a list grown by conditional `append` over `xs + ys` is the list over `xs` followed by the list over `ys` |
| `Lists.PresentPositions` | app.py:16-24 | the positions that append something, strictly increasing, each exactly once |
| `Lists.FilterMapAt` | app.py:16-25 | the list has one value per appending position and no more, and its k-th value is the one appended at the k-th such position |
| `Lists.FilterMapEmptyIff` | app.py:16-25 | the list is empty exactly when no position appends |
| `Knowledge.ExtractSlideKnowledge` | app.py:14-25 | the two nested loops, with their `append` and `+=` accumulators, return exactly the blocks of the specification `Extract` |
| `Knowledge.ContentSplit` | app.py:20-22 | the content buffer is built in shape order: the buffer for `a + b` is the buffer for `a` followed by the buffer for `b` |
| `Knowledge.ContentOne` | app.py:21-22 | a single shape adds `strip(text) + "\n"` when it has a text frame and its text is not exactly the untrimmed title, and adds nothing otherwise |
| `Knowledge.BlankShapeAddsNewline` | app.py:21-22 | a contributing shape whose text is whitespace only still adds `"\n"` |
| `Knowledge.ContentEmptyIff` | app.py:20-23 | the raw content buffer is empty exactly when no shape contributes |
| `Knowledge.StrippedContentEmptyIff` | app.py:22-24 | the trimmed content is empty exactly when every contributing shape's text is whitespace only |
| `Knowledge.TitleShapeDropped` | app.py:18-21 | the title shape, and any other shape whose text is exactly the title, never contributes; removing it leaves the buffer unchanged |
| `Knowledge.EmitsIff` | app.py:23 | a slide yields a block exactly when its untrimmed title is non-empty or some shape contributes |
| `Knowledge.EntryShape` | app.py:23-24 | every block has `"\n"` right after its trimmed title; a slide's block is `"\n"` alone exactly when it emits and its title and every contributing text are whitespace only |
| `Knowledge.BlankTitleEmitted` | app.py:23-24 | a slide whose title is non-empty whitespace, and on which nothing else contributes, still yields the block `"\n"` |
| `Knowledge.EmptyTitleOnlySlideSkipped` | app.py:18-23 | with an empty title, a slide whose only text-frame shape is the title placeholder yields nothing |
| `Knowledge.ExtractSplit` | app.py:16-24 | slides are processed independently and in order: the blocks of `a + b` are those of `a` followed by those of `b` |
| `Knowledge.ExtractOrder` | app.py:16-25 | there are at most as many blocks as slides; the k-th block is the block of the k-th emitting slide, so blocks keep slide order and skipped slides leave no gap |
| `Knowledge.EveryBlockHasNewline` | app.py:24-25 | every returned block contains `"\n"` |
| `Knowledge.ExtractEmptyIff` | app.py:16-25 | the result is empty exactly when no slide yields a block |
| `Handler.GetAnswer` | app.py:31-45 | warns exactly when the file is missing or the question is empty; otherwise extracts; reports "No content found" exactly when no slide yields a block; proceeds to scoring only with the extracted, non-empty block list |

## Left out

- Streamlit page setup, widgets, messages and rendering (app.py:7-8, 28-29, 53-57) are UI. The handler's branches are represented by the `Outcome` value instead.
- Writing the upload to `uploaded_ppt.pptx` (app.py:36-39) is file I/O. The handler receives the presentation as already-parsed slides, or `None` when nothing was uploaded.
- python-pptx parsing (app.py:15) is a foreign library and is not part of this model. A failed parse is left out with it, and so is the catch-all `except` display that would report it (app.py:59-60).
- Deck.TitleIndex: models `slide.shapes.title` as the first shape flagged as a title placeholder. python-pptx finds it by placeholder index 0, which is not represented.
- The model does not require the title placeholder to have a text frame. Reading the text of a title shape without one would raise in the source; that case is not modelled.
- SentenceTransformer loading, CPU placement and `encode` (app.py:11-12, 46-47) are foreign machine-learning calls.
- `util.cos_sim`, `argmax`, `.item()` (app.py:48-51) and the two-decimal confidence formatting (app.py:57) are floating-point tensor numerics inside a library. The model stops at `Proceed(slides)`.
- `PyStr.IsSpace` lists the characters for which Python's `str.isspace()` holds. Unicode character tables are not modelled beyond that list.
