# EPUB-to-text converter, modelled in Dafny

The repository holds one utility. `epub.parse(file)` in `assets/epubreader.py` does the following:
- It opens an EPUB book through the `ebooklib` library.
- It takes the body of every document item in order and strips its markup with `re.sub(r'<[^>]*>', '', body)`.
- It joins the stripped bodies with single spaces.
- It writes that text to a path derived by `file.replace(".epub", ".txt")`, and returns that path.

This project models that string pipeline and proves properties of it:

- `markup.dfy`, module `Markup`. It models the tag stripper as a left-to-right character scan, `StripTags`. At each `<` that has a `>` somewhere after it, the scan removes everything up to and including the first such `>`. This is the leftmost, non-overlapping match of `<[^>]*>`. A `<` with no `>` after it is kept, along with everything that follows it.
- `joining.dfy`, module `Joining`. It models `' '.join(...)` as `Join`. The module adds `Split`, the inverse of `Join` (Python's `str.split(' ')`), plus the offset of each part in the joined text.
- `paths.dfy`, module `Paths`. It models Python's `str.replace` as `ReplaceAll`, which rewrites every non-overlapping occurrence from left to right. `OutputPath(file)` is `ReplaceAll(file, ".epub", ".txt")`.
- `converter.dfy`, module `Converter`. The method `Parse` mirrors the body of `epub.parse`. Its `for` loop grows `content` one stripped body at a time. It returns the text to be written and the derived path. The item bodies are an input sequence.

`str.replace` without a count replaces every non-overlapping occurrence, not only the first: `"notes.epub.epub"` becomes `"notes.txt.txt"`. Whenever the path contains no `.epub`, the output path is the input path itself, so the text overwrites the book. `Paths.OutputPathUnchangedIff` states both directions of this.

Once joined, the text can contain a `<…>` run that crosses two items (for example the bodies `a<` and `>b`). Only each item's own stripped body is tag-free. `Converter.ConvertedTextItem` states that per-item property, which is all the source guarantees.

## Model

| member | source | states |
|---|---|---|
| `Markup.StripTags` | assets/epubreader.py:10 | the `re.sub(r'<[^>]*>', '', body)` scan; characterised by `StripTagsPlainPrefix`, `StripTagsLeadingTag` and `StripTagsOfTagFree` (which together fix its result), and by `StripTagsDeletesOnly`, `StripTagsTagFree` and `StripTagsIdempotent` |
| `Markup.IndexOf` | assets/epubreader.py:10 | the result is the position of the first `>` (no earlier one exists), or the length when there is none; this is where `[^>]*` stops |
| `Markup.StripTagsDeletesOnly` | assets/epubreader.py:10 | the stripped body is a subsequence of the body, in order, and no longer than it |
| `Markup.StripTagsTagFree` | assets/epubreader.py:10 | after stripping, no `<` has a `>` anywhere after it |
| `Markup.TagFreeIffNoMatch` | assets/epubreader.py:10 | "no `<` is followed by a `>`" holds exactly when no substring matches `<[^>]*>` (both directions) |
| `Markup.StripTagsLeavesNoMatch` | assets/epubreader.py:10 | no match of `<[^>]*>` remains in the stripped body |
| `Markup.StripTagsOfTagFree` | assets/epubreader.py:10 | a body in which no `<` has a `>` after it is returned unchanged |
| `Markup.StripTagsFixedIff` | assets/epubreader.py:10 | stripping leaves a body unchanged exactly when the body is tag-free (both directions) |
| `Markup.StripTagsIdempotent` | assets/epubreader.py:10 | stripping twice gives the same result as stripping once |
| `Markup.StripTagsWithoutOpen` | assets/epubreader.py:10 | a body without any `<` is returned unchanged |
| `Markup.StripTagsPlainPrefix` | assets/epubreader.py:10 | text before the first `<` is kept verbatim, and stripping continues on the rest |
| `Markup.StripTagsLeadingTag` | assets/epubreader.py:10 | a leading `<t>` with no `>` inside `t` is removed whole, and scanning resumes right after it |
| `Markup.StripTagsElement` | assets/epubreader.py:10 | an element `<name>text</name>` whose name has no `>` and whose text has no `<` strips to exactly its text |
| `Markup.StripTagsParagraphOf` | assets/epubreader.py:10 | `<p>text</p>` strips to `text` whenever `text` holds no `<` |
| `Markup.StripTagsParagraph` | assets/epubreader.py:10 | `<p>Hello</p>` strips to `Hello` |
| `Markup.StripTagsNestedOpen` | assets/epubreader.py:10 | in `<<a>b` the match runs from the first `<` to the first `>`, leaving `b` |
| `Markup.StripTagsUnterminated` | assets/epubreader.py:10 | `a>b<c` is kept whole: its `>` has no `<` before it, and its `<` has no `>` after it |
| `Joining.Join` | assets/epubreader.py:15 | `' '.join(parts)`; characterised by `JoinEmpty`, `JoinLength` and `JoinAt` (which fix every character of the result), and inverted by `Split` in `SplitJoin` |
| `Joining.JoinEmpty` | assets/epubreader.py:15 | joining no parts gives the empty text |
| `Joining.JoinLength` | assets/epubreader.py:15 | for n > 0 parts, the joined length is the sum of the part lengths plus n - 1 |
| `Joining.JoinAt` | assets/epubreader.py:15 | part i sits verbatim at its offset; exactly one space follows it unless it is last; the last part ends the text |
| `Joining.SplitJoin` | assets/epubreader.py:15 | splitting the joined text on spaces gives back the parts, when there is at least one part and no part contains a space (with no parts, `Split("")` is `[""]`, as Python's `''.split(' ')` is `['']`) |
| `Joining.JoinHelloWorld` | assets/epubreader.py:15 | `Hello` and `World!` join to `Hello World!` |
| `Paths.ReplaceAll` | assets/epubreader.py:12 | `str.replace` with no count: every non-overlapping occurrence, from the left; characterised by `ReplaceAllWithoutOccurrence` and, for the `.epub`-to-`.txt` rewrite, `OutputPathAtFirst` |
| `Paths.OutputPath` | assets/epubreader.py:12 | `file.replace(".epub", ".txt")`; characterised by `OutputPathAtFirst`, `OutputPathHasNoEpub`, `OutputPathUnchangedIff` and `OutputPathLength` |
| `Paths.ReplaceAllWithoutOccurrence` | assets/epubreader.py:12 | a string in which the pattern does not occur is returned unchanged |
| `Paths.OutputPathLength` | assets/epubreader.py:12 | each rewrite of `.epub` into `.txt` shortens the path by one: the output is as long as the input minus the number of non-overlapping occurrences |
| `Paths.CountPositive` | assets/epubreader.py:12 | a pattern that occurs anywhere is rewritten at least once |
| `Paths.DotFreePrefixKept` | assets/epubreader.py:12 | a prefix containing no `.` passes through the rewrite unchanged |
| `Paths.OutputPathUnchangedIff` | assets/epubreader.py:12-14 | the output path equals the input path exactly when the input contains no `.epub` (so the write targets the book itself) |
| `Paths.OutputPathAtFirst` | assets/epubreader.py:12 | when `x` holds no `.epub`, `x + ".epub" + y` becomes `x + ".txt"` followed by the output of `y`: the first occurrence becomes `.txt`, the text before it is kept, and the rewrite continues after it |
| `Paths.OutputPathHasNoEpub` | assets/epubreader.py:12 | every `.epub` is rewritten: the derived path contains no `.epub` |
| `Paths.OutputPathOfExtension` | assets/epubreader.py:12 | `.epub` alone becomes `.txt` |
| `Paths.OutputPathBook` | assets/epubreader.py:12 | `book.epub` becomes `book.txt` |
| `Paths.OutputPathDoubled` | assets/epubreader.py:12 | `a.epub.epub` becomes `a.txt.txt`: every occurrence is replaced, not only the first |
| `Paths.OutputPathWithoutExtension` | assets/epubreader.py:12 | `book.txt` is its own output path |
| `Converter.ConvertedText` | assets/epubreader.py:8-15 | the text written: the stripped bodies in item order, joined with single spaces; characterised by `ConvertedTextOfNoItems`, `ConvertedTextLength` and `ConvertedTextItem` |
| `Converter.Parse` | assets/epubreader.py:7-18 | the loop's invariants keep the accumulated `content` at exactly one entry per item processed so far, in item order, with entry k equal to item k's stripped body; so the written text is `ConvertedText(bodies)` and the returned path is exactly `OutputPath(file)` |
| `Converter.ConvertedTextOfNoItems` | assets/epubreader.py:8-15 | a book with no document items is written as the empty text |
| `Converter.ConvertedTextLength` | assets/epubreader.py:10-15 | for n > 0 items, the text length is the sum of the stripped lengths plus n - 1, and at most the raw body lengths plus n - 1 |
| `Converter.StrippedNoLonger` | assets/epubreader.py:8-10 | together, the stripped bodies are no longer than the raw bodies |
| `Converter.ConvertedTextItem` | assets/epubreader.py:8-15 | item i's stripped body appears verbatim at its offset, followed by one space unless it is last, and contains no tag match |
| `Converter.ConvertedTextTwoParagraphs` | assets/epubreader.py:8-15 | two items `<p>a</p>` and `<p>b</p>` (no `<` in `a` or `b`) are written as `a b`; for example `<p>Hello</p>` and `<p>World!</p>` give `Hello World!` |

## Left out

- Opening the book (`epub.read_epub`) and listing its document items (`get_items_of_type(ebooklib.ITEM_DOCUMENT)`, `get_body_content()`): these belong to the external `ebooklib` library, whose source is not part of this model. The bodies are an input sequence, in the library's order. The errors that library raises on a missing or malformed book are therefore not modelled.
- File I/O (`open`, `write`, `close`) and the `print` of the output path: these are side effects with no logic of their own. The text written is the output value `written`, and write errors are not modelled.
- In the source, the class `epub` has the same name as the imported module `epub`, so `epub.read_epub` inside `parse` would resolve to the class. The model describes the intended pipeline, not this name clash. `parse` keeps no state, so it is a plain method and not a class.
- Text encoding, and the fact that `get_body_content()` returns bytes: bodies are plain character sequences.
- General regular-expression semantics: only the fixed pattern `<[^>]*>` is modelled, as a character scan.
- `Paths.ReplaceAll` requires a non-empty pattern. Python's behaviour for an empty pattern (inserting the replacement between characters) is not modelled, because the converter only ever replaces `.epub`.
