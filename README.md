# Wikipedia search engine core, modelled in Dafny

This project models the core of `test.py`. That script scrapes one Wikipedia
article (its paragraph text and its images), stores the text in passages and
the image paths in two collections of a search server, and answers a query
by merging the text hits and the image hits, then splitting them again into
a text answer and an image gallery.

Modules, one per step of the script, with two shared modules:

- `Wrappers`: `Option` and `Result`.
- `PyStr`: the Python string built-ins the script relies on. These are
  `str.isspace` (the same code points as `\s` in a `str` pattern), `\d`,
  `sep.join`, `str.split` on one character, `str.split()` with no argument,
  `str.strip` (and `str.lstrip`, a step of the whitespace collapse),
  `str.endswith` and `str(i)` for a natural number.
- `Cleaning`: the cleaning passes of `scrape_text`. `re.sub(r'\[\d+\]', '', s)`
  is modelled as the left-to-right scan the regular-expression engine
  performs. `re.sub(r'\s+', ' ', s).strip()` is modelled as a collapse
  followed by a strip.
- `Images`: the path list of `scrape_images`, including the `KeyError`
  raised by a tag without `src`.
- `Indexing`: `index_data`. A class `SearchIndex` holds the two collections
  `wiki_text` and `wiki_images` as maps from id to content. Its methods run
  the two indexing loops in place. The server keeps its collections across
  runs, and a write under an existing id replaces that record, so every
  method states the new collection as the old one overlaid with the records
  written.
- `Query`: `search` and `search_engine`. The server's hits for a query are
  inputs, in the order the server returns them.

Behaviour of the code that the model makes explicit:

- One pass of the citation substitution is not idempotent: `[[1]2]` becomes
  `[2]`, which a second pass would delete
  (`Cleaning.RemoveCitationsNotIdempotent`). Collapse plus strip, by
  contrast, is idempotent (`Cleaning.NormalizeIdempotent`), and it equals
  `" ".join(s.split())` (`Cleaning.Normalize`).
- Results are classified by the suffixes `.jpg`, `.png` and `.jpeg` alone,
  so a passage `a.png` is shown as an image
  (`Query.TextHitEndingInSuffixIsShownAsImage`).
- The scraped text never contains a newline, so splitting it on `"\n"`
  yields a single piece and at most one passage is written, with id 0
  (`Indexing.ScrapedTextIsOnePassage`).

## Model

| member | source | states |
|---|---|---|
| PyStr.IsSpace | test.py:35 | definition of `\s` and `str.isspace`: exactly the code points Python treats as whitespace (the ASCII controls 9-13 and 28-31, space, U+0085, U+00A0, U+1680, U+2000-U+200A, U+2028, U+2029, U+202F, U+205F, U+3000) |
| PyStr.IsDigit | test.py:32 | definition of `\d`: the ASCII digits `0`-`9` |
| PyStr.Join | test.py:29 | definition of `sep.join(parts)`: the parts in order with the separator between neighbours; `SplitThenJoin`, `JoinThenSplit` and `JoinOfWordsEnds` pin it down |
| PyStr.Split | test.py:67 | `str.split` on one character always yields at least one piece, and no piece contains the separator |
| PyStr.SplitThenJoin | test.py:67 | joining the pieces of a split with the separator gives back the original string |
| PyStr.JoinThenSplit | test.py:104 | splitting a join of separator-free parts gives back exactly those parts |
| PyStr.Strip | test.py:35 | `strip()` yields either the empty string or a string whose first and last characters are not whitespace |
| PyStr.StripUnchangedIff | test.py:35 | `strip()` leaves a string unchanged exactly when it is empty or has no whitespace at either end |
| PyStr.StripEmptyIff | test.py:68 | `item.strip()` is empty, so the piece is skipped, exactly when every character of the piece is whitespace |
| PyStr.StripKeepsOrder | test.py:68-70 | the stripped string is a subsequence of the original |
| PyStr.StripKeepsNonSpace | test.py:35 | stripping removes only whitespace: the non-whitespace characters are unchanged |
| PyStr.EndsWith | test.py:100-101 | definition of `s.endswith(suffix)`: the suffix is no longer than `s` and equals its last characters |
| PyStr.StripAround | test.py:35 | `strip()` of whitespace, then text with non-whitespace ends (or nothing), then whitespace, is exactly that middle text |
| PyStr.WordLength | test.py:35 | the first word of `s` has no whitespace and ends at the end of `s` or at a whitespace character |
| PyStr.Words | test.py:35 | definition of `s.split()` with no argument: the maximal runs of non-whitespace characters, in order |
| PyStr.WordsAreWords | test.py:35 | every piece of `s.split()` is non-empty and contains no whitespace |
| PyStr.JoinOfWordsEnds | test.py:35 | joining non-empty whitespace-free words with single spaces gives the empty string exactly when there are no words, and otherwise text with non-whitespace ends |
| PyStr.NatToString | test.py:51 | `str(i)` is a non-empty string of decimal digits, with at least two digits from 10 on |
| PyStr.NatToStringValue | test.py:51 | `str(i)` is the decimal numeral of `i`: its digits denote `i`, and it has no leading zero |
| PyStr.NatToStringInjective | test.py:51 | different numbers print differently |
| Cleaning.IsCitation | test.py:32 | definition of the strings `\[\d+\]` matches: `[`, one or more digits, `]` |
| Cleaning.DigitRun | test.py:32 | the greedy `\d+` at the start of the text is no longer than the text; `DigitRunIsMaximal` states that it is the whole run |
| Cleaning.DigitRunIsMaximal | test.py:32 | `\d+` consumes a run of digits and stops at the first non-digit |
| Cleaning.CitationAt | test.py:32 | the length of the match of `\[\d+\]` at the start of the text (0 when there is none) never exceeds the text |
| Cleaning.CitationAtIsExact | test.py:32 | a match found at a position is a citation marker `[digits]`, and it is the only marker starting there |
| Cleaning.RemoveCitations | test.py:32 | the substitution never lengthens the text |
| Cleaning.RemoveCitationsKeepsOrder | test.py:32 | the surviving characters keep their order: the result is a subsequence of the input |
| Cleaning.RemoveCitationsExcludes | test.py:32 | a character absent from the input is absent from the result |
| Cleaning.RemoveCitationsKeepsPrefix | test.py:32 | everything before the first marker is kept unchanged |
| Cleaning.RemoveCitationsLeftmost | test.py:32 | the first marker is deleted whole, the text before it is kept, and the scan resumes right after it |
| Cleaning.RemoveCitationsShrinks | test.py:32 | when a marker occurs anywhere, the result is strictly shorter than the input |
| Cleaning.RemoveCitationsUnchangedIff | test.py:32 | the pass leaves the text unchanged exactly when no position starts a marker |
| Cleaning.NoBracketUnchanged | test.py:32 | text without an opening bracket passes through unchanged |
| Cleaning.RemoveCitationsNotIdempotent | test.py:70 | one pass is not idempotent: `[[1]2]` becomes `[2]`, which a second pass deletes |
| Cleaning.CollapseSpaces | test.py:35 | definition of `re.sub(r'\s+', ' ', s)`: every maximal whitespace run becomes one space; `CollapseSpacesShape` and `CollapseWords` state what that yields |
| Cleaning.CollapseSpacesShape | test.py:35 | the collapse is empty exactly when the input is, starts with whitespace exactly when the input does, its only whitespace is single spaces with no two adjacent, and the non-whitespace characters are unchanged |
| Cleaning.CollapseKeepsWord | test.py:35 | the collapse keeps the first word of the text unchanged and continues with the collapse of the rest |
| Cleaning.CollapseWords | test.py:35 | for text not starting with whitespace, the collapse is the words of `s.split()` joined with single spaces, plus one space when the text ends in whitespace after a word |
| Cleaning.CollapseStripJoinsWords | test.py:35 | `re.sub(r'\s+', ' ', s).strip()` equals `" ".join(s.split())` for every `s` |
| Cleaning.Normalize | test.py:35 | collapse then strip is `" ".join(s.split())`; the result has no whitespace at either end, no two adjacent whitespace characters, no newline, and exactly the non-whitespace characters of the input |
| Cleaning.StripKeepsCollapsed | test.py:35 | stripping text whose whitespace is single spaces leaves normal text |
| Cleaning.CollapseSpacesUnchanged | test.py:35 | collapsing is a no-op on text whose whitespace is already single spaces |
| Cleaning.NormalizeUnchangedIff | test.py:35 | collapse plus strip leaves text unchanged exactly when it is already normal |
| Cleaning.NormalizeIdempotent | test.py:35 | collapse plus strip is idempotent |
| Cleaning.ScrapeText | test.py:28-37 | the scraped text is `" ".join(t.split())` where `t` is the space-joined paragraphs with citation markers removed; so it has exactly the non-whitespace characters of `t`, is normal, has no newline, and its non-whitespace characters are a subsequence of the paragraphs' |
| Cleaning.NonSpaceKeepsOrder | test.py:32-35 | dropping whitespace from a subsequence keeps it a subsequence |
| Images.ImagePath | test.py:51 | the path of image i starts with `images/img_` and ends with `.jpg` |
| Images.ImagePathsDistinct | test.py:51 | images at different positions get different paths |
| Images.ImagePaths | test.py:47-55 | definition of the list the loop builds for `n` tags: path i at position i; `ScrapeImages` returns it |
| Images.ScrapeImages | test.py:47-55 | succeeds exactly when every tag has `src`; then it returns one path per tag, the i-th being `images/img_<i>.jpg`; otherwise it fails at the first tag without `src` |
| Indexing.PieceRecord | test.py:68-70 | a piece is skipped exactly when it is all whitespace; otherwise its record is no longer than the piece (its strip with markers removed) |
| Indexing.Passages | test.py:67-71 | definition of the `wiki_text` records for a text: the pieces of `text.split("\n")` that `PieceRecord` keeps, under their positions; `PassagesArePieces` states them |
| Indexing.ImageRecords | test.py:74-75 | definition of the `wiki_images` records: path i under id i; `ImageRecordsContiguous` states them |
| Indexing.EnumeratedRecordsAre | test.py:67-75 | an enumerating loop writes an id exactly when it is a position whose item the rule keeps, and stores what the rule made of that item |
| Indexing.ImageRecordsContiguous | test.py:74-75 | the image ids run from 0 to n-1 with no gap, and id i holds path i |
| Indexing.PassagesArePieces | test.py:67-71 | a passage id is exactly a position of the newline split whose strip is non-empty; it holds that strip with its markers removed |
| Indexing.ScrapedTextIsOnePassage | test.py:67-71 | scraped text yields no passage when it is empty and otherwise exactly one, under id 0, holding the text with its markers removed |
| Indexing.PassagesHaveNoNewline | test.py:67-71 | no stored passage contains a newline |
| Indexing.SearchIndex.IndexData | test.py:58-75 | when a tag lacks `src`, nothing is written; otherwise `wiki_text` becomes its old content overlaid with the passages of the scraped text, and `wiki_images` becomes its old content overlaid with the image paths |
| Indexing.SearchIndex.IndexText | test.py:66-71 | the text loop overlays the old `wiki_text` with exactly the passages of the text and leaves `wiki_images` alone |
| Indexing.SearchIndex.WritePieces | test.py:67-71 | whatever the per-piece rule, the loop overlays the old `wiki_text` with the rule's record of piece i under id i, for exactly the pieces the rule keeps, and leaves `wiki_images` alone |
| Indexing.SearchIndex.IndexImages | test.py:73-75 | the image loop overlays the old `wiki_images` with path i under id i and leaves `wiki_text` alone |
| Query.CleanHits | test.py:82-85 | as many cleaned hits as text hits, each no longer than the hit it came from; `Search` states their content |
| Query.Search | test.py:77-93 | the results are the text hits, each with its markers removed and in order, followed by the image hits in order; the length is the sum |
| Query.IsImageName | test.py:100-101 | definition of `result.endswith(('.jpg', '.png', '.jpeg'))` |
| Query.TextResults | test.py:100 | the text results are no more than the results, and none of them ends in an image suffix |
| Query.ImageResults | test.py:101 | the image results are no more than the results, and every one ends in an image suffix |
| Query.PartitionIsExact | test.py:100-101 | each result lands in exactly one of the two lists: together they hold the results with their multiplicities, and their lengths add up |
| Query.PartitionMembership | test.py:100-101 | a value is an image result exactly when it is a result ending in `.jpg`, `.png` or `.jpeg`, and a text result exactly when it is a result ending in none of them |
| Query.PartitionKeepsOrder | test.py:100-101 | both lists keep the order of the results |
| Query.PartitionOfAppend | test.py:100-101 | classifying a concatenation classifies each part separately |
| Query.PartitionOfUniform | test.py:100-101 | results that all lack an image suffix all stay text, and results that all have one all go to images |
| Query.ScrapedPathsAreImages | test.py:101 | every path the scraper produces is classified as an image |
| Query.SeparatedResults | test.py:96-101 | when no cleaned text hit ends in an image suffix and every image hit does, the split gives back exactly the cleaned text hits and the image hits |
| Query.TextHitEndingInSuffixIsShownAsImage | test.py:100-101 | a passage `a.png` is shown as an image, and no text is shown |
| Query.TextOutputSplitsBack | test.py:104 | when no result holds a newline and there is a text result, the text output splits back into the text results |
| Query.SearchEngine | test.py:95-111 | the text output is the newline join of the text results, and the image output is the list of image results, both of `search`'s merged list |

## Left out

- The HTTP fetches, the HTML parsing and the removal of `<sup>` nodes are not modelled. `ScrapeText` takes the text of each paragraph after that removal, and `ScrapeImages` takes the `src` attribute of each tag.
- The `urljoin` of each `src` and the download of each image into the `images` directory are not modelled. They do not affect the returned paths. A download failure would raise, and the model does not capture that.
- `os.makedirs` and all other filesystem effects are not modelled.
- The search server's client is replaced by the two maps of `SearchIndex`. Relevance ranking and the `match` query are not modelled: the hits of each collection are inputs.
- The whole-page write to the `text` collection (test.py:64) is not modelled. The server chooses its id, and nothing reads that collection.
- The Gradio interface, the top-level fetch of the article at test.py:14-16 (its result is unused) and the start-up message are not modelled.
- `IsDigit`: `\d` is modelled as the ASCII digits only. In a `str` pattern it also matches the other Unicode decimal digits, which the model does not capture.
