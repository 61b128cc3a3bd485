# PDF toolkit page logic, in Dafny

`mergesplitrotatedeletecompress.py` is a Streamlit app with four PDF tools:
merge, split by page ranges, compress, and a page editor (reorder, delete,
rotate). The PDF libraries (PyPDF2, PyMuPDF, Pillow, reportlab) do the work
on documents. Around those calls sits a small layer of logic, and this
project models that layer: it decides which source pages go into which
output, in what order, and with what settings. Pages are an opaque type
parameter (`P`) or their 0-based index, so the model calls no library.

Modules, one file each:

- `Outcomes` (`outcomes.dfy`): `Option` and `Result`.
- `Seqs` (`seqs.dfy`): associativity of sequence concatenation, cited by the page-list proofs.
- `PyText` (`pytext.dfy`): the Python string built-ins the app relies on.
  - `str.strip()`, `str.split(sep)` for a one-character separator, and `sep.join(parts)`.
  - `int(s)` as a decimal parser that allows surrounding whitespace and an optional sign.
  - `str(n)` for a non-negative `n`.
  - The facts linking them: split/join round trips, `int(str(n)) == n`, and strip being idempotent.
- `SplitRanges` (`split_ranges.dfy`): the split tool's page-range box and the page slice of each range.
  - The parser is an imperative loop (`ParseRanges`). It is proved equal to `Scan`, a left fold over the classified comma-separated tokens.
  - `Scan` is then characterised. Blank and badly shaped tokens are skipped, and out-of-range tokens are reported. The first token whose fields are not integers ends the whole parse, because the `try` wraps the loop.
- `Merge` (`merge.dfy`): the merge loop, which appends every page of every upload in order. An unreadable upload aborts the merge.
- `SplitTracker` (`split_tracker.dfy`): the per-range "downloaded" flags.
  - These live in the session state and are updated in place, so they are a class with a `seq<bool>` field.
  - A ghost field `count` records the number of ranges the flags were last sized for. `Valid()` says there is one flag per range; `Sync` establishes it, and the other methods require and keep it.
  - The flags are keyed by position only. If the user edits the ranges but keeps their number, the old flags stay with the new ranges, because `Sync` changes nothing when the count is unchanged.
  - `Sync` runs only when the input gave at least one range (line 142). With no ranges nothing touches the flags, so going from two ranges to none and back to two keeps the old two flags.
- `Compression` (`compression.dfy`): choosing the JPEG quality and DPI from the radio label by substring tests, and the reported size reduction.
- `PageEditor` (`page_editor.dfy`): the editor's action list, the default order text, the parse of the order text, and the commit loop.
  - The commit aborts on a non-integer entry or on the first out-of-range entry, which it names as typed.
  - It skips entries naming deleted pages and otherwise appends `(page, rotation)`.
  - Committing the default order untouched gives the kept pages in their original order (`DefaultOrderRoundTrip`). When every page is marked for deletion, the order is empty and the commit fails, because no document without pages can be saved.

Where the code and a plain reading of the app's intent differ, the model
follows the code:

- A split token whose two fields are not both integers (`a-b`, `5-`) is not merely skipped. The `ValueError` leaves the whole loop, so later tokens are never examined, and the ranges accepted before it are kept (`ScanCharacterised`, `NonIntegerStops`).
- A failed merge reports the exception text, not which upload failed. `MergeUploads` only says that some upload was unreadable.
- `int()` refuses digit runs longer than 4300 digits. A split token with such a field ends the parse like `5-` does (`OverlongFieldStops`), and such an order entry makes the commit fail as not an integer.
- A commit whose entries name no kept page (an empty order, or only deleted pages) builds no page. PyMuPDF refuses to save a document with no pages, so the commit ends in the error branch (lines 368 and 377-378) (`EmptyDocument`, `KeptEmptyIffAllDeleted`).
- The reduction percentage is negative when the "compressed" file is larger than the original (`Reduction`).

## Model

| member | source | states |
|---|---|---|
| PyText.Strip | mergesplitrotatedeletecompress.py:128-130 | the stripped text is no longer than the input and neither starts nor ends with whitespace |
| PyText.StripRemovesEnds | mergesplitrotatedeletecompress.py:128-130 | the stripped text is a contiguous slice of the input, and everything cut off before and after it is whitespace |
| PyText.StripPadded | mergesplitrotatedeletecompress.py:349 | text with no whitespace at either end, padded on both sides with whitespace, strips back to itself |
| PyText.StripEmptyIff | mergesplitrotatedeletecompress.py:128 | a token strips to the empty string (and is skipped) exactly when every character is whitespace |
| PyText.StripIdempotent | mergesplitrotatedeletecompress.py:349 | stripping an already stripped entry changes nothing, so the filter and the kept value agree |
| PyText.Split | mergesplitrotatedeletecompress.py:127 | `split` always yields at least one piece (the empty input gives one empty piece) |
| PyText.SplitPieces | mergesplitrotatedeletecompress.py:127 | `split` yields one more piece than there are separators, and no piece contains the separator |
| PyText.JoinSplit | mergesplitrotatedeletecompress.py:127 | re-joining the pieces with the separator gives the input back |
| PyText.SplitJoin | mergesplitrotatedeletecompress.py:343-349 | splitting a join gives back the pieces when none contains the separator |
| PyText.Join | mergesplitrotatedeletecompress.py:343 | joining pieces that do not contain the separator puts exactly one separator between neighbours (none for zero or one piece) |
| PyText.ParseInt | mergesplitrotatedeletecompress.py:134 | `int()` rejects blank text; text it accepts is, once stripped, either a run of 1 to 4300 digits or a `+` or `-` followed by such a run |
| PyText.ParseSignedPadded | mergesplitrotatedeletecompress.py:134 | whitespace, an optional `+` or `-`, up to 4300 digits and whitespace parse to the digits' value, negated after `-` (` -12 ` gives -12) |
| PyText.ParseDigits | mergesplitrotatedeletecompress.py:134 | a digit run of at most 4300 digits parses to its decimal value |
| PyText.OverlongRejected | mergesplitrotatedeletecompress.py:134 | a digit run longer than 4300 digits raises `ValueError`, whatever its value |
| PyText.Str | mergesplitrotatedeletecompress.py:343 | `str(n)` is a non-empty run of decimal digits |
| PyText.StrHasNoComma | mergesplitrotatedeletecompress.py:343 | a page number's text never contains the comma that joins the default order |
| PyText.ParseStr | mergesplitrotatedeletecompress.py:343-350 | `int(str(n)) == n` for every non-negative n whose decimal text is within the 4300-digit limit |
| PyText.StrLengthMonotone | mergesplitrotatedeletecompress.py:343 | a larger number never has a shorter decimal text |
| SplitRanges.Classify | mergesplitrotatedeletecompress.py:128-138 | a token is blank iff it is all whitespace; an accepted range has 1 <= start <= end <= total; a rejected range violates that |
| SplitRanges.Tokenize | mergesplitrotatedeletecompress.py:127 | one classified token per comma-separated piece, in order, keeping its text; accepted verdicts lie in bounds |
| SplitRanges.StepGrows | mergesplitrotatedeletecompress.py:128-138 | a stopped parse is final; otherwise a token stops it iff its fields are not integers, and adds at most one range or message and removes none |
| SplitRanges.ParseRanges | mergesplitrotatedeletecompress.py:125-140 | the parsing loop leaves exactly the left-to-right scan of the classified tokens, ending at the first non-integer token |
| SplitRanges.StoppedIsFinal | mergesplitrotatedeletecompress.py:126-140 | once the parse has stopped, later tokens change neither the ranges nor the messages |
| SplitRanges.FirstStop | mergesplitrotatedeletecompress.py:134 | the position of the first token whose fields are not integers; every earlier token has integer fields |
| SplitRanges.ScanCharacterised | mergesplitrotatedeletecompress.py:126-140 | the parse stops iff some token has non-integer fields, and keeps exactly the in-bounds ranges of the tokens before the first such token, in input order |
| SplitRanges.AcceptedRangesAppend | mergesplitrotatedeletecompress.py:138 | accepted ranges of concatenated token lists are concatenated: input order is kept |
| SplitRanges.ParsedRangesInBounds | mergesplitrotatedeletecompress.py:135-138 | every range the parser returns satisfies 1 <= start <= end <= total, so its slice exists |
| SplitRanges.NonIntegerStops | mergesplitrotatedeletecompress.py:134-140 | a non-integer token stops the parse, keeps the ranges accepted before it, and nothing after it is examined |
| SplitRanges.NoStopScan | mergesplitrotatedeletecompress.py:127-138 | without a non-integer token the parse runs to the end, keeps exactly the accepted tokens' ranges and reports exactly their messages |
| SplitRanges.ScanReported | mergesplitrotatedeletecompress.py:126-140 | the messages are, in input order, one format warning per malformed token and one range error per out-of-bounds token, among the tokens before the first non-integer token |
| SplitRanges.FirstStopAfter | mergesplitrotatedeletecompress.py:134 | behind tokens with integer fields, the first non-integer token is found that many positions further on |
| SplitRanges.ScanConcat | mergesplitrotatedeletecompress.py:127-140 | behind a prefix without non-integer tokens, parsing the concatenation gives the prefix's ranges then the rest's, and stops iff the rest's parse stops |
| SplitRanges.BadShapeRule | mergesplitrotatedeletecompress.py:130-133 | a non-blank token is ignored as malformed exactly when it does not contain exactly one `-` (`1-2-3`, `-1-3`, `7`) |
| SplitRanges.ClassifyDigitPair | mergesplitrotatedeletecompress.py:130-138 | a token `a-b` of two digit runs is accepted as (a, b) when in bounds and reported as an invalid range otherwise |
| SplitRanges.OverlongFieldStops | mergesplitrotatedeletecompress.py:134-140 | a token `a-b` of digit runs, one longer than 4300 digits, ends the parse like any non-integer field |
| SplitRanges.TenPageExample | mergesplitrotatedeletecompress.py:125-140 | on a 10-page document, `1-3,5-7,9-20` accepts 1-3 and 5-7, reports 9-20 and does not stop |
| SplitRanges.ExtractRange | mergesplitrotatedeletecompress.py:149-150 | a range's output is source pages start-1 .. end-1 in order, end-start+1 pages; range 1-N of an N-page document gives every page |
| Merge.MergeUploads | mergesplitrotatedeletecompress.py:66-71 | the merge fails iff some upload is unreadable; otherwise its output is every upload's pages in upload order |
| Merge.AllPagesAppend | mergesplitrotatedeletecompress.py:67-71 | merging two batches gives the first batch's pages followed by the second's |
| Merge.MergedLength | mergesplitrotatedeletecompress.py:67-71 | the merged document has as many pages as all inputs together |
| Merge.MergedPagePosition | mergesplitrotatedeletecompress.py:67-71 | page k of upload i lands right after all pages of earlier uploads, at that offset plus k |
| Merge.MergeAssociative | mergesplitrotatedeletecompress.py:67-71 | merging an earlier merge's output with more files equals one merge of all files, on either side |
| SplitTracker.AllClear | mergesplitrotatedeletecompress.py:144 | `[False] * n` has n flags, none set |
| SplitTracker.DownloadTracker.constructor | mergesplitrotatedeletecompress.py:120 | the flag list starts out empty, one flag per range for no ranges |
| SplitTracker.DownloadTracker.Sync | mergesplitrotatedeletecompress.py:142-144 | called only with at least one range; afterwards there is one flag per range; a flag list whose length differed from the range count is all clear, otherwise it is unchanged |
| SplitTracker.DownloadTracker.MarkDownloaded | mergesplitrotatedeletecompress.py:163 | a download of one of the ranges sets flag i, leaves every other flag as it was, and keeps one flag per range |
| SplitTracker.DownloadTracker.Reset | mergesplitrotatedeletecompress.py:194 | reset leaves `[False] * len(ranges)`: one clear flag per range |
| SplitTracker.DownloadTracker.Offered | mergesplitrotatedeletecompress.py:146-147 | the ranges offered for download are exactly the pending ones, in range order, each an index of a range |
| SplitTracker.PendingExactly | mergesplitrotatedeletecompress.py:146-147 | a range is offered iff its flag is clear; each once, in ascending order |
| SplitTracker.ResetOffersAll | mergesplitrotatedeletecompress.py:194 | after a reset every range is offered again |
| SplitTracker.MarkAllSets | mergesplitrotatedeletecompress.py:163 | after a series of downloads a flag is set iff it was set before or its range was downloaded |
| SplitTracker.Completed | mergesplitrotatedeletecompress.py:166 | the completion message shows iff there are ranges and none of them is offered any more |
| SplitTracker.DownloadingOfferedCompletes | mergesplitrotatedeletecompress.py:146-166 | downloading every offered range makes the completion message show |
| Compression.ContainsIff | mergesplitrotatedeletecompress.py:216 | the substring test holds iff the piece occurs at some position of the label |
| Compression.ProfileFor | mergesplitrotatedeletecompress.py:216-224 | every label, even an unexpected one, gets quality in 1..100 and a positive dpi |
| Compression.HighQualityOption | mergesplitrotatedeletecompress.py:212-218 | the first radio option gives quality 90 at 150 dpi |
| Compression.BalancedOption | mergesplitrotatedeletecompress.py:212-221 | the default radio option gives quality 70 at 120 dpi, since it does not contain "High Quality" |
| Compression.SmallestOption | mergesplitrotatedeletecompress.py:212-224 | the third radio option contains neither test piece and gives quality 50 at 100 dpi |
| Compression.RadioOptionsOrdered | mergesplitrotatedeletecompress.py:210-224 | from the first radio option to the last, quality and dpi strictly decrease |
| Compression.Reduction | mergesplitrotatedeletecompress.py:264 | 0 for an empty original; at most 100; non-negative iff the output is no larger; 100 for an empty output; 0 for an equal size |
| PageEditor.CollectActions | mergesplitrotatedeletecompress.py:319-340 | one action per page, in page order, holding that page's index, its rotation choice and its delete mark |
| PageEditor.RemainingExactly | mergesplitrotatedeletecompress.py:342 | the remaining positions are exactly the pages not marked for deletion, ascending |
| PageEditor.PageNumbers | mergesplitrotatedeletecompress.py:343 | one decimal page number per remaining position |
| PageEditor.DefaultOrder | mergesplitrotatedeletecompress.py:342-343 | the default order text is empty iff every page is marked for deletion; otherwise it holds one comma fewer than there are kept pages |
| PageEditor.OrderEntries | mergesplitrotatedeletecompress.py:349 | the order entries are non-empty, already stripped, and no more numerous than the comma-separated pieces; there are none iff every piece is blank |
| PageEditor.OrderEntriesOfDigits | mergesplitrotatedeletecompress.py:349 | pieces that are digit runs pass the blank filter unchanged |
| PageEditor.ParseNumbers | mergesplitrotatedeletecompress.py:350 | the entries fail to parse iff some entry is not an integer; otherwise one 0-based number per entry, `int(x) - 1` |
| PageEditor.ParseOrder | mergesplitrotatedeletecompress.py:349-350 | the order text fails to parse iff one of its entries is not an integer; otherwise one 0-based number per entry, `int(x) - 1`, in entry order |
| PageEditor.NonIntegerEntryAborts | mergesplitrotatedeletecompress.py:350 | one non-integer entry anywhere aborts the commit with no output |
| PageEditor.FirstInvalid | mergesplitrotatedeletecompress.py:353-355 | the position of the first entry outside the document; every earlier entry is inside it |
| PageEditor.FirstInvalidAt | mergesplitrotatedeletecompress.py:353-355 | the first invalid entry is the one that ends a run of valid entries |
| PageEditor.BuildPages | mergesplitrotatedeletecompress.py:353-368 | the commit loop fails with the first out-of-range entry, numbered as typed; otherwise it yields the pages of the non-deleted entries in entry order, and fails when there are none, since saving a document without pages raises |
| PageEditor.Commit | mergesplitrotatedeletecompress.py:347-368 | the commit's result is the parse of the order text followed by the loop's result |
| PageEditor.InvalidEntryAborts | mergesplitrotatedeletecompress.py:354-355 | an out-of-range entry after any number of valid ones aborts the commit and names its 1-based number |
| PageEditor.SuccessIffAllInRange | mergesplitrotatedeletecompress.py:353-368 | a parsed order commits iff every entry is a page of the document and at least one names a page not marked for deletion |
| PageEditor.KeptEmptyIffAllDeleted | mergesplitrotatedeletecompress.py:356-366 | entries naming pages of the document add no page iff every one of them names a deleted page |
| PageEditor.KeptAppend | mergesplitrotatedeletecompress.py:353-366 | the pages of concatenated entry lists are concatenated: entry order is kept |
| PageEditor.KeptNoLonger | mergesplitrotatedeletecompress.py:353-366 | a commit never yields more pages than the order has entries |
| PageEditor.CommitNoLonger | mergesplitrotatedeletecompress.py:349-366 | a successful commit has at most as many pages as non-blank order entries |
| PageEditor.DeletedEntrySkipped | mergesplitrotatedeletecompress.py:357-358 | an entry naming a deleted page adds nothing and shifts nothing |
| PageEditor.LiveEntryPlaced | mergesplitrotatedeletecompress.py:359-366 | an entry naming a kept page adds that page with its rotation, in place; repeating the entry repeats the page |
| PageEditor.KeptAreLive | mergesplitrotatedeletecompress.py:356-366 | every committed page is a non-deleted source page with its chosen rotation |
| PageEditor.ParsePageNumbers | mergesplitrotatedeletecompress.py:343-350 | `int(str(i + 1)) - 1` gives back every position |
| PageEditor.JoinedNumbersParse | mergesplitrotatedeletecompress.py:343-350 | a comma-joined list of page numbers parses back to its positions, including the empty list |
| PageEditor.CommitJoinedNumbers | mergesplitrotatedeletecompress.py:343-368 | an order text listing page numbers of the document commits exactly their pages, and fails as empty when all of them are deleted |
| PageEditor.KeptRemaining | mergesplitrotatedeletecompress.py:342-366 | the remaining positions select exactly the kept pages, in original order, with their rotations |
| PageEditor.DefaultOrderRoundTrip | mergesplitrotatedeletecompress.py:342-368 | committing the default order untouched gives every non-deleted page in original order with its rotation; when every page is deleted the empty document is refused |
| PageEditor.ThreePageDefault | mergesplitrotatedeletecompress.py:342-345 | with page 3 of 3 marked deleted, the default order is `1,2` |
| PageEditor.ThreePageReorder | mergesplitrotatedeletecompress.py:345-366 | with page 3 of 3 deleted, the order `3,1,2` yields pages 1 and 2; the deleted page is skipped silently |
| PageEditor.ThreePageOutOfRange | mergesplitrotatedeletecompress.py:353-355 | on 3 pages, the order `1,4` aborts with the error naming 4 |
| PageEditor.ThreePageNegative | mergesplitrotatedeletecompress.py:349-355 | on 3 pages, the order `-1` parses as the integer -1 and aborts with the error naming -1 |

## Left out

- The Streamlit user interface is not modelled: widgets, buttons, expanders, progress bars, `st.success`, `st.warning`, `st.error` and `experimental_rerun`. The split parser's messages are kept as values (`IgnoredFormat`, `InvalidRange`, the `stopped` flag), but not their wording.
- Library calls on documents are not modelled: opening, reading and writing PDFs, `add_page`, `show_pdf_page`, `new_page`, `set_rotation`, `get_pixmap`, JPEG re-encoding and `insert_image`. They are foreign code, so pages are opaque values, and an unreadable upload is an input case rather than a parse failure.
- The compressor's per-page rasterise-and-embed loop (lines 240-255) and the 5-page preview (lines 268-285) are not modelled. They only orchestrate library calls. The profile they consume is modelled.
- Certificates are not modelled: the merge and split deletion certificates (lines 86-101, 176-191). They are cosmetic output that embeds the current time.
- The `finally` blocks that close handles (lines 296-303, 379-383) are not modelled. They are resource plumbing.
- Thumbnails and page-size display in the editor (lines 321-339) are not modelled. They are library calls whose failure only changes what is shown.
- `set_rotation` is applied only when the angle is non-zero (line 365). Rotation 0 leaves the page as it is, so the model records the angle in every case.
- `PyText.ParseInt` models Python's `int()` on ASCII text only. It accepts surrounding whitespace, an optional `+`/`-` and one to 4300 decimal digits (the interpreter's default digit limit). Digit-group underscores (`1_000`) and non-ASCII digits are not modelled.
- `PyText.Str` does not model the same 4300-digit limit on `str()`. Instead, `PyText.ParseStr`, `PageEditor.ParsePageNumbers`, `PageEditor.JoinedNumbersParse`, `PageEditor.CommitJoinedNumbers` and `PageEditor.DefaultOrderRoundTrip` require the numbers' text to be within it. Past that limit, line 343 raises outside any `try`.
- `PyText.Strip` strips ASCII whitespace only (space, tab, newline, carriage return, vertical tab, form feed). The other characters Python's `str.strip()` removes (`\x1c`-`\x1f`, `\x85` and Unicode spaces) are not modelled.
- `Compression.Reduction` uses exact rational arithmetic, not floating point. The one-decimal formatting of the message is not modelled.
- `Merge.MergeUploads` requires at least one upload, matching the guard at line 64. With no uploads the button is not shown and nothing runs.
- Reading the document to split (lines 111-117) is not modelled. Its page count is the `total` parameter, and a read failure ends the handler before any parsing.
