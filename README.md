# doc_helper PDF tools, modelled in Dafny

This project models the two PDF command-line tools of doc_helper and proves
properties of the model.

- **The divider** (`pdf_devider.py`). `compute_chunks` cuts a document of
  `total_pages` pages into at most `n_parts` contiguous, balanced, inclusive
  page ranges. `split_pdf` writes one output document per range, named
  `<base>_part_<i>of<N>.pdf`, and refuses to replace an existing output
  unless `overwrite` is set.
- **The size reducer** (`pdf_minimize.py`). It maps a reduction percent to a
  JPEG quality (`calculate_target_quality`) and to a Ghostscript preset and
  resolution (`get_ghostscript_settings`). It reads a page selection such as
  `1,3,5-8` (`parse_page_ranges`), and chooses between Ghostscript and
  PyPDF2 (`reduce_pdf_size`). It builds the Ghostscript command line
  (`reduce_pdf_with_ghostscript`), and re-encodes the images of the selected
  pages with PyPDF2 (`reduce_pdf_with_pypdf`).

Layout, one module per file:

| file | module | models |
|---|---|---|
| `wrappers.dfy` | `Wrappers` | `Option`, `Result`, and the raised exceptions as `Error`: `FileNotFound`, `InvalidValue` (for `ValueError`), `FileExists` |
| `text.dfy` | `Text` | the parts of Python's `str.strip()`, `str.split(c)`, `str(int)` and `int(str)` the tools rely on |
| `divider.dfy` | `Divider` | `compute_chunks` as a loop proved against a closed form; `split_pdf` over a `Disk` class whose field maps paths to documents |
| `settings.dfy` | `Settings` | the two percent tables |
| `pageranges.dfy` | `PageRanges` | `parse_page_ranges` as a loop that accumulates a set, proved against a recursive definition |
| `ghostscript.dfy` | `Ghostscript` | the command built by appending to a list, and the run's outcome |
| `pypdf.dfy` | `Pypdf` | pages and XObjects as values, the per-page XObject loop, and the page loop with its two counters and a `Writer` class |
| `reducer.dfy` | `Reducer` | the `use_gs` decision and the composition in `reduce_pdf_size` |

These are inputs of the model, not computed by it:
- which files exist;
- whether `gs` is installed;
- whether a Ghostscript run succeeds (a function from the argument list to a boolean);
- the stream decoder (`get_data`, which gives `None` when it raises);
- the Pillow encoder (which gives `None` when Pillow raises).

`split_pdf` works on the `files` field of `Disk`, a map from path to the
sequence of pages stored there. Pages are opaque values of a type parameter.

Decisions where the source and its description could be read two ways.
The model follows the code in each case:
- **Errors are caught per page.** In `reduce_pdf_with_pypdf` the `try`
  surrounds the whole XObject loop of a page (`pdf_minimize.py:142-163`).
  So when reading one image's data raises, that page's remaining images are
  not processed. The images already re-encoded stay re-encoded, and the page
  is still written. The model does the same (`ProcessFrom`, `StopIndex`).
- **Replacement compares with the decoded size.** An image is replaced when
  the JPEG is strictly shorter than the image's *decoded* data (`get_data`),
  not its stored stream. So the stored stream may end up longer than it was.
- **Empty strings and sets count as absent.** An empty `gs_pdfsettings`, a
  zero `gs_dpi` and an empty page set are falsy (`FalsyOverridesIgnored`,
  `EmptySelectionIsNoSelection`).
- **An empty selection behaves in two ways.** An empty set reaches
  `reduce_pdf_with_pypdf` as a selection that compresses no page
  (`EmptySelectionKeepsAll`), and `parse_page_ranges(",")` returns one
  (`ExampleBlankSegments`). With the `pypdf2` method such a call copies the
  document unchanged. With `auto` or `ghostscript`, Ghostscript may compress
  the whole file.
- **How `int()` reads a token.** A token is an optional sign followed by
  ASCII digits. So `"-5"` is the range `""`–`"5"` and is refused as
  malformed (`LeadingDashRefused`). `"1-2-3"` is refused because `"2-3"` is
  not an integer (`TwoDashesRefused`).

## Model

| member | source | states |
|---|---|---|
| `Divider.ChunkSize` | for_pdf/pdf_devider.py:45-51 | definition: `base + 1` pages for the first `total % parts` parts and `base` for the rest; its meaning is `ChunkSizes` |
| `Divider.ChunkStart` | for_pdf/pdf_devider.py:49-54 | definition: the first page of part `i`, the sizes of the parts before it; its meaning is `ChunkStartStep` |
| `Divider.Chunks` | for_pdf/pdf_devider.py:44-55 | there are `min(n_parts, total)` ranges, each non-empty and lying inside the document's page indices |
| `Divider.ComputeChunks` | for_pdf/pdf_devider.py:34-55 | `n_parts <= 0` gives "n_parts must be >= 1"; otherwise `total_pages <= 0` gives "PDF must have at least one page"; otherwise the ranges the loop builds, each starting right after the previous one, are exactly `Chunks` |
| `Divider.ChunksInside` | for_pdf/pdf_devider.py:44-54 | every part size is at least 1 and every part ends inside the document, so no part is empty |
| `Divider.ChunkStartStep` | for_pdf/pdf_devider.py:52-54 | the next part starts right after the sizes of the parts so far |
| `Divider.ChunkStartMonotone` | for_pdf/pdf_devider.py:49-54 | part starts never decrease |
| `Divider.ChunksContiguous` | for_pdf/pdf_devider.py:48-55 | the first range starts at 0, each range starts one after the previous end, and the last ends at `total - 1` |
| `Divider.SumSizesSpan` | for_pdf/pdf_devider.py:52-54 | ranges that follow each other without gaps have sizes adding up to the span they cover |
| `Divider.ChunksSumToTotal` | for_pdf/pdf_devider.py:45-55 | the range sizes add up to the page count |
| `Divider.ChunkSizes` | for_pdf/pdf_devider.py:45-51 | with `P = min(n_parts, total)` parts, the first `total % P` have `total // P + 1` pages and the rest have `total // P`; no part is empty; two sizes differ by at most one |
| `Divider.ChunksExampleTenInThree` | tests/test_devider.py:22-26 | 10 pages in 3 parts are the ranges 0-3, 4-6 and 7-9 |
| `Divider.ChunksExampleFiveInTen` | tests/test_devider.py:28-31 | 5 pages in 10 parts are five single pages |
| `Divider.RFind` | for_pdf/pdf_devider.py:74-78 | the last index of a character, or -1 when it is absent |
| `Divider.Absolute` | for_pdf/pdf_devider.py:86 | definition: a path starting with `/`, which pathlib's `/` keeps whole |
| `Divider.FileName` | for_pdf/pdf_devider.py:74-78 | definition: `Path(p).name`, the text after the last `/` |
| `Divider.Parent` | for_pdf/pdf_devider.py:74-75 | definition: `Path(p).parent`, the text before the last `/`, `/` for a file at the root and `.` for a bare name |
| `Divider.Stem` | for_pdf/pdf_devider.py:74-78 | definition: `Path(p).stem`, the file name without its last suffix |
| `Divider.JoinPath` | for_pdf/pdf_devider.py:85-86 | definition: `str(out_dir / out_name)`, where an absolute `out_name` (an absolute `output_prefix`) replaces the directory; its injectivity is `JoinPathInjective` |
| `Divider.PartName` | for_pdf/pdf_devider.py:85 | definition: the f-string `{base}_part_{idx}of{N}.pdf`; its injectivity is `PartNameInjective` |
| `Divider.OutputDirectory` | for_pdf/pdf_devider.py:75 | definition: a truthy `output_dir`, else the input's parent |
| `Divider.BaseName` | for_pdf/pdf_devider.py:78 | definition: a truthy `output_prefix`, else the input's stem |
| `Divider.PartPaths` | for_pdf/pdf_devider.py:85-86 | one output path per part |
| `Divider.JoinPathInjective` | for_pdf/pdf_devider.py:86 | within one directory, two names that are both absolute or both relative give the same path only when they are equal |
| `Divider.PartNameInjective` | for_pdf/pdf_devider.py:85 | `<base>_part_<i>of<N>.pdf` differs for different `i` |
| `Divider.PartNameAbsolute` | for_pdf/pdf_devider.py:78-85 | every part name of one base is absolute exactly when the base is |
| `Divider.PartPathsDistinct` | for_pdf/pdf_devider.py:81-86 | no two parts go to the same path |
| `Divider.PartDocs` | for_pdf/pdf_devider.py:82-84 | one document per range |
| `Divider.WriteAll` | for_pdf/pdf_devider.py:89-90 | definition: the files after writing each document to its path, in order; its meaning is `WriteAllKeys`, `WriteAllOther` and `WriteAllAt` |
| `Divider.WriteAllKeys` | for_pdf/pdf_devider.py:89-90 | after the writes, a path exists exactly when it existed before or was written |
| `Divider.WriteAllOther` | for_pdf/pdf_devider.py:89-90 | a path that is not written keeps its contents |
| `Divider.WriteAllAt` | for_pdf/pdf_devider.py:89-90 | a written path holds the last document written to it |
| `Divider.FirstExisting` | for_pdf/pdf_devider.py:87 | the index of the first output path that exists: no path before it exists and the one at it does |
| `Divider.FirstExistingAt` | for_pdf/pdf_devider.py:87 | that index is the one where the first existing path is |
| `Divider.WriteParts` | for_pdf/pdf_devider.py:80-92 | definition: the parts are written in order; without `overwrite`, the first existing path stops the writing with `FileExists` after the earlier parts; its properties are `SplitWritesEveryPart`, `CollisionStopsWriting` and `SplitCollisionKeepsRest` |
| `Divider.SplitPages` | for_pdf/pdf_devider.py:71-92 | definition: the writing half of `split_pdf`, from the ranges to the part paths and documents; its properties are `SplitNamesParts`, `SplitWritesEveryPart`, `SplitStopsAtCollision` and `SplitCollisionKeepsRest` |
| `Divider.SplitOutcome` | for_pdf/pdf_devider.py:58-92 | definition: the result of `split_pdf` and the files afterwards, with the input checks in the source's order; `SplitPdf` is proved against it |
| `Divider.SplitChecksInput` | for_pdf/pdf_devider.py:64-72 | the checks run in order: a missing input gives `FileNotFound`, an input without pages gives "Input PDF has no pages", a bad part count gives "n_parts must be >= 1"; an error other than `FileExists` leaves every file as it was |
| `Divider.WritePartsFails` | for_pdf/pdf_devider.py:81-91 | once the input checks have passed, the only possible error is `FileExists` |
| `Divider.SumLengthsPartDocs` | for_pdf/pdf_devider.py:83-84 | the part documents hold as many pages as the range sizes add up to |
| `Divider.PartDocsCoverPages` | for_pdf/pdf_devider.py:72-84 | the parts hold as many pages as the input |
| `Divider.SplitNamesParts` | for_pdf/pdf_devider.py:80-92 | without a collision, the result lists `min(n_parts, total)` paths; part `i` is `<dir>/<base>_part_<i+1>of<N>.pdf` |
| `Divider.SplitWritesEveryPart` | for_pdf/pdf_devider.py:81-91 | without a collision, part `i` holds exactly the pages of range `i`, in order |
| `Divider.NoCollisionWritesAt` | for_pdf/pdf_devider.py:81-91 | without a collision, writing succeeds and each path holds its part |
| `Divider.SplitPageCountsSum` | tests/test_devider.py:42-53 | without a collision, reading the written parts back gives page counts that add up to the input's |
| `Divider.NoCollisionReadsBack` | for_pdf/pdf_devider.py:81-92 | without a collision, reading the returned paths back gives the part documents |
| `Divider.SplitKeepsOtherFiles` | for_pdf/pdf_devider.py:81-92 | without a collision, the split changes no file except its parts |
| `Divider.NoCollisionWritesAll` | for_pdf/pdf_devider.py:87-91 | with `overwrite`, or when no output exists, every part is written and every path is returned |
| `Divider.WriteAllContents` | for_pdf/pdf_devider.py:89-91 | writing to distinct paths: each holds its part, and every other file is unchanged |
| `Divider.WritePrefixContents` | for_pdf/pdf_devider.py:81-91 | the same for the parts written before a collision |
| `Divider.CollisionStopsWriting` | for_pdf/pdf_devider.py:87-88 | without `overwrite`, the first existing output stops the writing with `FileExists` for that path, after the parts before it were written |
| `Divider.SplitOutcomeWrites` | for_pdf/pdf_devider.py:64-92 | a readable input with pages and a valid part count is split by writing its parts |
| `Divider.SplitStopsAtCollision` | for_pdf/pdf_devider.py:87-88 | without `overwrite`, the split fails with `FileExists` naming the first part path that exists |
| `Divider.CollisionKeepsEarlier` | for_pdf/pdf_devider.py:81-91 | after a collision at part `k`, every part before `k` is written |
| `Divider.SplitCollisionKeepsEarlier` | for_pdf/pdf_devider.py:81-91 | after a collision at part `k`, each earlier part holds the pages of its range |
| `Divider.SplitCollisionKeepsRest` | for_pdf/pdf_devider.py:87-91 | a split stopped at part `k` changes no file but the parts before `k`; the colliding file keeps what it held |
| `Divider.SplitWithOverwriteSucceeds` | for_pdf/pdf_devider.py:87 | with `overwrite`, a readable, non-empty input with a valid part count always splits |
| `Divider.SplitRerunCollides` | tests/test_devider.py:58-66 | after a successful split, the same split again without `overwrite` fails with `FileExists` for the first part |
| `Divider.RewriteCollides` | for_pdf/pdf_devider.py:87-88 | writing the same parts again without `overwrite` fails on the first part |
| `Divider.Disk.constructor` | for_pdf/pdf_devider.py:64 | the filesystem starts as given |
| `Divider.Disk.Write` | for_pdf/pdf_devider.py:89-90 | writing a file replaces or creates that path and changes nothing else |
| `Divider.CollectPages` | for_pdf/pdf_devider.py:82-84 | the writer receives exactly the pages of the inclusive range, in order |
| `Divider.WritePart` | for_pdf/pdf_devider.py:82-90 | a part is written exactly when `overwrite` is set or its path does not exist, and otherwise nothing changes |
| `Divider.WriteRanges` | for_pdf/pdf_devider.py:80-92 | the loop over the ranges leaves the result and the files of `WriteParts` |
| `Divider.WriteStep` | for_pdf/pdf_devider.py:81-91 | one iteration either writes part `idx` and goes on, or collides and gives the final outcome |
| `Divider.WriteNext` | for_pdf/pdf_devider.py:85-91 | the same step, on the paths and documents themselves |
| `Divider.WriteDone` | for_pdf/pdf_devider.py:92 | once every part is written, the split succeeds with all the paths |
| `Divider.WriteAllStep` | for_pdf/pdf_devider.py:89-91 | one more write extends the files written so far by that part |
| `Divider.WritePrefixAt` | for_pdf/pdf_devider.py:89-90 | each of the first `k` parts written holds its document |
| `Divider.SplitPdf` | for_pdf/pdf_devider.py:58-92 | the result and the new files are those of `SplitOutcome`: the input checks in order, then the parts written in order up to the first collision |
| `Settings.CalculateTargetQuality` | for_pdf/pdf_minimize.py:56-59 | the quality is `100 - percent` clamped to [10, 95]: 95 below 5 percent, 10 above 90 percent |
| `Settings.QualityNonIncreasing` | for_pdf/pdf_minimize.py:56-59 | more reduction never gives a higher quality |
| `Settings.QualityExamples` | for_pdf/pdf_minimize.py:58 | 0 gives 95, 50 gives 50, and 90 gives 10 |
| `Settings.GhostscriptSettings` | for_pdf/pdf_minimize.py:45-53 | the preset is one of the four, with the resolution of its row |
| `Settings.SettingsBands` | for_pdf/pdf_minimize.py:47-53 | each preset is chosen for exactly one band: up to 20, 21 to 40, 41 to 60, above 60 |
| `Settings.PresetRank` | for_pdf/pdf_minimize.py:45-53 | the position of a preset among the four, best quality first |
| `Settings.SettingsMonotone` | for_pdf/pdf_minimize.py:45-53 | more reduction never picks a better preset or a higher resolution |
| `Text.SkipSpace` | for_pdf/pdf_minimize.py:68 | the first index not holding white space |
| `Text.SkipSpaceBack` | for_pdf/pdf_minimize.py:68 | the last index not holding white space, from the end |
| `Text.SkipSpaceIs` | for_pdf/pdf_minimize.py:68 | SkipSpace stops at the first index that does not hold white space |
| `Text.SkipSpaceBackIs` | for_pdf/pdf_minimize.py:68 | SkipSpaceBack stops after the last index that does not hold white space |
| `Text.Strip` | for_pdf/pdf_minimize.py:68 | definition: `str.strip()`; its meaning is stated by `StripIsTrimmedSlice` |
| `Text.StripIsTrimmedSlice` | for_pdf/pdf_minimize.py:68 | `strip()` is a slice with only white space cut from both ends; it neither starts nor ends with white space |
| `Text.StripIdempotent` | for_pdf/pdf_minimize.py:68 | stripping twice changes nothing more |
| `Text.SplitOn` | for_pdf/pdf_minimize.py:67 | `split(',')` gives at least one piece |
| `Text.SplitOnPiecesLackSeparator` | for_pdf/pdf_minimize.py:67 | no piece contains the separator |
| `Text.JoinSplitOn` | for_pdf/pdf_minimize.py:67 | joining the pieces with the separator gives the text back |
| `Text.SplitOnJoin` | for_pdf/pdf_minimize.py:67 | splitting pieces joined by the separator, none of which holds it, gives the pieces back |
| `Text.SplitOnFree` | for_pdf/pdf_minimize.py:67 | a text without the separator is one piece |
| `Text.SplitOnPrefix` | for_pdf/pdf_minimize.py:67 | a prefix without the separator becomes the start of the first piece |
| `Text.IndexOf` | for_pdf/pdf_minimize.py:71-72 | the first occurrence of `-`, where `split('-', 1)` cuts |
| `Text.Decimal` | for_pdf/pdf_minimize.py:199 | `str(n)` is a non-empty string of digits |
| `Text.DecimalNoLeadingZero` | for_pdf/pdf_minimize.py:199 | `str(n)` is canonical: it starts with `0` exactly when `n` is zero |
| `Text.IntToString` | for_pdf/pdf_minimize.py:199 | definition: `str(i)` for any integer, a `-` before the digits of a negative one; `ParseIntToString` reads it back |
| `Text.ParseNat` | for_pdf/pdf_minimize.py:74-75 | a token of digits reads as a number exactly when it is non-empty and all digits |
| `Text.ParseInt` | for_pdf/pdf_minimize.py:74-75 | definition: `int(t)` on a stripped token, an optional sign and digits, `None` where Python raises `ValueError` |
| `Text.DigitsValueDecimal` | for_pdf/pdf_minimize.py:74-75 | reading back `str(n)` gives `n` |
| `Text.ParseIntToString` | for_pdf/pdf_minimize.py:83 | `int(str(i)) == i` for every integer |
| `Text.DecimalInjective` | for_pdf/pdf_minimize.py:199 | different numbers have different decimal forms |
| `PageRanges.Interval` | for_pdf/pdf_minimize.py:80 | `range(start, end + 1)` holds exactly the integers from `start` to `end` |
| `PageRanges.ParseSegment` | for_pdf/pdf_minimize.py:71-88 | definition: one stripped non-blank segment, a range cut at its first `-` or a single number, with the four error messages; its cases are `SegmentRange`, `SegmentSingle` and `SegmentErrorMessage` |
| `PageRanges.RangeSegment` | for_pdf/pdf_minimize.py:71-80 | definition: a range segment from its two sides as `int()` reads them, malformed, out of bounds or the pages in between; its cases are `SegmentRange` and `BackwardsRefused` |
| `PageRanges.NumberSegment` | for_pdf/pdf_minimize.py:81-88 | definition: a single-number segment, not a number, not positive, or that one page; its cases are `SegmentSingle` and `SegmentNumber` |
| `PageRanges.ParseSegments` | for_pdf/pdf_minimize.py:66-89 | definition: the segments in order, blank ones skipped, the first bad one the error, else the union of their pages; its meaning is `SegmentsMembers`, `BadSegmentFails` and `FirstBadSegmentDecides` |
| `PageRanges.PageRangesOf` | for_pdf/pdf_minimize.py:62-89 | definition: `None` or `""` give `None`, else the segments between the commas; `ParsePageRanges` is proved against it |
| `PageRanges.ParsePageRanges` | for_pdf/pdf_minimize.py:62-89 | the loop, which accumulates into `acc` and returns at the first bad segment, gives `PageRangesOf`: `None` for no text or empty text, else the parse of the comma-separated segments |
| `PageRanges.JoinedEmpty` | for_pdf/pdf_minimize.py:66 | starting from the empty set adds nothing |
| `PageRanges.SegmentsStep` | for_pdf/pdf_minimize.py:67-88 | one iteration: a blank segment is skipped, a bad one is the result, a good one joins `acc` |
| `PageRanges.SegmentPositive` | for_pdf/pdf_minimize.py:78-88 | every page a segment yields is at least 1 |
| `PageRanges.SegmentsPositive` | for_pdf/pdf_minimize.py:62-89 | every page of a successful parse is at least 1 |
| `PageRanges.SegmentsMembers` | for_pdf/pdf_minimize.py:67-89 | a page is in a successful parse exactly when some non-blank segment yields it |
| `PageRanges.SegmentsErrorNamesSegment` | for_pdf/pdf_minimize.py:73-87 | a failed parse fails with the error of one of its non-blank segments, stripped |
| `PageRanges.FirstBadSegment` | for_pdf/pdf_minimize.py:67-87 | the index of the first non-blank segment that does not parse: every non-blank segment before it parses, and the one at it does not |
| `PageRanges.ErrorIsFirstBadSegment` | for_pdf/pdf_minimize.py:67-87 | a failed parse fails with the error of the first bad non-blank segment |
| `PageRanges.HeadFails` | for_pdf/pdf_minimize.py:67-87 | a bad first segment makes the whole parse fail |
| `PageRanges.BadSegmentFails` | for_pdf/pdf_minimize.py:67-87 | a bad non-blank segment anywhere makes the whole parse fail |
| `PageRanges.TailFails` | for_pdf/pdf_minimize.py:67-87 | a failure in the later segments makes the whole parse fail |
| `PageRanges.FirstBadSegmentDecides` | for_pdf/pdf_minimize.py:67-87 | the first bad non-blank segment decides the error: with every earlier non-blank segment good, the parse fails with that segment's error |
| `PageRanges.SegmentErrorMessage` | for_pdf/pdf_minimize.py:77-87 | a segment's error is a `ValueError` with one of the four messages followed by the segment |
| `PageRanges.SegmentSingle` | for_pdf/pdf_minimize.py:81-88 | a number written in decimal is that page, except 0, which is refused as not positive |
| `PageRanges.SegmentSplitsAtDash` | for_pdf/pdf_minimize.py:71-75 | a segment with a dash is cut at its first dash, and each side is stripped and read as an integer |
| `PageRanges.SegmentRange` | for_pdf/pdf_minimize.py:71-80 | sides that read as `a` and `b` give the pages from `a` to `b` when `1 <= a <= b`, and the bounds error otherwise |
| `PageRanges.SegmentDecimalRange` | for_pdf/pdf_minimize.py:71-80 | `a-b` in decimal is the pages from `a` to `b`, or the bounds error when `a` or `b` is 0 or `b < a` |
| `PageRanges.IndexOfAfter` | for_pdf/pdf_minimize.py:72 | the first dash is the one after a dash-free prefix |
| `PageRanges.StripDigits` | for_pdf/pdf_minimize.py:68 | a string of digits strips to itself |
| `PageRanges.StripPlainEnds` | for_pdf/pdf_minimize.py:68 | a string that starts with a digit or a dash and ends with a digit strips to itself |
| `PageRanges.StripUnpadded` | for_pdf/pdf_minimize.py:68 | a string that neither starts nor ends with white space strips to itself |
| `PageRanges.StripPadded` | for_pdf/pdf_minimize.py:68 | white space around such a core strips off |
| `PageRanges.SegmentsCons` | for_pdf/pdf_minimize.py:67-88 | a good first segment joins its pages to those of the rest |
| `PageRanges.IntervalOfThree` | for_pdf/pdf_minimize.py:80 | `range(a, a + 3)` is three pages |
| `PageRanges.OneSegment` | for_pdf/pdf_minimize.py:62-89 | a text without commas is one segment: its pages, or its error |
| `PageRanges.SegmentNumber` | for_pdf/pdf_minimize.py:81-88 | a positive page number is that page |
| `PageRanges.ExampleRange` | for_pdf/pdf_minimize.py:71-80 | `"5-7"` is pages 5, 6 and 7 |
| `PageRanges.ExampleRangeList` | for_pdf/pdf_minimize.py:67-80 | the one segment `"5-7"` is pages 5, 6 and 7 |
| `PageRanges.ExampleListTail` | for_pdf/pdf_minimize.py:67-88 | the segments `"3"` and `"5-7"` are pages 3, 5, 6 and 7 |
| `PageRanges.ExampleList` | tests/test_minimize.py:24 | `"1,3,5-7"` is pages 1, 3, 5, 6 and 7 |
| `PageRanges.DecimalPlain` | for_pdf/pdf_minimize.py:67-72 | a decimal has no dash and no comma, and starts and ends with a digit |
| `PageRanges.BackwardsRefused` | for_pdf/pdf_minimize.py:78-79 | a range written backwards is refused with the bounds error naming it |
| `PageRanges.ExampleBackwards` | tests/test_minimize.py:28-29 | `"3-2"` is refused with the bounds error |
| `PageRanges.ExampleZero` | tests/test_minimize.py:26-27 | `"0"` is refused as not positive |
| `PageRanges.LeadingDashRefused` | for_pdf/pdf_minimize.py:71-77 | `"-n"` is a range with an empty start and is refused as malformed, not read as a negative page |
| `PageRanges.DashedNotInteger` | for_pdf/pdf_minimize.py:74-75 | `"b-c"` is not an integer |
| `PageRanges.TwoDashesSegment` | for_pdf/pdf_minimize.py:71-77 | the segment `a-b-c` is malformed, because `b-c` is not an integer |
| `PageRanges.TwoDashesStrip` | for_pdf/pdf_minimize.py:68 | `a-b-c` needs no stripping |
| `PageRanges.TwoDashesRefused` | for_pdf/pdf_minimize.py:71-77 | the text `a-b-c` is refused with the malformed-range error |
| `PageRanges.ExampleBlankSegments` | for_pdf/pdf_minimize.py:67-70 | `","` is two blank segments, so the empty set rather than `None` |
| `PageRanges.DigitNotSpace` | for_pdf/pdf_minimize.py:68 | a digit is not white space |
| `PageRanges.PaddedStrip` | for_pdf/pdf_minimize.py:68 | a core padded with one space on each side strips back to itself |
| `PageRanges.SpaceAfter` | for_pdf/pdf_minimize.py:74-75 | a number followed by a space reads as that number once stripped |
| `PageRanges.SpaceBefore` | for_pdf/pdf_minimize.py:74-75 | a number preceded by a space reads as that number once stripped |
| `PageRanges.SpacedRangeSegment` | for_pdf/pdf_minimize.py:71-80 | white space around the dash is ignored: `a - b` is the pages from `a` to `b`, or the bounds error |
| `PageRanges.SpacedRangeStrip` | for_pdf/pdf_minimize.py:68 | `" a - b "` strips to `"a - b"` |
| `PageRanges.SpacedRangePart` | for_pdf/pdf_minimize.py:68-80 | the segment `" a - b "` is the pages from `a` to `b` |
| `PageRanges.SpacedPagePart` | for_pdf/pdf_minimize.py:68-88 | the segment `" c "` is page `c` |
| `PageRanges.SpacedSplit` | for_pdf/pdf_minimize.py:67 | `" a - b , c "` splits at its comma into its two segments |
| `PageRanges.SpacedList` | tests/test_minimize.py:25 | `" a - b , c "` is the pages from `a` to `b` and page `c`; with 2, 4 and 6 this is the test's `" 2 - 4 , 6 "`, which gives pages 2, 3, 4 and 6 |
| `Ghostscript.Preset` | for_pdf/pdf_minimize.py:187-188 | a truthy `gs_pdfsettings` is the preset, whatever the resolution override; without one, the preset is one of the table's four |
| `Ghostscript.Dpi` | for_pdf/pdf_minimize.py:187-189 | a truthy `gs_dpi` is the resolution, whatever the preset override; without one, the resolution is 72, 150 or 300 |
| `Ghostscript.JpegQuality` | for_pdf/pdf_minimize.py:223 | the quality is clamped to [1, 95]: unchanged inside, 1 below, 95 above |
| `Ghostscript.DeviceFlags` | for_pdf/pdf_minimize.py:192-198 | the seven device and mode arguments |
| `Ghostscript.ImageFlags` | for_pdf/pdf_minimize.py:200-209 | the eight font and downsampling arguments |
| `Ghostscript.ResolutionFlags` | for_pdf/pdf_minimize.py:210-212 | the three image-resolution arguments |
| `Ghostscript.EncodingFlags` | for_pdf/pdf_minimize.py:213-219 | the six JPEG-encoding arguments |
| `Ghostscript.Flags` | for_pdf/pdf_minimize.py:191-220 | the fixed list has 25 arguments |
| `Ghostscript.JpegFlag` | for_pdf/pdf_minimize.py:222-224 | one argument when a quality is given, none otherwise |
| `Ghostscript.Command` | for_pdf/pdf_minimize.py:191-229 | definition: the fixed flags, the optional quality flag, the output file and the input path; its layout is `CommandShape` and `JpegFlagIffGiven` |
| `Ghostscript.ReducePdfWithGhostscript` | for_pdf/pdf_minimize.py:174-237 | without `gs`, nothing runs and the answer is false; otherwise the command built by appending to the fixed list is `Command`, and the answer is whether the run succeeded |
| `Ghostscript.FlagsShape` | for_pdf/pdf_minimize.py:191-213 | `gs` comes first, the preset is at 3, `-r<dpi>` at 7, and the three image resolutions at 16 to 18 |
| `Ghostscript.CommandShape` | for_pdf/pdf_minimize.py:191-229 | the command has 27 arguments, or 28 with a quality; the quality flag is at 25; the output file and then the input path come last |
| `Ghostscript.NotJpegFlag` | for_pdf/pdf_minimize.py:224 | an argument whose third character is not `J` is not the quality flag |
| `Ghostscript.DeviceFlagsNotJpeg` | for_pdf/pdf_minimize.py:191-199 | no device, mode or `-r` argument is a quality flag |
| `Ghostscript.ImageFlagsNotJpeg` | for_pdf/pdf_minimize.py:200-209 | no font or downsampling argument is a quality flag |
| `Ghostscript.ResolutionFlagsNotJpeg` | for_pdf/pdf_minimize.py:210-212 | no image-resolution argument is a quality flag |
| `Ghostscript.EncodingFlagsNotJpeg` | for_pdf/pdf_minimize.py:213-219 | no encoding argument is a quality flag |
| `Ghostscript.FlagsNotJpeg` | for_pdf/pdf_minimize.py:191-220 | none of the fixed arguments is a quality flag |
| `Ghostscript.JpegFlagIffGiven` | for_pdf/pdf_minimize.py:222-229 | among the options, a `-dJPEGQ=` argument appears exactly when a quality is given, and only at index 25 |
| `Ghostscript.FalsyOverridesIgnored` | for_pdf/pdf_minimize.py:188-189 | a zero resolution or an empty preset override builds the same command as no override |
| `Ghostscript.PresetOverrideWins` | for_pdf/pdf_minimize.py:188-195 | a non-empty `gs_pdfsettings` alone puts `-dPDFSETTINGS=<it>` at 3, whatever the percent and `gs_dpi` |
| `Ghostscript.DpiOverrideWins` | for_pdf/pdf_minimize.py:189-212 | a non-zero `gs_dpi` alone is the resolution at 7 and in the three image-resolution flags at 16 to 18, whatever the percent and `gs_pdfsettings` |
| `Ghostscript.OverriddenCommandIgnoresPercent` | for_pdf/pdf_minimize.py:187-229 | with both overrides given, the command no longer depends on the percent |
| `Ghostscript.TableWithoutOverrides` | for_pdf/pdf_minimize.py:187-199 | without overrides, the preset and resolution in the command are those of the table |
| `Pypdf.CompressImage` | for_pdf/pdf_minimize.py:110-112 | when the encoder fails, the original data comes back |
| `Pypdf.Recompressed` | for_pdf/pdf_minimize.py:157-161 | definition: the new data, the filter `/DCTDecode`, and a `/DeviceCMYK` colour space dropped |
| `Pypdf.Eligible` | for_pdf/pdf_minimize.py:148-152 | definition: an image, and not already `/DCTDecode` unless recompression is forced; its meaning is `SkippedUnchanged` |
| `Pypdf.ProcessXObject` | for_pdf/pdf_minimize.py:147-161 | definition: one XObject of a selected page, `None` when its data cannot be read; its cases are `SkippedUnchanged`, `UnreadableStops` and `ReplacedIffShorter` |
| `Pypdf.ProcessPage` | for_pdf/pdf_minimize.py:142-163 | definition: a selected page with its XObjects worked through; `CompressPage` is proved against it |
| `Pypdf.Selected` | for_pdf/pdf_minimize.py:139 | definition: `pages is None or idx in pages`; its counts are `CompressedCountIsSize` and `CompressedCountAll` |
| `Pypdf.OutputPage` | for_pdf/pdf_minimize.py:138-166 | definition: the page the writer receives, processed when selected, else as read; `ReducePdfWithPypdf` is proved against it |
| `Pypdf.ProcessFrom` | for_pdf/pdf_minimize.py:146-161 | working through the entries keeps their number |
| `Pypdf.CompressedCount` | for_pdf/pdf_minimize.py:139-141 | no more pages are counted as compressed than there are pages |
| `Pypdf.Writer.constructor` | for_pdf/pdf_minimize.py:130 | a new writer holds no pages |
| `Pypdf.Writer.AddPage` | for_pdf/pdf_minimize.py:166 | `add_page` appends the page |
| `Pypdf.CompressEntry` | for_pdf/pdf_minimize.py:147-161 | one entry: skipped when not an eligible image; `None` when its data cannot be read; otherwise re-encoded and replaced when strictly shorter — in every case agreeing with `ProcessXObject` |
| `Pypdf.CompressPage` | for_pdf/pdf_minimize.py:142-163 | the in-place loop over a page's XObjects leaves the page `ProcessPage` describes: entries updated in order, and the rest left as they are from the first unreadable one on |
| `Pypdf.StopDone` | for_pdf/pdf_minimize.py:153-163 | an unreadable entry ends the page with what was done so far |
| `Pypdf.AllDone` | for_pdf/pdf_minimize.py:146-161 | once every entry is done, the page is finished |
| `Pypdf.StepDone` | for_pdf/pdf_minimize.py:146-161 | one entry updated in place keeps the loop's invariants |
| `Pypdf.ReducePdfWithPypdf` | for_pdf/pdf_minimize.py:122-171 | every page reaches the writer in order; selected pages are compressed and the rest are unchanged; the compressed-page counter counts the selected pages, and the two counters add up to the page count |
| `Pypdf.SkippedUnchanged` | for_pdf/pdf_minimize.py:148-152 | an XObject that is not an image, or a JPEG image when recompression is not forced, is left exactly as it is |
| `Pypdf.UnreadableStops` | for_pdf/pdf_minimize.py:153-163 | an eligible image whose data cannot be read stops the page's work |
| `Pypdf.ReplacedIffShorter` | for_pdf/pdf_minimize.py:153-161 | the re-encoding replaces the data exactly when it is strictly shorter than the decoded data; the replacement gets `/DCTDecode` and loses a `/DeviceCMYK` colour space, keeps any other colour space, and keeps its subtype; otherwise the image is unchanged |
| `Pypdf.EncoderFailureKeepsImage` | for_pdf/pdf_minimize.py:110-112 | when Pillow fails, the image is kept as it is |
| `Pypdf.ProcessXObjectIdempotent` | for_pdf/pdf_minimize.py:148-161 | without forced recompression, processing an XObject a second time changes nothing more |
| `Pypdf.StopIndex` | for_pdf/pdf_minimize.py:142-163 | the first unreadable entry: every entry before it can be read |
| `Pypdf.ProcessFromSplits` | for_pdf/pdf_minimize.py:142-163 | a page keeps every entry's name and place; entries before the first unreadable one are each processed; that entry and all later ones are unchanged |
| `Pypdf.ProcessFromAt` | for_pdf/pdf_minimize.py:142-163 | the same, for one entry |
| `Pypdf.ProcessFromIdempotent` | for_pdf/pdf_minimize.py:146-161 | without forced recompression, processing the entries twice changes nothing more |
| `Pypdf.ShiftedFrom` | for_pdf/pdf_minimize.py:146 | processing from the second entry on is processing the tail |
| `Pypdf.ShiftedFromAt` | for_pdf/pdf_minimize.py:146 | the same, from any index |
| `Pypdf.ProcessPageIdempotent` | for_pdf/pdf_minimize.py:138-163 | without forced recompression, compressing a page a second time changes nothing more |
| `Pypdf.OutputPageShape` | for_pdf/pdf_minimize.py:138-166 | a page reaches the writer with its contents untouched and the same number of XObjects; an unselected page reaches it exactly as read |
| `Pypdf.CompressedCountIsSize` | for_pdf/pdf_minimize.py:139-141 | with a selection, the counter is the number of selected page numbers between 1 and the page count |
| `Pypdf.CompressedCountAll` | for_pdf/pdf_minimize.py:139-141 | without a selection, every page is counted as compressed |
| `Pypdf.EmptySelectionKeepsAll` | for_pdf/pdf_minimize.py:139-166 | an empty selection compresses nothing, and every page is written as read |
| `Reducer.PagesGiven` | for_pdf/pdf_minimize.py:260 | definition: a selection is truthy when given and non-empty; its meaning is `SelectedPagesMeanPypdf` and `EmptySelectionIsNoSelection` |
| `Reducer.UseGhostscript` | for_pdf/pdf_minimize.py:259-271 | definition: the `use_gs` decision; its cases are the lemmas below |
| `Reducer.ReducePdfSize` | for_pdf/pdf_minimize.py:240-280 | a missing input gives `FileNotFound` first; then a percent outside [0, 100] gives "Percent must be between 0 and 100"; then Ghostscript decides the outcome exactly when `use_gs` holds and the run succeeds; otherwise PyPDF2 writes the document, on every page after a failed Ghostscript run, and on the requested selection otherwise |
| `Reducer.SelectedPagesMeanPypdf` | for_pdf/pdf_minimize.py:259-273 | a non-empty selection always means PyPDF2, so the second test of `pages` never changes anything |
| `Reducer.ForcedGhostscriptIffAvailable` | for_pdf/pdf_minimize.py:263-266 | without a selection, the `ghostscript` method uses Ghostscript exactly when it is installed |
| `Reducer.AutoThreshold` | for_pdf/pdf_minimize.py:267-268 | without a selection, `auto` uses Ghostscript exactly when it is installed and the percent is at least 35 |
| `Reducer.OtherMethodMeansPypdf` | for_pdf/pdf_minimize.py:270-271 | any other method means PyPDF2 |
| `Reducer.GhostscriptNeedsAvailability` | for_pdf/pdf_minimize.py:259-271 | Ghostscript is only chosen when installed, and asking for more reduction never switches from Ghostscript to PyPDF2 |
| `Reducer.EmptySelectionIsNoSelection` | for_pdf/pdf_minimize.py:260 | an empty selection is falsy, so the decision is the one for no selection |

## Left out

- Reading and writing PDF files are not modelled. PyPDF2, Pillow and
  Ghostscript are outside the model.
  - A document is a sequence of opaque pages (divider) or of `Page` values
    (reducer).
  - The stream decoder, the JPEG encoder and the Ghostscript run are
    parameters.
  - The Pillow colour-mode conversion in `compress_image` (lines 95-109) is
    part of the encoder parameter.
- `_get_obj` is not modelled. Indirect objects are assumed to be resolved
  already.
- XObjects are values, so a stream shared by several pages or shared under
  two names is not modelled.
  - In the source, an image updated in place on one page would be changed on
    every page that refers to it.
  - As a consequence, the source may process such a shared image again where
    the model processes a copy.
- Some exceptions are not modelled. Only the failure of `get_data` stops a
  page. An exception from looking up `/Resources` or `/XObject`, or from a
  malformed dictionary, is also caught per page by the source.
- The availability check is one input. `check_ghostscript` is called again
  inside `reduce_pdf_with_ghostscript`, and the model assumes both calls
  give the same answer.
- The output of a Ghostscript run and the size report are not modelled:
  - the bytes the Ghostscript run writes;
  - `os.path.getsize`;
  - the size and reduction printouts of `reduce_pdf_size` (lines 256-257, 282-285);
  - every `print`.
- `out_dir.mkdir` (`pdf_devider.py:76`) is not modelled. Directories are not
  part of the filesystem map, and an existing directory at an output path is
  not modelled.
- Paths are plain strings. `Path` handles `/`, the parent, the stem and
  joining as strings, without normalising `.`/`..`, repeated separators or
  a trailing separator. As with pathlib's `/`, an absolute part name (from an
  absolute `output_prefix`) replaces the output directory.
- Python's `int()` is modelled only in part:
  - digits other than ASCII, underscores between digits and white space are
    not accepted inside a token;
  - tokens are stripped before they are read, as the code does;
  - `str.strip()` uses Python's white-space characters (`Text.IsSpace`).
- The command-line front ends are not modelled: `main` of both tools,
  argument parsing, the install-on-import fallback and `sys.exit`. Because
  argument parsing is left out, `reduce_pdf_size` takes any method name,
  and names other than `ghostscript` and `auto` mean PyPDF2.
- `Pypdf.Recompressed`: the writes `xobj["/Filter"] = "/DCTDecode"` and
  `del xobj["/ColorSpace"]` (`pdf_minimize.py:158-161`) are assumed to
  succeed. If the dictionary refused a plain `str` key, the new data would
  already be set, the exception would end the page's work, and the filter
  would stay as it was; PyPDF2 is not part of this model, so this case is
  not modelled.
- `PageRanges.SpacedList`: the test's literal `" 2 - 4 , 6 "` is covered by
  the general statement for any `a <= b` and `c`, instantiated in its doc
  comment. A lemma on the literal string itself is not part of the model.
