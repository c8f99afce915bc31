# Date-normaliser ETL, modelled in Dafny

The repository is a single ETL script. It reads a one-column CSV of free-form
date strings (Russian and numeric formats) in chunks of 100,000 rows, and
normalises each value with `normalize_date`. Each result is then fixed up to
one of:

- `''` for an empty original;
- `'Invalid'` for a value that did not normalise;
- the canonical `DD-MM-YYYY` text.

The column is appended to an output CSV, with the header written on the first
chunk only. Along the way the script counts converted and failed rows and
keeps the first five changed rows and the first five failures as examples
for the report.

The model covers the logic the script owns:

- `Values`, `Seqs`: an input cell (`Str` or a non-string `NonStr`, after
  missing values are filled with `''`), Python's `X | None`, `zip`, and the
  concatenation of chunks.
- `Calendar`: the day/month/year triple a date parser returns, and the
  calendar validity that `datetime` enforces. `Date` is the subset of valid
  days with four-digit years.
- `DateText`: `strftime('%d-%m-%Y')` as `Render`, with an independent decoder
  `Decode` as its inverse, and the round trips in both directions.
- `Normalizer`: `str.strip` over Python's whitespace set, and
  `normalize_date`. The parser is a parameter `string -> Option<Date>`.
- `FixUp`: the per-chunk fix-up loop, and its relation to the three-way
  outcome `Empty | Invalid | Canonical(date)`.
- `Report`: the run statistics, the per-chunk accumulation loop, and
  per-row reference definitions (counts, and all qualifying rows capped at
  five) that the loop is proved to compute.
- `Pipeline`: chunking by 100,000 rows, the per-chunk body, and the chunk
  loop with its header flag. The main results are:
  - the written rows are the whole input's fixed-up column;
  - the statistics equal those of a single pass over all rows, for a
    column whose cells are already read (see "## Left out" on per-chunk
    type inference);
  - `total == converted + failed + empty rows`.
- `NormalizeTests`: the examples of `test_normalize.py` that do not depend
  on the parser's grammar.

Whitespace-only strings and non-string values are not written as `''`. The
fix-up checks only `orig == ''` (main.py:55), while `normalize_date` also
rejects blank strings and non-strings (main.py:12). So such rows are written
as `'Invalid'` and counted as failures; `FixUp.BlankOrNonStringRowIsInvalid`
states this.

## Model

| member | source | states |
|---|---|---|
| Calendar.DaysInMonth | main.py:15-25 | A parsed date's month has 31 days for months 1,3,5,7,8,10,12 and 30 for 4,6,9,11. February has 29 days exactly in leap years and 28 otherwise. |
| Calendar.LeapDayExistsIffLeapYear | test_normalize.py:37 | 29 February of a four-digit year is a valid day if and only if the year is a leap year. |
| Calendar.ImpossibleTestDates | test_normalize.py:35-37 | 31 February 1930 is no calendar day. 1983 is not a leap year, so 29 February 1983 is none either. |
| DateText.Render | main.py:27 | The `%d-%m-%Y` text of a date has 10 characters, with `-` at indices 2 and 5 and decimal digits in the three fields. |
| DateText.DecodeRender | main.py:27 | Reading the rendered text back as day, month and year gives the same date. |
| DateText.RenderDecode | main.py:27 | Any text that reads back as a date is exactly that date's rendering, so there is no other spelling of it. |
| DateText.CanonicalIff | main.py:27 | A text decodes to date d if and only if it is d's rendering. |
| DateText.RenderInjective | main.py:27 | Two dates share a rendering if and only if they are the same date. |
| Normalizer.IsSpace | main.py:12 | Python's `isspace`: space, tab, newline, carriage return and no-break space are whitespace; digits, `.`, `-` and the zero-width space are not. |
| Normalizer.SkipSpaces | main.py:12 | Finds the first non-whitespace position at or after i; everything skipped is whitespace. |
| Normalizer.SkipSpacesBack | main.py:12 | Finds where trailing whitespace before j starts; everything skipped is whitespace. |
| Normalizer.Strip | main.py:12 | `strip()` is empty if and only if the string is all whitespace. Otherwise it starts and ends with a non-space. It is a slice of the string with only whitespace cut off on either side. |
| Normalizer.NormalizeDate | main.py:11-27 | Non-strings and blank strings give None. A non-blank string gives None if and only if the parser fails. A result is a 10-character `DD-MM-YYYY` text that decodes to the parser's date. |
| Normalizer.GuardIgnoresParser | main.py:12-13 | For a non-string or blank value, every parser yields the same None: the guard decides before the parser is consulted. |
| Normalizer.NormalizedIsCanonical | main.py:15-27 | A successful result is the rendering of date d if and only if the parser returned d. |
| FixUp.FixRow | main.py:55-60 | An empty original is written as `''` whatever the normaliser returned. A non-empty original is written as `'Invalid'` when the normaliser gave None, and as the normaliser's text verbatim otherwise. |
| FixUp.FixUpChunk | main.py:53-60 | The fix-up loop writes one output per zipped pair, in order. Its length is the shorter input's length, and output i is the fix-up of pair i. |
| FixUp.TextInjective | main.py:53-60 | The written sentinels and date texts are pairwise distinct, so the output column distinguishes Empty, Invalid and each date. |
| FixUp.FixedRowIsOutcomeText | main.py:53-60 | Fixing up `normalize_date`'s result writes the text of the row's outcome, defined directly from the value and the parser. |
| FixUp.FixedRowClassification | main.py:53-60 | An output is `''` if and only if the original is exactly `''`. It is `'Invalid'` if and only if the original is non-empty and the normaliser gave None. Otherwise it is the normaliser's text verbatim, a decodable date. |
| FixUp.BlankOrNonStringRowIsInvalid | main.py:53-60 | A non-empty whitespace-only string or a non-string original is written as `'Invalid'`, not `''`, whatever the parser does. |
| Report.Step | main.py:64-71 | One row leaves the total alone and adds one to converted + failed unless it is written as `''`. Each example list keeps its entries and gains at most one, never past five. |
| Report.Fold | main.py:63-71 | The accumulation loop never changes the total. It keeps each example list within five entries once it starts within five. |
| Report.AccumulateChunk | main.py:62-71 | The per-chunk update adds the chunk length to the total, then folds in every (original, output) pair of the zipped chunk, in order. |
| Report.Cap | main.py:66-71 | A capped list is a prefix of at most five entries of the full list, and the whole list when it has at most five. With more than five entries it is exactly the first five. |
| Report.RowsPartition | main.py:64-69 | Every output row is exactly one of converted, `'Invalid'` or `''`. |
| Report.FoldIsReference | main.py:63-71 | From lists within the cap, the loop adds the number of converted rows and the number of `'Invalid'` rows to the counters. Each example list becomes the first five of the old list followed by all qualifying rows in order. |
| Report.CapSnoc | main.py:66-71 | Appending one candidate under the cap is appending it while there is room and ignoring it otherwise. |
| Report.FoldCounterSum | main.py:62-71 | Across any rows, converted + failed + (rows written as `''`) grows by exactly the number of rows. |
| Report.FoldCountsRows | main.py:64-69 | The converted and failed counters grow by the reference counts of converted and `'Invalid'` rows. |
| Report.FoldAppend | main.py:47-71 | Folding two runs of rows in turn is folding their concatenation, so for given cells the cut between chunks does not matter. |
| Report.FoldKeepsTotal | main.py:62-63 | The loop's result does not depend on the incoming total, which it carries unchanged. |
| Report.ExamplesOnlyGrow | main.py:66-71 | The example lists only grow at their end, and a list that holds five entries never changes again. |
| Report.CapKeepsPrefix | main.py:66-71 | Capping a list extended past an uncapped start keeps that start as its prefix. |
| Report.ExamplesQualify | main.py:63-71 | Every changed example is an input pair whose output is a date differing from the original. Every error example is the original of a row written as `'Invalid'`. |
| Report.ChangedRowsQualify | main.py:64-67 | Every row the reference lists as changed is an input pair that was converted and differs from its original. |
| Report.FailedOriginalsQualify | main.py:68-71 | Every original the reference lists as failed comes from a row written as `'Invalid'`. |
| Seqs.Zip | main.py:54 | `zip` pairs elements index by index, up to the shorter list. |
| Pipeline.Chunks | main.py:34-47 | Chunks concatenate back to the input, all but the last full and none above 100,000 rows. A non-empty input gives the ceiling of rows / 100,000 chunks, none empty. An input without rows gives one empty chunk, as pandas' chunked reader does for a header-only file. |
| Pipeline.Batches | main.py:34-47 | A non-empty input is cut into the ceiling of rows / 100,000 non-empty runs of at most 100,000 rows, all but the last full, concatenating back to the input. |
| Pipeline.MapNormalize | main.py:51 | The parallel map yields one result per input value, in input order: result i is `normalize_date` of value i. |
| Pipeline.Column | main.py:49-60 | A chunk's output column has one cell per row. A cell is `''` exactly for an empty original, and `'Invalid'` exactly for a non-empty original the normaliser rejects. Any other cell is `normalize_date`'s text for that row, unchanged. |
| Pipeline.ProcessChunk | main.py:48-71 | One chunk's column is the fix-up of its normalisation, and the statistics are the fold of its pairs. The total grows by the chunk length, and converted + failed + empties grows by the same amount. |
| Pipeline.ChunkWrites | main.py:73-77 | There is one append per chunk, with the header flag raised exactly for chunk 0, and as many rows as the chunk. |
| Pipeline.ChunkWritesCoverInput | main.py:73-77 | The chunk writes, concatenated, are the fixed-up column of the whole input. |
| Pipeline.RunChunks | main.py:46-77 | The loop makes one write per chunk, with the header exactly on chunk 0, each holding that chunk's column. All writes together are the whole input's column, and the final statistics equal one pass over all of the chunks' cells. |
| Pipeline.ChunkStep | main.py:47-71 | Adding a chunk extends the column by the chunk's column and advances the one-pass statistics by that chunk alone. |
| Pipeline.OnePassStep | main.py:62-71 | Statistics that match one pass over the rows seen so far still match after folding in the next chunk. |
| Pipeline.NormalizeColumn | main.py:34-77 | The output has one row per input row, in order. There are as many writes as chunks and only the first has a header. An input without rows gets a single write holding only the header. The total is the row count and equals converted + failed + empties. |
| Pipeline.QuarterMillionRows | main.py:34 | 250,000 rows read 100,000 at a time come in three chunks, and the total is 250,000. |
| Pipeline.OnePassIsReference | main.py:37-71 | The final statistics are the row count, the reference counts of converted and failed rows, and the first five changed rows and failed originals in input order. |
| NormalizeTests.RenderDate1 | test_normalize.py:23 | 20 September 1901 renders as `20-09-1901`. |
| NormalizeTests.RenderDate2 | test_normalize.py:24 | 6 May 1999 renders as `06-05-1999`. |
| NormalizeTests.RenderDate3 | test_normalize.py:25 | 31 July 1988 renders as `31-07-1988`. |
| NormalizeTests.RenderDate4 | test_normalize.py:26 | 5 August 1982 renders as `05-08-1982`. |
| NormalizeTests.TestValidDate1 | test_normalize.py:23 | If the parser reads `20.9.1901` as 20 September 1901, `normalize_date` returns `20-09-1901`. |
| NormalizeTests.TestValidDate2 | test_normalize.py:24 | If the parser reads `6 мая 1999` as 6 May 1999, `normalize_date` returns `06-05-1999`. |
| NormalizeTests.TestValidDate3 | test_normalize.py:25 | If the parser reads `31.07.1988` as 31 July 1988, `normalize_date` returns `31-07-1988`. |
| NormalizeTests.TestValidDate4 | test_normalize.py:26 | If the parser reads `5 августа 1982` as 5 August 1982, `normalize_date` returns `05-08-1982`. |
| NormalizeTests.NormalizeParsed | test_normalize.py:4-20 | Any non-blank string that the parser reads as d normalises to d's rendering. |
| NormalizeTests.TestEmptyAndNone | test_normalize.py:28-32 | `""`, `"   "`, `None` and `123` all normalise to None for every parser. |
| NormalizeTests.ImpossibleTextsDecodeToNone | test_normalize.py:35-37 | `31-02-1930` and `29-02-1983` decode to no date. |
| NormalizeTests.DayMonthYear | test_normalize.py:35-37 | A `DD-MM-YYYY`-shaped text with the given field values decodes to that day exactly when it is a calendar day with a four-digit year. |
| NormalizeTests.TestInvalidDates | test_normalize.py:34-37 | No parser can make `31.2.1930` or `29.2.1983` normalise to the text of the impossible day. |

## Left out

- `dateparser.parse` and its Russian grammar (main.py:15-23) belong to an external library. The model takes the parser as a parameter `string -> Option<Date>`. A parser that raises instead of returning None is not modelled.
- NormalizeTests.TestValidDate1: assumes the parser reads `20.9.1901` as 20 September 1901. Only the formatting half of the test is proved, because the string-to-date half is the parser's grammar.
- NormalizeTests.TestValidDate2: assumes the parser reads `6 мая 1999` as 6 May 1999, for the same reason.
- NormalizeTests.TestValidDate3: assumes the parser reads `31.07.1988` as 31 July 1988, for the same reason.
- NormalizeTests.TestValidDate4: assumes the parser reads `5 августа 1982` as 5 August 1982, for the same reason.
- NormalizeTests.TestInvalidDates: weaker than the test's `is None`. It shows only that the impossible day's text cannot come out, because whether the parser returns None or some other day for `31.2.1930` is its grammar. The `666.5` case (test_normalize.py:36) is left out for the same reason.
- `Date` holds years 1000 to 9999 only, because `%Y` padding of smaller years differs between platforms.
- pandas CSV reading, `fillna` and `to_csv` (main.py:46-49, 74-77) are I/O. The model works on the column as a sequence of cells and records each append as a `Write` with its header flag. Only the first column is read.
- Row kinds are fixed per row. pandas infers the column's type separately for each chunk, so in the program a numeric-looking row such as `1999` may be read as `Str` or as `NonStr` depending on which rows share its chunk. The model takes each cell's kind as given, and its "chunking changes nothing" results hold for that fixed column of cells only.
- Non-string cells keep only their printed form. Python's `orig != norm` between a number and a string is always true, and `Report.Differs` models that.
- `multiprocessing.Pool` (main.py:35, 51, 79-80) is concurrency plumbing. `pool.map` is modelled as an order-preserving sequential map.
- The input-existence check and the removal of a stale output file (main.py:30-32, 43-44) are filesystem I/O.
- The printed report and the timing (main.py:82-102) are console output and a clock. The statistics they print are modelled.
