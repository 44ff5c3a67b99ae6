# Coverage statistics for a TREC-COVID document catalog

This project models the core of `data_processing/get_stats.py` in Dafny and
proves properties of the model. The script reads a list of required document
identifiers (`cord_uid`s). It then walks the CORD-19 `metadata.csv` table once.
Each row whose identifier is still required is removed from the set. The row
then goes into one of four availability buckets, based on whether the table
says it has a PMC JSON parse, a PDF JSON parse, both or neither. Last, the row
is counted for title, abstract and full text. A flag counts when the row has
the field, or when the row's auxiliary JSON file parses and has it. Rows whose
identifier is not (or no longer) required count as "not covered". Whatever
stays in the set is reported as missing.

Modules, in program order:

- `Text` (`text.dfy`): Python's `str.strip()` (with Python's exact whitespace
  set) and `str.split(sep)` with its inverse `Join`. `FirstToken` is
  `s.split(';')[0]`.
- `Records` (`records.dfy`): a `metadata.csv` row, JSON values with Python
  truthiness, and the auxiliary document. It also defines `Parse`, the outcome
  of loading a file, and `AuxPath`, the location of an auxiliary file.
- `DocIds` (`docids.dfy`): `read_docids` as a loop over the lines of the file.
  `DocidSet` is its specification.
- `FieldPresence` (`has_info.dfy`): `has_info` as a method that sets three
  flags branch by branch. `Presence` is its specification: the row's flags
  OR-ed with the loaded document's flags.
- `Coverage` (`coverage.dfy`): the loop of `main` (lines 85-127) as the method
  `Classify`. It keeps the eight counters and the shrinking identifier set as
  local variables, as the source does. `Step` (one row) and `Run` (all rows,
  in order) are its specification. `GetStats` composes `ReadDocids` and
  `Classify`, like `main` from line 70 on.
- `Scenarios` (`scenarios.dfy`): small concrete runs of the pass, written as
  lemmas.

The file system is a parameter. `load: AuxPath -> Parse` gives the outcome of
`json.load(open(path))` for every path. That outcome is either a parsed
document or `ParseFailed`, which stands for a missing file, an I/O error or
malformed JSON alike. Because it is a function, the same path always gives the
same outcome during one run. The table is a `seq<Row>` in file order, and the
identifier list is a `seq<string>` of lines as the file iterator yields them.

`main` keeps eight counters (lines 74-81), and so does the model. `read_docids` returns only the set and prints the line
count. `ReadDocids` also returns the count, so that its relation to the set
size can be stated.

`Classify`'s postcondition fixes its outputs as a function of its inputs
(`Run`). So two runs over the same rows, the same identifier set and the same
files give the same counters and the same missing set.

## Model

| member | source | states |
|---|---|---|
| `Text.StripLeading` | data_processing/get_stats.py:16 | the result is a suffix of the line, everything removed is Python whitespace, and the result does not start with whitespace |
| `Text.StripTrailing` | data_processing/get_stats.py:16 | the result is a prefix of the line, everything removed is Python whitespace, and the result does not end with whitespace |
| `Text.Strip` | data_processing/get_stats.py:16 | `line.strip()` is a contiguous slice of the line, everything outside it is whitespace, and it neither starts nor ends with whitespace |
| `Text.StripIdempotent` | data_processing/get_stats.py:16 | stripping an identifier again changes nothing |
| `Text.StripAllSpace` | data_processing/get_stats.py:16 | a blank line (only whitespace) becomes the empty identifier |
| `Text.Split` | data_processing/get_stats.py:107 | `sha.split(';')` always has at least one piece and no piece contains `;` |
| `Text.JoinSplit` | data_processing/get_stats.py:107 | joining the pieces of a split with the separator gives back the original `sha` |
| `Text.SplitFree` | data_processing/get_stats.py:107 | a `sha` without `;` splits into itself alone |
| `Text.SplitCons` | data_processing/get_stats.py:107 | a `;`-free hash followed by `;` becomes the first piece, and the rest splits as it would alone |
| `Text.SplitJoin` | data_processing/get_stats.py:107 | splitting a `;`-join of `;`-free hashes gives back the hashes |
| `Text.FirstTokenIsPrefix` | data_processing/get_stats.py:107 | `sha.split(';')[0]` is a prefix of `sha`, contains no `;`, and is either all of `sha` or is followed by its first `;` |
| `DocIds.DocidSetSize` | data_processing/get_stats.py:12-22 | the set never has more identifiers than there are lines, and it has exactly as many when no two lines strip to the same identifier |
| `DocIds.DocidSetMembers` | data_processing/get_stats.py:15-19 | an identifier is in the set exactly when some line of the list strips to it |
| `DocIds.ReadDocids` | data_processing/get_stats.py:11-23 | the loop builds exactly the set of stripped input lines (both directions of membership), counts every line, and the set size is at most the count, with equality iff there are no duplicates after stripping |
| `FieldPresence.HasInfo` | data_processing/get_stats.py:26-62 | the three flags it sets step by step are exactly the row's flags OR-ed with those of the document, when the file at the path parses |
| `FieldPresence.RowPresenceKept` | data_processing/get_stats.py:31-35 | a non-empty `title` or `abstract` cell is reported as present whatever the auxiliary file holds or whether it parses |
| `FieldPresence.FallbackToRow` | data_processing/get_stats.py:37-41 | with no path, or a file that fails to load, the flags are exactly the row's own and there is no full text |
| `FieldPresence.FulltextOnlyFromBody` | data_processing/get_stats.py:29-60 | full text is reported exactly when a path was given, its file parsed, and the document has a truthy `body_text` |
| `FieldPresence.PresenceIsOr` | data_processing/get_stats.py:43-60 | a document that parses yields the OR of the row's and the document's flags, so it never reports less than a failed load or than the document alone |
| `Coverage.StepUnmatched` | data_processing/get_stats.py:86-89 | a row whose `cord_uid` is not in the required set only raises `not_covered_count`; the set and the other seven counters are unchanged |
| `Coverage.StepMatched` | data_processing/get_stats.py:91-127 | a matched row leaves the set, leaves `not_covered_count` alone, raises exactly one bucket (the one its flags choose), and raises each presence counter by its `has_info` flag |
| `Coverage.BucketByFlags` | data_processing/get_stats.py:94-116 | the four buckets are chosen by the two flag cells alone, each being true only when it is exactly `True`, PMC first and then PDF; there is no auxiliary path exactly in the no-JSON bucket |
| `Coverage.PdfPathUsesFirstHash` | data_processing/get_stats.py:106-113 | in the PDF-only bucket the file is named by `sha.split(';')[0]`, a `;`-free prefix of `sha` |
| `Coverage.RunConserves` | data_processing/get_stats.py:85-116 | over any stretch of the table, the not-covered count plus the four buckets grow by exactly the number of rows |
| `Coverage.RunPresenceBounded` | data_processing/get_stats.py:120-127 | the title, abstract and full-text counts grow by at most the number of matched rows |
| `Coverage.UidsSnoc` | data_processing/get_stats.py:85-86 | the identifiers seen grow by one row's identifier per row |
| `Coverage.RunRequired` | data_processing/get_stats.py:87-91 | after the rows, the required set is the initial set minus every `cord_uid` in the table |
| `Coverage.RunMatchedRemoves` | data_processing/get_stats.py:87-91 | each matched row removes exactly one identifier: the matched count plus the remaining set size is unchanged, and the set only shrinks |
| `Coverage.RunBucketsIgnoreFiles` | data_processing/get_stats.py:94-116 | the buckets, the not-covered count and the remaining set are the same whatever the auxiliary files contain or whether they parse |
| `Coverage.RunDuplicateNotCovered` | data_processing/get_stats.py:87-91 | a later row with a `cord_uid` that an earlier row already matched only raises `not_covered_count` |
| `Coverage.RunNothingRequired` | data_processing/get_stats.py:87-89 | with an empty required set every row counts as not covered and nothing else changes |
| `Coverage.PassSummary` | data_processing/get_stats.py:74-127 | from all-zero counters: not covered plus buckets equals the number of rows, matched plus missing equals the number of required identifiers, each presence count is at most the matched count, and the missing set is the required set minus the table's identifiers |
| `Coverage.Classify` | data_processing/get_stats.py:85-127 | the loop with eight counters and an in-place shrinking set computes exactly `Run` from zero, so it has every property of `PassSummary` |
| `Coverage.GetStats` | data_processing/get_stats.py:70-127 | reading the identifier list and then classifying reports as missing exactly the stripped identifiers absent from the table; every row is counted once; an empty list reports nothing missing and every row as not covered |
| `Scenarios.ScenarioA` | data_processing/get_stats.py:85-127 | identifiers `d1`,`d2`,`d3` against rows `d1` (PMC only, titled) and `d2` (no JSON): nothing is not covered, one PMC-only, one no-JSON, `{d3}` missing, exactly one title counted, and an abstract only if the PMC file supplies one |
| `Scenarios.UnreadableFileFallsBack` | data_processing/get_stats.py:37-41 | a matched row whose file does not parse still lands in exactly one bucket, and its flags fall back to the row's cells with no full text |
| `Scenarios.EmptyIdentifierList` | data_processing/get_stats.py:11-23 | an empty identifier list yields an empty set, and then every row is not covered and nothing is missing |

## Left out

- Command-line parsing with `argparse` (lines 65-68): it is plumbing. The data directory and the identifier list reach the model as values.
- Opening files, `csv.DictReader` and `json.load` (lines 14, 39, 83-84): they are library I/O. The lines, the rows and the per-path load outcome are inputs.
- `os.path.join` (lines 73, 96-101, 108-113): a path is the tagged value `PmcJson(full_text_file, pmcid)` or `PdfJson(full_text_file, sha_token)`. The data directory and the `.xml.json`/`.json` suffixes are the same for every path in one run, so they are dropped. POSIX join rules (an absolute component restarting the path) are not modelled.
- All `print` output, including the parse warning (lines 22, 41, 129-135): it is reporting only.
- The `except Exception` clause (line 40): any failure opening or parsing the file is the single `ParseFailed` outcome.
- JSON structure beyond what the model reads: the document is an optional `metadata` object with optional `title` and `abstract`, plus an optional `body_text`. If the top-level value or `metadata` is not an object, the membership test in the source can raise outside the `try`. That crash is not modelled.
- JSON numbers are reals. `NaN` and `Infinity`, which Python's `json` accepts (both truthy), are not represented.
- CSV rows with missing columns (`KeyError`) or short rows (`None` cells): every row is assumed to carry all eight columns as strings.
- How the bytes of the files are decoded into characters: lines and cells arrive as strings.
