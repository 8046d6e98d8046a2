# normalize — a Dafny model

`normalize` is a small web service that cleans up tabular and spatial datasets (CSV files and
zipped or tarred shapefiles). A request names, for each kind of clean-up, the columns it applies
to:
- dates reformatted;
- phone numbers reduced to digits;
- special characters collapsed;
- words sorted;
- text lower-cased;
- text transliterated;
- values stripped to URL-safe characters;
- geometries made valid;
- column names rewritten into database-safe identifiers.

The service either answers at once with the normalised file ("prompt" mode) or hands out a ticket
("deferred" mode). A deferred job runs in the background and records its outcome in a `tickets`
table, which the `/status` and `/resource` endpoints read.

This project models three layers of that service and proves properties of each.

- **Value transforms and the column-name normaliser**: `normalization_functions.dfy`,
  `column_names.dfy`, and the Python string primitives they rest on in `text.dfy`. These are
  functions on `seq<char>`, except that the loops of the source (`date_normalization`,
  `alphabetical_normalization`, `transliteration`, `avoid_collisions`,
  `column_name_normalization`) are methods with loop invariants. Each method is proved against a
  specification function.
- **The pipeline engine**: `pipeline.dfy`. A dataset is the class `Frame`, holding an ordered list
  of column names, one cell sequence per column, and one geometry per row. The nine `perform_*`
  steps rewrite listed columns in place, in the fixed order of `normalize_gdf`.
- **The archive guard**: `archive.dfy` models the traversal check `is_within_directory` /
  `safe_extract`.
- **The ticket lifecycle**: `app.dfy`. The class `Service` holds the `tickets` table as a map
  from ticket id to row, the executor's queue of submitted jobs and list of finished jobs, and the
  output file store. Its methods are the request handler `normalize`, the background job
  `enqueue`, the completion callback `executor_callback`, and the `status` and `resource` lookups.

Foreign code enters as function-valued parameters, so every property holds for every behaviour of
that code. Such parameters are bundled in `NormalizeForm`, `Library`, `Transliterator` and
`Environment`. They stand for:
- `strptime`/`strftime`;
- nltk's tokenizer;
- `translit`, polyglot and the list of available languages;
- geometry `make_valid`/`normalize`;
- the dataset loader, file sizes and the output directory.

A Python `None` cell is `Option.None`. An exception raised by the source is a `Failure`, or a
`Fault` in the pipeline.

## Model

| member | source | states |
|---|---|---|
| NormalizationFunctions.FirstMatchIsFirst | normalize/normalization_functions.py:28-37 | the date search yields the reformatting of the first format in order that parses, and nothing exactly when none parses |
| NormalizationFunctions.DateNormalization | normalize/normalization_functions.py:28-37 | a None or empty date comes back unchanged; otherwise the first successful reformat over `DATE_FORMATS` (:9-11) in list order, or the input when no format parses |
| NormalizationFunctions.PhoneNormalization | normalize/normalization_functions.py:40-50 | None raises; a non-empty string that Python `int()` accepts is returned unchanged; any other input yields only ASCII digits, and without the exit-code rule exactly the input's digits in order |
| NormalizationFunctions.PhoneExamples | tests/functional/basic_tests.py:101-110 | `"+123-44 5678 999"` gives `"123445678999"`, and `"00123445678999"` with exit code `"00"` |
| NormalizationFunctions.PlusNumber | normalize/normalization_functions.py:45-50 | a number that `int()` rejects, with a leading `+` and no other: the exit code's digits, then the number's digits |
| NormalizationFunctions.PhoneExitCode | normalize/normalization_functions.py:48-49 | with a leading `+` and a non-empty exit code, every `+` becomes the exit code before non-digits are removed |
| NormalizationFunctions.PhoneIdempotent | normalize/normalization_functions.py:40-50 | normalising a normalised phone number changes nothing |
| NormalizationFunctions.PhoneKeepsSignedInt | normalize/normalization_functions.py:41-47 | `"+30"` is accepted by `int()` and kept with its `+`, even with exit code `"00"` |
| NormalizationFunctions.SkipSpecialKeepsAlnums | normalize/normalization_functions.py:55 | skipping a run of special characters drops no alphanumeric |
| NormalizationFunctions.CollapseSpecialFacts | normalize/normalization_functions.py:55 | the collapsed string uses only alphanumerics and spaces, has no two adjacent spaces, keeps the alphanumerics in order, and starts with a space exactly when the input starts with a special character |
| NormalizationFunctions.CollapseRun | normalize/normalization_functions.py:55 | every maximal run of non-`[A-Za-z0-9]`, between an alphanumeric or the start and an alphanumeric or the end, becomes exactly one space, the text on either side collapsed independently |
| NormalizationFunctions.CollapseAppend | normalize/normalization_functions.py:55 | collapsing distributes over a cut right after an alphanumeric |
| NormalizationFunctions.CollapseAlnum | normalize/normalization_functions.py:55 | a string of alphanumerics is left unchanged |
| NormalizationFunctions.CollapseFiveWords | normalize/normalization_functions.py:55 | five words, each between runs of special characters, become the words with one space before, between and after them |
| NormalizationFunctions.SpecialCharacterExample | tests/functional/basic_tests.py:116-120 | `"-_/@ contain m@any special characTers-"` gives `" contain m any special characTers "` |
| NormalizationFunctions.SpecialCharacterNormalization | normalize/normalization_functions.py:53-56 | None or empty gives `""`; the output uses only `[A-Za-z0-9 ]`, has no two adjacent spaces and keeps the input's alphanumerics in order |
| NormalizationFunctions.CollapseSpecialFixpoint | normalize/normalization_functions.py:55 | a string already of that shape is left unchanged |
| NormalizationFunctions.SpecialCharacterIdempotent | normalize/normalization_functions.py:53-56 | the special-character transform is idempotent |
| NormalizationFunctions.CaseNormalization | normalize/normalization_functions.py:71-74 | None gives `""`; same length, no upper-case letter, each character its lower-case form |
| NormalizationFunctions.CaseFixpoint | normalize/normalization_functions.py:71-74 | a string is kept exactly when it has no upper-case letter, and the transform is idempotent |
| NormalizationFunctions.LexLessTotal | normalize/normalization_functions.py:63 | the code-point order used by `sorted` is total (with LexLessIrreflexive and LexLessTransitive, a strict total order) |
| NormalizationFunctions.LexLessTransitive | normalize/normalization_functions.py:63 | the code-point order is transitive |
| NormalizationFunctions.InsertByKey | normalize/normalization_functions.py:63 | inserting into a sorted list adds exactly that one element |
| NormalizationFunctions.SortedByCasefold | normalize/normalization_functions.py:63 | sorting by the casefold key is a permutation of the tokens |
| NormalizationFunctions.InsertKeepsSorted | normalize/normalization_functions.py:63 | insertion after all tokens with a key not above it keeps the list sorted by key |
| NormalizationFunctions.SortedIsSorted | normalize/normalization_functions.py:63 | the sorted tokens are ordered by casefold key |
| NormalizationFunctions.SortedIsStable | normalize/normalization_functions.py:63 | tokens with equal casefold key keep their original relative order, as Python's stable sort does |
| NormalizationFunctions.AlphabeticalNormalization | normalize/normalization_functions.py:59-68 | None or empty gives `""`; the concatenation loop computes the sorted tokens each followed by a space, then stripped |
| NormalizationFunctions.JoinTrailingIsJoin | normalize/normalization_functions.py:64-67 | appending each token and a space, then stripping, is the tokens joined by single spaces |
| NormalizationFunctions.AlphabeticalJoinsBySpaces | normalize/normalization_functions.py:59-68 | for a non-empty literal whose tokens have no whitespace, the result is the casefold-sorted tokens joined by single spaces |
| NormalizationFunctions.AlphabeticalExample | normalize/normalization_functions.py:59-68 | `"I am fagi"` gives `"am fagi I"` when the tokenizer splits it into its three words |
| NormalizationFunctions.TransliteratedAllAvailable | normalize/normalization_functions.py:95-97 | when every source language is available, the result is `translit` applied language after language |
| NormalizationFunctions.TransliteratedRestarts | normalize/normalization_functions.py:95-99 | an unavailable language resets the text to the slow transliteration of the original blob, discarding earlier languages' output; the later available languages continue from there |
| NormalizationFunctions.Transliteration | normalize/normalization_functions.py:88-100 | None gives None; a single language is treated as a one-element list; the loop computes the language-by-language result above |
| NormalizationFunctions.ReplaceLineBreaksAbsent | normalize/normalization_functions.py:107 | the line-break rule changes nothing on a string without CR or LF |
| NormalizationFunctions.BeforeLineBreaksFacts | normalize/normalization_functions.py:104-107 | after the first three rules there is no whitespace, `"` or pipe character, so the line-break rule never fires |
| NormalizationFunctions.CleanValueFacts | normalize/normalization_functions.py:103-110 | the cleaned value is never longer than the input and holds only allow-listed, non-whitespace characters |
| NormalizationFunctions.ValueCleaning | normalize/normalization_functions.py:103-110 | None raises; otherwise, character by character, the input without whitespace, with `"` turned into `'`, pipe into `;` and backslash into `/`, then without the characters outside the allow-list at :109; so no whitespace, `"`, pipe or backslash is left, the ASCII alphanumerics all survive in order, and the output is never longer than the input |
| NormalizationFunctions.CleanValueCharwise | normalize/normalization_functions.py:103-110 | the six substitutions in a row equal the per-character conversion of the whitespace-free input, filtered by the allow-list |
| NormalizationFunctions.ReplaceThree | normalize/normalization_functions.py:105-108 | the `"`, pipe and backslash replacements act character by character |
| NormalizationFunctions.CleanValueKeepsAlnums | normalize/normalization_functions.py:103-110 | cleaning keeps exactly the input's ASCII alphanumerics, in order, among other characters |
| NormalizationFunctions.ValueCleaningIdempotent | normalize/normalization_functions.py:103-110 | cleaning a cleaned value changes nothing |
| ColumnNames.ReservedStartWithLetter | normalize/normalization_functions.py:21 | every reserved column name starts with a lower-case letter |
| ColumnNames.Suffix | normalize/normalization_functions.py:158 | the collision suffix is `_` followed by decimal digits |
| ColumnNames.CandidatesDifferInCase | normalize/normalization_functions.py:158-159 | candidates for distinct counters differ even after lower-casing, so each rejected candidate uses up a distinct existing or reserved name |
| ColumnNames.IsAvoidResultUnique | normalize/normalization_functions.py:154-161 | the "first free candidate" outcome is unique |
| ColumnNames.AvoidCollisions | normalize/normalization_functions.py:154-161 | the loop terminates; the result is not an existing name and its lower-case form is not reserved; a free name is returned unchanged, otherwise the result is `name[0:max-len(suffix)] + suffix` for the first free counter; it fits `max_length` when the name and the longest suffix do |
| ColumnNames.AvoidLoopExit | normalize/normalization_functions.py:156-161 | when the loop stops, the first free counter is at most `len(existing) + len(reserved) + 1`, because each rejected candidate used up a distinct existing name or reserved word |
| ColumnNames.FirstFreeUnique | normalize/normalization_functions.py:156-160 | only one counter can be the first whose candidate is free |
| ColumnNames.SanitizeName | normalize/normalization_functions.py:141-151 | the result is `"_"` followed by the transliterated name when its lower-case form is reserved or it starts with `[A-Za-z_]`, and the transliterated name unchanged otherwise; it never starts with a letter and is never reserved |
| ColumnNames.CollapseUnderscoresFacts | normalize/normalization_functions.py:125 | collapsing `_{2,}` leaves no double underscore, and changes a string exactly when it has one |
| ColumnNames.UnderscoreOthers | normalize/normalization_functions.py:125 | every character outside `[a-z0-9]`, upper-case letters included, becomes `_`; every character of `[a-z0-9]` is kept; the length is kept |
| ColumnNames.Version1Name | normalize/normalization_functions.py:121-127 | the result ends with the substituted and collapsed name (of `untitled_column` for an empty input), and has the 7 characters `column_` in front exactly when that name starts with `[a-z_]`; it uses only `[a-z0-9_]` |
| ColumnNames.WithColumnPrefix | normalize/normalization_functions.py:126-127 | `column_` is prefixed exactly to a name that starts with `[a-z_]`, and the name is kept as the suffix |
| ColumnNames.Version2Name | normalize/normalization_functions.py:130 | version 2 proposes the first `min(63, n)` characters of the sanitized name with underscore runs collapsed (n its length); it does not start with a letter and has no double underscore |
| ColumnNames.Version3Name | normalize/normalization_functions.py:133 | version 3 proposes the first `min(63, n)` characters of the sanitized name with every `-` replaced by `_` (n its length); it does not start with a letter and has no `-` |
| ColumnNames.Others | normalize/normalization_functions.py:118 | the names compared against are exactly the raw names different from the candidate |
| ColumnNames.AvoidResultV1Chars | normalize/normalization_functions.py:125-128 | collision avoidance keeps a version-1 name within `[a-z0-9_]` |
| ColumnNames.NormalizeName | normalize/normalization_functions.py:117-136 | one name is the first free candidate for its version's proposal against the other raw names and that version's reserved words, or unchanged for an unknown version |
| ColumnNames.NormalizedHeaderFunctional | normalize/normalization_functions.py:116-137 | each output depends only on its own raw entry and the header, so equal entries get equal names |
| ColumnNames.ColumnNameNormalization | normalize/normalization_functions.py:113-138 | one output per input; equal inputs give equal outputs; an unknown version returns the names unchanged; no output collides with the other raw inputs or the reserved words; version 1 outputs use `[a-z0-9_]`; version 2 and 3 outputs have at most 63 characters |
| ColumnNameExamples.EmptyNameVersion1 | normalize/normalization_functions.py:122-128 | in version 1 an empty name becomes `column_untitled_column` unless that is another input |
| ColumnNameExamples.FreeNameKept | normalize/normalization_functions.py:157 | a name that neither exists nor is reserved is kept |
| ColumnNameExamples.Version1Repeats | normalize/normalization_functions.py:118-128 | version 1 maps the header `A, B` to two equal names `column__`, so the output is not always unique |
| ColumnNameExamples.SanitizeLetterName | normalize/normalization_functions.py:141-151 | for a name that every available language's `translit` leaves unchanged (as an ASCII name), a name starting with a letter gets the `_` prefix |
| ColumnNameExamples.KeptName | normalize/normalization_functions.py:88-100 | a name that every available language's `translit` leaves unchanged is its own transliteration |
| ColumnNameExamples.Version2Repeats | normalize/normalization_functions.py:118-131 | when `translit` leaves `a__b` and `a_b` unchanged in every available language, version 2 maps the header `a__b, a_b` to two equal names `_a_b` |
| Pipeline.ApplyCellFails | normalize/utils.py:161-215 | an element-wise transform raises exactly on a None cell of a phone or value-cleaning column |
| Pipeline.ApplyCellMethod | normalize/utils.py:161-215 | each step's per-cell lambda computes the transform of its kind, with the default date target and exit code |
| Pipeline.ApplyColumnFacts | normalize/utils.py:164 | `apply` over a column succeeds exactly when every cell does, and then transforms each cell in place |
| Pipeline.ApplyColumnFirstFailure | normalize/utils.py:164 | a failing `apply` raises the error of the first cell that raises, every earlier cell having succeeded |
| Pipeline.ApplyColumnPrefixFailure | normalize/utils.py:164 | once a prefix of the column fails, the whole column fails with the same error |
| Pipeline.ApplyColumnMethod | normalize/utils.py:164 | the element-wise loop computes the column's `apply` |
| Pipeline.Lookup | normalize/utils.py:164 | a column name is found exactly when it is in the header, at its first position |
| Pipeline.ApplyToColumns | normalize/utils.py:161-215 | a step keeps the number of columns; a missing column raises |
| Pipeline.ApplyToColumnsUntouched | normalize/utils.py:161-215 | a step keeps every column's row count and leaves every column it does not list unchanged |
| Pipeline.ApplyToColumnsFindsAll | normalize/utils.py:161-215 | a step that completes found every listed column |
| Pipeline.ApplyToColumnsTwice | normalize/utils.py:163-164 | a column whose name is listed exactly twice, at any positions, ends up with the transform applied twice when the step completes: the second pass sees the first pass's values and no other name touches it |
| Pipeline.ApplyToColumnsAppend | normalize/utils.py:163-164 | running the names `l1 + l2` is running `l1`, then, unless it stopped on a fault, `l2` on the values `l1` left |
| Pipeline.PassOver | normalize/utils.py:163-164 | names other than a column's own leave that column unchanged, and the rest of the list runs on what they leave |
| Pipeline.PassOn | normalize/utils.py:163-164 | a listed name transforms its column once, and the rest of the list runs on the result |
| Pipeline.ResolveLanguages | normalize/utils.py:198-205 | the four cases of language resolution: list plus single language, list, single language, or none (abort) |
| Pipeline.TransliterationAborts | normalize/utils.py:204-205 | with no source language the step aborts with 400 before any column is touched |
| Pipeline.ValueStepsUntouched | normalize/utils.py:231-238 | the value steps leave every column listed by no step unchanged |
| Pipeline.ValueStepsKeepRows | normalize/utils.py:231-238 | the value steps keep the number of columns and every column's row count |
| Pipeline.NothingSelected | normalize/utils.py:161-238 | with no column listed for any step, the value steps change nothing |
| Pipeline.WktNormalized | normalize/utils.py:218-222 | every geometry is made valid, then normalised |
| Pipeline.RewriteColumn | normalize/utils.py:163-164 | one turn of a step's column loop: a missing column or a raising cell stops the step with the frame as it was; otherwise the column is replaced and the rest of the step is what remains to be done |
| Pipeline.Frame.PerformColumnStep | normalize/utils.py:161-215 | the in-place loop over listed columns leaves exactly the values of the step specification; the header and geometry are unchanged |
| Pipeline.Frame.PerformTransliteration | normalize/utils.py:196-208 | resolves the languages, then rewrites the listed columns as specified; the header and geometry are unchanged |
| Pipeline.Frame.PerformWktNormalization | normalize/utils.py:218-222 | rewrites only the geometry, and only when requested |
| Pipeline.Frame.PerformColumnNameNormalization | normalize/utils.py:225-228 | replaces only the header, by the version-2 normalisation of the old header; values and geometry are unchanged |
| Pipeline.Frame.NormalizeGdf | normalize/utils.py:231-241 | runs date, phone, special characters, alphabetical, case, transliteration, value cleaning, WKT and column names in that order; a fault leaves the values as far as the failing step got, and otherwise the frame is the normalised table |
| Archive.CommonPrefix | normalize/utils.py:58 | `commonprefix` is a prefix of both strings and stops at the first mismatch |
| Archive.CommonPrefixIsFirst | normalize/utils.py:58-60 | the common prefix equals the first string exactly when that string is a prefix of the second |
| Archive.WithinIffPrefix | normalize/utils.py:53-60 | `is_within_directory` holds exactly when the absolute directory is a character-wise prefix of the absolute target |
| Archive.SiblingAccepted | normalize/utils.py:53-60 | `/x/a` accepts `/x/ab/f`, a path outside it |
| Archive.PathJoin | normalize/utils.py:65 | `os.path.join` returns an absolute second part as it is, and otherwise extends the first part and ends with the second |
| Archive.SafeExtract | normalize/utils.py:62-69 | the extraction succeeds exactly when every member is within the directory; otherwise it raises the traversal message and writes nothing; on success every member is written at its joined path |
| Archive.AbsoluteMemberChecked | normalize/utils.py:65-66 | an absolute member name is checked as itself |
| App.Basename | normalize/app.py:189 | `path.basename` is the longest suffix without `/` |
| App.BeforeFirstDot | normalize/app.py:105 | `split('.')[0]` is the longest prefix without `.` |
| App.FileNameOf | normalize/app.py:105 | the output name is the upload's base name up to, not including, its first dot, followed by `_normalized` |
| App.FileNameHasNoDirectory | normalize/app.py:105 | the output name contains no `/`, and no `.` before `_normalized` |
| App.StoredPath | normalize/utils.py:244-258 | only csv and shp outputs are stored: csv as `path.join(dir, name + ".csv")`, shp as `path.join(dir, name) + ".zip"` |
| App.StoredFileName | normalize/utils.py:244-256 | for a non-empty output name without `/`, the stored file's base name is `<name>.csv` or `<name>.zip` |
| App.StoredPathFoundAgain | normalize/app.py:288-291 | under an absolute output directory, the lookup that joins the output directory onto the path stored by the completion callback (lines 58-62) finds the same file |
| App.RelativeOutputDirDoubled | normalize/app.py:291 | under a relative output directory, the lookup prefixes the output directory a second time onto a stored path that already holds it (line 60) |
| App.LoadFrame | normalize/utils.py:132-158 | only csv and shp are loaded; any other type aborts with the "Not supported file type" message |
| App.FaultResponse | normalize/app.py:183-189 | an `abort(400, description)` reaches the client as a 400 with that description; any other fault as a 500 |
| App.JobOutcomeCases | normalize/app.py:102-110 | the job result carries its ticket and succeeds exactly when loading and every step succeed; a successful result has a storable type |
| App.CompletedRow | normalize/app.py:71-72 | the callback's update leaves the request time and file size as they were |
| App.CompletedRowConsistent | normalize/app.py:57-72 | a completed row has a result exactly when the job succeeded, and that result names a stored file |
| App.RunJobKeeps | normalize/app.py:97-101 | inserting the pending row when a job starts keeps the table consistent |
| App.CompleteKeeps | normalize/app.py:57-73 | completing a job, with or without a stored file, keeps the table consistent |
| App.Service.constructor | normalize/app.py:79-83 | the service starts with no tickets, no jobs and no files |
| App.Service.Status | normalize/app.py:241-253 | no ticket gives 400, an unknown ticket 404; a known one reports `completed` from the status, `success` as None or a boolean, and the request time, execution time and comment of its row |
| App.Service.Resource | normalize/app.py:285-295 | no ticket gives 400, an unknown ticket 404, a row without a result a 500; otherwise, with `f` the output directory joined with the result, 507 "Resource does not exist." exactly when `f` is not stored, and else the file `f` itself, sent under its base name |
| App.Service.Enqueue | normalize/app.py:94-110 | first inserts a pending row with only the file size, then loads and normalises; returns the failed outcome with the fault's message, or the frame, type and output name |
| App.Service.ExecutorCallback | normalize/app.py:54-76 | a successful job is stored first; a failed one stores nothing and gets no result; the matching row is updated once with result, success, completed status, execution time and comment; a missing row is not updated; an abort while storing leaves everything unchanged |
| App.Service.Normalize | normalize/app.py:172-194 | prompt mode answers with the normalised file or the escaped fault and creates no row; deferred mode queues the job and answers 202 with the ticket, `/resource/<ticket>` and `/status/<ticket>`; either way the new ticket's status is 404 on return |
| App.Service.RunJob | normalize/app.py:94-101 | a started job inserts its pending row (status: not completed, no success, no time, no comment) and records its outcome |
| App.Service.Complete | normalize/app.py:54-76 | the job leaves the finished list; the files gain exactly the stored frame at its output path (nothing when the job failed or the type cannot be stored); unless storing aborts, exactly the job's row changes, to its completed form with the execution time and result path, and otherwise no row changes; a completed job's status is completed with `success` matching the outcome; a failed job's comment is reported and its resource is a 500; a stored result is served from an absolute output directory |

## Where the documented behaviour and the code differ

The model follows the code in each of these cases.

- **Column names are not made unique.** Each name is compared against the *other raw input names*
  (normalize/normalization_functions.py:118), not against the names already produced. Two
  distinct inputs can therefore end up equal (`ColumnNameExamples.Version1Repeats`,
  `ColumnNameExamples.Version2Repeats`). Identical inputs always stay identical.
- **Version 1 does not lower-case.** Every character outside `[a-z0-9]`, upper-case letters
  included, becomes `_`.
- **The `column_` prefix is inverted.** Version 1 adds `column_` to names that start with
  `[a-z_]`, not to names that do not.
- **The `_` prefix is inverted.** `reserved_or_unsupported` is true for names that *do* start
  with `[A-Za-z_]`, so versions 2 and 3 prefix `_` to ordinary names and leave names starting
  with a digit alone.
- **The ticket row is created late.** The row is inserted inside the background job
  (normalize/app.py:97-101), not on the request path. Until the job starts, `/status` answers 404.
- **Prompt mode creates no row.**
- **There is no "running" state.** A row is pending (status 0) or completed (status 1).
- **Partial writes are kept.** A step that meets a missing column or a failing cell keeps the
  columns it already rewrote in the frame. The failed job discards the frame, so this is not
  observable from outside.
- **A failed job's resource is a 500.** A failed job's row has no result, and `resource` joins
  None into a path, which raises. A job that has not finished has no result either, so its
  resource is a 500 too, where the endpoint's documentation promises a 404.
- **A failed store leaves the row pending.** If storing the frame raises in the callback (for
  example an export or zip error in `store_gdf`, which this model does not cover), the exception
  escapes before the row update at normalize/app.py:71-72, and the row stays pending for ever.
  The model's only storing abort is the unsupported-type branch, which a successful job never
  reaches (`App.JobOutcomeCases`).
- **A relative `OUTPUT_DIR` is prefixed twice.** The stored path already contains `OUTPUT_DIR`,
  and `resource` joins it onto `OUTPUT_DIR` again. Under a relative `OUTPUT_DIR` the file is
  then looked up at the wrong place (`App.RelativeOutputDirDoubled`).

## Left out

- File-system and archive I/O are not modelled. This covers saving uploads (`save_to_temp`,
  `secure_filename`), `mkdir`, temporary directories, `get_delimiter`, `make_zip`, the zip branch
  and directory walk of `uncompress_file` / `get_extracted_path`, and the export itself in
  `store_gdf`.
- Stored files are the map `files` from path to table. Whether a file exists is membership in it.
- `get_geodataframe`'s delimiter and CRS handling and its "Error while reading the file" abort
  live inside the loader parameter `Environment.load`. The model fixes only the type dispatch.
- Foreign libraries are parameters. This covers geovaex (loading, `make_valid`, `normalize`),
  nltk's `word_tokenize`, polyglot, `transliterate.translit`, `get_available_language_codes`,
  and `strptime`/`strftime`.
- Exception texts of those libraries are not modelled. A missing column's message is the
  parameter `Library.missingColumnMessage`. The message of `re.sub` on None is a fixed string.
- Character semantics are partly ASCII-only:
  - `str.lower` and `str.casefold` are ASCII-only.
  - `int()` accepts ASCII digits only, not other Unicode decimal digits.
  - `\s` and `str.split()` use Python's exact `isspace()` set.
- The clock is a parameter. The request time is the integer time at which the row is inserted.
  The execution time is an integer difference, not rounded seconds.
- `Status` reports the request time as that integer, not as ISO text.
- `uuid4` ticket generation is a precondition that the ticket is fresh (`FreshTicket`).
- The `tickets` table schema is not part of this model. A new row is assumed to have status 0,
  no success, no result and the current time.
- Concurrency is not modelled. The thread pool and the callback dispatch become two explicit
  steps: `RunJob` runs a queued job, and `Complete` runs the callback of a finished one.
- Form validation (`validate_form`, `forms.py`, `DataRequired` on the language field) is not
  modelled. A form is any `NormalizeForm` value.
- HTTP glue is not modelled: routing, `make_response`/`send_file` headers and MIME types, the
  OpenAPI document, CORS, the health check.
- Logging is not modelled.
- Cells are strings or None only (`Option<string>`). geovaex loads typed columns, so a numeric
  cell can reach the string transforms; there `date_normalization` would raise `TypeError`, which
  its `except ValueError` does not catch. Typed cells are not part of this model.
- `apply` is modelled as eager and in row order: every cell is evaluated inside its step. Lazy
  expression evaluation, under which a raising cell would surface only at the export in
  `store_gdf` (outside `enqueue`'s `try`), is not modelled.
- `transliteration_slow`'s polyglot call is one opaque function, including its language-not-
  supported fallback.
- `ColumnNames.ColumnNameNormalization`: the 63-character bound for versions 2 and 3 is proved
  only for headers with fewer than 10^61 names. Beyond that the suffix alone could exceed the
  limit.
- `ColumnNames.AvoidCollisions`: the length bound is stated only when the name and the longest
  possible suffix fit `max_length`. Otherwise the source's negative slice bound applies, and it
  is modelled but not bounded.
