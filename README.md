# passkey — a verified model of the batch PDF encryptor

`passkey.py` reads (filename, password) pairs from a spreadsheet and
encrypts the matching PDFs of the working directory. It writes each
encrypted copy into an output directory, or over the original in place mode.
This project models its core in Dafny and proves what the script promises:

- **Header detection** (`norm`, `detect_columns`). Row 0 is a header exactly
  when one of its cells matches a filename or password header name. The match
  ignores case and surrounding whitespace. The last matching column wins, and
  columns 0 and 1 are the fallbacks.
- **Loading** (the row loop of `load_mapping_from_excel`). Each data row
  either contributes a trimmed, non-empty (filename, password) pair or is
  dropped. The result is an insertion-ordered dictionary, in which a later
  row overwrites an earlier one for the same filename.
- **Resolution** (`resolve_pdf_path`):
  - The name is stripped, and `.pdf` is appended unless the name already ends
    in `.pdf` in any case.
  - The exact path is preferred.
  - Otherwise the first directory entry equal to the name ignoring case that
    is a regular file is chosen.
- **The batch** (`main`, `encrypt_pdf`):
  - Every entry is counted once: as encrypted, skipped (file not found) or
    failed. A failure never stops the loop.
  - The owner password defaults to the user password.
  - In place mode writes a temporary file and then replaces the original;
    otherwise the copy keeps its file name inside the output directory.
  - The exit status is 2 when no usable mapping was read. Otherwise it is 0
    exactly when no entry failed, so a run in which every file was skipped
    also ends with 0.

Files:
- `wrappers.dfy`: `Option` and `Result`.
- `text.dfy`: Python's `strip()` with the full `str.isspace()` set, and ASCII
  `lower()`.
- `ordered_dict.dfy`: Python dictionaries as ordered association lists.
- `mapping_loader.dfy`: cells, header detection and loading.
- `path_resolver.dfy`: `posixpath.join` and `basename`, and resolution.
- `batch_driver.dfy`: the batch loop, the counters and the exit status.

Each imperative function of the script is a method with a loop, proved equal
to a specification function. The methods are `ScanHeader`/`DetectColumns`,
`FillMapping`/`LoadMapping`, `ResolvePdfPath` and `RunBatch`/`RunTool`. The
properties are proved as lemmas about those specification functions.

The outside world is passed in as values:
- The workbook: its sheets as rows of cells, or `None` when it cannot be
  opened.
- Whether the spreadsheet file exists.
- The directory listing, and `isFile`, the answer of `os.path.isfile`.
- The outcome of each `encrypt_pdf` call: saved, or raised `PasswordError`
  or another exception. It is a function of the request and of every action
  the run performed before it, so an earlier in-place rewrite of the same
  file can change a later encryption of it.
- Whether `os.replace` succeeded, likewise given the actions before it.

## Model

| member | source | states |
|---|---|---|
| Text.Trim | passkey.py:26 | `strip()` leaves no whitespace at either end and never lengthens the string |
| Text.TrimRemovesOnlySpace | passkey.py:26 | `strip()` removes only whitespace: the result is a contiguous slice of the input, with only whitespace before and after it |
| Text.TrimTrimmed | passkey.py:26 | stripping an already stripped string changes nothing |
| Text.TrimAllSpace | passkey.py:87 | a cell consisting only of whitespace strips to the empty string, so it counts as blank |
| Text.TrimIgnoresPadding | passkey.py:93-94 | whitespace added on either side does not change the stripped text |
| Text.LowerAppend | passkey.py:109-115 | lowering works character by character, so lowering a concatenation lowers each part |
| Text.LowerIdempotent | passkey.py:26 | lowering twice is lowering once |
| Text.LowerTrim | passkey.py:26 | lowering and stripping commute, so `norm` can do them in either order |
| OrderedDict.Get | passkey.py:96 | a lookup finds nothing exactly when the key is absent, and otherwise finds a stored pair |
| OrderedDict.Put | passkey.py:96 | assignment keeps an existing key at its position and appends a new key at the end; no other pair moves |
| OrderedDict.PutGet | passkey.py:96 | after `d[k] = v` the key reads `v` and every other key reads as before |
| OrderedDict.PutUnique | passkey.py:96 | assignment keeps keys unique |
| OrderedDict.Build | passkey.py:80-96 | a dictionary built by successive assignments has unique keys |
| OrderedDict.BuildPairs | passkey.py:80-96 | every stored pair was assigned by some entry |
| OrderedDict.BuildHasKey | passkey.py:80-96 | a key is present exactly when some entry assigns it |
| OrderedDict.BuildLastWins | passkey.py:80-96 | the stored value is the one given by the last entry assigning that key |
| MappingLoader.NatToDecimal | passkey.py:87 | `str()` of a non-negative integer is a non-empty string of digits; it starts with `0` only for 0 itself, and has more than one digit exactly from 10 on |
| MappingLoader.NatToDecimalValue | passkey.py:87 | the digits `str()` writes for a non-negative integer denote that integer |
| MappingLoader.IntToDecimal | passkey.py:87 | `str()` of an integer is non-empty; it starts with `-` exactly when the integer is negative, and every other character is a digit |
| MappingLoader.IntToDecimalValue | passkey.py:87 | the text `str()` writes for an integer reads back as that integer |
| MappingLoader.IntToDecimalInjective | passkey.py:87 | two integers with the same `str()` text are equal, so distinct numeric filenames stay distinct keys |
| MappingLoader.NormCellNormalised | passkey.py:25-26 | a normalised cell has no surrounding whitespace and no upper-case letter |
| MappingLoader.NormIgnoresCaseAndPadding | passkey.py:34 | a padded cell normalises to the same value as any text differing from it only in case |
| MappingLoader.PaddingKeepsHeaderText | passkey.py:25-26 | padding a text cell with whitespace and changing the case of its letters leaves it the same header text |
| MappingLoader.LastAlias | passkey.py:39-43 | finds the last value in the alias set, or none exactly when no value is in it |
| MappingLoader.HeaderColumns | passkey.py:45-56 | a header exactly when some value is a header name; the columns are the last alias or the defaults 0 and 1; no header gives (0, 1, False) |
| MappingLoader.ScanHeader | passkey.py:36-56 | the single-pass loop gives exactly `HeaderColumns` of the values |
| MappingLoader.DetectedIgnoresCaseAndPadding | passkey.py:29-56 | two first rows whose cells differ only in case and surrounding whitespace give the same columns and the same header verdict |
| MappingLoader.DetectColumns | passkey.py:29-56 | `detect_columns` gives exactly `DetectedColumns` of the first row |
| MappingLoader.NumberNeverBlank | passkey.py:87-89 | an integer cell is never blank |
| MappingLoader.RowEntriesAt | passkey.py:80-94 | the `i`-th contribution of the row loop is exactly row `i`'s own pair or drop |
| MappingLoader.RowEntry | passkey.py:82-94 | a row is dropped exactly when it is `None`, or either target cell is missing or blank; a kept pair is the two cells' stripped texts, both non-empty |
| MappingLoader.LoadRows | passkey.py:80-98 | the loaded mapping has unique keys, and every filename and password in it is stripped and non-empty |
| MappingLoader.LoadRowsHasKey | passkey.py:96 | a filename is loaded exactly when some row supplies it |
| MappingLoader.LoadRowsLastWins | passkey.py:96 | a filename's password is the one from the last row supplying that filename |
| MappingLoader.RowTouchesOnlyItsKey | passkey.py:96 | a row leaves every filename it does not supply as it was |
| MappingLoader.SelectSheet | passkey.py:65-70 | a non-empty sheet name must name a sheet or loading fails with that name; otherwise the active sheet is read |
| MappingLoader.Loaded | passkey.py:64-98 | an unreadable workbook and an empty sheet are errors; a loaded mapping is well formed |
| OrderedDict.LastAssignmentShift | passkey.py:81 | entry `i` of the entries from `start` on is the last assignment there exactly when entry `start + i` is the last assignment of all entries |
| MappingLoader.SuffixSupplier | passkey.py:81 | a last supplier among the rows from `start` on exists exactly when one exists among all rows at or after `start` |
| MappingLoader.LoadSuffixLastWins | passkey.py:78-81 | loading from the first data row on: only rows at or after it decide a password |
| MappingLoader.LoadedLastWins | passkey.py:76-98 | row 0 is skipped exactly when it was a header, and the last supplying data row decides each password |
| MappingLoader.FillMapping | passkey.py:80-98 | the row loop builds exactly `LoadRows` of the data rows |
| MappingLoader.LoadMapping | passkey.py:59-98 | `load_mapping_from_excel` returns or raises exactly what `Loaded` says |
| PathResolver.Join | passkey.py:120 | an absolute second part replaces the first; otherwise the result starts with the first part and ends with the second, with a `/` inserted between them exactly when the first part is non-empty and does not already end in `/` |
| PathResolver.Basename | passkey.py:211 | the basename contains no `/` and is no longer than the path |
| PathResolver.BasenameIsLastComponent | passkey.py:211 | the basename is the tail of the path after its last `/` |
| PathResolver.BasenameJoin | passkey.py:211 | joining a plain file name onto a directory and taking the basename gives the file name back |
| PathResolver.CandidateBaseShape | passkey.py:110-117 | the candidate always ends in `.pdf`, starts with the stripped name, and differs from it exactly when the name lacked the extension |
| PathResolver.CandidateBaseIdempotent | passkey.py:110-117 | forming the candidate twice gives the same candidate |
| PathResolver.FirstMatchFrom | passkey.py:125-128 | finds the first listed entry that equals the target ignoring case and is a file, or none exactly when there is no such entry |
| PathResolver.LocateMeaning | passkey.py:119-130 | a returned path is a regular file; the exact candidate is preferred; otherwise the first case-insensitive listing match is returned; nothing is returned exactly when neither exists |
| PathResolver.ResolvedNonEmpty | passkey.py:198-199 | a found path is never the empty string |
| PathResolver.ResolveIgnoresPadding | passkey.py:107 | whitespace around the spreadsheet's filename does not change which file is found |
| PathResolver.ResolveExtensionOptional | passkey.py:104-117 | writing `a` or `a.pdf` in the spreadsheet finds the same file |
| PathResolver.ResolvePdfPath | passkey.py:101-130 | the step-by-step lookup returns exactly `ResolvedPath` |
| BatchDriver.Tally | passkey.py:191-221 | every outcome is counted in the total and in exactly one of ok, skipped and failed; nothing failed exactly when no outcome is a failure |
| BatchDriver.TallyCountsKinds | passkey.py:191-221 | `ok` is the number of encrypted entries and `skipped` the number of entries whose file was not found |
| BatchDriver.BatchStep | passkey.py:196-221 | one more entry adds its outcome to the tally and appends its actions to the log |
| BatchDriver.RunResultsAt | passkey.py:196 | result `i` of the loop belongs to entry `i` of the mapping, in the dictionary's order, processed after the actions of all earlier entries |
| BatchDriver.RunLogPrefix | passkey.py:196-221 | the actions of the first `i` entries are a prefix of the run's actions: later entries only append |
| BatchDriver.RunLogKeeps | passkey.py:196-221 | a property of the action log that holds initially and that every entry's actions preserve holds for the whole run |
| BatchDriver.EveryEntryProcessed | passkey.py:196-221 | every entry is processed, in order, on the files as the earlier entries left them; an earlier failure does not stop the loop, and affects a later entry only through the actions it performed |
| BatchDriver.ProcessEntry | passkey.py:197-221 | one iteration yields exactly that entry's outcome and file-system actions, given the actions performed before it |
| BatchDriver.EncryptResolved | passkey.py:198-221 | once the file is resolved, the rest of the iteration yields exactly the outcome and actions for that file |
| BatchDriver.Count | passkey.py:196-221 | each entry raises `total` and exactly the counter of its outcome by one, leaving the other counters as they were |
| BatchDriver.RunBatch | passkey.py:191-221 | the loop's counters are the tally of all entries' outcomes, and its actions are the entries' actions in order |
| BatchDriver.RunTool | passkey.py:173-230 | the exit status is `ExitCode`; a run that stops with 2 processes no entry and touches no file |
| BatchDriver.ExitCodeMeaning | passkey.py:173-230 | exit 2 exactly when the spreadsheet is missing, unreadable or yields no pair; else 0 exactly when no entry failed, 1 exactly when some entry failed |
| BatchDriver.SkippedIffUnresolved | passkey.py:198-202 | whatever was done before, an entry is skipped exactly when its file is not found, and it performs no action exactly then |
| BatchDriver.FailedIff | passkey.py:204-221 | an entry fails exactly when its file was found and encrypting it (after the earlier actions) raised, or the in-place replace that follows the encryption failed; `PasswordError` comes only from the encryption |
| BatchDriver.RequestShape | passkey.py:205-213 | the request reads the found file with the row's password; the owner password defaults to it; in place mode writes exactly the input path plus the temporary suffix, never the original; otherwise the output starts with the output directory, keeps the input's basename, and is at most one separator longer than the two together |
| BatchDriver.EntryRequestsSound | passkey.py:138 | every encryption an entry issues uses the owner default, and writes the input path plus the temporary suffix in place mode, otherwise exactly the output directory joined with the input's basename |
| BatchDriver.BatchRequestsSound | passkey.py:138 | every encryption of the whole run uses the owner default, and writes the input path plus the temporary suffix in place mode, otherwise exactly the output directory joined with the input's basename |
| BatchDriver.EntryReplacesFollow | passkey.py:205-208 | appending one entry's actions keeps every replace right after a successful in-place encryption (judged on the actions before it) whose temporary output it moves over that encryption's input |
| BatchDriver.AllActionsAppend | passkey.py:196-221 | a property every action of two logs has holds for their concatenation |
| BatchDriver.BatchReplacesFollow | passkey.py:205-208 | every replace of the run comes right after the successful in-place encryption whose temporary output it moves over that encryption's input |

## Left out

- Opening the workbook (`openpyxl.load_workbook`, `iter_rows`) is not modelled. The workbook arrives as sheets of rows, or `None` when it cannot be read.
- Non-integer cell values (floats, dates, booleans) are not rendered by the model. They carry their `str()` text as given.
- `Text.Lower`: lower-cases ASCII letters only, whereas Python's `str.lower()` also lowers other alphabets. This matters only for non-ASCII file names that differ in case.
- The directory listing and `isFile` are fixed during a run: files the run creates or replaces do not change which file a name resolves to. The encryption and replace outcomes do see every earlier action. A failing `os.listdir` is not modelled.
- In the `.pdf` branch of `resolve_pdf_path` the exact path is checked twice. With a fixed directory both checks give the same answer, so `ResolvedPath` checks once. `ResolvePdfPath` makes both calls.
- Paths follow POSIX `posixpath`. Windows drive letters and `\` separators are not modelled, nor is file-system case folding.
- The PDF library is an outcome per request: saved, `PasswordError`, or another error. What is written, and the AES-256 (R=6) settings, are not modelled.
- `os.replace` is an outcome (succeeded or raised). Its atomicity is not modelled, and neither is the temporary file left behind when it fails.
- `os.makedirs` for the output directory is assumed to succeed; a failure there would abort the script uncaught.
- Argument parsing and all printed messages are not modelled. The `[OK]` messages are printed inside the `try` block, so a print that raised (a console unable to encode the file name, say) would turn an already encrypted, and in place mode already replaced, file into a failure; the model counts it as encrypted. `--sheet`, `--outdir`, `--inplace` and `--owner` arrive as `Options`.
- `RequestShape`: in output-directory mode the output path is not proved distinct from the input. With `--outdir ""` the joined output equals the found input path.
- `BatchDriver.ProcessEntry` returns the entry's outcome, and `RunBatch` then lets `Count` increment `total` and the matching counter. The script increments the counters inside each branch; the counts are the same.
