# NAS Guard scanner, modelled in Dafny

NAS Guard indexes the files of a NAS share. It has two parts:

- A Python/Flask backend. It walks a directory tree and stores each file's path, name,
  suffix, size, mtime, MD5 digest and scan time in the SQLite table `nas_files`, whose
  `path` column is unique. A file's MD5 is reused when its stored size and mtime are
  unchanged, which makes a scan resumable. `start_scan` and `stop_scan` drive the scan
  through a shared `scan_state` dictionary. The scan thread commits in batches of 50.
- A React front end. It holds a mock backend (fake records, a demo login, a simulated
  scanner with a stop flag) and a results table. The table has a search filter, shows at
  most 100 rows, and exports the filtered records as CSV.

The Dafny project models these in nine modules, one per file:

- `Wrappers`: `Option`, for Python's `None`.
- `Text`: decimal rendering of numbers, ASCII lower-casing, substring search, and
  `join`/`split` on one character.
- `Hasher`: `calculate_md5` as a block-reading loop over a file given as bytes. The file
  may fail to open, or a given read call may raise. MD5 itself is an uninterpreted
  function `md5: seq<byte> -> string`.
- `FileIndex`: `nas_files` as a map from path to row, the upsert, `Path.suffix`, and the
  `get_results` query. `get_results` reads through its own connection (`get_db()`), so it
  sees only committed rows: `ListRecent` applies to `Server.committed`, not to
  `Server.index`.
- `ScanTask`: what one run of `background_scan_task` does, as pure functions of the walk.
  `ProcessEntry` is one file: stat, change check, hash, upsert, counters and batch commit.
  `ProcessAll` folds it over the files in walk order. The lemmas state the batching
  invariant, counter monotonicity and resumability.
- `ScanServer`: a class `Server` with fields `state` (`scan_state`), `index` (the rows as
  the scan thread's connection sees them) and `committed` (the rows other connections
  see). Its methods `StartScan` and `StopScan` are the two endpoints.
  `BackgroundScanTask` is the scan thread's nested loop, with `ScanDirectory` and
  `HandleFile` as its loop bodies. Each is proved to end in the state that `ProcessAll`
  gives.
- `Types`: the `FileRecord` record of the front end.
- `MockService`: `generateMockFiles`, with each random outcome as an input; `MockAuth.login`;
  and a class `MockScanner` with its `stopSignal` field.
- `ResultsTable`: the filter, the 100-row cap, and the CSV text. The CSV text is read back
  with a line-based reader for the quoted fields of RFC 4180, section 2. The reader splits
  the text at line breaks before it reads quoted fields.

How the environment appears in the model:

- **Walk.** `os.walk` is a sequence of directories (`WalkDir`), each with its files in
  order. For each file the walk gives what `Path.stat()` returns (`None` when it raises)
  and the file's bytes.
- **Stop requests.** A `stop_scan` that arrives while the scan thread runs is the oracle
  `stopBefore`. It is the position, in the walk's file order, of the first file before
  which the thread sees `status` no longer equal to "scanning". At that check the model
  calls `StopScan`.
- **Clocks.** `time.time()`, `datetime.now()` and `st_mtime` are opaque integers,
  compared only for equality (mtime) and order (`scanned_at`). `clock(k)` is the time of
  the k-th file's upsert.
- **Mock scanner stops.** In `MockScanner.ScanDirectory`, a `stop()` from another task
  is the oracle `stopDuring`. It names the iteration during whose 50 ms wait the call
  lands.

Quirks of the code that the model keeps:

- A file whose stat or hash fails gets no new or updated row and is not counted. A row it
  already had stays as it was. No `failed` row is ever
  written, and `nas_files` has no status column.
- `background_scan_task` always ends with status "completed", even after a stop.
- `stop_scan` sets "stopped" even when no scan runs.
- `start_scan` answers 200 when it starts a scan.
- The backend never marks a reused digest as "skipped".

## Model

| member | source | states |
|---|---|---|
| `Hasher.ReadBlock` | services/pythonScriptTemplate.ts:89 | one `f.read(8192)` returns the next at most 8192 bytes of the file. It is empty exactly at end of file and short only there. |
| `Hasher.ReadsNeededClosedForm` | services/pythonScriptTemplate.ts:89 | reading a file of n bytes takes ceil(n/8192) non-empty reads plus the final empty read. |
| `Hasher.ReadsNeeded` | services/pythonScriptTemplate.ts:89 | by definition, the number of `f.read(8192)` calls the loop makes on a file of a given length, counting the final empty read. |
| `Hasher.HashFails` | services/pythonScriptTemplate.ts:87-93 | by definition, whether `calculate_md5` ends in its `except`: the open fails, or one of the reads it makes raises. |
| `Hasher.Md5Of` | services/pythonScriptTemplate.ts:85-93 | by definition, what `calculate_md5` returns: None when it fails, otherwise the digest of the whole content. `CalculateMd5` is proved equal to it. |
| `Hasher.CalculateMd5` | services/pythonScriptTemplate.ts:85-93 | the loop feeds exactly the file's bytes, in order, to the digest. It returns `md5(content)`, or None when the open fails or one of the reads it makes raises. |
| `FileIndex.Upsert` | services/pythonScriptTemplate.ts:139-147 | by definition, the INSERT ... ON CONFLICT(path) DO UPDATE statement on the table of rows. `UpsertEffect` states its effect. |
| `FileIndex.UpsertEffect` | services/pythonScriptTemplate.ts:139-147 | an upsert adds `path` if it is new. Other paths keep their rows. The path's size, mtime, md5 and scanned_at take the new values. An existing row keeps its filename and extension. |
| `FileIndex.UpsertIdempotent` | services/pythonScriptTemplate.ts:139-147 | the same upsert done twice gives the same table as done once. |
| `FileIndex.UpsertCount` | services/pythonScriptTemplate.ts:61-71 | an upsert adds a row only for a path not yet present, so `path` stays unique. |
| `FileIndex.LastDot` | services/pythonScriptTemplate.ts:147 | gives the index of the last '.' in a name, or -1 when there is none. |
| `FileIndex.Suffix` | services/pythonScriptTemplate.ts:147 | by definition, pathlib's `p.suffix` of a file name. `SuffixShape` states its shape. |
| `FileIndex.SuffixShape` | services/pythonScriptTemplate.ts:147 | `p.suffix` is empty, or is a final '.' with at least one character and no further dot after it, not at the start of the name. It is empty exactly when no dot qualifies. |
| `FileIndex.ListRecent` | services/pythonScriptTemplate.ts:216 | `get_results` returns min(1000, rows) distinct rows of the table, newest `scanned_at` first. No row left out is newer than one returned. |
| `ScanTask.JoinPath` | services/pythonScriptTemplate.ts:117 | `os.path.join` gives an absolute name unchanged. Otherwise the result starts with the root and ends with the name. |
| `ScanTask.DirEntries` | services/pythonScriptTemplate.ts:114-117 | gives one entry per listed name, in order, each with its joined path. |
| `ScanTask.Entries` | services/pythonScriptTemplate.ts:111-117 | by definition, the files of the walk in the order the two loops visit them, each with its joined path. |
| `ScanTask.EntriesPrefix` | services/pythonScriptTemplate.ts:111-115 | the files of the first d directories come first in walk order. |
| `ScanTask.DirectorySlice` | services/pythonScriptTemplate.ts:111-115 | directory d's files follow directly after those of the directories before it. |
| `ScanTask.StartProgress` | services/pythonScriptTemplate.ts:102-108 | at the start of a scan, processed_count, total_size and pending_commits are 0, and both connections see the committed rows. The batching invariant holds, so `BatchInvAll` applies to every run from a scan's start. |
| `ScanTask.Unchanged` | services/pythonScriptTemplate.ts:129-133 | by definition, the resumable check: a stored row with equal mtime and equal size. |
| `ScanTask.Lookup` | services/pythonScriptTemplate.ts:129-130 | by definition, the SELECT by path with `fetchone`: the stored row, or None. `UnreachedRowsKept` and `MatchingRowsKeepRows` state what a run does to it. |
| `ScanTask.Truthy` | services/pythonScriptTemplate.ts:138 | by definition, Python's `if md5_val:` on an optional digest: present and non-empty. `DigestsStayPresent` states its consequence. |
| `ScanTask.Written` | services/pythonScriptTemplate.ts:124-138 | by definition, whether a file's step upserts a row: its stat succeeds and its digest is truthy. `ProcessEntryEffect` and `HashableRunCountsAll` state what follows. |
| `ScanTask.Hashes` | services/pythonScriptTemplate.ts:133-136 | by definition, whether a file's step calls `calculate_md5`: its stat succeeds and its stored row does not match. `ProcessEntryEffect` and `MatchingRowsNeedNoHash` state what follows. |
| `ScanTask.DigestFor` | services/pythonScriptTemplate.ts:132-136 | by definition, the digest the loop body ends up with: the stored md5 when the row is unchanged, otherwise `calculate_md5`'s result. |
| `ScanTask.ProcessEntry` | services/pythonScriptTemplate.ts:117-158 | by definition, one pass of the inner loop body as a function of the progress state. `ProcessEntryEffect` states what it does. |
| `ScanTask.ProcessAll` | services/pythonScriptTemplate.ts:114-158 | by definition, the loop body applied to the files in walk order. The lemmas below state what every run satisfies. |
| `ScanTask.ProcessEntryEffect` | services/pythonScriptTemplate.ts:117-158 | one file sets current_file. A written file adds 1 and its size to the counters and upserts its digest. A stat failure or a None/empty digest changes nothing else. pending_commits stays below 50. For a written file, pending_commits grows by one, and when it reaches 50 the rows are committed and it resets to 0. calculate_md5 runs exactly when the stat succeeds and no stored row has equal mtime and size. |
| `ScanTask.NothingPendingIsFlushed` | services/pythonScriptTemplate.ts:153-155 | when pending_commits is 0, the committed rows equal the connection's rows. |
| `ScanTask.BatchInvStep` | services/pythonScriptTemplate.ts:149-155 | one file keeps pending_commits below 50. The committed rows differ from the connection's in at most pending_commits paths. |
| `ScanTask.BatchInvAll` | services/pythonScriptTemplate.ts:108-155 | the batching invariant holds after every file of a run. |
| `ScanTask.CountersGrow` | services/pythonScriptTemplate.ts:149-151 | processed_count and total_size never decrease, and processed_count grows by at most the number of files reached. |
| `ScanTask.DigestsStayPresent` | services/pythonScriptTemplate.ts:138 | only truthy digests are stored, so no row gets an empty md5. |
| `ScanTask.UnreachedRowsKept` | services/pythonScriptTemplate.ts:139-147 | rows of paths the run does not reach are left as they were. |
| `ScanTask.HashableRunCountsAll` | services/pythonScriptTemplate.ts:149-151 | when every file stats and hashes, and every stored row has a non-empty md5, processed_count grows by the number of files and total_size by the sum of their sizes. |
| `ScanTask.RunRecordsStats` | services/pythonScriptTemplate.ts:139-147 | after a run over files with distinct paths, each of which hashes to a non-empty digest when its stat succeeds, each statted file's row records the size and mtime its stat gave. |
| `ScanTask.MatchingRowsNeedNoHash` | services/pythonScriptTemplate.ts:133-134 | when every file's row records its current stat, the run calls calculate_md5 on none of them. |
| `ScanTask.MatchingRowsKeepRows` | services/pythonScriptTemplate.ts:133-147 | a run over files whose rows record their stat adds no path and drops none. Each row keeps its filename, extension, size, mtime and md5; only scanned_at may change. |
| `ScanTask.RescanHashesNothing` | services/pythonScriptTemplate.ts:128-147 | resumability: suppose every file of a first scan stats and hashes, and no path repeats. Then a second scan over the unchanged files, straight after the first, computes no hash. It keeps the same set of paths, and every row's md5, size, mtime, filename and extension. |
| `ScanTask.ProcessAllStep` | services/pythonScriptTemplate.ts:114-158 | the run over one more file is the run so far followed by the loop body on that file. |
| `ScanTask.NextEntry` | services/pythonScriptTemplate.ts:114-117 | inside directory d's part of the walk, the j-th step handles d's j-th file under its joined path. |
| `ScanServer.HttpStatus` | services/pythonScriptTemplate.ts:188-200 | Started is 200, InvalidPath is 400 and AlreadyRunning is 409, each exactly. |
| `ScanServer.StartDecision` | services/pythonScriptTemplate.ts:188-194 | the reply is 400 exactly for a missing, empty or nonexistent path. It is 409 exactly for a valid path while a scan is marked running. Otherwise the scan starts on the given path. |
| `ScanServer.Reached` | services/pythonScriptTemplate.ts:112-115 | the scan handles the files before the stop position, or all files when no stop lands. |
| `ScanServer.Server.constructor` | services/pythonScriptTemplate.ts:19-26 | at process start, scan_state is idle with zero counters, and both views are the database's rows. |
| `ScanServer.Server.StopScan` | services/pythonScriptTemplate.ts:206-211 | stop_scan sets status to "stopped" and is_scanning to false, whatever the state, and changes nothing else. |
| `ScanServer.Server.StartScan` | services/pythonScriptTemplate.ts:183-200 | gives the reply `StartDecision` gives. Only a Started reply changes scan_state, by setting is_scanning. |
| `ScanServer.Server.HandleFile` | services/pythonScriptTemplate.ts:117-158 | the imperative loop body changes the rows, the counters, current_file and pending_commits exactly as `ProcessEntry` does. Status, start_time and is_scanning are untouched. |
| `ScanServer.Server.ScanDirectory` | services/pythonScriptTemplate.ts:114-158 | the inner loop handles this directory's files in order until the stop position. It ends in the `ProcessAll` state of the files reached. While the scan still runs, is_scanning is as on entry. After a stop it is false. |
| `ScanServer.Server.BackgroundScanTask` | services/pythonScriptTemplate.ts:95-165 | after the scan, both views hold the rows `ProcessAll` gives for the files before the stop position (the final commit). scan_state holds its counters and current_file with start_time and status "completed", and is_scanning is false. |
| `Types.StatusText` | types.ts:9 | each status is written as a non-empty lower-case word. |
| `Text.NatToString` | components/ResultsTable.tsx:27 | a whole number is written in decimal digits with no leading zero. |
| `Text.ParseNatToString` | services/mockService.ts:14 | decimal rendering reads back as the same number. |
| `Text.NatToStringInjective` | services/mockService.ts:14 | two numbers have the same decimal rendering exactly when they are equal. |
| `Text.Lower` | components/ResultsTable.tsx:14-15 | `toLowerCase` keeps the length and lower-cases each character (ASCII only). |
| `Text.LowerIdempotent` | components/ResultsTable.tsx:14-15 | lower-casing twice is lower-casing once. |
| `Text.Contains` | components/ResultsTable.tsx:14-15 | by definition, `String.prototype.includes` as a search from the left. `ContainsIff` states its meaning. |
| `Text.ContainsIff` | components/ResultsTable.tsx:14-15 | `includes` holds exactly when the term occurs at some position. |
| `Text.ContainsEmpty` | components/ResultsTable.tsx:14-15 | every string includes the empty string. |
| `Text.Join` | components/ResultsTable.tsx:33-36 | `join` of a single part is that part. |
| `Text.SplitJoin` | components/ResultsTable.tsx:33-36 | splitting a join of one or more parts at its separator gives the parts back when no part holds the separator. |
| `MockService.GenerateMockFiles` | services/mockService.ts:4-25 | returns exactly `count` records, record i being built from the i-th draws. |
| `MockService.MockRecord` | services/mockService.ts:13-22 | by definition, the record built for index i from its random draws. `MockRecordShape` states its shape. |
| `MockService.MockRecordShape` | services/mockService.ts:13-22 | record i has id "file-" followed by i in decimal, and path base + "/" + filename. Its extension is "." plus one of the seven types, and the filename ends with it. Its status is scanned or skipped, never failed, and its size is below 500 MiB. |
| `MockService.MockRecordsDistinct` | services/mockService.ts:10-16 | two records of one run never share an id, a file name or a path. |
| `MockService.NameIndexUnique` | services/mockService.ts:10 | names built from different indices differ, whatever their random tokens. |
| `MockService.MockExtensionIsSuffix` | services/mockService.ts:10-17 | the mock extension equals the `Path.suffix` the backend would store for the file name. |
| `MockService.Login` | services/mockService.ts:27-38 | admin/admin logs in. In general a login succeeds exactly when the user name is non-empty. |
| `MockService.LoginIgnoresPassword` | services/mockService.ts:32-36 | the password never changes the outcome. |
| `MockService.ProgressCalls` | services/mockService.ts:56-63 | a scan makes at most 200 progress calls, and fewer only when stop() lands before the last wait. |
| `MockService.MockScanner.constructor` | services/mockService.ts:42 | a new scanner has its stop flag down. |
| `MockService.MockScanner.Stop` | services/mockService.ts:44-46 | stop() raises the flag. |
| `MockService.MockScanner.ScanDirectory` | services/mockService.ts:48-66 | reports the generated records in index order, one per iteration, up to and including the iteration whose wait saw stop(), then no more. It returns [] if stopped during the scan and all 200 records otherwise. The flag ends up raised exactly when a stop landed. |
| `ResultsTable.Matches` | components/ResultsTable.tsx:13-16 | by definition, the filter's test: the lower-cased filename or path includes the lower-cased term. |
| `ResultsTable.Filter` | components/ResultsTable.tsx:12-17 | the filter returns no more records than it is given. |
| `ResultsTable.FilterMembers` | components/ResultsTable.tsx:13-16 | a record is in the filtered list exactly when it is in the data and its lower-cased filename or path contains the lower-cased term. |
| `ResultsTable.FilterIsSubsequence` | components/ResultsTable.tsx:12-17 | the filtered list is a subsequence of the data, so the order is kept. |
| `ResultsTable.FilterEmptyTerm` | components/ResultsTable.tsx:10-17 | the empty term, the search box's initial value, keeps every record. |
| `ResultsTable.FilterAppend` | components/ResultsTable.tsx:13 | filtering works record by record: filtering two lists joined gives their filtered lists joined. |
| `ResultsTable.FilterIdempotent` | components/ResultsTable.tsx:12-17 | filtering twice with one term equals filtering once. |
| `ResultsTable.CaseInsensitive` | components/ResultsTable.tsx:14-15 | the result does not depend on the (ASCII) case of the term. |
| `ResultsTable.Displayed` | components/ResultsTable.tsx:108 | the table renders at most 100 records: a prefix of the filtered list. |
| `ResultsTable.ShowsOverflowNote` | components/ResultsTable.tsx:127 | by definition, the condition `filteredData.length > 100`. `OverflowNoteIffHidden` states its meaning. |
| `ResultsTable.OverflowNoteIffHidden` | components/ResultsTable.tsx:127-131 | the overflow note appears exactly when some filtered record is not rendered. Then exactly 100 are rendered, and otherwise all are. |
| `ResultsTable.Cells` | components/ResultsTable.tsx:22-31 | each row has eight cells, as many as there are headers. The order of the fields follows the headers by definition. |
| `ResultsTable.QuoteAll` | components/ResultsTable.tsx:35 | there is one quoted cell per cell. Each cell is wrapped in quotes, without escaping, by definition. |
| `ResultsTable.Quote` | components/ResultsTable.tsx:35 | by definition, the `"${cell}"` wrapping, with no escaping. |
| `ResultsTable.RowLine` | components/ResultsTable.tsx:35 | by definition, a record's quoted cells joined with commas. `RowReadsBack` states that it reads back. |
| `ResultsTable.HeaderLine` | components/ResultsTable.tsx:33-34 | by definition, the header names joined with commas, unquoted. `HeaderReadsBack` states that it reads back. |
| `ResultsTable.ExportCsv` | components/ResultsTable.tsx:33-36 | by definition, the header line and the row lines joined with line breaks. `ExportLines` and `ExportReadsBack` state its content. |
| `ResultsTable.RowLines` | components/ResultsTable.tsx:35 | there is one data line per filtered record. |
| `ResultsTable.Lines` | components/ResultsTable.tsx:33-36 | there is one more line than there are filtered records. |
| `ResultsTable.RowLineNoBreak` | components/ResultsTable.tsx:35 | a record whose text fields hold no line break gets a data line without one. |
| `ResultsTable.HeaderLineNoBreak` | components/ResultsTable.tsx:21 | the header line holds no line break. |
| `ResultsTable.LinesNoBreak` | components/ResultsTable.tsx:33-36 | when no record's text field holds a line break, no line of the export holds one. |
| `ResultsTable.ExportLines` | components/ResultsTable.tsx:33-36 | when no record's text field holds a line break, the CSV's lines are the header names joined by commas, then exactly one line per filtered record, in filtered order. |
| `ResultsTable.ParseQuotedRow` | components/ResultsTable.tsx:35 | one or more cells holding no double quote, quoted and joined by commas, read back as the cells, commas inside cells included. |
| `ResultsTable.ParsePlainRow` | components/ResultsTable.tsx:21 | one or more unquoted cells without commas or quotes, joined by commas, read back as the cells. |
| `ResultsTable.HeaderReadsBack` | components/ResultsTable.tsx:21 | the header line reads back as the eight header names. |
| `ResultsTable.RowReadsBack` | components/ResultsTable.tsx:22-35 | when no text field of the record holds a quote or a line break, its line reads back as its eight cells. |
| `ResultsTable.RowsReadBack` | components/ResultsTable.tsx:35 | when no text field of any filtered record holds a quote or a line break, the data lines read back as the records' cells, in order. |
| `ResultsTable.ExportReadsBack` | components/ResultsTable.tsx:19-36 | round trip: a line-based reader for RFC 4180's quoted fields gets the headers back, then each filtered record's eight cells in order. This holds when no text field holds a quote or a line break. |
| `ResultsTable.InnerQuoteBreaksRow` | components/ResultsTable.tsx:35 | the quoting does not escape: a record whose id holds no quote and whose file name is `a"b` gets a data line that the RFC 4180 field reader rejects. |

## Left out

- Threads and `scan_lock`. The endpoints and the scan thread run one after the other. Races
  are not modelled: `get_status` reading without the lock, a `stop_scan` clearing
  `is_scanning` while the old thread runs on, or a second thread started after that.
- `get_status` only returns `scan_state`. It is the `state` field and has no operation of
  its own.
- Flask routing, JSON bodies, `get_db`/`close_connection`, `init_db`'s table creation, the
  `idx_path` index and the AUTOINCREMENT `id` column. Only the unique-path semantics of
  `nas_files` is kept.
- `/api/login`, the default admin user and werkzeug password hashing. These are calls into
  code that is not part of this model.
- MD5 internals (hashlib). The digest is the uninterpreted `md5`, and the model does not
  check that it is 32 hex characters.
- Filesystem calls. `os.walk` is given as a sequence, and `os.path.exists` as a boolean
  input of `StartScan`. `str(p)` is taken to be the joined path unchanged: Path's
  normalisation (collapsing `//`, dropping `.` parts) is not modelled.
- Exceptions from the database inside the per-file `try`. A failing `cursor.execute` or
  `commit` is not modelled. Only stat failures and hash failures are.
- `ScanServer.Server.BackgroundScanTask`: exceptions from `sqlite3.connect` (line 99) and
  from the final `conn.commit()` (line 160) are not modelled. Both calls sit outside any
  `try`, and the method's contract, which ends in "completed" with `is_scanning` false,
  covers only runs in which neither raises. If `sqlite3.connect` raises, the thread ends
  before line 103: `status` keeps its value from before the start, `is_scanning` stays
  true from `start_scan`, and every later `start_scan` answers 409 until a `stop_scan`.
  If the final `conn.commit()` raises, the upserts since the last batch commit are never
  committed. The state is then `status` "scanning" with `is_scanning` true, which blocks
  later starts in the same way; after a stop it is "stopped" with `is_scanning` false.
- `ScanServer.Server.BackgroundScanTask`: `current_file` keeps its value from before the
  run until the first file, as in the code. The model does not say what `get_status`
  shows during the run.
- Floating-point values: `st_mtime` and `time.time()` become opaque integers, and
  `scanned_at` ISO strings become integers ordered like the strings.
- `Text.Lower`: only ASCII letters are lower-cased. JavaScript's full Unicode
  `toLowerCase` is not modelled.
- `ResultsTable.Cells`: sizes are written as whole decimals. JavaScript writes numbers
  of 1e21 and above in exponent notation, and the mock sizes stay far below that.
- The randomness in `generateMockFiles`: the draws are inputs. The `setTimeout` delays
  and the login's 800 ms wait are left out. The progress percentage passed to
  `onProgress` is a float and is not modelled; only the records passed are.
- The browser download in `handleExport`: Blob, object URL, link element and file name.
  Also left out are the MB formatting with `toFixed`, the status icons and the "No Scan
  Results Yet" placeholder.
- `ScanStats` in `types.ts` and the files that use it (`ScanControl.tsx`, `App.tsx`,
  `Login.tsx`, `ServerSetupGuide.tsx`). They are presentation only.
