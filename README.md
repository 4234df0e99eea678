# Batch image downloader — the task core

The service takes a spreadsheet and a list of column names, downloads the
image behind every non-empty cell of those columns into a per-task work
directory, reports progress while it runs, and hands out a zip archive of
the work directory at the end. This project models the sequential core of
`app.py` and proves properties of it:

- **Filename resolver** (`get_filename_from_url`), modules `Urls`, `Utf8`,
  `Paths` and `Filenames`: the path component as Python's `urlparse` finds it
  (leading blanks and tab/CR/LF removed, `scheme:` and `//authority` split
  off, the path cut at the first `?` or `#`, and the `;params` of its last
  segment cut off for the schemes that have them), its last segment, and
  `unquote` of that segment (runs of ASCII characters turned into bytes,
  `%HH` escapes included, and decoded as UTF-8 with U+FFFD for ill-formed
  bytes). An empty segment gives `"file.jpg"`. A reference encoder (every
  UTF-8 byte as `%HH`) is the partner of the decoder.
- **Fetcher** (`download_image`), module `Fetcher`: the retry loop as a
  method, proved against a recursive reference function. The network, the
  status check and the file write are one outcome per attempt (written,
  failed without a file, failed after creating the file); the back-off
  sleeps are recorded in a ghost list.
- **Orchestrator** (`download_task`), module `Tasks`: a `Task` class whose
  fields are the task record. The run validates the requested columns in
  order and stops at the first missing one, builds the work units column by
  column, counts every completion in submission order, and archives. Its
  invariant `Valid()` states `done <= total`, `progress` as the share done,
  the column table holding exactly the requested columns, and the error
  text and archive path present only in the matching terminal state. A run
  starts only from `pending`, so a finished or failed task is never written
  again.
- **Task table and handlers** (`TASKS`, `upload`, `progress`, `download`),
  module `Registry`: a class holding the map from id to task, with creation,
  the progress lookup (404 for an unknown id) and the download lookup (400
  "任务未完成" unless the task is known and `done`).

A missing column leaves the counts of the columns checked before it
recorded, and no unit is fetched (`Tasks.Task.Run`). Progress is computed in
floating point (see `Tasks.Percent` below). The archiver is given the
archive path with every `.zip` removed, as the code does; the finding below
shows where that differs from stripping the suffix. URL parsing follows
Python 3.12's `urlsplit` (leading C0 controls and spaces stripped, a scheme
starting with a letter); the code pins no Python version, and older
versions differ in these details.

## Model

| member | source | states |
|---|---|---|
| `Utf8.Decode` | app.py:47 | decoding never yields more characters than bytes, and yields nothing exactly for no bytes |
| `Utf8.DecodeAscii` | app.py:47 | bytes below 0x80 decode one-for-one to the characters with the same code |
| `Utf8.DecodeAppendAscii` | app.py:47 | an ASCII byte appended to a byte run decodes to its own character after the run's decoding |
| `Utf8.DecodeEncode` | app.py:47 | decoding the UTF-8 encoding of any string gives the string back |
| `Urls.PathEnd` | app.py:45 | the path stops at the first `?` or `#` after its start and contains neither |
| `Urls.UrlPath` | app.py:45 | `urlparse(url).path` of the cleaned URL: holds no `?` or `#`; `PathEndUnique` pins where it ends and `Filenames.RawNameIsBasename` relates it to the raw segment |
| `Urls.ParamsCut` | app.py:45 | under a scheme with `;params` the path is cut at the first `;` of its last segment, or at its end when there is none; under any other scheme it is not cut |
| `Urls.Unquote` | app.py:47 | unquoting a non-empty segment gives a non-empty name |
| `Urls.UnquoteRun` | app.py:47 | the general branch of `unquote` (ASCII runs with `%HH` escapes collected as bytes and decoded as UTF-8 with replacement) yields something whenever there is input; `UnquoteRunEscapes` and `UnquoteQuote` state its round trip with the reference encoder |
| `Urls.UnquoteWithoutPercent` | app.py:47 | a segment without `%` is returned unchanged by the general decoding too |
| `Urls.EscapedAscii` | app.py:47 | `%HH` of an ASCII byte between plain ASCII text becomes that character |
| `Urls.UnquoteQuote` | app.py:47 | unquoting the percent-encoding of any string gives the string back |
| `Paths.Basename` | app.py:46 | the basename holds no `/` and is the tail of the path |
| `Paths.Join` | app.py:67-69 | two-argument `os.path.join` (also used for the archive path at app.py:84): the second part is always the tail of the result, and a relative second part keeps the first part as the head; `BasenameOfJoin` and `Tasks.SavePathEscapes` state its effect on save paths |
| `Paths.BasenameOfJoin` | app.py:67-69 | joining a directory and a name without `/` makes the name the last component |
| `Paths.ReplaceAll` | app.py:85 | `str.replace`, left to right and non-overlapping: a replacement no longer than the pattern never lengthens the string; `ReplaceAllAbsent` and `Tasks.AsWrittenMisplacesArchive` state what it does to archive paths |
| `Paths.ReplaceAllAbsent` | app.py:85 | replacing a pattern that does not occur leaves the string as it is |
| `Filenames.FromUrl` | app.py:43-47 | the resolved filename is never empty |
| `Filenames.RawName` | app.py:45-46 | `basename(urlparse(url).path)`, the segment the resolver tests for emptiness: a tail of `UrlPath(url)`; `RawNameIsBasename` shows it is the basename and `RawNameShape` what it cannot hold |
| `Filenames.RawNameIsBasename` | app.py:45-46 | the raw segment is the basename of the path `urlparse` gives |
| `Filenames.RawNameShape` | app.py:45-46 | the raw segment holds no `/`, `?` or `#`, and no `;` under a scheme with params |
| `Filenames.PlainUrlRawName` | app.py:45-46 | for `scheme://host/dir/segment` plus any query or fragment the raw segment is the segment up to its first `;` |
| `Filenames.ResolvesEncodedName` | app.py:43-47 | a URL whose last segment percent-encodes a name resolves to that name, whatever the directories, query or fragment, for any host without `/ ? # [ ]` or tab/CR/LF |
| `Filenames.DecodesEscapedSpace` | app.py:47 | `%20` in the last segment comes back as a space |
| `Filenames.DecodesEscapedSlash` | app.py:47 | `%2F` in the last segment comes back as `/`, so the name can contain a slash |
| `Filenames.EmptySegmentFallsBack` | app.py:47 | a URL whose path ends in `/` resolves to `file.jpg` |
| `Filenames.SpaceExample` | app.py:43-47 | `https://x.com/a%20b.png` resolves to `a b.png` |
| `Filenames.RootExample` | app.py:43-47 | `https://x.com/` resolves to `file.jpg` |
| `Fetcher.Backoffs` | app.py:39 | the delays slept after the first `n` failed attempts: exactly `n` of them, the `j`-th being `5*(j+1)` seconds |
| `Fetcher.FetchFrom` | app.py:27-41 | from attempt `i`: at most `3 - i` GETs, none if the file is present; success implies the file exists; the sleeps are `5*(j+1)` for the failed attempts; failure means every remaining attempt was made |
| `Fetcher.Fetch` | app.py:25-41 | at most 3 GETs; a present file succeeds with no GET and no sleep; failure means 3 GETs and sleeps of exactly `[5, 10]` |
| `Fetcher.FailsExactly` | app.py:27-41 | the call fails exactly when the file is absent, the first two attempts fail without leaving a file and the third does not write it |
| `Fetcher.LeftFileSucceedsNext` | app.py:29-39 | an attempt that fails after creating the file is followed by one that finds it and succeeds without a GET |
| `Fetcher.SucceedsAfterFailures` | app.py:27-39 | success at attempt `i` after `i` failures takes `i + 1` GETs and sleeps `5, 10, …` once per earlier failure |
| `Fetcher.DownloadImage` | app.py:25-41 | the retry loop returns the result, GET count, file state and sleeps of the reference `Fetch` |
| `Tasks.NonNull` | app.py:62 | never more values than cells, all of them when none is empty, none when all are empty |
| `Tasks.NonNullSnoc` | app.py:62 | a cell added at the end adds its value at the end exactly when it is filled, so the result is the filled cells in row order |
| `Tasks.SavePath` | app.py:66-69 | `os.path.join(os.path.join(workdir, col), filename)`: the resolved filename is always the tail of the save path; `SavePathInColumnDir` and `SavePathEscapes` state where it lands |
| `Tasks.SavePathInColumnDir` | app.py:66-69 | a filename without `/` is the last component of `workdir/col/filename` |
| `Tasks.SavePathEscapes` | app.py:66-69 | a filename starting with `/` replaces the whole save path |
| `Tasks.EscapedSlashLeavesWorkdir` | app.py:66-69 | a URL whose last segment starts with `%2F` saves outside the work directory |
| `Tasks.ColumnUnitsAt` | app.py:65-70 | the `k`-th unit of a column is `(url_k, save(col, url_k), col)` |
| `Tasks.Units` | app.py:57-70 | the unit list is as long as the sum of the columns' non-empty counts |
| `Tasks.UnitsShape` | app.py:62-70 | every unit comes from a non-empty cell of a requested column and saves to `workdir/col/filename(url)` |
| `Tasks.UnitsAppend` | app.py:57-70 | the units follow column order: those of `c1 + c2` are those of `c1`, then those of `c2` |
| `Tasks.FirstMissing` | app.py:57-61 | the first requested column absent from the sheet, every earlier one present |
| `Tasks.FirstMissingIs` | app.py:57-61 | those properties determine the first missing column |
| `Tasks.MissingColumnMessage` | app.py:59 | the error text is the fixed prefix followed by the column name |
| `Tasks.Percent` | app.py:82 | progress stays within 0..100, is 0 with nothing done and 100 once everything is done |
| `Tasks.PercentMonotone` | app.py:79-82 | progress never decreases as `done` grows |
| `Tasks.FetchAll` | app.py:74-82 | one result and one GET count per unit, each count at most 3; the fetches only add files, and only at the units' save paths |
| `Tasks.PresentFileSucceeds` | app.py:77-80 | a unit whose save path is present when its turn comes succeeds, and its call sends no GET |
| `Tasks.FetchAllPrefix` | app.py:79-82 | the results and GET counts of the first `m` units do not depend on the units after them |
| `Tasks.ZipPath` | app.py:84 | the recorded archive path `workdir/<id>_result.zip`, never empty; `ZipPathBasename` states its last component |
| `Tasks.ZipPathBasename` | app.py:84 | the recorded archive path ends in `<id>_result.zip` |
| `Tasks.ArchiveBaseAsWritten` | app.py:85 | `zip_path.replace('.zip', '')` as written: never longer than the path; `AsWrittenAgreesWithoutDots` and `AsWrittenAgrees` give when it is the path without its suffix, `AsWrittenMisplacesArchive` when it is not |
| `Tasks.ArchiveBase` | app.py:85 | the intended archive base plus `.zip` is the archive path |
| `Tasks.AsWrittenAgrees` | app.py:85 | replacing every `.zip` agrees with stripping the suffix when the suffix is the only occurrence |
| `Tasks.AsWrittenMisplacesArchive` | app.py:85 | with `.zip` inside the work directory path, the base as written does not give back the recorded path |
| `Tasks.AsWrittenAgreesWithoutDots` | app.py:84-85 | when neither the work directory nor the id holds a `.`, the base as written is the archive path without its suffix |
| `Tasks.Task.constructor` | app.py:102-111 | a new record is pending with zero counters, empty error and archive path, and every requested column counted 0 |
| `Tasks.Task.AppendColumn` | app.py:65-70 | the inner loop appends the column's units in row order |
| `Tasks.Task.AddColumn` | app.py:62-70 | one present column: its count is recorded and its units appended |
| `Tasks.Task.CollectUnits` | app.py:57-70 | the column loop stops at the first missing column, having recorded the counts of the earlier ones; otherwise it returns the whole unit list and its length |
| `Tasks.Task.CountCompletions` | app.py:71-82 | the counting loop ends with `done == total` and the final percentage, and its results and GET counts are those of fetching the units in order |
| `Tasks.Task.Archive` | app.py:84-87 | archives under the path with every `.zip` removed (the path without its suffix when the work directory and id hold no `.`); records the path and `done`, or the archiver's error |
| `Tasks.Task.FetchAndArchive` | app.py:71-87 | sets `total`, counts every unit, archives, and keeps `Valid()` |
| `Tasks.Task.RunSheet` | app.py:55-87 | a missing column ends in `error` with its message, no units and no fetch; otherwise every unit is fetched and counted, then `done` with the archive path or `error` with the archiver's message |
| `Tasks.Task.Run` | app.py:49-90 | from `pending` the run ends in `done` or `error`, keeps `Valid()`, and a sheet that cannot be read ends in `error` with its message |
| `Registry.Registry.constructor` | app.py:23 | the table starts empty |
| `Registry.Registry.Upload` | app.py:97-111 | the new id maps to a fresh pending record; every other entry is unchanged |
| `Registry.Registry.RunTask` | app.py:112 | running one task ends it in `done` or `error` with the outcome `Tasks.Task.Run` proves: the read error with the counts untouched, or the missing column's message and the earlier counts, both with nothing fetched; or the total, the fetch results and the archive outcome, the archive path being empty after an archiver error; no other task changes |
| `Registry.Registry.Progress` | app.py:115-127 | 404 exactly for an unknown id; otherwise the report shows the task's status |
| `Registry.Registry.Download` | app.py:129-133 | the archive exactly for a known id whose status is `done`; the same 400 for an unknown or unfinished task |
| `Registry.Registry.ProgressConsistent` | app.py:115-127 | a report shows `done <= total`, the matching percentage, exactly the requested columns, nothing counted while pending, everything done when done, and an error text only with `error` |
| `Registry.Registry.DownloadIsRecordedArchive` | app.py:129-133 | the download serves the recorded `workdir/<id>_result.zip`, whose last component is the offered file name |

## Left out

- The web application, CORS settings, the multipart upload and the writing of the uploaded file (app.py:14-21, 92-101) are HTTP plumbing; only the record the upload stores is modelled.
- Reading the spreadsheet and `dropna` (app.py:54, 62) are given data: a map from column name to cells in row order, an empty cell being `None` and a filled one already converted by `str`. A read failure is an error message.
- The GET with its 40-second timeout, `raise_for_status` and the file write (app.py:31-34) are one outcome per attempt; the download content is not modelled.
- `time.sleep` (app.py:39) is recorded as a ghost list of delays; nothing waits.
- The worker pool of 16 threads, the background thread and concurrent polling (app.py:75-78, 112) are not modelled. Fetches are taken in submission order, each seeing the files earlier units left; in the real pool two units with the same save path race. Absence of torn reads is not verified.
- `shutil.make_archive`, `tempfile.mkdtemp`, `os.makedirs` and `uuid4` (app.py:68, 85, 97-98) are foreign calls: the archiver is a success-or-message oracle, ids and work directories are inputs, and a failing `makedirs` is not modelled.
- Tasks.Percent: computes `floor(done*100/total)` exactly, an approximation of the floating-point `int(done/total*100)`, which can be one lower (`int(29/100*100)` is 28); the bounds 0..100, 0 at the start and 100 at `done == total` hold for both.
- Filenames.FromUrl: `urlparse` raising `ValueError` is not modelled: a netloc with an unbalanced `[` or `]`, a bracketed host that is not an IPv6 or IPvFuture literal (recent Python versions), or a non-ASCII netloc whose NFKC form gains one of `/ ? # @ :`. In the source that exception ends the task in `error`; the model resolves a name instead.
- Tasks.FetchAll: a save path counts as present only when that exact string is in the set of present paths. `os.path.exists` is also true for directories (such as the `workdir/col` directory `os.makedirs` creates, which a cell ending in `/.` resolves to) and for other spellings of the same path (`.`, `..`, `//`); neither is modelled.
- `Report.columns` is a map, so the order of the column counts in the progress answer, which follows the requested order in the source's dict (app.py:64, 107, 124), is not modelled.
- Strings are sequences of Unicode scalar values, so a URL holding a lone surrogate cannot be expressed.
- Registry.Registry.Upload: replaces an entry already filed under the same id; uniqueness of the generated ids is not modelled.

## Findings

| source | as written | input that shows it | evidently intended | confidence | as-written member | corrected member |
|---|---|---|---|---|---|---|
| app.py:85 | `zip_path.replace('.zip', '')` removes every `.zip` in the path, not just the suffix | a temporary directory such as `/tmp/x.zip` as the parent of the work directory: the archive is written under `/tmp/x/...` while `/tmp/x.zip/..._result.zip` is recorded and later served | strip only the trailing `.zip` | medium; not executed | `Tasks.AsWrittenMisplacesArchive` | `Tasks.ArchiveBase` |
