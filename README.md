# rd_blackhole, modelled in Dafny

rd_blackhole is a "blackhole" for Sonarr and Radarr, and it uses Real-Debrid to fetch
the torrents. Sonarr or Radarr drops a `.magnet` file into a watched folder. The program
reads the magnet link from the file and hands it to Real-Debrid. It picks only the video
files of the torrent and waits until Real-Debrid has them. Then it writes the expected
file names into a small table, tagged with the download folder of the right application.
When a video file later shows up in the rclone mount, the program looks its name up in
that table. On a match it copies the file, in 2 MiB chunks, into the download folder it
was started with (`ARR_DOWNLOAD_PATH`); the application folder stored in the table is never
read. The copy is meant to be retried, but with the default retry setting the first failed
attempt raises (see "## Findings").

The model has one module per source file, plus three modules of shared pieces:

| module | file | models |
|---|---|---|
| `Wrappers` | wrappers.dfy | `Option` and `Result` |
| `Pystr` | pystr.dfy | the Python string operations the program uses: `startswith`, `endswith`, `in`, `lower`, `strip`/`lstrip`, `split`, `join`, `replace`, `str(int)`, `int(str)`, `bytes.hex` |
| `Paths` | paths.dfy | POSIX `os.path.join`, `basename`, `splitext`, `normpath` |
| `Torrents` | torrents.dfy | torrents.py: extension, magnet link, `.magnet` file text |
| `RealDebrid` | real_debrid.dfy | real_debrid.py: the video-member filter and the whole `upload_magnet_to_realdebrid` protocol |
| `Arrs` | arrs.dfy | arrs.py: category folders, `get_arr_folder`, `monitored_folders`, `arrs_folders` |
| `Download` | download.dfy | download.py: the chunked copy and its retry loop |
| `Monitor` | monitor.dfy | monitor.py: the `.magnet` handler, the rclone handler, `process_existing_files`, and the table they share |

The Real-Debrid service is not called. Its replies are a `Replies` value: the torrent id,
the `files` of the first info reply, the status after the selection, the replies of the
poll loop, and whether the `.magnet` file still exists at the end. The function's result
is a pair: what it returns, and the trace of requests and outside calls it makes, in
order. The model names these calls `AddMagnet`, `GetInfo`, `SelectFiles`, `RemoveTorrent`,
`MarkFailed`, `Sleep` and `DeleteMagnetFile`.

A copy attempt cannot fail on its own in the model. Each attempt has a `Fate`: it
completes, raises before the destination is opened, or raises at a given read. When the
walk over existing files copies, which copies raise is an input `raises`; the first one
that raises ends the walk. The environment variables are fields of `ArrConfig`, or
arguments. The TinyDB table is a `PendingTable` object, which holds its documents in a
sequence.

Imperative code is modelled with methods, each proved against a specification function:

| method | loop it models | specification function |
|---|---|---|
| `FilterVideoFiles` | the member filter loop | `VideoMembers` |
| `PollUntilSettled` | the poll loop | `PollLoop` |
| `CopyChunks` | the chunk loop | `Chunks` |
| `CopyFileWithProgress` | the retry loop | `RunFrom` |
| `MonitoredFolders` | `monitored_folders` | |
| `ArrsFolders` | `arrs_folders` | |
| `ProcessExistingFiles` | the nested walk loop | `CopiesStarted` of `WalkCopies` |

The stateful parts are classes:
- `PendingTable.Insert` appends a document;
- `RcloneFileHandler` keeps its download folder;
- `OnMagnetCreated` modifies the table.

## Model

| member | source | states |
|---|---|---|
| Pystr.Lower | real_debrid.py:69 | `lower()` keeps the length and lower-cases each character |
| Pystr.LStripChar | real_debrid.py:69 | `lstrip('/')` keeps a suffix of the string |
| Pystr.LStripCharSpec | real_debrid.py:69 | `lstrip('/')` removes exactly the leading run of '/', and what is left does not start with '/' |
| Pystr.StripShape | torrents.py:40 | `strip()` gives a contiguous slice of the text. Only whitespace lies outside it, and the slice neither starts nor ends with whitespace |
| Pystr.StripIdempotent | monitor.py:25 | stripping twice gives what stripping once gives |
| Pystr.ContainsIff | real_debrid.py:70 | the substring test `"sample" not in name` holds exactly when the pattern occurs at no position |
| Pystr.SplitJoin | real_debrid.py:83 | the comma-joined body splits back into exactly the joined ids, when no id contains a comma |
| Pystr.JoinSplit | real_debrid.py:83 | joining the parts of a split with the separator rebuilds the string |
| Pystr.ParseIntToString | download.py:22 | `int(str(n)) == n` for every integer |
| Pystr.IntToStringNoComma | real_debrid.py:71 | `str(file["id"])` never contains a comma |
| Pystr.RemoveAllTrailing | real_debrid.py:98 | `replace(".magnet", "")` on `stem + ".magnet"` gives back the stem, when the stem holds no ".magnet" |
| Pystr.UnHexHex | torrents.py:28 | the lower-case hexadecimal digest reads back to the digest bytes |
| Pystr.FilterMemberIff | monitor.py:64 | a document is in a search result exactly when it is in the table and satisfies the query |
| Pystr.FilterIndicesSpec | real_debrid.py:68-72 | the kept elements are the elements at increasing positions, and those positions are exactly the ones passing the test |
| Paths.BasenameSpec | monitor.py:62 | `basename` is the longest '/'-free suffix of the path |
| Paths.BasenameJoin | monitor.py:85 | the base name of `join(root, file)` is `file` when the file name has no '/' |
| Paths.NormPath | arrs.py:47 | `normpath` never returns the empty string |
| Paths.JoinComponent | arrs.py:48-54 | joining one plain component onto a folder keeps the folder's root and appends exactly that component to what `normpath` keeps |
| Paths.NormPathJoin2 | arrs.py:47-54 | `normpath(join(join(t, c), name))` is the normalised prefix of `t`, then `c`, then '/', then `name` |
| Torrents.GetExtensionSpec | torrents.py:9-11 | the root and the extension of `splitext` rebuild the path; a non-empty extension starts at the last '.', which lies after the last '/' |
| Torrents.ExtensionShape | torrents.py:9-11 | an extension is empty, or a '.' followed by characters that are neither '.' nor '/' |
| Torrents.ExtensionExistsIff | torrents.py:9-11 | a path has an extension exactly when its final component has a '.' after some character other than '.' |
| Torrents.MagnetLinkRoundTrip | torrents.py:27-31 | the digest and the name read back from every magnet link built from them, whatever the name holds |
| Torrents.Sha1MagnetLayout | torrents.py:27-31 | a 20-byte SHA-1 digest appears as 40 lower-case hex digits at positions 20..60, followed by "&dn=" and the name |
| Torrents.ReadMagnetFileTrimmed | torrents.py:34-47 | `read_magnet_file` returns a link exactly when the file can be read; the link is the text minus surrounding whitespace, and is itself trimmed |
| Torrents.ReadMagnetFileStable | torrents.py:34-47 | reading back a file that holds exactly the link read gives the same link |
| RealDebrid.MemberIds | real_debrid.py:71 | one id string per selected member |
| RealDebrid.MemberNames | real_debrid.py:72 | one recorded name per selected member |
| RealDebrid.VideoMemberIff | real_debrid.py:67-72 | a member is selected exactly when it is in the torrent, and its lower-cased, '/'-stripped path ends with one of the seven video extensions and does not contain "sample" |
| RealDebrid.VideoMembersInOrder | real_debrid.py:68-72 | the selected members keep the torrent's order, and every position passing the test is taken |
| RealDebrid.MemberIdsSnoc | real_debrid.py:71 | each selected member appends its id, as a string, to the id list |
| RealDebrid.MemberNamesSnoc | real_debrid.py:72 | each selected member appends its recorded name to the name list |
| RealDebrid.FilterVideoFiles | real_debrid.py:65-75 | the loop builds exactly the ids and the recorded names of the selected members, in torrent order; both lists stay empty when the reply has no files or a missing `files` key |
| RealDebrid.PollUntilSettled | real_debrid.py:104-122 | the loop makes the calls and reaches the outcome that `PollLoop` gives for the same replies |
| RealDebrid.UploadMagnetToRealDebrid | real_debrid.py:43-129 | the function makes the calls and returns the value that `UploadSpec` gives for the same replies |
| RealDebrid.CheckCachedAndWait | real_debrid.py:91-122 | after the selection, the function makes the calls and reaches the outcome that `AfterSelect` gives: a "queued" status removes the torrent, reports the failure and returns None, and any other status starts the poll loop |
| RealDebrid.PollLoopPending | real_debrid.py:104-117 | a pending reply costs one info request and a 10-second sleep, and the loop goes on with the next reply; the calls made before (`done`) stay in front |
| RealDebrid.FirstSettled | real_debrid.py:105-108 | the first reply that is "downloaded", "error" or "dead", with every earlier reply pending |
| RealDebrid.PollLoopPrefix | real_debrid.py:104-117 | up to the first settling reply, the loop is one info request and one 10-second sleep per pending reply, followed by the loop over the replies still to come |
| RealDebrid.PollLoopSettles | real_debrid.py:105-115 | a "downloaded", "error" or "dead" reply ends the loop on that reply |
| RealDebrid.PollLoopSpec | real_debrid.py:104-117 | the loop polls and sleeps once per pending reply before the first settling reply, then settles on that reply; with no settling reply it is still polling |
| RealDebrid.ResultOnlyAfterDownloaded | real_debrid.py:77-129 | a result is returned if and only if a member was selected, the status after selection was not "queued", and a "downloaded" reply came after only pending ones. The result carries that reply's id and the selected members' recorded names |
| RealDebrid.QueuedRemovesAndFails | real_debrid.py:92-100 | "queued" after selection returns None, and the whole trace is the four selection calls, then the torrent's removal, then the failure report for the given path when one was given: no poll and no sleep follow |
| RealDebrid.PollLoopCallKinds | real_debrid.py:104-122 | the poll loop never adds a magnet or selects files. Any failure report names the path's release title, and any deletion names the path, both only when a path was given |
| RealDebrid.AfterSelectNoSelection | real_debrid.py:92-122 | nothing after the selection adds a magnet or selects files |
| RealDebrid.AfterSelectPathCalls | real_debrid.py:97-122 | after the selection, failure reports and deletions happen only with a given path and name that path |
| RealDebrid.SelectionCallsOnce | real_debrid.py:82-84 | the selection is the third call, and no later call selects files |
| RealDebrid.SelectFilesRequest | real_debrid.py:77-87 | with no selected member there is no selection request and None is returned. Otherwise there is exactly one, the third call, and its body splits back into the selected ids |
| RealDebrid.ReportAndDeleteOnlyWithPath | real_debrid.py:97-122 | across the whole upload, `search_and_mark_failed` and the deletion are called only when a path was given, and with that path |
| RealDebrid.PollLoopNoneReported | real_debrid.py:108-115 | with a path given, a poll loop that returns None ends with the failure report |
| RealDebrid.AfterSelectNoneReported | real_debrid.py:93-115 | with a path given, a None after the selection ends with the failure report |
| RealDebrid.FailureAfterSelectReported | real_debrid.py:92-115 | with a path given, every None after a selection ends with `search_and_mark_failed(release title, path)` |
| RealDebrid.ReleaseTitleOfMagnetFile | real_debrid.py:98 | the release title of `folder/stem.magnet` is `stem`, when the stem has no '/' and no ".magnet" |
| Arrs.DownloadFoldersDiffer | arrs.py:51-55 | the radarr and sonarr download folders are different paths |
| Arrs.GetArrFolderCases | arrs.py:42-58 | each of the three answers, radarr, sonarr and None, is given exactly under its prefix condition, with radarr tested first |
| Arrs.FileUnderFolder | arrs.py:47-54 | a file directly in a category folder normalises to the folder's normalised prefix plus the file name |
| Arrs.RadarrFileClassified | arrs.py:50-52 | a file in the radarr folder maps to the radarr download folder |
| Arrs.SonarrFileClassified | arrs.py:54-56 | a file in the sonarr folder maps to the sonarr download folder, even though radarr is tested first |
| Arrs.RadarrPrefixWithoutBoundary | arrs.py:50 | the prefix test has no component boundary: a file in any folder whose name starts with "radarr", such as "radarr-old", also maps to the radarr download folder |
| Arrs.Under | arrs.py:39 | one folder per enabled key |
| Arrs.EnabledKeysOrder | arrs.py:32-39 | the enabled keys are sonarr first, then radarr, each present exactly when its variable is set and not empty |
| Arrs.MonitoredFolders | arrs.py:31-40 | the result is the torrent path joined with each enabled key, in dictionary order |
| Arrs.MonitoredFolderClassifies | arrs.py:31-58 | a file directly in the k-th monitored folder maps to the download folder of the k-th key |
| Arrs.ArrsFolders | arrs.py:16-28 | the folders afterwards are those before, plus the torrent and download folder of each enabled key |
| Arrs.CreatedCoversMonitored | arrs.py:16-58 | every monitored folder, and the download folder a file in it maps to, is among the folders `arrs_folders` creates |
| Download.ChunkSizes | download.py:35 | every read returns between one byte and 2 MiB |
| Download.ChunksConcat | download.py:34-39 | the chunks read, put together in order, are the source's bytes |
| Download.ChunksPrefix | download.py:34-39 | the bytes of the first n chunks are a prefix of the source |
| Download.ConcatAppend | download.py:38 | writing two runs of chunks one after the other writes their bytes in that order |
| Download.CopyChunks | download.py:34-39 | the copy completes exactly when no read up to the last one fails. A completed copy writes the whole source, and a failed one writes the chunks before the failing read. The progress equals the bytes written |
| Download.AttemptSpecShape | download.py:23-42 | an attempt completes exactly when its fate allows it. It then leaves the source's bytes in the destination; otherwise it leaves the destination untouched or holding a prefix of the source |
| Download.CopyFileWithProgress | download.py:10-52 | the method's run, made of outcome, destination, attempts, sleeps and progress, is the one `RunFrom` gives |
| Download.BoundErrorRaises | download.py:22 | when `int(max_retries)` raises, the function raises that error before any attempt and leaves the destination alone; this happens only for None or a non-numeric string |
| Download.NoAttemptWhenBoundNonPositive | download.py:22 | with `max_retries` of zero or less, the function makes no attempt and returns without copying |
| Download.NumberRun | download.py:21-52 | with a numeric bound n, it makes at most n attempts and sleeps once between attempts. It copies exactly when the last attempt succeeds, after failed ones, and otherwise re-raises after exactly n attempts |
| Download.CopyWithNumberBound | download.py:10-52 | with a numeric bound n ≥ 1, it makes between 1 and n attempts, and copies exactly when one of the first n attempts would succeed |
| Download.DefaultSettingNeverRetries | download.py:8-47 | with the default `max_retries`, which is the environment string, there is exactly one attempt and no sleep, and a failure raises TypeError |
| Download.DefaultSettingCounterexample | download.py:8-47 | `MAX_RETRIES=3` with a first attempt that fails: the code as written raises TypeError after one attempt, without a retry or a delay |
| Download.IntendedSettingCopiesOnRetry | download.py:8-49 | the same input with the default parsed into the int 3: the failed attempt is retried after one delay, and the second attempt copies the file |
| Download.IntendedSettingRetries | download.py:8-49 | with the default parsed once into an int, the environment's number bounds the attempts, and failed attempts are retried while attempts remain |
| Monitor.PendingTable.Insert | monitor.py:36-39 | `db.insert` appends the document and keeps every earlier one |
| Monitor.SearchIff | monitor.py:64 | `db.search(File.filename == key)` finds a document exactly when its "filename" is the string `key` |
| Monitor.OnMagnetCreated | monitor.py:13-39 | the handler makes the upload's calls and inserts at most one document, as `MagnetDecision` says, and the table grows by exactly that document |
| Monitor.MagnetInsertIff | monitor.py:21-39 | a document is inserted exactly when the created path ends with ".magnet", the upload returns a result, and `get_arr_folder` finds a folder. The document holds the list of recorded names and that folder |
| Monitor.ArrFolderNotEmpty | monitor.py:33-34 | a folder found by `get_arr_folder` is never empty, so `if arr_folder` only tests that one was found |
| Monitor.MagnetHandlerNeverReportsOrDeletes | monitor.py:28 | the handler uploads without the `.magnet` path, so it never reports a failure and never deletes the file |
| Monitor.MagnetInsertKeepsLists | monitor.py:36-39 | every document the handler inserts stores "filename" as a list |
| Monitor.RcloneFileHandler.ProcessFile | monitor.py:54-71 | the decision is `ArrivalCopy`. A copy takes the arriving path as source and the base name in the downloads folder as destination |
| Monitor.ArrivalCopyIff | monitor.py:59-69 | a copy is made exactly for a video path whose base name is the string "filename" of some document |
| Monitor.ListsNeverMatch | monitor.py:36-64 | a table of list-valued documents never matches a string key |
| Monitor.RecordedFileNeverCopied | monitor.py:36-69 | as written, no file arriving in the rclone folder is ever copied while the table holds only what the `.magnet` handler wrote |
| Monitor.IntendedArrivalCopies | monitor.py:59-69 | with the intended lookup, a copy is made exactly for a video path whose base name a document holds, into the downloads folder under that name |
| Monitor.IntendedCopyAfterInsert | monitor.py:36-69 | after an upload is recorded, each recorded name that arrives as a video file is copied under the intended lookup |
| Monitor.ProcessExistingFiles | monitor.py:73-94 | walking the folder makes the copies `WalkCopies` lists, folder by folder and file by file, up to and including the first copy that raises, which ends the walk; `raised` says whether one did |
| Monitor.CopiesStartedSpec | monitor.py:88-92 | the copies started are a prefix of the listed copies: every one but the last completes, the last raises exactly when some listed copy raises, and with no raising copy every listed copy is made |
| Monitor.CopiesStartedStop | monitor.py:78-92 | once a folder's copy raises, nothing after it in the walk is copied |
| Monitor.ProcessWalkedFolder | monitor.py:79-94 | one folder of the walk makes the copies `FolderCopies` lists (each video file whose name is recorded in the table, in listing order, copied under its name into the downloads folder) up to and including the first copy that raises; `raised` says whether one did |
| Monitor.ProcessWalkedFile | monitor.py:80-94 | one file of the walk gives the copy `ExistingDecision` gives: a video file whose base name is recorded in the table, copied under that name into the downloads folder, and no copy otherwise |
| Monitor.WalkStops | monitor.py:78-92 | once a folder's copies raise, the walk has made the earlier folders' copies, then that folder's copies up to the raising one, and nothing of the later folders |
| Monitor.VideoTestOfJoin | monitor.py:80-82 | the video test on the bare file name agrees with the test on its joined path |
| Monitor.ExistingMatchesArrival | monitor.py:78-94 | for every walked file, `process_existing_files` decides as `process_file` would for that file's path |

## Left out

- HTTP: the status checks of each request (real_debrid.py:24-25, 38-39, 54-55, 86-87) raise on an unexpected status. In the model every request succeeds, and a reply's content is an input.
- A missing key in a JSON reply (`id`, `status`, `files` entries' `path`/`id`) raises `KeyError`. This is not modelled, apart from a missing `files` key, which is modelled as None.
- `search_and_mark_failed` and `delete_file_with_retry` are imported by real_debrid.py:5-6 but are not defined in the modules they are imported from. They are modelled only as the calls `MarkFailed` and `DeleteMagnetFile` in the trace.
- RealDebrid.UploadMagnetToRealDebrid: the poll loop waits forever while the replies stay pending. The model runs over a finite list of replies and ends in `StillPolling` when the list runs out.
- Sleep durations, `print` and `tqdm` output are not modelled. Sleeps are only recorded in the trace (real_debrid.py) or counted (download.py).
- `extract_magnet_from_torrent` (torrents.py:14-32): bencode decoding and SHA-1 hashing are not modelled. `Torrents.MagnetLink` takes the digest and the decoded name as inputs, and UTF-8 decoding of the name is not modelled.
- `delete_magnet` (torrents.py:49-51): a bare `os.remove` with no logic of its own; it is not modelled.
- watchdog event dispatch, main.py's observers, and the `on_created` of the rclone handler are not modelled. That `on_created` only calls `process_file`.
- The TinyDB file `InRD.json` is not modelled. The table lives in memory as a sequence of documents, and persistence and reloading are not modelled.
- Monitor.OnMagnetCreated: when opening or reading the `.magnet` file raises, the source propagates the exception. The model takes `content` None as "nothing happens".
- Monitor.ProcessExistingFiles: `os.walk`'s traversal order and the file system itself are not modelled. The walk is given as `(root, files)` pairs.
- Monitor.ProcessExistingFiles: which copies raise is an input `raises`, not derived from the attempt fates of `Download.CopyFileWithProgress`. The exception that ends the walk also ends the program, because main.py:24 does not catch it; the model returns `raised` instead.
- Download.CopyFileWithProgress: the failures of `os.makedirs`, `getsize`, and opening either file are one fate, `FailsBeforeOpen`. Which exception is raised is not distinguished: every failed attempt raises `CopyFailed`.
- Download.CopyFileWithProgress: a failing `fdst.write` (download.py:38) has no fate of its own. One that writes nothing of its chunk leaves the destination and the progress as `FailsAtRead` of that chunk's read does; a write that raises after writing part of its chunk is not modelled.
- Arrs.ArrsFolders: `os.makedirs` also creates missing parent folders. The model records only the two folders per key.
- Arrs.ArrConfig: an unset `ARR_TORRENTS_PATH` or `ARR_DOWNLOAD_PATH` makes the module fail at import or in `join`. This is not modelled; both are strings.
- Pystr.Lower: only ASCII letters are lower-cased. Python's full Unicode case mapping is not modelled.
- Pystr.ParseInt: `int()` also accepts underscores between digits and non-ASCII digits. Neither is modelled.
- Strings are sequences of characters. File-system encodings are not modelled.

## Findings

| source | as written | input that shows it | evidently intended | confidence | as-written member | corrected member |
|---|---|---|---|---|---|---|
| monitor.py:36-39, 64, 87 | The `.magnet` handler stores "filename" as the list of recorded names. Both lookups compare "filename" for equality with one base-name string, and a list never equals a string, so no file is ever copied | An upload records `["show.s01e01.mkv"]`, then `/mnt/rclone/show.s01e01.mkv` arrives: the search finds nothing and nothing is copied | Find a document whose list holds the arriving base name, then copy the file | high (not executed) | Monitor.RecordedFileNeverCopied | Monitor.ArrivalCopyIntended |
| download.py:8, 10, 47 | The default `max_retries` is the `MAX_RETRIES` environment string. Line 22 converts it with `int()`, but line 47 compares the int counter with the string itself, which raises TypeError in Python 3 | `MAX_RETRIES=3` and a first attempt that fails: TypeError after one attempt, no retry, no delay | Parse the variable once into an int, so failed attempts are retried up to that number | high (not executed) | Download.DefaultSettingCounterexample | Download.IntendedSettingCopiesOnRetry |
