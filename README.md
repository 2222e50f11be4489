# migrate.py, modelled in Dafny

`migrate.py` moves DICOM files from local folders to an Orthanc server. Its `main` works through the chosen root folders in order:

- It collects every subdirectory of a root with `find_subdirectories`, which walks the root with `os.walk`.
- For each subdirectory, in order, it collects the candidate files with `find_dicom_files`, which walks that subdirectory again, down to the bottom. A file is a candidate when `is_dicom_file` accepts its name.
- It hands each non-empty list to `process_dicom_files`, which starts one `upload_file` task per file.
- `upload_file` POSTs the file up to five times, five seconds apart, until the server answers 200 or 201. It writes progress lines to the main log. Recoveries and final failures also go to the dedicated error log.

The model has six modules:

- `Events` (`events.dfy`): paths as sequences of components, and the two log streams. Each logging call of the modelled code is one `Message` constructor, and each pause is a `Sleep` event.
- `Candidate` (`candidate.dfy`): `is_dicom_file`.
- `FileTree` (`filetree.dfy`): the file system as a directory tree, and `os.walk` over it. `os.walk` is a top-down traversal that yields one `(dirpath, dirnames, filenames)` triple per directory.
- `Discovery` (`discovery.dfy`): the two collecting loops.
  - Each is a method with its nested `while` loops.
  - Each is proved equal to a specification function over the walked triples.
- `Upload` (`upload.dfy`): the retry loop of `upload_file`.
  - The file read and the POST are replaced by a given sequence of per-attempt outcomes. Each outcome is an HTTP status or a raised exception.
  - The method appends every log record and pause to a trace. The trace is proved equal to `RetryTrace`.
  - `RetryTrace`'s record counts and order are proved for each way an attempt can end.
- `Driver` (`driver.dfy`) and `Scheduling` (`schedule.dfy`): the loop of `main`.
  - The loop records the groups handed to `process_dicom_files`, in order.
  - The lemmas read the uploaded files off the tree itself.
  - A candidate file directly inside a chosen root is never uploaded, unless another chosen root lies above that root.
  - For a root chosen alone, a candidate file `n` directories below it is uploaded `n` times, because each enclosing subdirectory is walked again to the bottom. When chosen roots are nested, the uploads of each root add up (`Scheduling.ScheduleByRoot`).

Three facts about the code that a reader might not expect:

- **Every failure is retried.** `upload_file` has no failure that ends the loop early: every status other than 200/201, and every exception, leads to another attempt while attempts remain.
- **Warnings when every attempt fails.** The code writes one status warning or one exception error per attempt, plus one retry warning after each attempt but the last. So five bad statuses give five status warnings and four retry warnings (`Upload.FiveBadStatuses`).
- **The error log also reaches the main log.** `error_logger` is a child of the root logger and propagates to it, so its records also reach the main log file and the console. The model keeps one event per logging call, tagged with the logger that was called.

## Model

| member | source | states |
|---|---|---|
| Candidate.IsDicomFileExactly | migrate.py:78-80 | a name is a candidate exactly when its last four characters are `.dcm` in any case, or it has no `.` at all |
| Candidate.IsDicomFileAccepts | migrate.py:78-80 | `X.DCM`, `image.dcm` and `README` are accepted |
| Candidate.IsDicomFileRejects | migrate.py:78-80 | `a.dcm.bak`, `.bashrc` and `notes.txt` are rejected |
| FileTree.WalkBelow | migrate.py:62 | every triple of the walk of `p` has a directory path that extends `p` |
| FileTree.LookupWellFormed | migrate.py:71 | every directory of a file system without repeated names has no repeated names |
| Discovery.JoinAll | migrate.py:65 | joining a directory with each name gives one path per name, in order, one component deeper |
| Discovery.FindSubdirectories | migrate.py:59-66 | returns the collected subdirectory paths of `os.walk(root)` and logs one line per path |
| Discovery.CollectSubdirectories | migrate.py:61-66 | the nested loop over the walked triples returns `SubdirPaths` of the walk, with one `[DIR]` line per path |
| Discovery.FindDicomFiles | migrate.py:68-76 | returns the candidate paths of `os.walk(dir)` and logs one line per path |
| Discovery.CollectDicomFiles | migrate.py:70-76 | the nested loop over the walked triples returns `DicomPaths` of the walk, with one `[FILE]` line per path |
| Discovery.DicomPathsIsFilter | migrate.py:71-75 | the collected files are exactly the walked files, in walk order, whose name is a candidate |
| Discovery.KeepCandidatesMembers | migrate.py:73 | the filter keeps a path exactly when its base name is a candidate |
| Discovery.SubdirPathsMembers | migrate.py:62-65 | a path is collected exactly when some walked triple lists it as a dirname under its dirpath |
| Discovery.JoinCandidatesCount | migrate.py:72-75 | within one directory of distinct names, a candidate file is collected exactly once and a non-candidate never |
| Discovery.SubdirPathsBelow | migrate.py:62-65 | if every walked directory lies below `q` at depth at least m, every collected subdirectory lies below `q` at depth at least m + 1 |
| Upload.UploadFile | migrate.py:91-120 | at most `maxRetries` attempts. Delivered exactly at the first attempt with status 200/201, every earlier attempt having failed. Otherwise all `maxRetries` attempts failed. The trace is `RetryTrace` |
| Upload.DeliveredOnAttempt | migrate.py:104-118 | delivered at attempt k: one success record; k−1 status warnings and exception errors together; k−1 retry warnings; k−1 pauses; no exhaustion record; the error log holds exactly one "sent after k attempts" record when k > 1, and nothing when k = 1 |
| Upload.AllAttemptsExhausted | migrate.py:111-120 | every attempt failed: no success record, `maxRetries` status warnings and exception errors together, and `maxRetries`−1 retry warnings and pauses; the error log holds exactly one exhaustion record |
| Upload.ErrorLogFrom | migrate.py:104-120 | from attempt `a`, the error log gets nothing when the first attempt made delivers, one "sent after k attempts" record naming the delivering attempt k after failures, and one exhaustion record when every attempt fails |
| Upload.FiveBadStatuses | migrate.py:94-120 | with the script's constants, five bad statuses give five status warnings, four retry warnings, four 5-second pauses and one exhaustion record |
| Upload.DeliveredFrom | migrate.py:97-118 | the record counts of the attempts from `a` up to the first delivery |
| Upload.ExhaustedFrom | migrate.py:97-120 | the record counts of the attempts from `a` when all of them fail |
| Upload.StopAttempt | migrate.py:97-110 | the loop stops at the first delivered attempt or at the last allowed one, and every attempt before it failed |
| Upload.RetryTraceTagged | migrate.py:104-120 | every record is a success (main log, info), a bad status or a retry notice (main log, warning), an exception (main log, error), or a recovery or exhaustion record (error log, error) |
| Upload.RetryNumbersSequential | migrate.py:97-117 | the retry warnings number the attempts `1, 2, …` in order, up to the attempt before the last one made |
| Upload.SleepsBetweenAttempts | migrate.py:109-120 | every pause lasts `retry_interval`, directly follows a retry warning and is never last; the last record is the success or the exhaustion record |
| Driver.RunMigration | migrate.py:27-50 | the groups handed over are `Schedule` of the roots, and the log is the driver's discovery log, with the empty-selection and final lines |
| Driver.ProcessSubdirectories | migrate.py:42-48 | the inner loop hands over `GroupsFor` its subdirectories, and logs each subdirectory's files and then either its count or "none found" |
| Driver.GroupsForNonEmpty | migrate.py:43-46 | every group handed over is a listed subdirectory with a non-empty list, equal to what `find_dicom_files` returns for it |
| Driver.GroupsForExactly | migrate.py:43-48 | a subdirectory is handed over exactly when it is listed and has candidates: an empty one triggers no upload |
| Driver.GroupsOfInOrder | migrate.py:42-46 | the group of an earlier subdirectory comes before the group of a later one |
| Driver.GroupsForInOrder | migrate.py:42-46 | the same for the candidate lists `find_dicom_files` returns |
| Scheduling.ScheduledGroups | migrate.py:42-46 | the files handed over for a root are the subdirectories' candidate lists, one after the other |
| Scheduling.ScheduleByRoot | migrate.py:38-46 | the files handed over for several roots are those of each root, in the order the roots were chosen |
| Scheduling.WalkFiles | migrate.py:68-76 | `find_dicom_files` on a directory returns the candidates of the directory and of every directory below it, directory by directory |
| Scheduling.NestedBridge | migrate.py:40-46 | what is handed over for a directory's subdirectories equals `Nested`, read off the tree |
| Scheduling.NestedCount | migrate.py:40-46 | below a directory, a candidate `e` components down is handed over \|e\| times, and a non-candidate never |
| Scheduling.ScheduledCount | migrate.py:38-48 | for a root chosen alone, the file `root + e + [f]` is uploaded \|e\| times if it is a candidate that exists, and never otherwise |
| Scheduling.ScheduledTimes | migrate.py:38-48 | for a root chosen alone, a candidate file n directories below it is uploaded n times |
| Scheduling.RootBelow | migrate.py:40-46 | everything handed over for a root lies at least two components below it |
| Scheduling.ScheduledDepth | migrate.py:38-46 | every uploaded file lies at least two components below one of the chosen roots |
| Scheduling.RootFilesNeverScheduled | migrate.py:38-46 | a file directly inside a chosen root is never uploaded, unless another chosen root lies above that root |

## Left out

- Folder selection with Tk (`select_folders`, migrate.py:52-57). The chosen roots are a parameter.
- Logging setup and file handlers (migrate.py:9-25). The two streams are event sequences, with no timestamps or formatting.
- Network and file I/O: the aiohttp session, the file read, the POST with basic authentication, the URL and the credentials (migrate.py:34, 84, 99-103). Each attempt's result is an `Outcome` given in advance.
- Concurrency: the `Semaphore(10)` cap, the `create_task`/`gather` fan-out and the interleaving of tasks (migrate.py:35-36, 82-89, 93).
  - The driver records each group handed to `process_dicom_files` and does not run the uploads.
  - Because of `async with semaphore` at migrate.py:93, one permit is held for the whole retry loop, pauses included. The model does not state this.
- `asyncio.sleep` is a `Sleep` event in the trace. No time passes.
- Real `os.walk` behaviour (listing order, symbolic links, errors while listing) is not modelled.
  - Listing order is taken from the tree, in its stored order.
  - A path that is not a directory walks to nothing.
  - The counting lemmas assume a file system where no directory lists the same name twice (`FileTree.WellFormed`).
- Candidate.Lower: lower-cases ASCII letters only and maps each character to one character, whereas Python's `str.lower` applies full Unicode case mapping, which can change the length of a string. Only the test of the last four characters against `.dcm` depends on it; the model does not capture names whose Unicode lower-casing changes their length or yields `.dcm` from non-ASCII characters.
- Upload.UploadFile: requires at least `maxRetries` outcomes, one per attempt that can happen.
  - With `maxRetries` 0 the loop makes no attempt and records nothing, as `range(1, 1)` does.
  - It returns the attempt count and the delivery flag, which the script does not return.
