/** Paths and the two log streams of the migration script.
    A path is the sequence of its components: joining a directory path with a
    name appends one component, and the base name is the last component. */
module Events {

  type Path = seq<string>

  /** The last component of a path (the empty name for the empty path). */
  function BaseName(p: Path): string
  {
    if p == [] then "" else p[|p| - 1]
  }

  /** The root logger (progress log) or the dedicated "error_logger". */
  datatype Sink = MainLog | ErrorLog

  datatype Level = Info | Warning | Error

  /** One message per distinct logging call of the modelled code. */
  datatype Message =
    | NoFolderSelected                            // main, no folder chosen
    | SearchingRoot(root: Path)                   // main, per root directory
    | DirFound(dirname: string)                   // find_subdirectories, per dirname
    | FileFound(filename: string)                 // find_dicom_files, per candidate
    | FilesFound(count: nat, dir: Path)           // main, subdirectory with candidates
    | NoFilesFound(dir: Path)                     // main, subdirectory without candidates
    | AllProcessed                                // main, at the end
    | Sent(file: Path)                            // upload_file, delivered
    | StatusFailure(file: Path, status: int)      // upload_file, unexpected HTTP status
    | UploadError(file: Path, reason: string)     // upload_file, exception raised
    | RetryNotice(file: Path, attempt: nat, seconds: nat)  // upload_file, before a retry
    | RecoveredAfter(file: Path, attempt: nat)    // upload_file, delivered after failures
    | AllAttemptsFailed(file: Path)               // upload_file, budget exhausted

  /** A log record in one of the two streams, or a pause of the task. */
  datatype Event = Log(sink: Sink, level: Level, msg: Message) | Sleep(seconds: nat)

  function InfoEvent(m: Message): Event
  {
    Log(MainLog, Info, m)
  }
}
