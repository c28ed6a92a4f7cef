/** The ways a packaging run can end, shared by every stage of the script. */
module Outcomes {

  datatype Option<+T> = None | Some(value: T)

  /** Why a run stops. Every stage is fatal: nothing is retried or recovered. */
  datatype Failure =
    | ToolFailed(tool: string)                          // a subprocess exited non-zero (check_call raised)
    | SdistCount(found: nat)                            // build_sdist found other than one source distribution
    | OverrideMissing(path: string)                     // an override path that does not exist: sys.exit(1)
    | DownloadFailed(url: string)                       // curl -f could not fetch a pinned dependency
    | MissingFile(path: string)                         // getsize, stat or move of a file that is not there
    | NameIndexError(file: string)                      // toks[1] of a file named exactly "cyclecloud"
    | DuplicatePackage(name: string, files: seq<string>) // the duplicate-package assertion

  datatype Result<+T> = Ok(value: T) | Err(failure: Failure)

  datatype Outcome = Pass | Fail(failure: Failure)

  /** The process exit status of a run. CPython ends with status 1 both for
      `sys.exit(1)` and for an uncaught exception (a failed assert, a
      CalledProcessError, an IndexError, a FileNotFoundError). */
  function ExitStatus(o: Outcome): int {
    if o.Pass? then 0 else 1
  }
}
