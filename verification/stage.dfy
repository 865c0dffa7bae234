/** What one diagnostic stage reports: success, or a failure carrying the
    message the run prints in its final error list. */
module Stage {
  import opened Common

  datatype StageError =
    | IncompatibleKernel(minimum: string)
      /** The nodename names no supported distribution; the remote stage
          also quotes the raw `uname -n` output. */
    | UnsupportedOs(quoted: Option<string>)
    | MissingPackages(names: seq<string>)
      /** The flag stage was not run because the named tool is missing. */
    | MissingDependency(tool: string)
    | MissingKernelFlags(lines: seq<string>)
    | InterfaceNotFound(name: string)

  datatype StageOutcome = Pass | Fail(error: StageError)
}
