/**
 * The script runner (`run_script`) and the success verdict the pipeline
 * applies after each run. The child process is not modelled: how a run
 * ends is an input, a `ProcessOutcome`.
 */
module Runner {
  import opened Files
  import opened Text
  import opened LogInspector

  /** How one launch of the script ends. */
  datatype ProcessOutcome =
    | Exited(code: int, output: string)   // the process ended by itself within the timeout
    | TimedOut(output: string)            // killed after the timeout; what it flushed before
    | LaunchFailed(reason: string)        // starting the process raised

  /** The status `run_script` reports after a timeout or a failed launch. */
  const FailureStatus: int := -1

  const LaunchFailurePrefix: string := "Error running script: "

  /** The status `run_script` returns for an outcome. */
  function RunStatus(outcome: ProcessOutcome): (status: int)
    ensures outcome.Exited? ==> status == outcome.code
    ensures !outcome.Exited? ==> status == FailureStatus
  {
    match outcome
    case Exited(code, _) => code
    case TimedOut(_) => FailureStatus
    case LaunchFailed(_) => FailureStatus
  }

  /** The text the log file holds once `run_script` returns. */
  function FinalLog(outcome: ProcessOutcome): (log: string)
    ensures outcome.LaunchFailed? ==> log == LaunchFailurePrefix + outcome.reason
    ensures !outcome.LaunchFailed? ==> log == outcome.output
  {
    match outcome
    case Exited(_, output) => output
    case TimedOut(output) => output
    case LaunchFailed(reason) => LaunchFailurePrefix + reason
  }

  /** The verdict at the two success checks: status 0 and a clean log. */
  predicate RunSucceeded(status: int, fs: FileSystem, logPath: Path) {
    status == 0 && !MonitorLogForErrors(fs, logPath)
  }

  /** A run whose outcome counts as a success. */
  predicate CleanRun(outcome: ProcessOutcome) {
    outcome.Exited? && outcome.code == 0 && !HasErrorMarkers(outcome.output)
  }

  /** The log written after a failed launch is always classified as errored. */
  lemma LaunchFailureLogIsErrored(reason: string)
    ensures HasErrorMarkers(FinalLog(LaunchFailed(reason)))
  {
    var prefix := LaunchFailurePrefix[..5];
    assert LaunchFailurePrefix + reason == prefix + (LaunchFailurePrefix[5..] + reason);
    assert Lower(prefix) == ErrorMarker;
    ErrorPrefixIsErrored(prefix, LaunchFailurePrefix[5..] + reason);
  }

  /**
   * `run_script(script_path, log_path)`: the log is replaced by what the run
   * wrote (or by the launch error), nothing else on disk changes, and the
   * status is the exit code, or -1 after a timeout or a failed launch.
   */
  method RunScript(fs: FileSystem, scriptPath: Path, logPath: Path, outcome: ProcessOutcome)
    returns (fs': FileSystem, status: int)
    ensures status == RunStatus(outcome)
    ensures fs' == fs[logPath := FinalLog(outcome)]
    ensures outcome.LaunchFailed? ==> MonitorLogForErrors(fs', logPath)
    ensures RunSucceeded(status, fs', logPath) <==> CleanRun(outcome)
  {
    match outcome {
      case Exited(code, output) =>
        fs' := fs[logPath := output];
        status := code;
      case TimedOut(output) =>
        fs' := fs[logPath := output];
        status := FailureStatus;
      case LaunchFailed(reason) =>
        fs' := fs[logPath := LaunchFailurePrefix + reason];
        LaunchFailureLogIsErrored(reason);
        status := FailureStatus;
    }
  }

  /** A timeout or a failed launch never counts as success, whatever the log says. */
  lemma FailedRunNeverSucceeds(fs: FileSystem, logPath: Path, outcome: ProcessOutcome)
    requires !outcome.Exited?
    ensures !RunSucceeded(RunStatus(outcome), fs[logPath := FinalLog(outcome)], logPath)
    ensures !CleanRun(outcome)
  {
  }

  /** Success needs both halves: a zero exit and a clean log. */
  lemma CleanRunIff(outcome: ProcessOutcome)
    ensures CleanRun(outcome) <==>
      RunStatus(outcome) == 0 && !HasErrorMarkers(FinalLog(outcome))
  {
  }
}
