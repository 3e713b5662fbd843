/**
 * What the job-control built-ins of Commands.cpp print. Commands return
 * Message values; Render gives the exact line written (without the final
 * newline). `perror` appends ": " and the text of `errno`, which is not
 * modelled.
 */
module Output {
  import opened Decimal

  datatype Message =
    | KillInvalidArguments
    | KillJobMissing(jobId: int)
    | SignalSent(sig: int, pid: int)
    | FgInvalidArguments
    | FgJobMissing(jobId: int)
    | FgJobsEmpty
    | BgInvalidArguments
    | BgJobMissing(jobId: int)
    | BgNoStoppedJobs
    | BgAlreadyRunning(jobId: int)
      /** `cout << cmd_str << " : " << pid`, printed by `fg` and `bg` for the job they resume. */
    | JobResumed(cmd: string, pid: int)
      /** `perror("smash error: <call> failed")`. */
    | CallFailed(call: string)

  /** The error messages of the built-ins, as opposed to their reports. */
  predicate IsError(m: Message)
  {
    !(m.SignalSent? || m.JobResumed? || m.CallFailed?)
  }

  /** The command an error line names, as the source spells it. */
  function Command(m: Message): string
    requires IsError(m)
  {
    match m
    case KillInvalidArguments => "kill"
    case KillJobMissing(_) => "kill"
    case FgInvalidArguments => "fg"
    case FgJobMissing(_) => "fg"
    case FgJobsEmpty => "fg"
    case BgInvalidArguments => "b g"
    case BgJobMissing(_) => "bg"
    case BgNoStoppedJobs => "bg"
    case BgAlreadyRunning(_) => "bg"
  }

  /** What an error line says after the command name. */
  function Detail(m: Message): string
    requires IsError(m)
  {
    match m
    case KillInvalidArguments => "invalid arguments"
    case KillJobMissing(id) => "job-id " + IntToString(id) + " does not exist"
    case FgInvalidArguments => "invalid arguments"
    case FgJobMissing(id) => "job-id " + IntToString(id) + " does not exist"
    case FgJobsEmpty => "jobs list is empty"
    case BgInvalidArguments => "invalid arguments"
    case BgJobMissing(id) => "job-id " + IntToString(id) + " does not exist"
    case BgNoStoppedJobs => "there is no stopped jobs to resume"
    case BgAlreadyRunning(id) => "job-id " + IntToString(id) + " is already running in the background"
  }

  /** What every error line of the shell starts with. */
  const ErrorPrefix := "smash error: "

  /**
   * The line printed for a message: an error and a failed system call are
   * reported under `smash error: `, and an error ends with its detail text.
   */
  function Render(m: Message): (r: string)
    ensures IsError(m) || m.CallFailed? ==> |ErrorPrefix| <= |r| && r[..|ErrorPrefix|] == ErrorPrefix
    ensures IsError(m) ==> |Detail(m)| <= |r| && r[|r| - |Detail(m)|..] == Detail(m)
  {
    if IsError(m) then
      var tail := Command(m) + ": " + Detail(m);
      assert tail[|tail| - |Detail(m)|..] == Detail(m);
      ErrorPrefix + tail
    else match m
      case SignalSent(sig, pid) => "signal number " + IntToString(sig) + " was sent to pid " + IntToString(pid)
      case JobResumed(cmd, pid) => cmd + " : " + IntToString(pid)
      case CallFailed(call) => ErrorPrefix + (call + " failed")
  }

  /** The error messages of `bg`. */
  predicate IsBgError(m: Message)
  {
    m.BgInvalidArguments? || m.BgJobMissing? || m.BgNoStoppedJobs? || m.BgAlreadyRunning?
  }

  /** The invalid-arguments error of `bg` names the command `b g`; every other `bg` error names `bg`. */
  lemma BgArgumentsErrorMisspelled()
    ensures Command(BgInvalidArguments) != "bg"
    ensures forall m :: IsBgError(m) && !m.BgInvalidArguments? ==> Command(m) == "bg"
  {
    assert Command(BgInvalidArguments)[1] == ' ';
  }

  /** The command name with the `bg` invalid-arguments line spelled like the other `bg` errors. */
  function CommandCorrected(m: Message): (c: string)
    requires IsError(m)
    ensures IsBgError(m) ==> c == "bg"
    ensures !IsBgError(m) ==> c == Command(m)
  {
    if m.BgInvalidArguments? then "bg" else Command(m)
  }
}
