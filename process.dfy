/**
 * The process-level facts the commands depend on: what `waitpid` reports for
 * a foreground child, the signal numbers they send, and
 * `CURR_FORK_CHILD_RUNNING`, the pid the signal handlers look at while the
 * shell waits for a foreground child.
 */
module Process {
  /** Linux signal numbers. */
  const SigCont: int := 18
  const SigStop: int := 19
  const SigTstp: int := 20

  /** The outcome of `waitpid(pid, &status, WUNTRACED)`: failure, a child that stopped (`WIFSTOPPED`), or one that ended. */
  datatype WaitOutcome = WaitFailed | Stopped | Ended

  /** `CURR_FORK_CHILD_RUNNING`: the foreground child's pid, 0 when the shell waits for nobody. */
  class ForegroundChild {
    var pid: int

    constructor()
      ensures pid == 0
    {
      pid := 0;
    }
  }
}
