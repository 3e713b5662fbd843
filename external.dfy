/**
 * `ExternalCommand`: a line handed to `/bin/bash`. The constructor decides
 * whether it runs in the background and strips the `&` from the copy passed
 * to the child; `execute` forks and, in the parent, records the child in the
 * job table. The result of `fork`, what `waitpid` reports and the clock are
 * inputs.
 */
module External {
  import opened Text
  import opened Background
  import opened Jobs
  import opened Output
  import opened Process

  /** The fields of a constructed `ExternalCommand`: its own line, whether it runs in the background, the child's line. */
  datatype ExternalCommand = ExternalCommand(line: string, toBackground: bool, cmdToSon: string)

  /**
   * The `ExternalCommand` constructor, using `checkAndRemoveAmpersand` as
   * evidently intended (see CheckAndRemoveAmpersand): a line ending in `&`
   * runs in the background and the child gets the text before that `&`.
   */
  function NewExternalCommand(line: string): (cmd: ExternalCommand)
    ensures cmd.line == line
    ensures cmd.toBackground <==> EndsWithSign(line)
    ensures !cmd.toBackground ==> cmd.cmdToSon == line
    ensures cmd.toBackground ==>
      && |cmd.cmdToSon| < |line| && line[..|cmd.cmdToSon|] == cmd.cmdToSon
      && line[|cmd.cmdToSon|] == '&' && AllWs(line[|cmd.cmdToSon| + 1..])
  {
    var r := CheckAndRemoveAmpersand(line);
    ExternalCommand(line, r.removed, r.line)
  }

  /**
   * The `ExternalCommand` constructor as written, over the source's
   * `checkAndRemoveAmpersand`: for a line ending in `&` the background flag
   * is the unspecified value that function falls off its end with
   * (`fallOff`); the child's line and every other case match the corrected
   * constructor. A blank line, on which the source indexes past the end of
   * the string, is excluded.
   */
  function NewExternalCommandAsWritten(line: string, fallOff: bool): (cmd: ExternalCommand)
    requires !AllWs(line) && |line| < UIntRange
    ensures cmd.line == line && cmd.cmdToSon == NewExternalCommand(line).cmdToSon
    ensures !EndsWithSign(line) ==> !cmd.toBackground
    ensures EndsWithSign(line) ==> cmd.toBackground == fallOff
  {
    var r := CheckAndRemoveAmpersandAsWritten(line, fallOff);
    AmpersandAsWrittenAgrees(line, fallOff);
    ExternalCommand(line, r.removed, r.line)
  }

  /** `sleep 10&`: as written, whether it goes to the background rests on the fall-off value. */
  lemma ExternalBackgroundUnspecified()
    ensures !AllWs("sleep 10&") && !NewExternalCommandAsWritten("sleep 10&", false).toBackground
    ensures NewExternalCommand("sleep 10&").toBackground
  {
    AmpersandReturnUnspecified();
  }

  /** Whatever precedes the `&`, blanks included, is exactly what the child runs. */
  lemma {:induction false} ExternalSignRoundTrip(c: string, blanks: string)
    requires AllWs(blanks)
    ensures NewExternalCommand(c + "&" + blanks) == ExternalCommand(c + "&" + blanks, true, c)
  {
    var s := c + "&" + blanks;
    assert s[|c|] == '&' && s[|c| + 1..] == blanks;
    assert EndsWithSign(s);
    var cmd := NewExternalCommand(s);
    var n := |cmd.cmdToSon|;
    if n < |c| {
      assert false;
    } else if n > |c| {
      assert false;
    }
    assert cmd.cmdToSon == s[..|c|] == c;
  }

  /**
   * The parent side of `ExternalCommand::execute`. `forkResult` is what
   * `fork` returned: 0 in the child, which execs bash and is not modelled;
   * negative when no child was created. A background child is added as a
   * running job under the full line, `&` included. A foreground child is
   * waited for with `CURR_FORK_CHILD_RUNNING` holding its pid, and is added
   * as a stopped job only if it stopped; the table is reaped only when a job
   * is added.
   */
  method ExecuteExternal(cmd: ExternalCommand, jobs: JobsList, child: ForegroundChild, finished: set<int>,
                         forkResult: int, wait: WaitOutcome, now: int) returns (out: seq<Message>)
    requires jobs.Valid() && |FinishedIds(jobs.jobs, finished)| <= ReapBufferSize
    modifies jobs, child
    ensures jobs.Valid()
    ensures forkResult == 0 ==> jobs.jobs == old(jobs.jobs) && out == [] && child.pid == old(child.pid)
    ensures forkResult < 0 ==> jobs.jobs == old(jobs.jobs) && out == [CallFailed("fork")] && child.pid == old(child.pid)
    ensures forkResult > 0 && cmd.toBackground ==>
      && jobs.jobs == Added(Reaped(old(jobs.jobs), finished), Entry(forkResult, cmd.line, false, now))
      && out == [] && child.pid == old(child.pid)
    ensures forkResult > 0 && !cmd.toBackground ==>
      && child.pid == 0
      && (wait.WaitFailed? ==> jobs.jobs == old(jobs.jobs) && out == [CallFailed("waitpid")])
      && (wait.Ended? ==> jobs.jobs == old(jobs.jobs) && out == [])
      && (wait.Stopped? ==>
            jobs.jobs == Added(Reaped(old(jobs.jobs), finished), Entry(forkResult, cmd.line, true, now)) && out == [])
  {
    out := [];
    if forkResult == 0 {
      return;
    }
    if forkResult < 0 {
      out := [CallFailed("fork")];
      return;
    }
    if cmd.toBackground {
      jobs.AddJob(forkResult, cmd.line, false, now, finished);
    } else {
      child.pid := forkResult;
      match wait {
        case WaitFailed =>
          out := [CallFailed("waitpid")];
        case Stopped =>
          jobs.AddJob(forkResult, cmd.line, true, now, finished);
        case Ended =>
      }
      child.pid := 0;
    }
  }
}
