/**
 * The job-control built-ins of Commands.cpp: `kill`, `fg`, `bg` and the
 * argument parse of `quit`.
 *
 * Each built-in validates its arguments when it is constructed and acts on
 * the job table when it is executed. The constructors are methods returning
 * the command's fields and the lines they print; `execute` is a method that
 * changes the job table. `kill`, `waitpid` and the clock are inputs: whether
 * `kill` fails, what `waitpid` reports, and the time a re-added job gets.
 */
module JobControl {
  import opened Wrappers
  import opened Decimal
  import opened Text
  import opened Jobs
  import opened Output
  import opened Process

  /** Every token `_parseCommandLine` produces is non-empty (TokensAreWords). */
  predicate NonEmptyTokens(args: seq<string>)
  {
    forall i :: 0 <= i < |args| ==> args[i] != []
  }

  // ---------------------------------------------------------------------
  // kill

  /** What `parseAndCheck` returns and the values it leaves in `*sig` and `*j_id`. */
  datatype KillArgs = KillArgs(ok: bool, sig: int, jobId: int)

  /** `-` and one or two digits: the checks made before `*sig` is written. */
  predicate SignalTokenWellFormed(a: string)
  {
    2 <= |a| <= 3 && a[0] == '-' && AllDigits(a[1..])
  }

  /** A signal argument `parseAndCheck` accepts: `-1` to `-31`, leading zeros allowed. */
  predicate ValidSignalToken(a: string)
  {
    SignalTokenWellFormed(a) && 1 <= Value(a[1..]) <= 31
  }

  /** A job argument `parseAndCheck` accepts: at most ten digits denoting 1 to INT_MAX. */
  predicate ValidKillJobToken(a: string)
  {
    |a| <= 10 && AllDigits(a) && 1 <= Value(a) <= IntMax
  }

  /**
   * `KillCommand::parseAndCheck` after tokenizing: exactly three tokens, a
   * valid signal and a valid job id. `*sig` is written as soon as the signal
   * token is well formed, before its range is checked, so a rejected line can
   * still change it; `*j_id` is written only on success.
   */
  function ParseKill(args: seq<string>, sig: int, jobId: int): (r: KillArgs)
    requires NonEmptyTokens(args)
    ensures r.ok <==> |args| == 3 && ValidSignalToken(args[1]) && ValidKillJobToken(args[2])
    ensures r.sig == (if |args| == 3 && SignalTokenWellFormed(args[1]) then Value(args[1][1..]) else sig)
    ensures r.jobId == (if r.ok then Value(args[2]) else jobId)
  {
    if |args| != 3 then KillArgs(false, sig, jobId)
    else
      var first, second := args[1], args[2];
      if |first| < 2 || |first| > 3 || first[0] != '-' || !IsDigit(first[1])
         || (|first| == 3 && !IsDigit(first[2])) then
        KillArgs(false, sig, jobId)
      else
        assert AllDigits(first[1..]);
        var s := Value(first[1..]);
        if s < 1 || s > 31 then KillArgs(false, s, jobId)
        else if |second| > 10 || !AllDigits(second) then KillArgs(false, s, jobId)
        else
          var job := Value(second);
          if job > IntMax || job < 1 then KillArgs(false, s, jobId)
          else KillArgs(true, s, job)
  }

  /** Every signal and job id `kill` accepts, written in decimal, is read back exactly. */
  lemma KillArgsRoundTrip(sig: int, job: int)
    requires 1 <= sig <= 31 && 1 <= job <= IntMax
    ensures ParseKill(["kill", "-" + ToDecimal(sig), ToDecimal(job)], 0, 0) == KillArgs(true, sig, job)
  {
    Pow10Values();
    ToDecimalLength(sig, 2);
    ToDecimalLength(job, 10);
    var a := "-" + ToDecimal(sig);
    assert a[1..] == ToDecimal(sig);
  }

  /** The fields of a constructed `KillCommand`. */
  datatype KillCommand = KillCommand(signum: int, jobId: int)

  /**
   * The `KillCommand` constructor: parses the line; on a syntax error prints
   * it and keeps job 0; otherwise looks the job up (which reaps) and, if it
   * does not exist, prints that and keeps job 0.
   */
  method NewKillCommand(line: string, jobs: JobsList, finished: set<int>) returns (cmd: KillCommand, out: seq<Message>)
    requires jobs.Valid() && |FinishedIds(jobs.jobs, finished)| <= ReapBufferSize
    requires |Tokens(line)| <= MaxArgs
    modifies jobs
    ensures jobs.Valid()
    ensures NonEmptyTokens(Tokens(line)) && var p := ParseKill(Tokens(line), 0, 0);
      && (!p.ok ==> jobs.jobs == old(jobs.jobs) && cmd == KillCommand(p.sig, 0) && out == [KillInvalidArguments])
      && (p.ok ==> jobs.jobs == Reaped(old(jobs.jobs), finished) && cmd.signum == p.sig)
      && (p.ok && p.jobId in jobs.jobs ==> cmd.jobId == p.jobId && out == [])
      && (p.ok && p.jobId !in jobs.jobs ==> cmd.jobId == 0 && out == [KillJobMissing(p.jobId)])
  {
    var args := ParseCommandLine(line);
    TokensAreWords(line);
    var p := ParseKill(args, 0, 0);
    if !p.ok {
      return KillCommand(p.sig, 0), [KillInvalidArguments];
    }
    var entry := jobs.GetJobById(p.jobId, finished);
    if entry.None? {
      return KillCommand(p.sig, 0), [KillJobMissing(p.jobId)];
    }
    return KillCommand(p.sig, p.jobId), [];
  }

  /** The job's `is_stopped` after `kill` sends it `sig`. */
  function StoppedAfter(sig: int, stopped: bool): (r: bool)
    ensures sig == SigStop || sig == SigTstp ==> r
    ensures sig == SigCont ==> !r
    ensures sig != SigStop && sig != SigTstp && sig != SigCont ==> r == stopped
  {
    if sig == SigStop || sig == SigTstp then true
    else if sig == SigCont then false
    else stopped
  }

  /**
   * `KillCommand::execute`: nothing unless both a job and a signal were
   * accepted; otherwise looks the job up again, sends the signal, reports it,
   * and records a stop or a continue in the job's entry.
   */
  method ExecuteKill(cmd: KillCommand, jobs: JobsList, finished: set<int>, killFailed: bool) returns (out: seq<Message>)
    requires jobs.Valid() && |FinishedIds(jobs.jobs, finished)| <= ReapBufferSize
    // the source dereferences the lookup unchecked: the job must not have finished meanwhile
    requires cmd.jobId != 0 && cmd.signum != 0 ==> cmd.jobId in Reaped(jobs.jobs, finished)
    modifies jobs
    ensures jobs.Valid()
    ensures cmd.jobId == 0 || cmd.signum == 0 ==> jobs.jobs == old(jobs.jobs) && out == []
    ensures cmd.jobId != 0 && cmd.signum != 0 ==>
      var t := Reaped(old(jobs.jobs), finished);
      var e := t[cmd.jobId];
      && jobs.jobs == t[cmd.jobId := e.(stopped := StoppedAfter(cmd.signum, e.stopped))]
      && out == (if killFailed then [CallFailed("kill")] else []) + [SignalSent(cmd.signum, e.pid)]
  {
    if cmd.jobId == 0 || cmd.signum == 0 {
      return [];
    }
    var entry := jobs.GetJobById(cmd.jobId, finished);
    var job := entry.value;
    out := if killFailed then [CallFailed("kill")] else [];
    out := out + [SignalSent(cmd.signum, job.pid)];
    if cmd.signum == SigStop || cmd.signum == SigTstp {
      jobs.SetStopped(cmd.jobId, true);
    }
    if cmd.signum == SigCont {
      jobs.SetStopped(cmd.jobId, false);
    }
  }

  // ---------------------------------------------------------------------
  // fg and bg

  /** What `parseAndCheckFgBgCommands` returns and the value it leaves in `*job_id`. */
  datatype FgBgArgs = FgBgArgs(ok: bool, jobId: int)

  /** A job argument `fg` and `bg` accept: digits denoting 1 to INT_MAX. */
  predicate ValidJobArgument(a: string)
  {
    AllDigits(a) && 1 <= Value(a) <= IntMax
  }

  /**
   * `parseAndCheckFgBgCommands` after tokenizing: the command alone is
   * accepted with `*job_id` untouched; one valid job id is accepted and
   * written; anything else is rejected. `stol` throws on a digit string
   * above LONG_MAX, so such a string is excluded.
   */
  function ParseFgBg(args: seq<string>, jobId: int): (r: FgBgArgs)
    requires 1 <= |args| && NonEmptyTokens(args)
    requires |args| == 2 && AllDigits(args[1]) ==> Value(args[1]) <= LongMax
    ensures r.ok <==> |args| == 1 || (|args| == 2 && ValidJobArgument(args[1]))
    ensures r.jobId == (if |args| == 2 && r.ok then Value(args[1]) else jobId)
  {
    if |args| > 2 then FgBgArgs(false, jobId)
    else if |args| == 1 then FgBgArgs(true, jobId)
    else if !AllDigits(args[1]) then FgBgArgs(false, jobId)
    else
      var job := Value(args[1]);
      if job > IntMax || job < 1 then FgBgArgs(false, jobId)
      else FgBgArgs(true, job)
  }

  /** Every job id `fg` and `bg` accept, written in decimal, is read back exactly. */
  lemma FgBgArgsRoundTrip(command: string, job: int)
    requires command != [] && 1 <= job <= IntMax
    ensures ParseFgBg([command, ToDecimal(job)], 0) == FgBgArgs(true, job)
  {
  }

  /** A line `fg` and `bg` can parse: one or more tokens, no more than twenty, and a job id `stol` can read. */
  predicate FgBgLine(line: string)
  {
    && 1 <= |Tokens(line)| <= MaxArgs
    && (|Tokens(line)| == 2 && AllDigits(Tokens(line)[1]) ==> Value(Tokens(line)[1]) <= LongMax)
  }

  /** The fields of a constructed `ForegroundCommand`: its own command line and the job, -1 after an error. */
  datatype ForegroundCommand = ForegroundCommand(line: string, jobId: int)

  /**
   * The `ForegroundCommand` constructor: parses the line and looks the job
   * up. Without an argument the job id stays 0 and the lookup of job 0
   * fails, so `fg` alone is reported as "job-id 0 does not exist".
   */
  method NewForegroundCommand(line: string, jobs: JobsList, finished: set<int>) returns (cmd: ForegroundCommand, out: seq<Message>)
    requires jobs.Valid() && |FinishedIds(jobs.jobs, finished)| <= ReapBufferSize
    requires FgBgLine(line)
    modifies jobs
    ensures jobs.Valid() && cmd.line == line
    ensures NonEmptyTokens(Tokens(line)) && var p := ParseFgBg(Tokens(line), 0);
      && (!p.ok ==> jobs.jobs == old(jobs.jobs) && cmd.jobId == -1 && out == [FgInvalidArguments])
      && (p.ok ==> jobs.jobs == Reaped(old(jobs.jobs), finished))
      && (p.ok && p.jobId in jobs.jobs ==> cmd.jobId == p.jobId && out == [])
      && (p.ok && p.jobId !in jobs.jobs ==> cmd.jobId == -1 && out == [FgJobMissing(p.jobId)])
    ensures |Tokens(line)| == 1 ==> cmd.jobId == -1 && out == [FgJobMissing(0)]
  {
    var args := ParseCommandLine(line);
    TokensAreWords(line);
    var p := ParseFgBg(args, 0);
    if !p.ok {
      return ForegroundCommand(line, -1), [FgInvalidArguments];
    }
    var entry := jobs.GetJobById(p.jobId, finished);
    if entry.None? {
      return ForegroundCommand(line, -1), [FgJobMissing(p.jobId)];
    }
    return ForegroundCommand(line, p.jobId), [];
  }

  /**
   * The `ForegroundCommand` constructor as evidently intended: without an
   * argument the job id stays 0 and no lookup is made, so `execute` resumes
   * the job with the largest id.
   */
  method NewForegroundCommandCorrected(line: string, jobs: JobsList, finished: set<int>) returns (cmd: ForegroundCommand, out: seq<Message>)
    requires jobs.Valid() && |FinishedIds(jobs.jobs, finished)| <= ReapBufferSize
    requires FgBgLine(line)
    modifies jobs
    ensures jobs.Valid() && cmd.line == line
    ensures |Tokens(line)| == 1 ==> jobs.jobs == old(jobs.jobs) && cmd.jobId == 0 && out == []
    ensures |Tokens(line)| != 1 ==> NonEmptyTokens(Tokens(line)) && var p := ParseFgBg(Tokens(line), 0);
      && (!p.ok ==> jobs.jobs == old(jobs.jobs) && cmd.jobId == -1 && out == [FgInvalidArguments])
      && (p.ok ==> jobs.jobs == Reaped(old(jobs.jobs), finished))
      && (p.ok && p.jobId in jobs.jobs ==> cmd.jobId == p.jobId && out == [])
      && (p.ok && p.jobId !in jobs.jobs ==> cmd.jobId == -1 && out == [FgJobMissing(p.jobId)])
  {
    var args := ParseCommandLine(line);
    TokensAreWords(line);
    var p := ParseFgBg(args, 0);
    if !p.ok {
      return ForegroundCommand(line, -1), [FgInvalidArguments];
    }
    if p.jobId != 0 {
      var entry := jobs.GetJobById(p.jobId, finished);
      if entry.None? {
        return ForegroundCommand(line, -1), [FgJobMissing(p.jobId)];
      }
    }
    return ForegroundCommand(line, p.jobId), [];
  }

  /** The job `fg` resumes: the one it names, or the one with the largest id when it names 0. */
  function FgTarget(t: Table, jobId: int): (id: Option<int>)
    requires jobId >= 0
    ensures id.None? <==> jobId == 0 && t == map[]
    ensures jobId == 0 && id.Some? ==> id.value in t && forall k :: k in t ==> k <= id.value
    ensures jobId != 0 ==> id == Some(jobId)
  {
    if jobId != 0 then Some(jobId)
    else if t == map[] then None
    else Some(MaxKey(t.Keys))
  }

  /**
   * `ForegroundCommand::execute`: takes the job out of the table, prints
   * it, continues it and waits for it. If it stops again it is added back
   * as a new job, with the `fg` command line as its text and not marked
   * stopped. `CURR_FORK_CHILD_RUNNING` holds its pid during the wait.
   */
  method ExecuteForeground(cmd: ForegroundCommand, jobs: JobsList, child: ForegroundChild, finished: set<int>,
                           killFailed: bool, wait: WaitOutcome, now: int) returns (out: seq<Message>)
    requires jobs.Valid() && |FinishedIds(jobs.jobs, finished)| <= ReapBufferSize
    // the source dereferences the lookup unchecked: the job must not have finished meanwhile
    requires cmd.jobId > 0 ==> cmd.jobId in Reaped(jobs.jobs, finished)
    modifies jobs, child
    ensures jobs.Valid()
    ensures cmd.jobId < 0 ==> jobs.jobs == old(jobs.jobs) && out == [] && child.pid == old(child.pid)
    ensures cmd.jobId >= 0 ==>
      var t := Reaped(old(jobs.jobs), finished);
      match FgTarget(t, cmd.jobId)
      case None => jobs.jobs == t && out == [FgJobsEmpty] && child.pid == old(child.pid)
      case Some(id) =>
        var e := t[id];
        && jobs.jobs == (if wait.Stopped? then Added(t - {id}, Entry(e.pid, cmd.line, false, now)) else t - {id})
        && out == [JobResumed(e.cmd, e.pid)] + (if killFailed then [CallFailed("kill")] else [])
                  + (if wait.WaitFailed? then [CallFailed("waitpid")] else [])
        && child.pid == 0
  {
    if cmd.jobId < 0 {
      return [];
    }
    ghost var t := Reaped(jobs.jobs, finished);
    ReapIdempotent(jobs.jobs, finished);
    var id := cmd.jobId;
    var job: Entry;
    if id == 0 {
      var last := jobs.GetLastJob(finished);
      if last.None? {
        return [FgJobsEmpty];
      }
      id := last.value;
      job := jobs.jobs[id];
    } else {
      var entry := jobs.GetJobById(id, finished);
      job := entry.value;
    }
    jobs.RemoveJobById(id, finished);
    out := [JobResumed(job.cmd, job.pid)];
    if killFailed {
      out := out + [CallFailed("kill")];
    }
    child.pid := job.pid;
    ReapIdempotent(t - {id}, finished);
    ReapRemoveCommute(t, finished, id);
    match wait {
      case WaitFailed =>
        out := out + [CallFailed("waitpid")];
      case Stopped =>
        jobs.AddJob(job.pid, cmd.line, false, now, finished);
      case Ended =>
    }
    child.pid := 0;
  }

  /** The fields of a constructed `BackgroundCommand`: the job, -1 after an error. */
  datatype BackgroundCommand = BackgroundCommand(jobId: int)

  /**
   * The `BackgroundCommand` constructor: parses the line, looks the job up,
   * and accepts it only if it is stopped. Without an argument the lookup of
   * job 0 fails, as for `fg`.
   */
  method NewBackgroundCommand(line: string, jobs: JobsList, finished: set<int>) returns (cmd: BackgroundCommand, out: seq<Message>)
    requires jobs.Valid() && |FinishedIds(jobs.jobs, finished)| <= ReapBufferSize
    requires FgBgLine(line)
    modifies jobs
    ensures jobs.Valid()
    ensures NonEmptyTokens(Tokens(line)) && var p := ParseFgBg(Tokens(line), 0);
      && (!p.ok ==> jobs.jobs == old(jobs.jobs) && cmd.jobId == -1 && out == [BgInvalidArguments])
      && (p.ok ==> jobs.jobs == Reaped(old(jobs.jobs), finished))
      && (p.ok && p.jobId !in jobs.jobs ==> cmd.jobId == -1 && out == [BgJobMissing(p.jobId)])
      && (p.ok && p.jobId in jobs.jobs && !jobs.jobs[p.jobId].stopped ==>
            cmd.jobId == -1 && out == [BgAlreadyRunning(p.jobId)])
      && (p.ok && p.jobId in jobs.jobs && jobs.jobs[p.jobId].stopped ==> cmd.jobId == p.jobId && out == [])
    ensures cmd.jobId >= 0 ==> cmd.jobId in jobs.jobs && jobs.jobs[cmd.jobId].stopped
    ensures |Tokens(line)| == 1 ==> cmd.jobId == -1 && out == [BgJobMissing(0)]
  {
    var args := ParseCommandLine(line);
    TokensAreWords(line);
    var p := ParseFgBg(args, 0);
    if !p.ok {
      return BackgroundCommand(-1), [BgInvalidArguments];
    }
    var entry := jobs.GetJobById(p.jobId, finished);
    if entry.None? {
      return BackgroundCommand(-1), [BgJobMissing(p.jobId)];
    }
    if !entry.value.stopped {
      return BackgroundCommand(-1), [BgAlreadyRunning(p.jobId)];
    }
    return BackgroundCommand(p.jobId), [];
  }

  /**
   * The `BackgroundCommand` constructor as evidently intended: without an
   * argument the job id stays 0 and no lookup is made, so `execute` resumes
   * the stopped job with the largest id.
   */
  method NewBackgroundCommandCorrected(line: string, jobs: JobsList, finished: set<int>) returns (cmd: BackgroundCommand, out: seq<Message>)
    requires jobs.Valid() && |FinishedIds(jobs.jobs, finished)| <= ReapBufferSize
    requires FgBgLine(line)
    modifies jobs
    ensures jobs.Valid()
    ensures |Tokens(line)| == 1 ==> jobs.jobs == old(jobs.jobs) && cmd.jobId == 0 && out == []
    ensures |Tokens(line)| != 1 ==> NonEmptyTokens(Tokens(line)) && var p := ParseFgBg(Tokens(line), 0);
      && (!p.ok ==> jobs.jobs == old(jobs.jobs) && cmd.jobId == -1 && out == [BgInvalidArguments])
      && (p.ok ==> jobs.jobs == Reaped(old(jobs.jobs), finished))
      && (p.ok && p.jobId !in jobs.jobs ==> cmd.jobId == -1 && out == [BgJobMissing(p.jobId)])
      && (p.ok && p.jobId in jobs.jobs && !jobs.jobs[p.jobId].stopped ==>
            cmd.jobId == -1 && out == [BgAlreadyRunning(p.jobId)])
      && (p.ok && p.jobId in jobs.jobs && jobs.jobs[p.jobId].stopped ==> cmd.jobId == p.jobId && out == [])
  {
    var args := ParseCommandLine(line);
    TokensAreWords(line);
    var p := ParseFgBg(args, 0);
    if !p.ok {
      return BackgroundCommand(-1), [BgInvalidArguments];
    }
    if p.jobId != 0 {
      var entry := jobs.GetJobById(p.jobId, finished);
      if entry.None? {
        return BackgroundCommand(-1), [BgJobMissing(p.jobId)];
      }
      if !entry.value.stopped {
        return BackgroundCommand(-1), [BgAlreadyRunning(p.jobId)];
      }
    }
    return BackgroundCommand(p.jobId), [];
  }

  /** The ids of the stopped jobs. */
  function StoppedIds(t: Table): set<int>
  {
    set id | id in t && t[id].stopped
  }

  /** The job `bg` resumes: the one it names, or the stopped one with the largest id when it names 0. */
  function BgTarget(t: Table, jobId: int): (id: Option<int>)
    requires jobId >= 0
    ensures id.None? <==> jobId == 0 && forall k :: k in t ==> !t[k].stopped
    ensures jobId == 0 && id.Some? ==>
      id.value in t && t[id.value].stopped && forall k :: k in t && t[k].stopped ==> k <= id.value
    ensures jobId != 0 ==> id == Some(jobId)
  {
    if jobId != 0 then Some(jobId)
    else if StoppedIds(t) == {} then
      assert forall k :: k in t ==> k !in StoppedIds(t);
      None
    else
      var m := MaxKey(StoppedIds(t));
      assert forall k :: k in t && t[k].stopped ==> k in StoppedIds(t);
      Some(m)
  }

  /**
   * `BackgroundCommand::execute`: prints the job, marks it running and
   * continues it; nothing else in the table changes.
   */
  method ExecuteBackground(cmd: BackgroundCommand, jobs: JobsList, finished: set<int>, killFailed: bool) returns (out: seq<Message>)
    requires jobs.Valid() && |FinishedIds(jobs.jobs, finished)| <= ReapBufferSize
    // the source dereferences the lookup unchecked: the job must not have finished meanwhile
    requires cmd.jobId > 0 ==> cmd.jobId in Reaped(jobs.jobs, finished)
    modifies jobs
    ensures jobs.Valid()
    ensures cmd.jobId < 0 ==> jobs.jobs == old(jobs.jobs) && out == []
    ensures cmd.jobId >= 0 ==>
      var t := Reaped(old(jobs.jobs), finished);
      match BgTarget(t, cmd.jobId)
      case None => jobs.jobs == t && out == [BgNoStoppedJobs]
      case Some(id) =>
        && jobs.jobs == t[id := t[id].(stopped := false)]
        && out == [JobResumed(t[id].cmd, t[id].pid)] + (if killFailed then [CallFailed("kill")] else [])
  {
    if cmd.jobId < 0 {
      return [];
    }
    var id := cmd.jobId;
    var job: Entry;
    if id == 0 {
      var last := jobs.GetLastStoppedJob(finished);
      if last.None? {
        return [BgNoStoppedJobs];
      }
      id := last.value;
      job := jobs.jobs[id];
    } else {
      var entry := jobs.GetJobById(id, finished);
      job := entry.value;
    }
    out := [JobResumed(job.cmd, job.pid)];
    jobs.SetStopped(id, false);
    if killFailed {
      out := out + [CallFailed("kill")];
    }
  }

  // ---------------------------------------------------------------------
  // quit

  /** The `QuitCommand` constructor's parse: `kill_all` is set when the second token is exactly `kill`. */
  method NewQuitCommand(line: string) returns (killAll: bool)
    requires |Tokens(line)| <= MaxArgs
    ensures killAll <==> |Tokens(line)| > 1 && Tokens(line)[1] == "kill"
  {
    var args := ParseCommandLine(line);
    killAll := false;
    if |args| > 1 {
      var arg := args[1];
      if arg == "kill" {
        killAll := true;
      }
    }
  }
}
