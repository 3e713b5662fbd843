# SMASH command core, modelled in Dafny

SMASH is a small Unix shell. Commands.cpp holds its command objects. This project models the parts of that file that decide what a command line means and what it does to the shell's job table:

- **Line helpers.** Whitespace trimming (`_ltrim`, `_rtrim`, `_trim`) and the tokenizer `_parseCommandLine`.
- **The background sign `&`.** Detecting it (`_isBackgroundComamnd`) and removing it, either in a C buffer (`_removeBackgroundSign`) or in a `std::string` (`checkAndRemoveAmpersand`).
- **The job table `JobsList`.**
  - It maps job ids to entries `{pid, cmd_str, is_stopped, start_time}`.
  - It is reaped before every operation except `killAllJobs`.
  - A new job gets the largest id present plus one.
- **The job-control built-ins.**
  - `kill`, `fg` and `bg`: argument validation when the command is constructed, and the table changes when it is executed.
  - The argument parse of `quit`.
- **The parent side of `ExternalCommand`.**
- **The split made by the `RedirectionCommand` constructor.**

Modules, one per file:

- `Wrappers`: `Option`.
- `Decimal`: digit strings as `stoi`/`stol` read them.
- `Text`: trimming and tokens.
- `Background`: the `&` helpers.
- `Jobs`: the job table. Its `JobsList` class has a `map` field that its methods update in place.
- `Output`: the lines the built-ins print, as `Message` values.
- `Process`: signal numbers, the `waitpid` outcome, and `CURR_FORK_CHILD_RUNNING`.
- `JobControl`: `kill`, `fg`, `bg` and `quit`.
- `External`: `ExternalCommand`.
- `Redirection`: the redirection split.

System calls and the clock are parameters:

- `finished` is the set of pids for which `waitpid(..., WNOHANG)` returns a positive pid. A job whose check returns 0 or fails with -1 is not in it and is kept.
- `killFailed` says whether `kill` fails.
- `wait` is what `waitpid(..., WUNTRACED)` reports.
- `forkResult` is what `fork` returns.
- `now` is the start time of a new entry.

Where the code departs from what the shell's design evidently expects, the model follows the code:

- **Job ids are reused.** A job id is evidently meant to name one job for the life of the shell. The code computes a new id as the largest id present plus one (Commands.cpp:119-120), so removing the top job frees its id again (`Jobs.IdReusedAfterTopRemoved`).
- **`fg` and `bg` with no argument are rejected.** `execute` has branches for job 0 that pick the most recent job, and the most recent stopped job (Commands.cpp:456-461 and 526-531). The constructors instead look up job 0, which never exists, and report "job-id 0 does not exist" (see Findings). The default-job branches of `execute` are modelled all the same.
- **A job that stops again after `fg` comes back marked running.** `fg` re-adds it with `is_stopped` false and under the `fg` command's own text (Commands.cpp:484). The model keeps this as written.

## Model

| member | source | states |
|---|---|---|
| Text.IsWs | Commands.cpp:14 | a character is blank exactly when it is one of the six `WHITESPACE` characters |
| Text.FindFirstNotWs | Commands.cpp:34 | none exactly for an all-blank string; otherwise the first non-blank position, with only blanks before it |
| Text.FindLastNotWs | Commands.cpp:40 | none exactly for an all-blank string; otherwise the last non-blank position, with only blanks after it |
| Text.LTrim | Commands.cpp:32-36 | a suffix of the input, whose dropped prefix is blank and which does not start with a blank |
| Text.RTrim | Commands.cpp:38-42 | a prefix of the input, whose dropped suffix is blank and which does not end with a blank |
| Text.Trim | Commands.cpp:44-47 | empty exactly for an all-blank input; otherwise neither starts nor ends with a blank |
| Text.TrimWithin | Commands.cpp:44-47 | the trimmed string is a contiguous slice of the input with only blanks around it |
| Text.TrimOfTrimmed | Commands.cpp:44-47 | trimming a string without outer blanks returns it unchanged |
| Text.TrimIdempotent | Commands.cpp:44-47 | trimming twice is trimming once |
| Text.WordSpec | Commands.cpp:52 | a word is the maximal blank-free prefix, non-empty at a non-blank |
| Text.WordOfPrefix | Commands.cpp:52 | a blank-free run followed by a blank or the end is read as exactly that word |
| Text.TokensSplit | Commands.cpp:49-62 | the line is the interleaving of blank runs and the tokens, with every inner gap non-empty |
| Text.SplitDeterminesTokens | Commands.cpp:49-62 | any split of the line into blank gaps and non-empty blank-free words yields exactly the tokens |
| Text.TokensCharacterized | Commands.cpp:49-62 | a word list is the token list if and only if it splits the line with blank gaps |
| Text.TokensAreWords | Commands.cpp:52 | every token is non-empty and blank-free |
| Text.TokensSkipWs | Commands.cpp:52 | leading blanks do not change the tokens |
| Text.TokensDropTrailingWs | Commands.cpp:52 | trailing blanks do not change the tokens |
| Text.TokensIgnoreSurroundingWs | Commands.cpp:51-52 | blanks on both sides do not change the tokens |
| Text.TokensOfCore | Commands.cpp:51-52 | a slice with only blanks around it has the same tokens as the whole line |
| Text.TokensOfTrim | Commands.cpp:51 | tokenizing the trimmed line gives the tokens of the line |
| Text.TokensAfterBlank | Commands.cpp:52 | a blank at the read position is skipped |
| Text.TokensAtWord | Commands.cpp:52 | at a word, the next token is that word and reading resumes after it |
| Text.WordEnd | Commands.cpp:52 | the end of the word starting at a non-blank: non-blanks up to it, then a blank or the end |
| Text.ReadTokens | Commands.cpp:52-56 | the stream loop collects exactly the tokens, in order |
| Text.ParseCommandLine | Commands.cpp:49-62 | with at most twenty tokens, the argument array holds exactly the tokens of the line |
| Background.BlankLineEscapesNposGuard | Commands.cpp:72-75 | for every all-blank line the `unsigned int` index is 0xFFFFFFFF, never `npos`, so the early return never fires |
| Background.EditorIndexExact | Commands.cpp:72 | for a non-blank line shorter than 2^32 the stored index is the last non-blank position |
| Background.IsBackgroundCommand | Commands.cpp:64-67 | a non-blank line is a background command if and only if it ends with `&` followed only by blanks |
| Background.StrLen | Commands.cpp:70 | the length of a C string is the position of its first NUL |
| Background.CString | Commands.cpp:70 | the string read from a buffer holds no NUL |
| Background.SignEditResult | Commands.cpp:69-85 | the buffer edit leaves a C string equal to the line with its `&` replaced by one blank and nothing after it |
| Background.RemoveBackgroundSign | Commands.cpp:69-85 | the in-place edit of the buffer is exactly that edit, and so is the C string it leaves |
| Background.WithoutBackgroundSign | Commands.cpp:69-85 | the corrected removal returns a prefix of the line, and leaves a line that does not end with `&` and blanks, a blank line included, as it is |
| Background.WithoutBackgroundSignTrimmed | Commands.cpp:81-84 | after the corrected removal no blank is left at the end |
| Background.SignRoundTrip | Commands.cpp:81-84 | the corrected removal, applied to command, `&` and blanks, gives back the command |
| Background.TrailingBlankLeftBehind | Commands.cpp:82-84 | `sleep 10&` becomes `sleep 10 ` as written and `sleep 10` when corrected |
| Background.SignRemovalSameTokens | Commands.cpp:69-85 | the as-written and the corrected removal leave the same tokens |
| Background.CheckAndRemoveAmpersand | Commands.cpp:87-104 | the sign is removed exactly when the line ends with `&` and blanks; then the line is cut just before that `&`, otherwise unchanged |
| Background.CheckAndRemoveAmpersandAsWritten | Commands.cpp:87-103 | a line not ending with `&` and blanks is returned unchanged with false; otherwise it is cut just before that `&` and the value returned is the fall-off value |
| Background.AmpersandAsWrittenAgrees | Commands.cpp:87-104 | the code as written edits the string like the corrected version, and returns false whenever that one does |
| Background.AmpersandReturnUnspecified | Commands.cpp:102-104 | for `sleep 10&` the value returned as written is whatever the fall-off yields, while the corrected version returns true |
| Background.AmpersandAgreesWithBackground | Commands.cpp:87-104 | on a non-blank line the corrected check agrees with `_isBackgroundComamnd` |
| Decimal.ValueBound | Commands.cpp:413-415 | a digit string of length k denotes less than 10^k |
| Decimal.TenDigitsFitLong | Commands.cpp:413-415 | a job id of at most ten digits is below 10^10, so `stol` never overflows on it |
| Decimal.ToDecimal | Commands.cpp:429-431 | the decimal spelling of a number is a non-empty digit string that reads back as that number and has no leading zero |
| Decimal.ToDecimalLength | Commands.cpp:413 | a number below 10^k is spelled in at most k digits |
| Jobs.ReapedIsRemoval | Commands.cpp:154-169 | reaping removes exactly the jobs whose pid is reported finished and keeps every other entry unchanged |
| Jobs.ReapIdempotent | Commands.cpp:154-169 | a second reap with the same reports changes nothing and finds nothing more to remove |
| Jobs.ReapRemoveCommute | Commands.cpp:178-185 | removing an id and reaping can be done in either order |
| Jobs.MaxKey | Commands.cpp:120 | `rbegin()` of a non-empty map is its largest key |
| Jobs.NextId | Commands.cpp:119-120 | the new id is absent from the table: 1 for an empty table, otherwise one more than the largest id |
| Jobs.AddedPlacement | Commands.cpp:113-124 | adding keeps every old entry, places the new one under the new id, and keeps all ids positive |
| Jobs.IdReusedAfterTopRemoved | Commands.cpp:119-120 | after job 2 of {1, 2} is removed, the next job is again job 2 |
| Output.Render | Commands.cpp:423-431 | every error line and failed-call line starts with `smash error: `, and an error line ends with its detail text |
| Jobs.JobsList.CollectFinished | Commands.cpp:154-163 | the first loop fills the 100-slot buffer with exactly the ids of the finished jobs |
| Jobs.JobsList.RemoveFinishedJobs | Commands.cpp:154-169 | the table becomes its reaped form |
| Jobs.JobsList.AddJob | Commands.cpp:113-124 | the table becomes the reaped table plus the new entry under the next id |
| Jobs.JobsList.GetJobById | Commands.cpp:170-177 | reaps; the result is absent if and only if the id is not in the table, else it is that entry |
| Jobs.JobsList.SetStopped | Commands.cpp:385-389 | only the `is_stopped` of that one entry changes |
| Jobs.JobsList.RemoveJobById | Commands.cpp:178-185 | reaps, then deletes only that id, with no effect if it is absent |
| Jobs.JobsList.GetLastJob | Commands.cpp:186-196 | reaps; none exactly for an empty table, otherwise the largest id |
| Jobs.JobsList.GetLastStoppedJob | Commands.cpp:197-210 | reaps; none exactly when no job is stopped, otherwise the largest id of a stopped job |
| Output.BgArgumentsErrorMisspelled | Commands.cpp:545 | the invalid-arguments line of `bg` names `b g`, while every other `bg` error names `bg` |
| Output.CommandCorrected | Commands.cpp:544-555 | with the spelling corrected, every `bg` error names `bg` and the other commands are unchanged |
| JobControl.ParseKill | Commands.cpp:391-422 | accepted if and only if there are three tokens, a signal `-1` to `-31` of one or two digits, and a job id of at most ten digits in 1..INT_MAX; the signal is written once well formed, the job id only on success |
| JobControl.KillArgsRoundTrip | Commands.cpp:391-422 | every accepted signal and job id, spelled in decimal, is read back exactly |
| JobControl.NewKillCommand | Commands.cpp:359-376 | a bad line is reported with no reap and job 0; a missing job is reported after reaping and job 0 is kept |
| JobControl.StoppedAfter | Commands.cpp:385-389 | SIGSTOP and SIGTSTP leave the job stopped, SIGCONT leaves it running, and every other signal keeps its flag |
| JobControl.ExecuteKill | Commands.cpp:377-390 | does nothing without job and signal; otherwise sends the signal and reports it; SIGSTOP/SIGTSTP mark the job stopped, SIGCONT running, others keep the flag; nothing else changes |
| JobControl.ParseFgBg | Commands.cpp:557-576 | one token is accepted with the job id untouched; two tokens are accepted if and only if the argument is digits in 1..INT_MAX, and only then is the id written |
| JobControl.FgBgArgsRoundTrip | Commands.cpp:557-576 | every accepted job id, spelled in decimal, is read back exactly |
| JobControl.NewForegroundCommand | Commands.cpp:433-449 | a bad line gives -1 with no reap; a missing job gives -1 after reaping; `fg` alone reports job 0 missing |
| JobControl.NewForegroundCommandCorrected | Commands.cpp:433-449 | `fg` alone keeps job 0 with no lookup; other lines behave as written |
| JobControl.FgTarget | Commands.cpp:453-461 | the job named, or the largest id when 0 is named; none only for an empty table |
| JobControl.ExecuteForeground | Commands.cpp:450-487 | removes the job and reports it; re-adds it as a running job under the `fg` text only if it stopped; the foreground pid is 0 afterwards |
| JobControl.NewBackgroundCommand | Commands.cpp:498-519 | only an existing stopped job is accepted; otherwise one of three errors and -1; `bg` alone reports job 0 missing |
| JobControl.NewBackgroundCommandCorrected | Commands.cpp:498-519 | `bg` alone keeps job 0 with no lookup; other lines behave as written |
| JobControl.BgTarget | Commands.cpp:523-531 | the job named, or the largest stopped id when 0 is named; none only when no job is stopped |
| JobControl.ExecuteBackground | Commands.cpp:520-543 | reports the job and marks it running; nothing else in the table changes |
| JobControl.NewQuitCommand | Commands.cpp:578-589 | `kill_all` holds if and only if the second token is exactly `kill` |
| External.NewExternalCommand | Commands.cpp:277-282 | runs in the background if and only if the line ends with `&` and blanks; the child gets the text before that `&`, or the whole line |
| External.NewExternalCommandAsWritten | Commands.cpp:277-282 | on a non-blank line, the child gets the same text as with the corrected check; a line without a trailing `&` stays in the foreground; with one, the flag is the value `checkAndRemoveAmpersand` falls off its end with |
| External.ExternalBackgroundUnspecified | Commands.cpp:102-104 | for `sleep 10&`, the as-written constructor can leave the command in the foreground, while the corrected one runs it in the background |
| External.ExternalSignRoundTrip | Commands.cpp:281 | for command, `&` and blanks, the child runs exactly the command |
| External.ExecuteExternal | Commands.cpp:283-315 | fork failure is reported; a background child is added running under the full line; a foreground child is added stopped only if it stopped, and the foreground pid is 0 afterwards |
| Redirection.FirstIndexOf | Commands.cpp:242 | the scan stops at the first `>` |
| Redirection.SplitRedirection | Commands.cpp:237-251 | the command part is the text before the first `>`; append if and only if `>` follows; the pathname is the one character after the operator |
| Redirection.SplitRedirectionIntended | Commands.cpp:250 | the corrected pathname is the whole trimmed text after the operator |
| Redirection.RedirectionTargetTruncated | Commands.cpp:250 | for `cmd>file` with a target of two or more characters, the pathname kept is the first character of the target, not the target |
| Redirection.RedirectRoundTrip | Commands.cpp:243-250 | the corrected split of `cmd>file` gives back `cmd`, `file`, no append |
| Redirection.AppendRoundTrip | Commands.cpp:243-250 | the corrected split of `cmd>>file` gives back `cmd`, `file`, append |
| Redirection.RedirectionCommand.constructor | Commands.cpp:237-251 | the scan loop fills the fields with exactly the split as written |

## Left out

- System calls are parameters, not modelled: `fork`, `execl`, `setpgrp`, `kill`, `waitpid`, and `dup`/`dup2`/`open`/`close`. `finished`, `killFailed`, `wait` and `forkResult` stand for their results.
- The child side of `ExternalCommand::execute` is not modelled. This covers `setpgrp` and `execl`, and the child carrying on after a failed `execl`.
- `perror` appends the `errno` text, which is not modelled. The "waitpid failed" lines printed while reaping are not modelled either.
- Time: `time`/`difftime` and the elapsed seconds shown by `printJobsList`. A new entry's start time is the parameter `now`.
- `printJobsList`, `killAllJobs` and `QuitCommand::execute` are not modelled. They are printing, a blocking kill-and-wait loop, and `exit(0)`.
- `RedirectionCommand::execute` is not modelled: it is descriptor plumbing plus a re-entry into the dispatcher.
- `PipeCommand`, `CopyCommand`, `ChangePromptCommand`, `ShowPidCommand`, `GetCurrDirCommand`, `ChangeDirCommand`, `JobsCommand` and `SmallShell` are not modelled, because they hold no behaviour to model. Commands.h is not part of this model.
- The `malloc`/`strcpy`/`free` of each token is not modelled. Tokens are a `seq<string>`.
- Text.ParseCommandLine: requires at most twenty tokens, because `char* args[21]` overflows beyond that.
- Jobs.JobsList.RemoveFinishedJobs: requires at most 100 finished jobs per reap, because the `to_remove` vector has 100 slots. Every caller inherits this.
- Waiting on a pid is not modelled. Reaping is modelled per pid as a set, so two entries with the same pid are reaped together.
- The `finished` reports are one set for the whole of one command. A job cannot finish between two reaps of the same command.
- JobControl.ParseFgBg: requires an all-digit argument to be at most LONG_MAX, because `stol` throws above it.
- JobControl.ParseFgBg, JobControl.FgBgLine: require at least one token. On a line with none the source reaches `stol("")`, which throws `std::invalid_argument` (Commands.cpp:563-570). A dispatcher that builds `fg` or `bg` from the command word never passes such a line.
- Jobs.NextId: job ids are unbounded integers. The source's `rbegin()->first + 1` (Commands.cpp:120) overflows `int` when the largest id is INT_MAX.
- JobControl.ExecuteKill, JobControl.ExecuteForeground, JobControl.ExecuteBackground: require the named job to survive the reap in `execute`. The source dereferences the lookup without a check.
- Background.CheckAndRemoveAmpersandAsWritten: its return value after erasing is the fall-off parameter. The source returns nothing there, which is undefined behaviour.
- Background.IsBackgroundCommand, Background.RemoveBackgroundSign: require a line that is not all blanks. The source indexes at `npos` or at 0xFFFFFFFF there.
- External.NewExternalCommand: uses the corrected check (Background.CheckAndRemoveAmpersand). The source's check falls off its end after erasing the `&`, and reads at index 0xFFFFFFFF of a blank line. External.NewExternalCommandAsWritten models that version on the lines where it is defined.
- Background.RemoveBackgroundSign, Background.CheckAndRemoveAmpersandAsWritten: require a line shorter than 2^32 characters, so that the `unsigned int` index equals the position it was taken from.
- Lines are sequences of Unicode characters, while the source works on bytes. Where a multi-byte character meets an operator the two differ: for `ls>é`, Redirection.SplitRedirection keeps `é` as the pathname, while the source keeps only its first byte 0xC3.
- Redirection.SplitRedirection: requires a `>` in the line. Without one, the source reads past the terminating NUL.

## Findings

| source | as written | input that shows it | evidently intended | confidence | as-written member | corrected member |
|---|---|---|---|---|---|---|
| Commands.cpp:84 | the NUL goes after `find_last_not_of` of the stale copy, where the `&` still stands, so the blank that replaced it stays | `sleep 10&` becomes `sleep 10 ` | all trailing blanks removed: `sleep 10` | high; not executed | Background.TrailingBlankLeftBehind | Background.WithoutBackgroundSign |
| Commands.cpp:102-103 | `checkAndRemoveAmpersand` erases the sign and falls off its end without `return true` | `sleep 10&`: the value returned is unspecified | returns true after erasing | high; not executed | Background.AmpersandReturnUnspecified | Background.CheckAndRemoveAmpersand |
| Commands.cpp:72-75 | the index is stored in an `unsigned int` and compared with the 64-bit `npos`, so the blank-line guard never fires | a line of two blanks: the index becomes 0xFFFFFFFF | a blank line is left alone | high; not executed | Background.BlankLineEscapesNposGuard | Background.WithoutBackgroundSign |
| Commands.cpp:250 | a single `char` is assigned to the `std::string` pathname | `ls>out` keeps pathname `o` | the whole target `out` | high; not executed | Redirection.RedirectionTargetTruncated | Redirection.SplitRedirectionIntended |
| Commands.cpp:443-448 | `fg` without an argument looks up job 0, which never exists | `fg` reports "job-id 0 does not exist" | resume the job with the largest id | high; not executed | JobControl.NewForegroundCommand | JobControl.NewForegroundCommandCorrected |
| Commands.cpp:508-513 | `bg` without an argument looks up job 0, which never exists | `bg` reports "job-id 0 does not exist" | resume the stopped job with the largest id | high; not executed | JobControl.NewBackgroundCommand | JobControl.NewBackgroundCommandCorrected |
| Commands.cpp:545 | the invalid-arguments line of `bg` spells the command `b g` | `bg 1 2` prints `smash error: b g: invalid arguments` | `smash error: bg: invalid arguments` | high; not executed | Output.BgArgumentsErrorMisspelled | Output.CommandCorrected |
