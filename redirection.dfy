/**
 * The `RedirectionCommand` constructor: splits a line at its first `>` into
 * the command part and the target, with append mode when `>>` is used.
 *
 * The line is a C string: reading at its length yields the terminating NUL.
 * The source assigns a single `char` to the `std::string` pathname, so the
 * target it keeps is one character long (RedirectionTargetTruncated); the
 * split as evidently intended keeps the whole trimmed target.
 */
module Redirection {
  import opened Text

  /** The character at `i` of a C string, the terminating NUL at its length. */
  function CharAt(line: string, i: nat): char
    requires i <= |line|
  {
    if i == |line| then '\0' else line[i]
  }

  /** The fields the constructor fills in. */
  datatype Split = Split(cmdPart: string, pathname: string, toAppend: bool)

  /** The position of the first `c` in `line`. */
  function FirstIndexOf(line: string, c: char): (i: nat)
    requires c in line
    ensures i < |line| && line[i] == c && c !in line[..i]
  {
    if line[0] == c then 0
    else
      assert c in line[1..] by {
        var k :| 0 <= k < |line| && line[k] == c;
        assert line[1..][k - 1] == c;
      }
      var i := 1 + FirstIndexOf(line[1..], c);
      assert line[..i] == [line[0]] + line[1..][..i - 1];
      i
  }

  /**
   * The split as written: the command part is everything before the first
   * `>`; append mode when the next character is `>` too; the pathname is
   * the single character after the operator (the NUL if the line ends there).
   */
  function SplitRedirection(line: string): (r: Split)
    requires '>' in line
    ensures |r.cmdPart| < |line| && r.cmdPart == line[..|r.cmdPart|]
    ensures line[|r.cmdPart|] == '>' && '>' !in r.cmdPart
    ensures r.toAppend <==> |r.cmdPart| + 1 < |line| && line[|r.cmdPart| + 1] == '>'
    ensures |r.pathname| == 1
    ensures r.pathname[0] == CharAt(line, |r.cmdPart| + if r.toAppend then 2 else 1)
  {
    var i := FirstIndexOf(line, '>');
    var toAppend := CharAt(line, i + 1) == '>';
    var target := if toAppend then i + 2 else i + 1;
    Split(line[..i], [CharAt(line, target)], toAppend)
  }

  /** The split as evidently intended: the pathname is the whole text after the operator, trimmed. */
  function SplitRedirectionIntended(line: string): (r: Split)
    requires '>' in line
    ensures r.cmdPart == SplitRedirection(line).cmdPart && r.toAppend == SplitRedirection(line).toAppend
    ensures r.pathname == Trim(line[|r.cmdPart| + if r.toAppend then 2 else 1..])
  {
    var s := SplitRedirection(line);
    var rest := line[|s.cmdPart| + if s.toAppend then 2 else 1..];
    Split(s.cmdPart, Trim(rest), s.toAppend)
  }

  /** `cmd > file`: the target is written in full, and only its first character is kept (RedirectRoundTrip keeps all of it). */
  lemma RedirectionTargetTruncated(cmd: string, file: string)
    requires '>' !in cmd && |file| >= 2 && file[0] != '>'
    requires !IsWs(file[0]) && !IsWs(file[|file| - 1])
    ensures SplitRedirection(cmd + ">" + file) == Split(cmd, [file[0]], false)
    ensures SplitRedirection(cmd + ">" + file).pathname != file
  {
    var line := cmd + ">" + file;
    assert line[|cmd|] == '>' && line[..|cmd|] == cmd && line[|cmd| + 1] == file[0];
    TargetIsNextChar(line, cmd);
    assert |[file[0]]| != |file|;
  }

  /** Without a second `>`, the pathname kept is the one character after the first. */
  lemma TargetIsNextChar(line: string, cmd: string)
    requires |cmd| + 1 < |line| && line[..|cmd|] == cmd && line[|cmd|] == '>' && '>' !in cmd
    requires line[|cmd| + 1] != '>'
    ensures SplitRedirection(line) == Split(cmd, [line[|cmd| + 1]], false)
  {
    CmdPartIs(line, cmd);
  }

  /** The command part is the prefix before the first `>`, whatever follows it. */
  lemma CmdPartIs(line: string, cmd: string)
    requires |cmd| < |line| && line[..|cmd|] == cmd && line[|cmd|] == '>' && '>' !in cmd
    ensures SplitRedirection(line).cmdPart == cmd
  {
    var p := SplitRedirection(line).cmdPart;
    if |p| < |cmd| {
      assert false;
    } else if |p| > |cmd| {
      assert false;
    }
  }

  /** Round trip of the intended split for `cmd > file`: command, target and mode come back. */
  lemma RedirectRoundTrip(cmd: string, file: string)
    requires '>' !in cmd && file != [] && file[0] != '>'
    requires !IsWs(file[0]) && !IsWs(file[|file| - 1])
    ensures SplitRedirectionIntended(cmd + ">" + file) == Split(cmd, file, false)
  {
    var line := cmd + ">" + file;
    assert line[|cmd|] == '>' && line[..|cmd|] == cmd;
    CmdPartIs(line, cmd);
    assert line[|cmd| + 1] == file[0];
    assert line[|cmd| + 1..] == file;
    TrimOfTrimmed(file);
  }

  /** Round trip of the intended split for `cmd >> file`: command, target and append mode come back. */
  lemma AppendRoundTrip(cmd: string, file: string)
    requires '>' !in cmd && file != []
    requires !IsWs(file[0]) && !IsWs(file[|file| - 1])
    ensures SplitRedirectionIntended(cmd + ">>" + file) == Split(cmd, file, true)
  {
    var line := cmd + ">>" + file;
    assert line[|cmd|] == '>' && line[|cmd| + 1] == '>' && line[..|cmd|] == cmd;
    CmdPartIs(line, cmd);
    assert line[|cmd| + 2..] == file;
    TrimOfTrimmed(file);
  }

  /** A constructed `RedirectionCommand`. */
  class RedirectionCommand {
    var cmdPart: string
    var pathname: string
    var toAppend: bool

    /**
     * Scans for the first `>` (or the terminating NUL), checks the next
     * character for a second `>`, and keeps the command part and the one
     * character after the operator.
     */
    constructor(line: string)
      requires '>' in line && '\0' !in line
      ensures Split(cmdPart, pathname, toAppend) == SplitRedirection(line)
    {
      var splitPlace := 0;
      while CharAt(line, splitPlace) != '\0' && CharAt(line, splitPlace) != '>'
        invariant splitPlace <= |line|
        invariant '>' !in line[..splitPlace]
        decreases |line| - splitPlace
      {
        assert line[..splitPlace + 1] == line[..splitPlace] + [line[splitPlace]];
        splitPlace := splitPlace + 1;
      }
      if splitPlace == |line| {
        assert false;
      }
      ghost var expected := SplitRedirection(line);
      CmdPartIs(line, line[..splitPlace]);
      var append := CharAt(line, splitPlace + 1) == '>';
      toAppend := append;
      cmdPart := line[..splitPlace];
      if append {
        splitPlace := splitPlace + 1;
      }
      pathname := [CharAt(line, splitPlace + 1)];
    }
  }
}
