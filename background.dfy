/**
 * The background sign `&` of Commands.cpp: `_isBackgroundComamnd`,
 * `_removeBackgroundSign` (which edits a NUL-terminated `char` buffer in
 * place) and `checkAndRemoveAmpersand` (which edits a `std::string`).
 *
 * Both editors store `find_last_not_of` in an `unsigned int` and compare it
 * with `string::npos`. With a 64-bit `size_t` that comparison is never true,
 * so a line made only of whitespace makes them index far past its end; the
 * members modelling the code as written therefore require a line that is not
 * all whitespace and shorter than 2^32 characters.
 */
module Background {
  import opened Wrappers
  import opened Text

  /** One more than the largest `unsigned int`. */
  const UIntRange: nat := 0x1_0000_0000

  /** `std::string::npos` for a 64-bit `size_t`. */
  const Npos: nat := 0xFFFF_FFFF_FFFF_FFFF

  /** `unsigned int idx = pos;`: the conversion keeps the low 32 bits. */
  function ToUnsigned(pos: nat): nat
  {
    pos % UIntRange
  }

  /** `find_last_not_of(WHITESPACE)` as `size_t`, with `npos` for "none". */
  function LastNotWsPos(s: string): nat
  {
    match FindLastNotWs(s)
    case None => Npos
    case Some(i) => i
  }

  /** The index the two editors actually hold after the `unsigned int` conversion. */
  function EditorIndexAsWritten(s: string): nat
  {
    ToUnsigned(LastNotWsPos(s))
  }

  /**
   * For a line of blanks the editors' `idx == string::npos` guard does not
   * fire: the index they go on to use lies past the end of the line.
   */
  lemma BlankLineEscapesNposGuard(s: string)
    requires AllWs(s)
    ensures EditorIndexAsWritten(s) != Npos
    ensures EditorIndexAsWritten(s) == 0xFFFF_FFFF
  {
    assert FindLastNotWs(s) == None;
  }

  /** For lines below 2^32 characters that are not all whitespace the conversion is harmless. */
  lemma EditorIndexExact(s: string)
    requires !AllWs(s) && |s| < UIntRange
    ensures EditorIndexAsWritten(s) == FindLastNotWs(s).value
  {
  }

  /** `s` ends with `&` followed only by whitespace. */
  ghost predicate EndsWithSign(s: string)
  {
    exists k :: 0 <= k < |s| && s[k] == '&' && AllWs(s[k + 1..])
  }

  /** A non-blank followed only by blanks is the last non-blank. */
  lemma LastNotWsUnique(s: string, k: nat)
    requires k < |s| && !IsWs(s[k]) && AllWs(s[k + 1..])
    ensures FindLastNotWs(s) == Some(k)
  {
    assert !AllWs(s) by {
      assert !IsWs(s[k]);
    }
  }

  /**
   * `_isBackgroundComamnd`: the last non-whitespace character is `&`. An
   * all-whitespace line makes the source read `str[npos]`.
   */
  function IsBackgroundCommand(line: string): (b: bool)
    requires !AllWs(line)
    ensures b <==> EndsWithSign(line)
  {
    LastNotWsIsSign(line);
    line[FindLastNotWs(line).value] == '&'
  }

  /** The last non-whitespace character is `&` exactly when the line ends with `&` and optional whitespace. */
  lemma LastNotWsIsSign(line: string)
    requires !AllWs(line)
    ensures line[FindLastNotWs(line).value] == '&' <==> EndsWithSign(line)
  {
    var i := FindLastNotWs(line).value;
    if line[i] == '&' {
      assert AllWs(line[i + 1..]);
    }
    if EndsWithSign(line) {
      var k :| 0 <= k < |line| && line[k] == '&' && AllWs(line[k + 1..]);
      LastNotWsUnique(line, k);
    }
  }

  // ---------------------------------------------------------------------
  // `_removeBackgroundSign` on a NUL-terminated buffer

  /** The length `strlen` computes: the index of the first NUL. */
  function StrLen(b: seq<char>): (n: nat)
    requires '\0' in b
    ensures n < |b| && b[n] == '\0' && '\0' !in b[..n]
  {
    if b[0] == '\0' then 0
    else
      var n := StrLen(b[1..]);
      assert b[..n + 1] == [b[0]] + b[1..][..n];
      n + 1
  }

  /** The C string a buffer holds: everything before its first NUL. */
  function CString(b: seq<char>): (s: string)
    requires '\0' in b
    ensures '\0' !in s
  {
    b[..StrLen(b)]
  }

  /** The first NUL of a buffer is where the string ends, wherever it was found. */
  lemma StrLenIs(b: seq<char>, n: nat)
    requires n < |b| && b[n] == '\0' && '\0' !in b[..n]
    ensures StrLen(b) == n
  {
  }

  /**
   * The string `_removeBackgroundSign` leaves: when the line ends with `&`
   * (and optional whitespace) the `&` becomes a blank and the terminator is
   * written right after it, so the blank stays at the end of the line. The
   * second `find_last_not_of` runs on the copy `str` taken before the
   * blank was written, where the `&` is still present.
   */
  function SignBlankedAsWritten(s: string): string
    requires !AllWs(s)
  {
    var idx := FindLastNotWs(s).value;
    if s[idx] != '&' then s else s[..idx] + " "
  }

  /** The edit `_removeBackgroundSign` makes to the whole buffer. */
  function SignEdit(b: seq<char>): seq<char>
    requires '\0' in b && !AllWs(CString(b))
  {
    var s := CString(b);
    var idx := FindLastNotWs(s).value;
    if s[idx] != '&' then b else b[idx := ' '][idx + 1 := '\0']
  }

  /** After the edit the buffer holds exactly the as-written result string. */
  lemma SignEditResult(b: seq<char>)
    requires '\0' in b && !AllWs(CString(b))
    ensures '\0' in SignEdit(b)
    ensures CString(SignEdit(b)) == SignBlankedAsWritten(CString(b))
  {
    var s := CString(b);
    var idx := FindLastNotWs(s).value;
    if s[idx] == '&' {
      var b' := SignEdit(b);
      assert b'[idx + 1] == '\0';
      assert b'[..idx + 1] == s[..idx] + " ";
      StrLenIs(b', idx + 1);
    }
  }

  /**
   * `_removeBackgroundSign`: copies the C string, finds its last
   * non-whitespace character, and if it is `&` overwrites it with a blank
   * and terminates the string right after that blank.
   */
  method RemoveBackgroundSign(buf: array<char>)
    requires '\0' in buf[..]
    requires !AllWs(CString(buf[..])) && |CString(buf[..])| < UIntRange
    modifies buf
    ensures buf[..] == SignEdit(old(buf[..]))
    ensures '\0' in buf[..] && CString(buf[..]) == SignBlankedAsWritten(CString(old(buf[..])))
  {
    ghost var b := buf[..];
    // const string str(cmd_line): the strlen loop and the copy
    var n := 0;
    while buf[n] != '\0'
      invariant 0 <= n <= StrLen(b)
      decreases StrLen(b) - n
    {
      assert b[..StrLen(b)][n] == b[n];
      n := n + 1;
    }
    var str := buf[..n];
    assert str == CString(b);
    // the `idx == string::npos` test cannot fire (BlankLineEscapesNposGuard);
    // here the line is not all whitespace, so idx is the real position
    var idx := FindLastNotWs(str).value;
    if buf[idx] != '&' {
      return;
    }
    buf[idx] := ' ';
    var end := FindLastNotWs(str[..idx + 1]).value;
    assert end == idx;
    buf[end + 1] := '\0';
    SignEditResult(b);
  }

  /**
   * The result the comments of `_removeBackgroundSign` describe: the `&`
   * and every blank before it removed. A line that does not end with `&`
   * and blanks, a line of blanks included, is left as it is.
   */
  function WithoutBackgroundSign(s: string): (r: string)
    ensures |r| <= |s| && r == s[..|r|]
    ensures AllWs(s) ==> r == s
    ensures !EndsWithSign(s) ==> r == s
  {
    match FindLastNotWs(s)
    case None => s
    case Some(idx) =>
      LastNotWsIsSign(s);
      if s[idx] != '&' then s else RTrim(s[..idx])
  }

  /** The corrected removal leaves no trailing whitespace behind a removed sign. */
  lemma WithoutBackgroundSignTrimmed(s: string)
    requires !AllWs(s) && IsBackgroundCommand(s)
    ensures WithoutBackgroundSign(s) == [] || !IsWs(WithoutBackgroundSign(s)[|WithoutBackgroundSign(s)| - 1])
  {
  }

  /** A string whose last character is not whitespace is its own RTrim. */
  lemma RTrimOfTrimmed(c: string)
    requires c == [] || !IsWs(c[|c| - 1])
    ensures RTrim(c) == c
  {
    if c != [] {
      assert FindLastNotWs(c) == Some(|c| - 1);
      assert c[..|c|] == c;
    }
  }

  /** Appending the sign to a command and removing it gives the command back. */
  lemma SignRoundTrip(c: string, blanks: string)
    requires c == [] || !IsWs(c[|c| - 1])
    requires AllWs(blanks)
    ensures WithoutBackgroundSign(c + "&" + blanks) == c
  {
    var s := c + "&" + blanks;
    assert s[|c|] == '&';
    assert s[|c| + 1..] == blanks;
    LastNotWsUnique(s, |c|);
    assert s[..|c|] == c;
    RTrimOfTrimmed(c);
  }

  /** The blank the source leaves behind: `sleep 10&` becomes `sleep 10 `, not `sleep 10`. */
  lemma TrailingBlankLeftBehind()
    ensures !AllWs("sleep 10&") && SignBlankedAsWritten("sleep 10&") == "sleep 10 "
    ensures WithoutBackgroundSign("sleep 10&") == "sleep 10"
  {
    var s := "sleep 10&";
    assert s[8] == '&' && s[9..] == [];
    LastNotWsUnique(s, 8);
    SignRoundTrip("sleep 10", "");
    assert "sleep 10" + "&" + "" == s;
  }

  /** The blank left behind never changes how the line tokenizes. */
  lemma SignRemovalSameTokens(s: string)
    requires !AllWs(s)
    ensures Tokens(SignBlankedAsWritten(s)) == Tokens(WithoutBackgroundSign(s))
  {
    var idx := FindLastNotWs(s).value;
    if s[idx] == '&' {
      var p := s[..idx];
      TokensDropTrailingWs(p, " ");
      TokensOfRTrim(p);
    }
  }

  /** RTrim keeps the tokens. */
  lemma TokensOfRTrim(p: string)
    ensures Tokens(RTrim(p)) == Tokens(p)
  {
    var r := RTrim(p);
    assert p == r + p[|r|..];
    TokensDropTrailingWs(r, p[|r|..]);
  }

  // ---------------------------------------------------------------------
  // `checkAndRemoveAmpersand`

  /** What `checkAndRemoveAmpersand` returns and the string it leaves behind. */
  datatype AmpersandCheck = AmpersandCheck(removed: bool, line: string)

  /**
   * `checkAndRemoveAmpersand` as written: a line not ending with `&` is
   * left alone and `false` is returned; otherwise the `&` and everything
   * after it is erased and the function runs off its end without a
   * `return`, so the caller sees an unspecified value, `fallOff` here.
   */
  function CheckAndRemoveAmpersandAsWritten(str: string, fallOff: bool): (r: AmpersandCheck)
    requires !AllWs(str) && |str| < UIntRange
    ensures !EndsWithSign(str) ==> r == AmpersandCheck(false, str)
    ensures EndsWithSign(str) ==>
      && r.removed == fallOff
      && |r.line| < |str| && r.line == str[..|r.line|] && str[|r.line|] == '&' && AllWs(str[|r.line| + 1..])
  {
    LastNotWsIsSign(str);
    var idx := FindLastNotWs(str).value;
    if str[idx] != '&' then AmpersandCheck(false, str)
    else AmpersandCheck(fallOff, str[..idx])
  }

  /**
   * `checkAndRemoveAmpersand` as evidently intended: `true` exactly when the
   * `&` was erased, and a blank line is left alone with `false`.
   */
  function CheckAndRemoveAmpersand(str: string): (r: AmpersandCheck)
    ensures r.removed <==> EndsWithSign(str)
    ensures !r.removed ==> r.line == str
    ensures r.removed ==>
      |r.line| < |str| && r.line == str[..|r.line|] && str[|r.line|] == '&' && AllWs(str[|r.line| + 1..])
  {
    match FindLastNotWs(str)
    case None =>
      assert !EndsWithSign(str) by {
        if k :| 0 <= k < |str| && str[k] == '&' && AllWs(str[k + 1..]) {
          assert !IsWs(str[k]);
        }
      }
      AmpersandCheck(false, str)
    case Some(idx) =>
      LastNotWsIsSign(str);
      if str[idx] != '&' then AmpersandCheck(false, str)
      else AmpersandCheck(true, str[..idx])
  }

  /** On every line the source handles, both versions edit alike and agree whenever the source returns a value. */
  lemma AmpersandAsWrittenAgrees(str: string, fallOff: bool)
    requires !AllWs(str) && |str| < UIntRange
    ensures CheckAndRemoveAmpersandAsWritten(str, fallOff).line == CheckAndRemoveAmpersand(str).line
    ensures !CheckAndRemoveAmpersand(str).removed ==> !CheckAndRemoveAmpersandAsWritten(str, fallOff).removed
  {
  }

  /** `sleep 10&`: the as-written return value depends on the unspecified fall-off value. */
  lemma AmpersandReturnUnspecified()
    ensures !AllWs("sleep 10&") && !CheckAndRemoveAmpersandAsWritten("sleep 10&", false).removed
    ensures CheckAndRemoveAmpersand("sleep 10&").removed
  {
    var s := "sleep 10&";
    assert s[8] == '&' && s[9..] == [];
    LastNotWsUnique(s, 8);
  }

  /** The corrected check agrees with `_isBackgroundComamnd` on every line that one accepts. */
  lemma AmpersandAgreesWithBackground(str: string)
    requires !AllWs(str)
    ensures CheckAndRemoveAmpersand(str).removed == IsBackgroundCommand(str)
  {
  }
}
