/**
 * Whitespace trimming and the command-line tokenizer of Commands.cpp
 * (`_ltrim`, `_rtrim`, `_trim`, `_parseCommandLine`).
 *
 * `find_first_not_of`/`find_last_not_of` over `WHITESPACE` are modelled by
 * FindFirstNotWs/FindLastNotWs; `istringstream >> s` splits on the same six
 * characters (the C-locale `isspace` set), so one whitespace predicate serves both.
 */
module Text {
  import opened Wrappers

  /** `WHITESPACE`: space, newline, carriage return, tab, form feed, vertical tab. */
  const Whitespace: string := " \n\r\t\U{C}\U{B}"

  /** `char* args[21]`: twenty tokens and the terminating null pointer. */
  const MaxArgs: nat := 20

  predicate IsWs(c: char)
    ensures IsWs(c) <==> c in Whitespace
  {
    c == ' ' || c == '\n' || c == '\r' || c == '\t' || c == '\U{C}' || c == '\U{B}'
  }

  predicate AllWs(s: string) { forall i :: 0 <= i < |s| ==> IsWs(s[i]) }

  predicate NoWs(s: string) { forall i :: 0 <= i < |s| ==> !IsWs(s[i]) }

  /** `s.find_first_not_of(WHITESPACE)`, with None for `npos`. */
  function FindFirstNotWs(s: string): (r: Option<nat>)
    ensures r.None? <==> AllWs(s)
    ensures r.Some? ==> r.value < |s| && !IsWs(s[r.value]) && AllWs(s[..r.value])
  {
    if s == [] then None
    else if !IsWs(s[0]) then Some(0)
    else
      match FindFirstNotWs(s[1..])
      case None => None
      case Some(i) =>
        assert s[..i + 1] == [s[0]] + s[1..][..i];
        Some(i + 1)
  }

  /** `s.find_last_not_of(WHITESPACE)`, with None for `npos`. */
  function FindLastNotWs(s: string): (r: Option<nat>)
    ensures r.None? <==> AllWs(s)
    ensures r.Some? ==> r.value < |s| && !IsWs(s[r.value]) && AllWs(s[r.value + 1..])
  {
    if s == [] then None
    else if !IsWs(s[|s| - 1]) then Some(|s| - 1)
    else
      var r := FindLastNotWs(s[..|s| - 1]);
      assert r.Some? ==> s[r.value + 1..] == s[..|s| - 1][r.value + 1..] + [s[|s| - 1]];
      r
  }

  /** `_ltrim`: the suffix of `s` left after its leading whitespace. */
  function LTrim(s: string): (r: string)
    ensures |r| <= |s| && r == s[|s| - |r|..]
    ensures AllWs(s[..|s| - |r|])
    ensures r == [] || !IsWs(r[0])
  {
    match FindFirstNotWs(s)
    case None => ""
    case Some(start) => s[start..]
  }

  /** `_rtrim`: the prefix of `s` left after its trailing whitespace. */
  function RTrim(s: string): (r: string)
    ensures |r| <= |s| && r == s[..|r|]
    ensures AllWs(s[|r|..])
    ensures r == [] || !IsWs(r[|r| - 1])
  {
    match FindLastNotWs(s)
    case None => ""
    case Some(end) => s[..end + 1]
  }

  /** `_trim`: both ends trimmed; empty exactly when `s` is all whitespace. */
  function Trim(s: string): (r: string)
    ensures r == [] || (!IsWs(r[0]) && !IsWs(r[|r| - 1]))
    ensures r == [] <==> AllWs(s)
  {
    var t := LTrim(s);
    var r := RTrim(t);
    assert r == [] ==> AllWs(s) by {
      if r == [] {
        assert t[|r|..] == t;
        AllWsJoin(s[..|s| - |t|], t);
        assert s == s[..|s| - |t|] + t;
      }
    }
    assert r != [] ==> !IsWs(s[|s| - |t|]) by {
      if r != [] {
        assert t[0] == s[|s| - |t|];
      }
    }
    r
  }

  lemma AllWsJoin(a: string, b: string)
    requires AllWs(a) && AllWs(b)
    ensures AllWs(a + b)
  {
    forall i | 0 <= i < |a + b|
      ensures IsWs((a + b)[i])
    {
      if i >= |a| {
        assert (a + b)[i] == b[i - |a|];
      }
    }
  }

  /** What `_trim` keeps is one contiguous piece of `s`, with only whitespace before and after it. */
  lemma TrimWithin(s: string) returns (i: nat)
    ensures i + |Trim(s)| <= |s|
    ensures Trim(s) == s[i..i + |Trim(s)|]
    ensures AllWs(s[..i]) && AllWs(s[i + |Trim(s)|..])
  {
    var t := LTrim(s);
    var r := RTrim(t);
    i := |s| - |t|;
    assert s[i + |r|..] == t[|r|..];
    SliceOfSlice(s, i, |r|);
  }

  lemma SliceOfSlice(s: string, i: nat, n: nat)
    requires i + n <= |s|
    ensures s[i..][..n] == s[i..i + n]
  {
  }

  lemma Recompose(s: string, i: nat, r: string)
    requires i + |r| <= |s| && r == s[i..i + |r|]
    ensures s == s[..i] + (r + s[i + |r|..])
  {
    assert s == s[..i] + s[i..i + |r|] + s[i + |r|..];
  }

  /** A string that neither starts nor ends with whitespace is its own trim. */
  lemma TrimOfTrimmed(r: string)
    requires r != [] && !IsWs(r[0]) && !IsWs(r[|r| - 1])
    ensures Trim(r) == r
  {
    assert FindFirstNotWs(r) == Some(0);
    assert r[0..] == r;
    assert FindLastNotWs(r) == Some(|r| - 1);
    assert r[..|r|] == r;
  }

  /** Trimming twice trims nothing more. */
  lemma TrimIdempotent(s: string)
    ensures Trim(Trim(s)) == Trim(s)
  {
    var r := Trim(s);
    if r != [] {
      TrimOfTrimmed(r);
    }
  }

  /** The maximal whitespace-free prefix of `s`: what one `iss >> s` extracts at a non-blank. */
  function Word(s: string): (w: string)
    ensures |w| <= |s|
  {
    if s == [] || IsWs(s[0]) then [] else [s[0]] + Word(s[1..])
  }

  /** Word is a blank-free prefix that stops only at the end or at a blank. */
  lemma {:induction false} WordSpec(s: string)
    ensures Word(s) == s[..|Word(s)|] && NoWs(Word(s))
    ensures |Word(s)| == |s| || IsWs(s[|Word(s)|])
    ensures s != [] && !IsWs(s[0]) ==> Word(s) != []
  {
    if s != [] && !IsWs(s[0]) {
      WordSpec(s[1..]);
    }
  }

  /** A blank-free word followed by the end or by a blank is the whole Word of the text. */
  lemma {:induction false} WordOfPrefix(w: string, rest: string)
    requires NoWs(w)
    requires rest == [] || IsWs(rest[0])
    ensures Word(w + rest) == w
  {
    if w != [] {
      assert (w + rest)[1..] == w[1..] + rest;
      WordOfPrefix(w[1..], rest);
    } else {
      assert w + rest == rest;
    }
  }

  /**
   * The tokens `iss >> s` extracts, in order: blanks are skipped, and at a
   * non-blank the maximal blank-free run is one token. TokensCharacterized
   * states what they are.
   */
  function Tokens(s: string): (ts: seq<string>)
    decreases |s|
  {
    if s == [] then []
    else if IsWs(s[0]) then Tokens(s[1..])
    else
      var w := Word(s);
      WordSpec(s);
      [w] + Tokens(s[|w|..])
  }

  /** The whitespace runs around and between the tokens of `s`. */
  function Gaps(s: string): (gs: seq<string>)
    ensures |gs| == |Tokens(s)| + 1
    decreases |s|
  {
    if s == [] then [[]]
    else if IsWs(s[0]) then
      var g := Gaps(s[1..]);
      [[s[0]] + g[0]] + g[1..]
    else
      var w := Word(s);
      WordSpec(s);
      [[]] + Gaps(s[|w|..])
  }

  /** `gaps[0] + words[0] + gaps[1] + ... + words[n-1] + gaps[n]`. */
  function Interleave(gaps: seq<string>, words: seq<string>): string
    requires |gaps| == |words| + 1
  {
    if words == [] then gaps[0] else gaps[0] + words[0] + Interleave(gaps[1..], words[1..])
  }

  /** Moving text into or out of the first gap moves it to the front of the interleaving. */
  lemma InterleaveFirstGap(c: string, gaps: seq<string>, words: seq<string>)
    requires |gaps| == |words| + 1
    ensures Interleave([c + gaps[0]] + gaps[1..], words) == c + Interleave(gaps, words)
  {
    var gaps' := [c + gaps[0]] + gaps[1..];
    assert gaps'[1..] == gaps[1..];
  }

  /**
   * `s` is the words separated by whitespace gaps: every word is non-empty
   * and blank-free, every gap is all whitespace, and every gap between two
   * words is non-empty (so no word can be extended or merged with the next).
   */
  ghost predicate SplitsAs(s: string, gaps: seq<string>, words: seq<string>)
  {
    && |gaps| == |words| + 1
    && (forall i :: 0 <= i < |words| ==> words[i] != [] && NoWs(words[i]))
    && (forall i :: 0 <= i < |gaps| ==> AllWs(gaps[i]))
    && (forall i :: 0 < i < |words| ==> gaps[i] != [])
    && s == Interleave(gaps, words)
  }

  /** The tokens of any string, with its gaps, split it. */
  lemma {:induction false} TokensSplit(s: string)
    ensures SplitsAs(s, Gaps(s), Tokens(s))
    decreases |s|
  {
    if s == [] {
    } else if IsWs(s[0]) {
      TokensSplit(s[1..]);
      SplitConsBlank(s[0], s[1..], Gaps(s[1..]), Tokens(s[1..]));
      assert s == [s[0]] + s[1..];
    } else {
      WordSpec(s);
      var w := Word(s);
      TokensSplit(s[|w|..]);
      SplitConsWord(w, s[|w|..], Gaps(s[|w|..]), Tokens(s[|w|..]));
      assert s == w + s[|w|..];
    }
  }

  /** A blank in front of a split string joins its first gap. */
  lemma SplitConsBlank(c: char, rest: string, gaps: seq<string>, words: seq<string>)
    requires IsWs(c) && SplitsAs(rest, gaps, words)
    ensures SplitsAs([c] + rest, [[c] + gaps[0]] + gaps[1..], words)
  {
    var gs := [[c] + gaps[0]] + gaps[1..];
    InterleaveFirstGap([c], gaps, words);
    assert forall i :: 0 < i < |gs| ==> gs[i] == gaps[i];
    assert AllWs(gs[0]) by {
      assert gs[0] == [c] + gaps[0];
    }
  }

  /** A word in front of a split string that starts at a blank (or is empty) becomes its first word. */
  lemma SplitConsWord(w: string, rest: string, gaps: seq<string>, words: seq<string>)
    requires w != [] && NoWs(w) && (rest == [] || IsWs(rest[0]))
    requires SplitsAs(rest, gaps, words)
    ensures SplitsAs(w + rest, [[]] + gaps, [w] + words)
  {
    var gs, ws := [[]] + gaps, [w] + words;
    assert gs[1..] == gaps && ws[1..] == words;
    assert w + rest == [] + w + rest;
    if |ws| > 1 {
      // the gap after the first word starts with the blank that ended it
      assert rest != [];
      assert rest[0] == gaps[0][0];
    }
    forall i | 0 < i < |ws|
      ensures gs[i] != []
    {
      assert gs[i] == gaps[i - 1];
    }
  }

  /** Any split of `s` into words and gaps yields exactly its tokens. */
  lemma {:induction false} SplitDeterminesTokens(s: string, gaps: seq<string>, words: seq<string>)
    requires SplitsAs(s, gaps, words)
    ensures words == Tokens(s)
    decreases |s|
  {
    if gaps[0] != [] {
      // a leading blank: drop it from the first gap
      var g := gaps[0];
      var gaps' := [g[1..]] + gaps[1..];
      assert [g[0]] + gaps'[0] == g;
      assert gaps'[1..] == gaps[1..];
      assert gaps == [[g[0]] + gaps'[0]] + gaps'[1..];
      InterleaveFirstGap([g[0]], gaps', words);
      assert s == [g[0]] + Interleave(gaps', words);
      assert AllWs(gaps'[0]) by {
        assert forall k :: 0 <= k < |g[1..]| ==> g[1..][k] == g[k + 1];
      }
      assert forall i :: 0 < i < |gaps'| ==> gaps'[i] == gaps[i];
      SplitDeterminesTokens(s[1..], gaps', words);
    } else if words == [] {
      assert s == [];
    } else {
      var w := words[0];
      var rest := Interleave(gaps[1..], words[1..]);
      assert s == w + rest;
      if |words| > 1 {
        assert rest == gaps[1] + words[1] + Interleave(gaps[2..], words[2..]);
        assert rest[0] == gaps[1][0];
      } else {
        assert rest == gaps[1];
      }
      WordOfPrefix(w, rest);
      assert s[0] == w[0];
      assert s[|w|..] == rest;
      assert SplitsAs(rest, gaps[1..], words[1..]) by {
        forall i | 0 < i < |words[1..]|
          ensures gaps[1..][i] != []
        {
          assert gaps[1..][i] == gaps[i + 1];
        }
      }
      SplitDeterminesTokens(rest, gaps[1..], words[1..]);
    }
  }

  /**
   * The tokens of `s` are exactly its maximal non-empty whitespace-free runs,
   * in order: a sequence of words is the token list iff `s` splits into
   * those words and whitespace gaps.
   */
  lemma TokensCharacterized(s: string, words: seq<string>)
    ensures words == Tokens(s) <==> exists gaps :: SplitsAs(s, gaps, words)
  {
    if words == Tokens(s) {
      TokensSplit(s);
    }
    if gaps :| SplitsAs(s, gaps, words) {
      SplitDeterminesTokens(s, gaps, words);
    }
  }

  /** Every token is a non-empty, blank-free word. */
  lemma TokensAreWords(s: string)
    ensures forall i :: 0 <= i < |Tokens(s)| ==> Tokens(s)[i] != [] && NoWs(Tokens(s)[i])
  {
    TokensSplit(s);
  }

  /** Leading whitespace is skipped by the tokenizer. */
  lemma {:induction false} TokensSkipWs(g: string, x: string)
    requires AllWs(g)
    ensures Tokens(g + x) == Tokens(x)
  {
    if g != [] {
      assert (g + x)[1..] == g[1..] + x;
      TokensSkipWs(g[1..], x);
    } else {
      assert g + x == x;
    }
  }

  /** Trailing whitespace is skipped by the tokenizer. */
  lemma {:induction false} TokensDropTrailingWs(x: string, g: string)
    requires AllWs(g)
    ensures Tokens(x + g) == Tokens(x)
    decreases |x|
  {
    if x == [] {
      assert x + g == g + [];
      TokensSkipWs(g, []);
    } else if IsWs(x[0]) {
      assert (x + g)[1..] == x[1..] + g;
      TokensDropTrailingWs(x[1..], g);
    } else {
      WordSpec(x);
      var w := Word(x);
      var rest := x[|w|..];
      assert x == w + rest;
      assert x + g == w + (rest + g);
      if rest == [] {
        WordOfPrefix(w, rest + g);
      } else {
        WordOfPrefix(w, rest + g);
      }
      assert (x + g)[|w|..] == rest + g;
      TokensDropTrailingWs(rest, g);
    }
  }

  /** Whitespace around a text does not change its tokens. */
  lemma TokensIgnoreSurroundingWs(before: string, r: string, after: string)
    requires AllWs(before) && AllWs(after)
    ensures Tokens(before + (r + after)) == Tokens(r)
  {
    TokensSkipWs(before, r + after);
    TokensDropTrailingWs(r, after);
  }

  /** A piece of `s` with only whitespace around it has the tokens of `s`. */
  lemma TokensOfCore(s: string, i: nat, r: string)
    requires i + |r| <= |s| && r == s[i..i + |r|]
    requires AllWs(s[..i]) && AllWs(s[i + |r|..])
    ensures Tokens(r) == Tokens(s)
  {
    Recompose(s, i, r);
    TokensIgnoreSurroundingWs(s[..i], r, s[i + |r|..]);
  }

  /** `_parseCommandLine` tokenizes `_trim(cmd_line)`: the same tokens as the untrimmed line. */
  lemma TokensOfTrim(s: string)
    ensures Tokens(Trim(s)) == Tokens(s)
  {
    var i := TrimWithin(s);
    TokensOfCore(s, i, Trim(s));
  }

  /** A blank at position `i` of the unread text is skipped. */
  lemma TokensAfterBlank(text: string, i: nat)
    requires i < |text| && IsWs(text[i])
    ensures Tokens(text[i..]) == Tokens(text[i + 1..])
  {
    assert text[i..][1..] == text[i + 1..];
  }

  /** A maximal blank-free run `text[i..j]` at the front of the unread text is the next token. */
  lemma TokensAtWord(text: string, i: nat, j: nat)
    requires i < j <= |text|
    requires forall k :: i <= k < j ==> !IsWs(text[k])
    requires j == |text| || IsWs(text[j])
    ensures Tokens(text[i..]) == [text[i..j]] + Tokens(text[j..])
  {
    var s := text[i..];
    assert s == text[i..j] + text[j..];
    WordOfPrefix(text[i..j], text[j..]);
    assert s[|text[i..j]|..] == text[j..];
  }

  /** The end of the blank-free run that starts at `text[i]`. */
  method WordEnd(text: string, i: nat) returns (j: nat)
    requires i < |text| && !IsWs(text[i])
    ensures i < j <= |text|
    ensures forall k :: i <= k < j ==> !IsWs(text[k])
    ensures j == |text| || IsWs(text[j])
  {
    j := i + 1;
    while j < |text| && !IsWs(text[j])
      invariant i < j <= |text|
      invariant forall k :: i <= k < j ==> !IsWs(text[k])
    {
      j := j + 1;
    }
  }

  /**
   * The extraction loop of `_parseCommandLine`: `for (s; iss >> s; )` reads
   * the words of `text` one after the other, skipping blanks.
   */
  method ReadTokens(text: string) returns (args: seq<string>)
    ensures args == Tokens(text)
  {
    args := [];
    var i := 0;
    while i < |text|
      invariant 0 <= i <= |text|
      invariant args + Tokens(text[i..]) == Tokens(text)
    {
      if IsWs(text[i]) {
        TokensAfterBlank(text, i);
        i := i + 1;
      } else {
        var j := WordEnd(text, i);
        TokensAtWord(text, i, j);
        args := args + [text[i..j]];
        i := j;
      }
    }
  }

  /**
   * `_parseCommandLine`: the tokens of the trimmed line, in order. The
   * source stores them in `char* args[21]`, so a line with more than twenty
   * tokens overruns the array.
   */
  method ParseCommandLine(line: string) returns (args: seq<string>)
    requires |Tokens(line)| <= MaxArgs
    ensures args == Tokens(line)
  {
    var text := Trim(line);
    TokensOfTrim(line);
    args := ReadTokens(text);
  }
}
