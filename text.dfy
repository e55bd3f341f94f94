/**
 * String primitives shared by the Android client and the Flask server:
 * Java's String.trim, toLowerCase/toUpperCase on ASCII letters, literal
 * replace and indexOf, Java's split("\\s+"), and Python's str.strip,
 * str.split() and " ".join.
 */
module Text {

  datatype Option<T> = None | Some(value: T)

  // ---------------------------------------------------------------------
  // Characters
  // ---------------------------------------------------------------------

  /** The characters that Java's String.trim removes: everything up to U+0020. */
  predicate IsTrimSpace(c: char) { c <= ' ' }

  /** A whitespace class: the characters a tokenizer treats as separators. */
  datatype Blank = Blank(members: set<char>)

  predicate IsBlank(b: Blank, c: char) { c in b.members }

  /**
   * The regex \s, in the ASCII reading the model chooses: [ \t\n\x0B\f\r].
   * Android's ICU-based engine also counts the other Unicode white space.
   */
  const JavaRegexBlank: Blank :=
    Blank({' ', '\t', '\n', '\U{000B}', '\U{000C}', '\r'})

  /** The characters Python's str.isspace accepts, on which str.split() and str.strip() act. */
  const PythonBlank: Blank :=
    Blank({' ', '\t', '\n', '\U{000B}', '\U{000C}', '\r',
           '\U{001C}', '\U{001D}', '\U{001E}', '\U{001F}', '\U{0085}', '\U{00A0}',
           '\U{1680}', '\U{2000}', '\U{2001}', '\U{2002}', '\U{2003}', '\U{2004}',
           '\U{2005}', '\U{2006}', '\U{2007}', '\U{2008}', '\U{2009}', '\U{200A}',
           '\U{2028}', '\U{2029}', '\U{202F}', '\U{205F}', '\U{3000}'})

  predicate IsAsciiUpper(c: char) { 'A' <= c <= 'Z' }
  predicate IsAsciiLower(c: char) { 'a' <= c <= 'z' }

  /** ASCII case folding: A-Z become a-z, every other character is kept. */
  function LowerChar(c: char): (r: char)
    ensures IsAsciiUpper(c) ==> IsAsciiLower(r) && r as int == c as int + 32
    ensures !IsAsciiUpper(c) ==> r == c
  {
    if IsAsciiUpper(c) then (c as int + 32) as char else c
  }

  function UpperChar(c: char): (r: char)
    ensures IsAsciiLower(c) ==> IsAsciiUpper(r) && r as int == c as int - 32
    ensures !IsAsciiLower(c) ==> r == c
  {
    if IsAsciiLower(c) then (c as int - 32) as char else c
  }

  function Lower(s: string): (r: string)
    ensures |r| == |s| && forall i :: 0 <= i < |s| ==> r[i] == LowerChar(s[i])
  {
    seq(|s|, i requires 0 <= i < |s| => LowerChar(s[i]))
  }

  function Upper(s: string): (r: string)
    ensures |r| == |s| && forall i :: 0 <= i < |s| ==> r[i] == UpperChar(s[i])
  {
    seq(|s|, i requires 0 <= i < |s| => UpperChar(s[i]))
  }

  /** Lowering is idempotent and keeps a string that has no capital letter. */
  lemma {:induction false} LowerIdempotent(s: string)
    ensures Lower(Lower(s)) == Lower(s)
  {
  }

  // ---------------------------------------------------------------------
  // Java String.trim
  // ---------------------------------------------------------------------

  predicate AllTrimSpace(s: string) { forall k :: 0 <= k < |s| ==> IsTrimSpace(s[k]) }

  /** The length of the run of trim-spaces that begins s. */
  function LeadingTrimSpace(s: string): (n: nat)
    ensures n <= |s| && AllTrimSpace(s[..n])
    ensures n < |s| ==> !IsTrimSpace(s[n])
  {
    if s == [] || !IsTrimSpace(s[0]) then 0
    else
      var m := LeadingTrimSpace(s[1..]);
      assert s[..1 + m] == [s[0]] + s[1..][..m];
      1 + m
  }

  /** s without its trailing run of trim-spaces. */
  function DropTrailingTrimSpace(s: string): (r: string)
    ensures |r| <= |s| && r == s[..|r|] && AllTrimSpace(s[|r|..])
    ensures r != [] ==> !IsTrimSpace(r[|r| - 1])
  {
    if s == [] || !IsTrimSpace(s[|s| - 1]) then s
    else
      var r := DropTrailingTrimSpace(s[..|s| - 1]);
      assert s[|r|..] == s[..|s| - 1][|r|..] + [s[|s| - 1]];
      r
  }

  /**
   * Java's String.trim: the string between the leading and the trailing runs
   * of characters up to U+0020.
   */
  function Trim(s: string): (r: string)
    ensures var i := LeadingTrimSpace(s);
            i + |r| <= |s| && s[i..i + |r|] == r && AllTrimSpace(s[i + |r|..])
    ensures r == [] <==> AllTrimSpace(s)
    ensures r != [] ==> !IsTrimSpace(r[0]) && !IsTrimSpace(r[|r| - 1])
  {
    var i := LeadingTrimSpace(s);
    var r := DropTrailingTrimSpace(s[i..]);
    TrimCut(s, i, r);
    r
  }

  /** What the two cuts of Trim give: the kept middle and its ends. */
  lemma {:induction false} TrimCut(s: string, i: nat, r: string)
    requires i <= |s| && AllTrimSpace(s[..i]) && (i < |s| ==> !IsTrimSpace(s[i]))
    requires |r| <= |s| - i && r == s[i..][..|r|] && AllTrimSpace(s[i..][|r|..])
    requires r != [] ==> !IsTrimSpace(r[|r| - 1])
    ensures i + |r| <= |s| && s[i..i + |r|] == r && AllTrimSpace(s[i + |r|..])
    ensures r == [] <==> AllTrimSpace(s)
    ensures r != [] ==> !IsTrimSpace(r[0]) && !IsTrimSpace(r[|r| - 1])
  {
    assert s[i + |r|..] == s[i..][|r|..];
    assert s[i..i + |r|] == s[i..][..|r|];
    TrimEmptyIffBlank(s, i, r);
    if r != [] { assert r[0] == s[i]; }
  }

  /** The facts the body of Trim needs about the two cuts it makes. */
  lemma {:induction false} TrimEmptyIffBlank(s: string, i: nat, r: string)
    requires i <= |s| && AllTrimSpace(s[..i]) && (i < |s| ==> !IsTrimSpace(s[i]))
    requires |r| <= |s| - i && r == s[i..][..|r|] && AllTrimSpace(s[i..][|r|..])
    ensures r == [] <==> AllTrimSpace(s)
  {
    if r == [] {
      assert s[i..][0..] == s[i..];
      assert s == s[..i] + s[i..];
    } else {
      assert r[0] == s[i];
    }
  }

  lemma {:induction false} TrimIdempotent(s: string)
    ensures Trim(Trim(s)) == Trim(s)
  {
    var r := Trim(s);
    if r != [] {
      assert LeadingTrimSpace(r) == 0;
      assert DropTrailingTrimSpace(r) == r;
      assert r[0..] == r;
    }
  }

  // ---------------------------------------------------------------------
  // Literal search and replace (Java and Python agree here)
  // ---------------------------------------------------------------------

  predicate OccursAt(s: string, t: string, i: int) {
    0 <= i && i + |t| <= |s| && s[i..i + |t|] == t
  }

  predicate Contains(s: string, t: string) {
    exists i | 0 <= i <= |s| :: OccursAt(s, t, i)
  }

  /** Java's indexOf from a start position: the first occurrence at or after from, or -1. */
  function IndexOfFrom(s: string, t: string, from: nat): (r: int)
    requires from <= |s|
    ensures r == -1 || (from <= r && OccursAt(s, t, r))
    ensures r == -1 ==> forall j :: from <= j ==> !OccursAt(s, t, j)
    ensures r != -1 ==> forall j :: from <= j < r ==> !OccursAt(s, t, j)
    decreases |s| - from
  {
    if from + |t| > |s| then -1
    else if s[from..from + |t|] == t then from
    else IndexOfFrom(s, t, from + 1)
  }

  /** Java's String.indexOf(String): the first occurrence, or -1 when there is none. */
  function IndexOf(s: string, t: string): (r: int)
    ensures r == -1 <==> !Contains(s, t)
    ensures r != -1 ==> OccursAt(s, t, r) && forall j :: 0 <= j < r ==> !OccursAt(s, t, j)
  {
    IndexOfFrom(s, t, 0)
  }

  /** Java's String.lastIndexOf(char): the last index holding c, or -1. */
  function LastIndexOfChar(s: string, c: char): (r: int)
    ensures -1 <= r < |s|
    ensures r == -1 <==> c !in s
    ensures r != -1 ==> s[r] == c && c !in s[r + 1..]
  {
    if s == [] then -1
    else if s[|s| - 1] == c then |s| - 1
    else
      var r := LastIndexOfChar(s[..|s| - 1], c);
      assert s == s[..|s| - 1] + [s[|s| - 1]];
      assert r != -1 ==> s[r + 1..] == s[..|s| - 1][r + 1..] + [s[|s| - 1]];
      r
  }

  /**
   * Replace every occurrence of pattern by replacement, scanning left to right
   * and never overlapping: Java's String.replace(CharSequence, CharSequence)
   * and Python's str.replace agree on this for a non-empty pattern.
   */
  function Replace(s: string, pattern: string, replacement: string): string
    requires pattern != []
    decreases |s|
  {
    if |s| < |pattern| then s
    else if s[..|pattern|] == pattern then replacement + Replace(s[|pattern|..], pattern, replacement)
    else [s[0]] + Replace(s[1..], pattern, replacement)
  }

  /** A string in which the pattern does not occur is returned unchanged. */
  lemma {:induction false} ReplaceAbsent(s: string, pattern: string, replacement: string)
    requires pattern != []
    requires !Contains(s, pattern)
    ensures Replace(s, pattern, replacement) == s
  {
    if |s| >= |pattern| {
      assert !OccursAt(s, pattern, 0);
      assert s[..|pattern|] == s[0..0 + |pattern|];
      assert !Contains(s[1..], pattern) by {
        forall i | OccursAt(s[1..], pattern, i) ensures false {
          assert s[1..][i..i + |pattern|] == s[i + 1..i + 1 + |pattern|];
          assert OccursAt(s, pattern, i + 1);
        }
      }
      ReplaceAbsent(s[1..], pattern, replacement);
      assert s == [s[0]] + s[1..];
    }
  }

  /** An occurrence at the very start is replaced and the scan resumes after it. */
  lemma {:induction false} ReplaceLeading(s: string, pattern: string, replacement: string)
    requires pattern != []
    ensures Replace(pattern + s, pattern, replacement) == replacement + Replace(s, pattern, replacement)
  {
    var t := pattern + s;
    assert t[..|pattern|] == pattern;
    assert t[|pattern|..] == s;
  }

  /** A replacement no longer than the pattern never makes the string longer. */
  lemma {:induction false} ReplaceShrinks(s: string, pattern: string, replacement: string)
    requires pattern != [] && |replacement| <= |pattern|
    ensures |Replace(s, pattern, replacement)| <= |s|
  {
    if |s| >= |pattern| {
      if s[..|pattern|] == pattern {
        ReplaceShrinks(s[|pattern|..], pattern, replacement);
      } else {
        ReplaceShrinks(s[1..], pattern, replacement);
      }
    }
  }

  // ---------------------------------------------------------------------
  // Runs of blank and non-blank characters
  // ---------------------------------------------------------------------

  /** Where the run of non-blank characters that starts at index i ends. */
  function WordEnd(b: Blank, s: string, i: nat): (n: nat)
    requires i <= |s|
    ensures i <= n <= |s|
    ensures forall k :: i <= k < n ==> !IsBlank(b, s[k])
    ensures n < |s| ==> IsBlank(b, s[n])
    decreases |s| - i
  {
    if i == |s| || IsBlank(b, s[i]) then i else WordEnd(b, s, i + 1)
  }

  /** Where the run of blank characters that starts at index i ends. */
  function BlankEnd(b: Blank, s: string, i: nat): (n: nat)
    requires i <= |s|
    ensures i <= n <= |s|
    ensures forall k :: i <= k < n ==> IsBlank(b, s[k])
    ensures n < |s| ==> !IsBlank(b, s[n])
    decreases |s| - i
  {
    if i == |s| || !IsBlank(b, s[i]) then i else BlankEnd(b, s, i + 1)
  }

  /** The length of the run of non-blank characters that begins s. */
  function WordPrefixLen(b: Blank, s: string): (n: nat)
    ensures n <= |s|
    ensures NoBlank(b, s) ==> n == |s|
    ensures forall k :: 0 <= k < n ==> !IsBlank(b, s[k])
    ensures n < |s| ==> IsBlank(b, s[n])
  {
    WordEnd(b, s, 0)
  }

  /** The length of the run of blank characters that begins s. */
  function BlankPrefixLen(b: Blank, s: string): (n: nat)
    ensures n <= |s|
    ensures AllBlank(b, s) ==> n == |s|
    ensures forall k :: 0 <= k < n ==> IsBlank(b, s[k])
    ensures n < |s| ==> !IsBlank(b, s[n])
  {
    BlankEnd(b, s, 0)
  }

  /** The run lengths are determined by where the run stops. */
  lemma {:induction false} WordPrefixLenUnique(b: Blank, s: string, n: nat)
    requires n <= |s| && (forall k :: 0 <= k < n ==> !IsBlank(b, s[k])) && (n < |s| ==> IsBlank(b, s[n]))
    ensures WordPrefixLen(b, s) == n
  {
    WordEndUnique(b, s, 0, n);
  }

  lemma {:induction false} BlankPrefixLenUnique(b: Blank, s: string, n: nat)
    requires n <= |s| && (forall k :: 0 <= k < n ==> IsBlank(b, s[k])) && (n < |s| ==> !IsBlank(b, s[n]))
    ensures BlankPrefixLen(b, s) == n
  {
    BlankEndUnique(b, s, 0, n);
  }

  lemma {:induction false} WordEndUnique(b: Blank, s: string, i: nat, n: nat)
    requires i <= n <= |s| && (forall k :: i <= k < n ==> !IsBlank(b, s[k])) && (n < |s| ==> IsBlank(b, s[n]))
    ensures WordEnd(b, s, i) == n
    decreases n - i
  {
    if i < n { WordEndUnique(b, s, i + 1, n); }
  }

  lemma {:induction false} BlankEndUnique(b: Blank, s: string, i: nat, n: nat)
    requires i <= n <= |s| && (forall k :: i <= k < n ==> IsBlank(b, s[k])) && (n < |s| ==> !IsBlank(b, s[n]))
    ensures BlankEnd(b, s, i) == n
    decreases n - i
  {
    if i < n { BlankEndUnique(b, s, i + 1, n); }
  }

  predicate AllBlank(b: Blank, s: string) { forall k :: 0 <= k < |s| ==> IsBlank(b, s[k]) }
  predicate NoBlank(b: Blank, s: string) { forall k :: 0 <= k < |s| ==> !IsBlank(b, s[k]) }

  /**
   * An independent tally of the maximal runs of non-blank characters: a run
   * begins at every non-blank character that follows a blank one or the
   * start of the text (afterBlank says whether the previous character was blank).
   */
  function RunCount(b: Blank, s: string, afterBlank: bool): nat
  {
    if s == [] then 0
    else (if afterBlank && !IsBlank(b, s[0]) then 1 else 0) + RunCount(b, s[1..], IsBlank(b, s[0]))
  }

  /** Skipping a run of blanks never changes the tally taken after a blank. */
  lemma {:induction false} RunCountSkipBlank(b: Blank, s: string, n: nat)
    requires n <= |s| && forall k :: 0 <= k < n ==> IsBlank(b, s[k])
    ensures RunCount(b, s, true) == RunCount(b, s[n..], true)
  {
    if n > 0 {
      assert s[1..][n - 1..] == s[n..];
      RunCountSkipBlank(b, s[1..], n - 1);
    }
  }

  /** Skipping a run of non-blanks that began a run leaves exactly that run behind. */
  lemma {:induction false} RunCountSkipWord(b: Blank, s: string, n: nat, afterBlank: bool)
    requires 0 < n <= |s| && forall k :: 0 <= k < n ==> !IsBlank(b, s[k])
    ensures RunCount(b, s, afterBlank) == (if afterBlank then 1 else 0) + RunCount(b, s[n..], false)
  {
    if n > 1 {
      assert s[1..][n - 1..] == s[n..];
      RunCountSkipWord(b, s[1..], n - 1, false);
    }
  }

  /** A string with no non-blank character holds no run. */
  lemma {:induction false} RunCountAllBlank(b: Blank, s: string, afterBlank: bool)
    requires AllBlank(b, s)
    ensures RunCount(b, s, afterBlank) == 0
  {
    if s != [] { RunCountAllBlank(b, s[1..], true); }
  }

  // ---------------------------------------------------------------------
  // Splitting into the maximal runs of non-blank characters
  // ---------------------------------------------------------------------

  /** The maximal runs of non-blank characters of s, left to right. */
  function Tokens(b: Blank, s: string): (r: seq<string>)
    ensures forall i :: 0 <= i < |r| ==> r[i] != [] && NoBlank(b, r[i])
    decreases |s|
  {
    var k := BlankPrefixLen(b, s);
    if k == |s| then []
    else
      var t := s[k..];
      var n := WordPrefixLen(b, t);
      [t[..n]] + Tokens(b, t[n..])
  }

  /** A blank in front changes nothing. */
  lemma {:induction false} TokensSkipBlank(b: Blank, c: char, s: string)
    requires IsBlank(b, c)
    ensures Tokens(b, [c] + s) == Tokens(b, s)
  {
    var cs := [c] + s;
    assert cs[1..] == s;
    var k := BlankPrefixLen(b, s);
    assert BlankPrefixLen(b, cs) == 1 + k;
    if k < |s| { assert cs[1 + k..] == s[k..]; }
  }

  /** A word followed by a blank (or by nothing) is the first token. */
  lemma {:induction false} TokensWordFirst(b: Blank, w: string, rest: string)
    requires w != [] && NoBlank(b, w)
    requires rest == [] || IsBlank(b, rest[0])
    ensures Tokens(b, w + rest) == [w] + Tokens(b, rest)
  {
    var s := w + rest;
    assert s[0] == w[0];
    assert BlankPrefixLen(b, s) == 0;
    assert s[0..] == s;
    var n := WordPrefixLen(b, s);
    assert forall k :: 0 <= k < |w| ==> s[k] == w[k];
    assert rest != [] ==> s[|w|] == rest[0];
    assert n == |w|;
    assert s[..n] == w && s[n..] == rest;
  }

  /** A string whose characters are all blank has no token. */
  lemma {:induction false} TokensAllBlank(b: Blank, s: string)
    requires AllBlank(b, s)
    ensures Tokens(b, s) == []
  {
    assert BlankPrefixLen(b, s) == |s|;
  }

  /** A string with a non-blank character has at least one token. */
  lemma {:induction false} TokensNotAllBlank(b: Blank, s: string)
    requires !AllBlank(b, s)
    ensures Tokens(b, s) != []
  {
    var k := BlankPrefixLen(b, s);
    assert k == |s| ==> AllBlank(b, s);
  }

  /** No token at all exactly when every character is blank. */
  lemma TokensEmptyIff(b: Blank, s: string)
    ensures Tokens(b, s) == [] <==> AllBlank(b, s)
  {
    if AllBlank(b, s) { TokensAllBlank(b, s); } else { TokensNotAllBlank(b, s); }
  }

  /** The number of tokens is the tally of maximal non-blank runs. */
  lemma {:induction false} TokensCount(b: Blank, s: string)
    ensures |Tokens(b, s)| == RunCount(b, s, true)
    decreases |s|
  {
    var k := BlankPrefixLen(b, s);
    RunCountSkipBlank(b, s, k);
    if k == |s| {
      assert s[k..] == [];
    } else {
      var t := s[k..];
      var n := WordPrefixLen(b, t);
      RunCountSkipWord(b, t, n, true);
      TokensCount(b, t[n..]);
      if n < |t| {
        assert RunCount(b, t[n..], false) == RunCount(b, t[n..][1..], true);
        assert RunCount(b, t[n..], true) == RunCount(b, t[n..][1..], true);
      }
    }
  }

  /** " ".join(words) */
  function JoinSpace(words: seq<string>): string
  {
    if words == [] then []
    else if |words| == 1 then words[0]
    else words[0] + " " + JoinSpace(words[1..])
  }

  /**
   * Joining non-empty, blank-free words with single spaces and splitting the
   * result again gives the words back, in any class that counts a space as blank.
   */
  lemma {:induction false} TokensJoin(b: Blank, words: seq<string>)
    requires IsBlank(b, ' ')
    requires forall i :: 0 <= i < |words| ==> words[i] != [] && NoBlank(b, words[i])
    ensures Tokens(b, JoinSpace(words)) == words
  {
    if words == [] {
      assert Tokens(b, []) == [];
    } else if |words| == 1 {
      TokensWordFirst(b, words[0], []);
      assert words[0] + [] == words[0];
      assert Tokens(b, []) == [];
    } else {
      var tail := words[1..];
      assert forall i :: 0 <= i < |tail| ==> tail[i] == words[i + 1];
      TokensJoin(b, tail);
      TokensSpaceAfterWord(b, words[0], JoinSpace(tail));
      assert words == [words[0]] + tail;
    }
  }

  /** A word, a single space and then anything: the word is the first token. */
  lemma {:induction false} TokensSpaceAfterWord(b: Blank, w: string, rest: string)
    requires IsBlank(b, ' ') && w != [] && NoBlank(b, w)
    ensures Tokens(b, w + " " + rest) == [w] + Tokens(b, rest)
  {
    var r := " " + rest;
    assert Tokens(b, r) == Tokens(b, rest) by { TokensSkipBlank(b, ' ', rest); }
    assert Tokens(b, w + r) == [w] + Tokens(b, r) by { TokensWordFirst(b, w, r); }
    assert w + " " + rest == w + r;
  }

  // ---------------------------------------------------------------------
  // Python: str.strip() and str.split()
  // ---------------------------------------------------------------------

  /** Python's str.split() with no argument. */
  function PySplit(s: string): seq<string>
  {
    Tokens(PythonBlank, s)
  }

  /**
   * r is what follows the leading run of Python whitespace of s, and only
   * Python whitespace follows r in s.
   */
  predicate MiddleOf(s: string, r: string) {
    var i := BlankPrefixLen(PythonBlank, s);
    && i + |r| <= |s|
    && s[i..i + |r|] == r
    && AllBlank(PythonBlank, s[i + |r|..])
  }

  /**
   * Python's str.strip() with no argument: the text between the leading and
   * the trailing runs of whitespace.
   */
  function PyStrip(s: string): (r: string)
    ensures MiddleOf(s, r)
    ensures r == [] || (!IsBlank(PythonBlank, r[0]) && !IsBlank(PythonBlank, r[|r| - 1]))
    ensures r == [] <==> AllBlank(PythonBlank, s)
    ensures PySplit(r) == PySplit(s)
    decreases |s|
  {
    if s == [] then []
    else if IsBlank(PythonBlank, s[0]) then
      var r := PyStrip(s[1..]);
      StripFrontStep(s);
      StripFrontSlice(s, r);
      r
    else if IsBlank(PythonBlank, s[|s| - 1]) then
      var r := PyStrip(s[..|s| - 1]);
      StripBackStep(s);
      StripBackSlice(s, r);
      r
    else
      BlankPrefixLenUnique(PythonBlank, s, 0);
      s
  }

  /** A leading blank in front of a text keeps what lies between its whitespace runs. */
  lemma {:induction false} StripFrontSlice(s: string, r: string)
    requires s != [] && IsBlank(PythonBlank, s[0]) && MiddleOf(s[1..], r)
    ensures MiddleOf(s, r)
  {
    var t := s[1..];
    var j := BlankPrefixLen(PythonBlank, t);
    forall k | 0 <= k < 1 + j ensures IsBlank(PythonBlank, s[k]) {
      if k > 0 { assert s[k] == t[k - 1]; }
    }
    if 1 + j < |s| { assert s[1 + j] == t[j]; }
    BlankPrefixLenUnique(PythonBlank, s, 1 + j);
    assert j + |r| <= |t| && t[j..j + |r|] == r;
    forall k | 0 <= k < |r| ensures s[1 + j + k] == r[k] {
      assert r[k] == t[j..j + |r|][k] == t[j + k];
    }
    assert s[1 + j..1 + j + |r|] == r;
    DropDrop(s, 1, j + |r|);
  }

  /** A trailing blank after a text that starts with a non-blank keeps what lies between. */
  lemma {:induction false} StripBackSlice(s: string, r: string)
    requires s != [] && !IsBlank(PythonBlank, s[0]) && IsBlank(PythonBlank, s[|s| - 1])
    requires MiddleOf(s[..|s| - 1], r)
    ensures MiddleOf(s, r)
  {
    var t := s[..|s| - 1];
    assert t[0] == s[0];
    BlankPrefixLenUnique(PythonBlank, t, 0);
    BlankPrefixLenUnique(PythonBlank, s, 0);
    assert s[..|r|] == t[..|r|];
    forall k | 0 <= k < |s| - |r| ensures IsBlank(PythonBlank, s[|r|..][k]) {
      if |r| + k < |t| { assert s[|r|..][k] == t[|r|..][k]; }
    }
  }

  /** Dropping a leading blank keeps the words and the all-blank verdict. */
  lemma {:induction false} StripFrontStep(s: string)
    requires s != [] && IsBlank(PythonBlank, s[0])
    ensures PySplit(s[1..]) == PySplit(s)
    ensures AllBlank(PythonBlank, s[1..]) <==> AllBlank(PythonBlank, s)
  {
    assert s == [s[0]] + s[1..];
    TokensSkipBlank(PythonBlank, s[0], s[1..]);
    if AllBlank(PythonBlank, s[1..]) {
      forall k | 0 < k < |s| ensures IsBlank(PythonBlank, s[k]) { assert s[k] == s[1..][k - 1]; }
    }
  }

  /** Dropping a trailing blank keeps the words and the all-blank verdict. */
  lemma {:induction false} StripBackStep(s: string)
    requires s != [] && IsBlank(PythonBlank, s[|s| - 1])
    ensures PySplit(s[..|s| - 1]) == PySplit(s)
    ensures AllBlank(PythonBlank, s[..|s| - 1]) <==> AllBlank(PythonBlank, s)
  {
    assert s == s[..|s| - 1] + [s[|s| - 1]];
    TokensSkipTrailingBlank(PythonBlank, s[..|s| - 1], s[|s| - 1]);
  }

  /** A blank at the end changes nothing. */
  lemma {:induction false} TokensSkipTrailingBlank(b: Blank, s: string, c: char)
    requires IsBlank(b, c)
    ensures Tokens(b, s + [c]) == Tokens(b, s)
    decreases |s|
  {
    var k := BlankPrefixLen(b, s);
    if k == |s| {
      TokensAllBlank(b, s);
      var sc := s + [c];
      assert forall j :: 0 <= j < |s| ==> sc[j] == s[j];
      assert sc[|s|] == c;
      TokensAllBlank(b, sc);
    } else {
      var t := s[k..];
      var n := WordPrefixLen(b, t);
      TokensTrailingStep(b, s, c);
      TokensSkipTrailingBlank(b, t[n..], c);
    }
  }

  /** One step of TokensSkipTrailingBlank: both sides begin with the same token. */
  lemma {:induction false} TokensTrailingStep(b: Blank, s: string, c: char)
    requires IsBlank(b, c) && BlankPrefixLen(b, s) < |s|
    ensures var t := s[BlankPrefixLen(b, s)..];
            var n := WordPrefixLen(b, t);
            && 0 < n && Tokens(b, s) == [t[..n]] + Tokens(b, t[n..])
            && Tokens(b, s + [c]) == [t[..n]] + Tokens(b, t[n..] + [c])
  {
    var k := BlankPrefixLen(b, s);
    var t := s[k..];
    assert t[0] == s[k];
    var n := WordPrefixLen(b, t);
    SnocBlankPrefix(b, s, c, k);
    SnocWordPrefix(b, t, c, n);
    assert (s + [c])[k..] == t + [c];
  }

  lemma {:induction false} SnocBlankPrefix(b: Blank, s: string, c: char, k: nat)
    requires k == BlankPrefixLen(b, s) && k < |s|
    ensures BlankPrefixLen(b, s + [c]) == k
  {
    var sc := s + [c];
    assert forall j :: 0 <= j < |s| ==> sc[j] == s[j];
    BlankPrefixLenUnique(b, sc, k);
  }

  lemma {:induction false} SnocWordPrefix(b: Blank, t: string, c: char, n: nat)
    requires IsBlank(b, c) && n == WordPrefixLen(b, t)
    ensures WordPrefixLen(b, t + [c]) == n
    ensures (t + [c])[..n] == t[..n] && (t + [c])[n..] == t[n..] + [c]
  {
    var tc := t + [c];
    assert forall j :: 0 <= j < |t| ==> tc[j] == t[j];
    assert tc[|t|] == c;
    WordPrefixLenUnique(b, tc, n);
  }

  // ---------------------------------------------------------------------
  // Java: String.split("\\s+")
  // ---------------------------------------------------------------------

  /**
   * The pieces that lie between the maximal runs of \s, before Java drops
   * trailing empty strings. A leading run yields an empty first piece, a
   * trailing run an empty last piece, and a string with no \s is one piece.
   */
  function SplitPieces(b: Blank, s: string): (ps: seq<string>)
    ensures |ps| >= 1
    decreases |s|
  {
    var n := WordEnd(b, s, 0);
    if n == |s| then [s] else [s[..n]] + SplitPieces(b, s[BlankEnd(b, s, n)..])
  }

  /** Drop every empty string from the end, as split with limit 0 does. */
  function DropTrailingEmpty(ps: seq<string>): (r: seq<string>)
    ensures |r| <= |ps| && r == ps[..|r|]
    ensures r == [] || r[|r| - 1] != []
    ensures forall i :: |r| <= i < |ps| ==> ps[i] == []
  {
    if ps != [] && ps[|ps| - 1] == [] then DropTrailingEmpty(ps[..|ps| - 1]) else ps
  }

  /**
   * Split at every blank run: a text with no blank run is returned whole,
   * and otherwise the empty pieces at the end are dropped.
   */
  function SplitAtBlanks(b: Blank, s: string): seq<string>
  {
    if WordPrefixLen(b, s) == |s| then [s] else DropTrailingEmpty(SplitPieces(b, s))
  }

  /** Java's String.split("\\s+"). */
  function JavaSplitBlank(s: string): seq<string>
  {
    SplitAtBlanks(JavaRegexBlank, s)
  }

  /**
   * A text that begins with a non-blank splits into its tokens, plus one
   * empty piece when it ends with a blank.
   */
  lemma {:induction false} SplitPiecesFromWord(b: Blank, s: string)
    requires s != [] && !IsBlank(b, s[0])
    ensures SplitPieces(b, s) == Tokens(b, s)
                              + (if IsBlank(b, s[|s| - 1]) then [[]] else [])
    decreases |s|
  {
    var n := WordPrefixLen(b, s);
    if n == |s| {
      SplitWhole(b, s);
    } else {
      var k := BlankPrefixLen(b, s[n..]);
      var u := s[n + k..];
      SplitStep(b, s, n, k);
      SplitStepRest(b, s, n, k);
      var extra: seq<string> := if IsBlank(b, s[|s| - 1]) then [[]] else [];
      if u != [] {
        SplitPiecesFromWord(b, u);
      } else {
        assert SplitPieces(b, u) == [[]] && Tokens(b, u) == [];
        assert SplitPieces(b, u) == Tokens(b, u) + extra;
      }
      PrependPiece(SplitPieces(b, s), Tokens(b, s), s[..n], SplitPieces(b, u), Tokens(b, u), extra);
    }
  }

  /** Putting the same first element in front of both sides of pu == tu + e. */
  lemma PrependPiece<T>(x: seq<T>, y: seq<T>, w: T, pu: seq<T>, tu: seq<T>, e: seq<T>)
    requires x == [w] + pu && y == [w] + tu && pu == tu + e
    ensures x == y + e
  {
    assert [w] + (tu + e) == ([w] + tu) + e;
  }

  /** A text with no blank at all is a single piece and a single token. */
  lemma {:induction false} SplitWhole(b: Blank, s: string)
    requires s != [] && WordPrefixLen(b, s) == |s|
    ensures SplitPieces(b, s) == [s] && Tokens(b, s) == [s]
    ensures !IsBlank(b, s[|s| - 1])
  {
    TokensWordFirst(b, s, []);
    assert s + [] == s;
    assert Tokens(b, []) == [];
  }

  /**
   * One step of SplitPiecesFromWord: the first word (n characters), its blank
   * run (k characters), and what follows.
   */
  lemma {:induction false} SplitStep(b: Blank, s: string, n: nat, k: nat)
    requires n == WordPrefixLen(b, s) && 0 < n < |s| && k == BlankPrefixLen(b, s[n..])
    ensures SplitPieces(b, s) == [s[..n]] + SplitPieces(b, s[n + k..])
    ensures Tokens(b, s) == [s[..n]] + Tokens(b, s[n + k..])
  {
    SplitPiecesUnfold(b, s);
    BlankEndShift(b, s, n);
    assert s[BlankEnd(b, s, WordPrefixLen(b, s))..] == s[n + k..];
    TokensWordStep(b, s, n, k);
  }

  /** SplitPieces one level down, for a text with a blank somewhere. */
  lemma {:induction false} SplitPiecesUnfold(b: Blank, s: string)
    requires WordPrefixLen(b, s) < |s|
    ensures SplitPieces(b, s) == [s[..WordPrefixLen(b, s)]]
              + SplitPieces(b, s[BlankEnd(b, s, WordPrefixLen(b, s))..])
  {
  }

  /** The blank run that starts at index n, measured in s or in s[n..]. */
  lemma {:induction false} BlankEndShift(b: Blank, s: string, n: nat)
    requires n <= |s|
    ensures BlankEnd(b, s, n) == n + BlankPrefixLen(b, s[n..])
  {
    var r := s[n..];
    var e := BlankEnd(b, s, n);
    assert forall j :: 0 <= j < |r| ==> r[j] == s[n + j];
    BlankPrefixLenUnique(b, r, e - n);
  }

  /** Where the rest after the first word and its blank run begins and ends. */
  lemma {:induction false} SplitStepRest(b: Blank, s: string, n: nat, k: nat)
    requires n == WordPrefixLen(b, s) && n < |s| && k == BlankPrefixLen(b, s[n..])
    ensures var u := s[n + k..];
            && (u == [] ==> IsBlank(b, s[|s| - 1]))
            && (u != [] ==> !IsBlank(b, u[0]) && u[|u| - 1] == s[|s| - 1])
  {
    var r := s[n..];
    assert r[0] == s[n];
    if n + k == |s| {
      assert s[|s| - 1] == r[k - 1];
    } else {
      assert s[n + k] == r[k];
    }
  }

  lemma {:induction false} TokensWordStep(b: Blank, s: string, n: nat, k: nat)
    requires n == WordPrefixLen(b, s) && 0 < n < |s| && k == BlankPrefixLen(b, s[n..])
    ensures Tokens(b, s) == [s[..n]] + Tokens(b, s[n + k..])
  {
    TokensAfterWord(b, s, n);
    BlankRunTokens(b, s[n..], k);
    DropDrop(s, n, k);
  }

  /** Dropping n elements and then k more drops n + k. */
  lemma DropDrop<T>(s: seq<T>, n: nat, k: nat)
    requires n + k <= |s|
    ensures s[n..][k..] == s[n + k..]
  {
  }

  /** The leading word of a text that goes on after it is its first token. */
  lemma {:induction false} TokensAfterWord(b: Blank, s: string, n: nat)
    requires n == WordPrefixLen(b, s) && 0 < n < |s|
    ensures Tokens(b, s) == [s[..n]] + Tokens(b, s[n..])
  {
    var w := s[..n];
    var r := s[n..];
    assert s == w + r;
    assert NoBlank(b, w) by {
      forall j | 0 <= j < |w| ensures !IsBlank(b, w[j]) { assert w[j] == s[j]; }
    }
    assert r[0] == s[n];
    TokensWordFirst(b, w, r);
  }

  /** A leading blank run holds no token. */
  lemma {:induction false} BlankRunTokens(b: Blank, r: string, k: nat)
    requires k == BlankPrefixLen(b, r)
    ensures Tokens(b, r) == Tokens(b, r[k..])
  {
    assert r[0..] == r;
    TokensDropBlanks(b, r, 0, k);
  }

  /** Removing blanks from the front of a blank run leaves the same tokens. */
  lemma {:induction false} TokensDropBlanks(b: Blank, s: string, j: nat, k: nat)
    requires j <= k <= |s| && forall i :: 0 <= i < k ==> IsBlank(b, s[i])
    ensures Tokens(b, s[j..]) == Tokens(b, s[k..])
    decreases k - j
  {
    if j < k {
      assert s[j..] == [s[j]] + s[j + 1..];
      TokensSkipBlank(b, s[j], s[j + 1..]);
      TokensDropBlanks(b, s, j + 1, k);
    }
  }

  /** Trailing empties are dropped and nothing else. */
  lemma {:induction false} DropTrailingEmptyOfTokens(ts: seq<string>, extra: seq<string>)
    requires forall i :: 0 <= i < |ts| ==> ts[i] != []
    requires extra == [] || extra == [[]]
    ensures DropTrailingEmpty(ts + extra) == ts
  {
    if extra == [[]] {
      assert (ts + extra)[..|ts + extra| - 1] == ts;
    }
    assert ts + [] == ts;
  }

  /**
   * Java's split("\\s+") on a text that begins with a non-blank gives exactly
   * the maximal non-blank runs.
   */
  lemma {:induction false} SplitAtBlanksFromWord(b: Blank, s: string)
    requires s != [] && !IsBlank(b, s[0])
    ensures SplitAtBlanks(b, s) == Tokens(b, s)
  {
    if WordPrefixLen(b, s) == |s| {
      SplitWhole(b, s);
    } else {
      SplitPiecesFromWord(b, s);
      DropTrailingEmptyOfTokens(Tokens(b, s),
        if IsBlank(b, s[|s| - 1]) then [[]] else []);
    }
  }

  /**
   * A text that begins with a blank run: one empty leading piece and then the
   * runs, unless the text is nothing but blanks, which gives no piece at all.
   */
  lemma {:induction false} SplitAtBlanksFromBlank(b: Blank, s: string)
    requires s != [] && IsBlank(b, s[0])
    ensures AllBlank(b, s) ==> SplitAtBlanks(b, s) == []
    ensures !AllBlank(b, s) ==> SplitAtBlanks(b, s) == [[]] + Tokens(b, s)
  {
    assert SplitAtBlanks(b, s) == DropTrailingEmpty(SplitPieces(b, s)) by {
      assert WordPrefixLen(b, s) == 0;
    }
    var u := s[BlankPrefixLen(b, s)..];
    BlankStep(b, s);
    if u == [] {
      assert DropTrailingEmpty([[]] + [[]]) == [];
    } else {
      SplitPiecesFromWord(b, u);
      TokensNotAllBlank(b, u);
      LeadingEmptyPiece(Tokens(b, u), if IsBlank(b, u[|u| - 1]) then [[]] else []);
    }
  }

  /** An empty first piece before the runs stays; a trailing empty piece goes. */
  lemma {:induction false} LeadingEmptyPiece(ts: seq<string>, extra: seq<string>)
    requires ts != [] && forall i :: 0 <= i < |ts| ==> ts[i] != []
    requires extra == [] || extra == [[]]
    ensures DropTrailingEmpty([[]] + (ts + extra)) == [[]] + ts
  {
    assert [[]] + (ts + extra) == ([[]] + ts) + extra;
    assert ([[]] + ts)[|ts|] == ts[|ts| - 1];
    DropTrailingEmptyAfterLast([[]] + ts, extra);
  }

  /** A trailing empty piece goes, and a non-empty last piece stays. */
  lemma {:induction false} DropTrailingEmptyAfterLast(ps: seq<string>, extra: seq<string>)
    requires ps != [] && ps[|ps| - 1] != []
    requires extra == [] || extra == [[]]
    ensures DropTrailingEmpty(ps + extra) == ps
  {
    if extra == [[]] {
      assert (ps + extra)[..|ps + extra| - 1] == ps;
    }
    assert ps + [] == ps;
  }

  /** A text that begins with a blank: an empty piece, then the text after the run. */
  lemma {:induction false} BlankStep(b: Blank, s: string)
    requires s != [] && IsBlank(b, s[0])
    ensures var u := s[BlankPrefixLen(b, s)..];
            && SplitPieces(b, s) == [[]] + SplitPieces(b, u)
            && Tokens(b, s) == Tokens(b, u)
            && (u == [] <==> AllBlank(b, s))
            && (u == [] ==> SplitPieces(b, u) == [[]])
            && (u != [] ==> !IsBlank(b, u[0]) && u[|u| - 1] == s[|s| - 1])
  {
    SplitPiecesBlankFirst(b, s);
    TokensBlankFirst(b, s);
  }

  lemma {:induction false} SplitPiecesBlankFirst(b: Blank, s: string)
    requires s != [] && IsBlank(b, s[0])
    ensures SplitPieces(b, s) == [[]] + SplitPieces(b, s[BlankPrefixLen(b, s)..])
  {
    assert WordPrefixLen(b, s) == 0;
    assert s[0..] == s;
    assert s[..0] == [];
  }

  lemma {:induction false} TokensBlankFirst(b: Blank, s: string)
    requires s != [] && IsBlank(b, s[0])
    ensures var u := s[BlankPrefixLen(b, s)..];
            && Tokens(b, s) == Tokens(b, u)
            && (u == [] <==> AllBlank(b, s))
            && (u != [] ==> !IsBlank(b, u[0]) && u[|u| - 1] == s[|s| - 1])
  {
    var k := BlankPrefixLen(b, s);
    var u := s[k..];
    TokensDropBlanks(b, s, 0, k);
    assert s[0..] == s;
    if u == [] {
      assert AllBlank(b, s);
    } else {
      assert u[0] == s[k];
    }
  }

  /**
   * The number of pieces Java's split("\\s+") gives: one for the empty text,
   * none for an all-blank text, the number of maximal non-blank runs
   * otherwise, plus one when the text starts with a blank.
   */
  lemma JavaSplitCount(s: string)
    ensures s == [] ==> JavaSplitBlank(s) == [[]]
    ensures s != [] && AllBlank(JavaRegexBlank, s) ==> JavaSplitBlank(s) == []
    ensures s != [] && !IsBlank(JavaRegexBlank, s[0])
            ==> JavaSplitBlank(s) == Tokens(JavaRegexBlank, s)
    ensures s != [] && IsBlank(JavaRegexBlank, s[0]) && !AllBlank(JavaRegexBlank, s)
            ==> JavaSplitBlank(s) == [[]] + Tokens(JavaRegexBlank, s)
  {
    if s == [] {
    } else if IsBlank(JavaRegexBlank, s[0]) {
      SplitAtBlanksFromBlank(JavaRegexBlank, s);
    } else {
      SplitAtBlanksFromWord(JavaRegexBlank, s);
    }
  }
}
