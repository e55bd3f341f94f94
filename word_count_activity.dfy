/**
 * The word-count screen of the Android client: the total word count shown
 * when the screen opens, and the search that highlights every occurrence of
 * a word in the text and reports how many there are.
 *
 * The search pattern is (?i)\b<quoted word>\b. It is modelled without a regex
 * engine, and the model chooses the ASCII reading of the pattern (the one
 * the java.util.regex documentation gives when UNICODE_CASE is not set):
 * the quoted word is a literal, (?i) identifies only A-Z with a-z, and \b
 * is a boundary between an ASCII word character [A-Za-z0-9_] and a non-word
 * character (or an end of the text). Android's ICU-based engine folds case,
 * and recognises word characters, across all of Unicode; the two readings
 * agree on ASCII text.
 */
module WordCount {
  import opened Text

  /** The two highlight colours the screen alternates between. */
  datatype Color = Yellow | Cyan

  /** The colour for the next search: YELLOW becomes CYAN and CYAN becomes YELLOW. */
  function Flip(c: Color): (r: Color)
    ensures r != c
  {
    if c == Yellow then Cyan else Yellow
  }

  /** A half-open range [start, end) of the text. */
  datatype Span = Span(start: nat, end: nat)

  /** A background-colour span set on the displayed text. */
  datatype Highlight = Highlight(span: Span, color: Color)

  // ---------------------------------------------------------------------
  // The pattern (?i)\b<word>\b
  // ---------------------------------------------------------------------

  predicate IsWordChar(c: char) {
    'a' <= c <= 'z' || 'A' <= c <= 'Z' || '0' <= c <= '9' || c == '_'
  }

  /** Index i holds a word character; positions outside the text do not. */
  predicate WordAt(s: string, i: int) {
    0 <= i < |s| && IsWordChar(s[i])
  }

  /** \b at position i: exactly one of the characters around i is a word character. */
  predicate Boundary(s: string, i: int) {
    WordAt(s, i - 1) != WordAt(s, i)
  }

  /**
   * The text holds the word at i up to case, in the ASCII reading of (?i)
   * that the model chooses: only A-Z are identified with a-z.
   */
  predicate SameIgnoringCaseAt(s: string, q: string, i: nat)
    requires i + |q| <= |s|
  {
    forall k :: 0 <= k < |q| ==> LowerChar(s[i + k]) == LowerChar(q[k])
  }

  /** The pattern matches at position i: a boundary, the word in any ASCII case, a boundary. */
  predicate MatchAt(s: string, q: string, i: int) {
    0 <= i && i + |q| <= |s|
    && Boundary(s, i) && SameIgnoringCaseAt(s, q, i) && Boundary(s, i + |q|)
  }

  /** Where Matcher.find, started at from, finds the next match: the leftmost one at or after from. */
  function NextMatch(s: string, q: string, from: nat): (r: Option<nat>)
    requires q != []
    ensures r.Some? ==> from <= r.value && r.value + |q| <= |s|
    decreases |s| - from
  {
    if from + |q| > |s| then None
    else if MatchAt(s, q, from) then Some(from)
    else NextMatch(s, q, from + 1)
  }

  /** NextMatch finds the leftmost match at or after from, and None means there is none. */
  lemma {:induction false} NextMatchLeftmost(s: string, q: string, from: nat)
    requires q != [] && from <= |s|
    ensures var r := NextMatch(s, q, from);
            && (r.Some? ==> from <= r.value <= |s| - |q| && MatchAt(s, q, r.value)
                            && forall j :: from <= j < r.value ==> !MatchAt(s, q, j))
            && (r.None? ==> forall j :: from <= j ==> !MatchAt(s, q, j))
    decreases |s| - from
  {
    if from + |q| <= |s| && !MatchAt(s, q, from) {
      NextMatchLeftmost(s, q, from + 1);
    }
  }

  /**
   * Every match Matcher.find reports for a non-empty word, scanning from
   * from: each find resumes at the end of the previous match.
   */
  function Matches(s: string, q: string, from: nat): seq<Span>
    requires q != []
    decreases |s| - from
  {
    match NextMatch(s, q, from)
    case None => []
    case Some(i) => [Span(i, i + |q|)] + Matches(s, q, i + |q|)
  }

  /** The spans of one search, all painted in the colour of that search. */
  function Paint(spans: seq<Span>, c: Color): (hs: seq<Highlight>)
    ensures |hs| == |spans|
  {
    if spans == [] then [] else [Highlight(spans[0], c)] + Paint(spans[1..], c)
  }

  /** Painting keeps each span in place and gives it the one colour. */
  lemma {:induction false} PaintAt(spans: seq<Span>, c: Color)
    ensures forall k :: 0 <= k < |spans| ==> Paint(spans, c)[k] == Highlight(spans[k], c)
    decreases |spans|
  {
    if spans != [] {
      PaintAt(spans[1..], c);
    }
  }

  // ---------------------------------------------------------------------
  // What the scan reports
  // ---------------------------------------------------------------------

  /** Each reported span is as long as the word, lies inside the text and starts at or after from. */
  lemma {:induction false} MatchesBounds(s: string, q: string, from: nat)
    requires q != [] && from <= |s|
    ensures forall k :: 0 <= k < |Matches(s, q, from)| ==>
              from <= Matches(s, q, from)[k].start
              && Matches(s, q, from)[k].end == Matches(s, q, from)[k].start + |q| <= |s|
    decreases |s| - from
  {
    var ms := Matches(s, q, from);
    var next := NextMatch(s, q, from);
    if next.Some? {
      var i := next.value;
      MatchesBounds(s, q, i + |q|);
      var rest := Matches(s, q, i + |q|);
      assert ms == [Span(i, i + |q|)] + rest;
      forall k | 0 < k < |ms| ensures from <= ms[k].start {
        assert ms[k] == rest[k - 1];
      }
    }
  }

  /**
   * Each reported span is a match of the word: a boundary at its start, the
   * word in some ASCII case, and a boundary at its end.
   */
  lemma {:induction false} MatchesSound(s: string, q: string, from: nat)
    requires q != [] && from <= |s|
    ensures forall k :: 0 <= k < |Matches(s, q, from)| ==>
              MatchAt(s, q, Matches(s, q, from)[k].start)
    decreases |s| - from
  {
    NextMatchLeftmost(s, q, from);
    var ms := Matches(s, q, from);
    var next := NextMatch(s, q, from);
    if next.Some? {
      var i := next.value;
      MatchesSound(s, q, i + |q|);
      var rest := Matches(s, q, i + |q|);
      assert ms == [Span(i, i + |q|)] + rest;
      forall k | 0 < k < |ms| ensures MatchAt(s, q, ms[k].start) {
        assert ms[k] == rest[k - 1];
      }
    }
  }

  /** The spans come left to right, each non-empty and ending at or before the next one starts. */
  lemma {:induction false} MatchesOrdered(s: string, q: string, from: nat)
    requires q != [] && from <= |s|
    ensures forall k :: 0 <= k < |Matches(s, q, from)| ==>
              Matches(s, q, from)[k].start < Matches(s, q, from)[k].end
    ensures forall j, k :: 0 <= j < k < |Matches(s, q, from)| ==>
              Matches(s, q, from)[j].end <= Matches(s, q, from)[k].start
    decreases |s| - from
  {
    MatchesBounds(s, q, from);
    var ms := Matches(s, q, from);
    var next := NextMatch(s, q, from);
    if next.Some? {
      var i := next.value;
      MatchesOrdered(s, q, i + |q|);
      MatchesBounds(s, q, i + |q|);
      var rest := Matches(s, q, i + |q|);
      assert ms == [Span(i, i + |q|)] + rest;
      forall j, k | 0 <= j < k < |ms| ensures ms[j].end <= ms[k].start {
        assert ms[k] == rest[k - 1];
        if j > 0 { assert ms[j] == rest[j - 1]; }
      }
    }
  }

  /** A position lies inside one of the reported spans. */
  predicate Covered(spans: seq<Span>, p: int) {
    exists k :: 0 <= k < |spans| && spans[k].start <= p < spans[k].end
  }

  /**
   * The greedy scan misses nothing: every match at or after from is either
   * reported or lies inside a reported span (it overlaps a match found
   * before it), and every reported span starts at a match.
   */
  lemma {:induction false} MatchesComplete(s: string, q: string, from: nat, p: nat)
    requires q != [] && from <= p && from <= |s|
    requires MatchAt(s, q, p)
    ensures Covered(Matches(s, q, from), p)
    decreases |s| - from
  {
    NextMatchAtMost(s, q, from, p);
    var i := NextMatch(s, q, from).value;
    var rest := Matches(s, q, i + |q|);
    assert Matches(s, q, from) == [Span(i, i + |q|)] + rest by {
      MatchesStep(s, q, from);
    }
    if i + |q| <= p {
      MatchesComplete(s, q, i + |q|, p);
    }
    CoveredCons(Span(i, i + |q|), rest, p);
  }

  /** A position is covered by a span list with a first span exactly when by that span or one after it. */
  lemma CoveredCons(sp: Span, rest: seq<Span>, p: int)
    ensures Covered([sp] + rest, p) <==> (sp.start <= p < sp.end || Covered(rest, p))
  {
    var ms := [sp] + rest;
    if Covered(rest, p) {
      var k :| 0 <= k < |rest| && rest[k].start <= p < rest[k].end;
      assert ms[k + 1] == rest[k];
    }
    if Covered(ms, p) && !(sp.start <= p < sp.end) {
      var k :| 0 <= k < |ms| && ms[k].start <= p < ms[k].end;
      assert k > 0 && ms[k] == rest[k - 1];
    }
  }

  /** A match at p means the scan from any from <= p finds one, and no later than p. */
  lemma NextMatchAtMost(s: string, q: string, from: nat, p: nat)
    requires q != [] && from <= p && from <= |s|
    requires MatchAt(s, q, p)
    ensures NextMatch(s, q, from).Some? && NextMatch(s, q, from).value <= p
  {
    NextMatchLeftmost(s, q, from);
  }

  /** No span at all exactly when the word matches nowhere at or after from. */
  lemma {:induction false} MatchesEmptyIff(s: string, q: string, from: nat)
    requires q != [] && from <= |s|
    ensures Matches(s, q, from) == [] <==> forall p :: from <= p ==> !MatchAt(s, q, p)
  {
    NextMatchLeftmost(s, q, from);
    var next := NextMatch(s, q, from);
    if next.Some? {
      var i := next.value;
      assert Matches(s, q, from) != [];
    }
  }

  /** The first span is the leftmost match, and each later one the leftmost after the one before. */
  lemma {:induction false} MatchesLeftmost(s: string, q: string, from: nat)
    requires q != [] && from <= |s|
    ensures Matches(s, q, from) != [] ==>
              forall p :: from <= p < Matches(s, q, from)[0].start ==> !MatchAt(s, q, p)
    ensures forall k, p :: 0 < k < |Matches(s, q, from)|
              && Matches(s, q, from)[k - 1].end <= p < Matches(s, q, from)[k].start
              ==> !MatchAt(s, q, p)
    decreases |s| - from
  {
    var ms := Matches(s, q, from);
    NextMatchLeftmost(s, q, from);
    var next := NextMatch(s, q, from);
    if next.Some? {
      var i := next.value;
      MatchesLeftmost(s, q, i + |q|);
      var rest := Matches(s, q, i + |q|);
      assert ms == [Span(i, i + |q|)] + rest;
      forall k, p | 0 < k < |ms| && ms[k - 1].end <= p < ms[k].start
        ensures !MatchAt(s, q, p)
      {
        assert ms[k] == rest[k - 1];
        if k > 1 {
          assert ms[k - 1] == rest[k - 2];
        }
      }
    }
  }

  /** Matches one level down: the next match, then the scan resumed at its end. */
  lemma {:induction false} MatchesStep(s: string, q: string, from: nat)
    requires q != [] && from <= |s| && NextMatch(s, q, from).Some?
    ensures var i := NextMatch(s, q, from).value;
            Matches(s, q, from) == [Span(i, i + |q|)] + Matches(s, q, i + |q|)
  {
  }

  /**
   * One turn of the scan loop: what is painted so far, then the next match,
   * then what the resumed scan paints, is what the whole scan paints.
   */
  lemma {:induction false} ScanStep(all: seq<Highlight>, painted: seq<Highlight>, sp: Span, rest: seq<Span>, color: Color)
    requires all == painted + Paint([sp] + rest, color)
    ensures all == (painted + [Highlight(sp, color)]) + Paint(rest, color)
  {
    PaintCons(sp, rest, color);
    ConcatAssoc(painted, [Highlight(sp, color)], Paint(rest, color));
  }

  lemma {:induction false} PaintCons(sp: Span, rest: seq<Span>, c: Color)
    ensures Paint([sp] + rest, c) == [Highlight(sp, c)] + Paint(rest, c)
  {
    assert ([sp] + rest)[1..] == rest;
  }

  lemma ConcatAssoc<T>(a: seq<T>, b: seq<T>, c: seq<T>)
    ensures a + (b + c) == (a + b) + c
  {
  }

  /**
   * What a search paints: one highlight per match, in the search's colour,
   * left to right and never overlapping.
   */
  lemma {:induction false} PaintedMatches(text: string, q: string, color: Color)
    requires q != []
    ensures var hs := Paint(Matches(text, q, 0), color);
            && (forall k :: 0 <= k < |hs| ==>
                  var sp := hs[k].span;
                  && hs[k].color == color && sp.end == sp.start + |q|
                  && MatchAt(text, q, sp.start))
            && (forall j, k :: 0 <= j < k < |hs| ==> hs[j].span.end <= hs[k].span.start)
  {
    PaintAt(Matches(text, q, 0), color);
    MatchesBounds(text, q, 0);
    MatchesSound(text, q, 0);
    MatchesOrdered(text, q, 0);
  }

  /** No match in the whole text escapes the search: each lies inside a reported span. */
  lemma {:induction false} SearchMissesNothing(text: string, q: string)
    requires q != []
    ensures forall p :: MatchAt(text, q, p) ==> Covered(Matches(text, q, 0), p)
  {
    forall p | MatchAt(text, q, p) ensures Covered(Matches(text, q, 0), p) {
      MatchesComplete(text, q, 0, p);
    }
  }

  /** Highlights in one colour, each non-empty and inside the text, in order and never overlapping. */
  predicate WellPainted(text: string, hs: seq<Highlight>) {
    && (forall k :: 0 <= k < |hs| ==>
          hs[k].span.start < hs[k].span.end <= |text| && hs[k].color == hs[0].color)
    && (forall j, k :: 0 <= j < k < |hs| ==> hs[j].span.end <= hs[k].span.start)
  }

  lemma {:induction false} PaintedWell(text: string, q: string, c: Color)
    requires q != []
    ensures WellPainted(text, Paint(Matches(text, q, 0), c))
  {
    PaintAt(Matches(text, q, 0), c);
    MatchesBounds(text, q, 0);
    MatchesOrdered(text, q, 0);
  }

  /** The scan skips straight over positions where the pattern does not match. */
  lemma {:induction false} NoMatchBetween(s: string, q: string, from: nat, until: nat)
    requires q != [] && from <= until <= |s|
    requires forall j :: from <= j < until ==> !MatchAt(s, q, j)
    ensures NextMatch(s, q, from) == NextMatch(s, q, until)
    decreases until - from
  {
    if from < until && from + |q| <= |s| {
      NoMatchBetween(s, q, from + 1, until);
    }
  }

  // ---------------------------------------------------------------------
  // Worked examples
  // ---------------------------------------------------------------------

  /** "cat" occurs twice, but only inside longer words, so nothing is highlighted. */
  lemma CatInsideWords()
    ensures Matches("category concatenate", "cat", 0) == []
  {
    var s := "category concatenate";
    assert forall j :: 0 <= j <= 17 && Boundary(s, j) ==> j == 0 || j == 8 || j == 9;
    assert !Boundary(s, 3) && !Boundary(s, 11) && !Boundary(s, 12);
    NoMatchBetween(s, "cat", 0, 18);
  }

  /**
   * A word ending in a non-word character needs a word character after it:
   * "c++" followed by a space is not matched, "c++" followed by "x" is.
   */
  lemma PlusPlusNeedsWordAfter()
    ensures Matches("c++ and c++x", "c++", 0) == [Span(8, 11)]
  {
    var s := "c++ and c++x";
    assert forall j :: 0 <= j < 8 && Boundary(s, j) ==> j == 0 || j == 1 || j == 4 || j == 7;
    assert !Boundary(s, 3) && !Boundary(s, 10);
    assert LowerChar(s[1]) != LowerChar('c') && LowerChar(s[4]) != LowerChar('c');
    NoMatchBetween(s, "c++", 0, 8);
    assert MatchAt(s, "c++", 8);
  }

  /** Matches never overlap: the one at 2 is skipped because the scan resumes at 3. */
  lemma OverlapSkipped()
    ensures MatchAt("a a a", "a a", 2)
    ensures Matches("a a a", "a a", 0) == [Span(0, 3)]
  {
    assert MatchAt("a a a", "a a", 0);
  }

  // ---------------------------------------------------------------------
  // Matcher.find
  // ---------------------------------------------------------------------

  /** One call of Matcher.find: try each start position from from on, left to right. */
  method Find(s: string, q: string, from: nat) returns (r: Option<nat>)
    requires q != [] && from <= |s|
    ensures r == NextMatch(s, q, from)
  {
    var i := from;
    while i + |q| <= |s| && !MatchAt(s, q, i)
      invariant from <= i <= |s|
      invariant NextMatch(s, q, i) == NextMatch(s, q, from)
      decreases |s| - i
    {
      i := i + 1;
    }
    if i + |q| <= |s| {
      r := Some(i);
    } else {
      r := None;
    }
  }

  /**
   * The while (matcher.find()) loop of one search: count each match and
   * highlight it in the colour of this search.
   */
  method HighlightAll(text: string, q: string, color: Color) returns (painted: seq<Highlight>, count: nat)
    requires q != []
    ensures painted == Paint(Matches(text, q, 0), color)
    ensures count == |painted|
  {
    painted := [];
    count := 0;
    var m := Find(text, q, 0);
    ghost var pos: nat := 0;
    while m.Some?
      invariant pos <= |text|
      invariant m == NextMatch(text, q, pos)
      invariant Paint(Matches(text, q, 0), color) == painted + Paint(Matches(text, q, pos), color)
      invariant count == |painted|
      decreases |text| - pos
    {
      var start := m.value;
      var end := start + |q|;
      MatchesStep(text, q, pos);
      ScanStep(Paint(Matches(text, q, 0), color), painted, Span(start, end), Matches(text, q, end), color);
      count := count + 1;
      painted := painted + [Highlight(Span(start, end), color)];
      pos := end;
      m := Find(text, q, end);
    }
    assert painted + [] == painted;
  }

  // ---------------------------------------------------------------------
  // The screen
  // ---------------------------------------------------------------------

  /**
   * The text, the highlight spans set on its displayed copy, the colour the
   * next search uses, the count shown by the last search (None before the
   * first one) and the total word count shown when the screen opened.
   */
  class WordCountScreen {
    var fullText: string
    var highlights: seq<Highlight>
    var lastColor: Color
    var shownCount: Option<nat>
    var totalWords: nat

    /**
     * The displayed spans are matches of one word in one colour, in order,
     * never overlapping, and the total is Java's split("\\s+").length.
     */
    predicate Valid()
      reads this
    {
      && totalWords == |JavaSplitBlank(fullText)|
      && WellPainted(fullText, highlights)
    }

    /** onCreate: the text, no highlight yet, YELLOW first, and the total word count. */
    constructor (text: string)
      ensures Valid()
      ensures fullText == text && highlights == [] && lastColor == Yellow && shownCount == None
      ensures totalWords == |JavaSplitBlank(text)|
    {
      fullText := text;
      highlights := [];
      lastColor := Yellow;
      shownCount := None;
      totalWords := |JavaSplitBlank(text)|;
    }

    /**
     * highlightAndCount: trim the word; an empty word changes nothing.
     * Otherwise start again from the plain text, highlight every match in
     * this search's colour, show how many there were and flip the colour.
     */
    method Search(input: string)
      requires Valid()
      modifies this
      ensures Valid()
      ensures fullText == old(fullText) && totalWords == old(totalWords)
      ensures Trim(input) == [] ==>
                highlights == old(highlights) && lastColor == old(lastColor)
                && shownCount == old(shownCount)
      ensures Trim(input) != [] ==>
                highlights == Paint(Matches(fullText, Trim(input), 0), old(lastColor))
                && shownCount == Some(|highlights|)
                && lastColor == Flip(old(lastColor))
    {
      var q := Trim(input);
      if q == [] {
        return;
      }
      var painted, count := HighlightAll(fullText, q, lastColor);
      PaintedWell(fullText, q, lastColor);
      highlights := painted;
      shownCount := Some(count);
      lastColor := Flip(lastColor);
    }
  }

  /**
   * Each search starts from the plain text: the same word searched twice
   * highlights the same spans, the second time in the other colour, and the
   * colour is back where it started.
   */
  method SearchTwice(screen: WordCountScreen, word: string) returns (first: seq<Highlight>, second: seq<Highlight>)
    requires screen.Valid() && Trim(word) != []
    modifies screen
    ensures screen.Valid() && screen.lastColor == old(screen.lastColor)
    ensures |first| == |second|
    ensures forall k :: 0 <= k < |first| ==>
              first[k].span == second[k].span && first[k].color != second[k].color
  {
    ghost var spans := Matches(screen.fullText, Trim(word), 0);
    PaintAt(spans, screen.lastColor);
    PaintAt(spans, Flip(screen.lastColor));
    screen.Search(word);
    first := screen.highlights;
    screen.Search(word);
    second := screen.highlights;
  }
}
