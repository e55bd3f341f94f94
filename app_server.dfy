/**
 * The request rules of the Flask server (app.py) once its model calls are
 * taken out: what /summarize checks and sends to the summariser, what
 * /rewrite checks, which prompt it builds and how it post-processes the
 * rewriter's output, and what /upload-pdf checks before it reads the file.
 *
 * Every model call becomes a parameter: the summariser's text, the
 * rewriter's text (None when the call raises) and the sentences of the
 * "[Key Points]" fallback (None when the fallback does not fire).
 */
module Server {
  import opened Text

  function Min(a: int, b: int): int { if a <= b then a else b }
  function Max(a: int, b: int): int { if a >= b then a else b }

  // ---------------------------------------------------------------------
  // /summarize
  // ---------------------------------------------------------------------

  /** What /summarize answers. */
  datatype SummaryReply =
    | SummaryError(status: int, error: string)
    | TooShort(summary: string, note: string)
    | Summarized(summary: string, originalLength: nat, summaryLength: nat)

  /** One call of the summarisation pipeline: the text and the length bounds it gets. */
  datatype Generation = Generation(input: string, maxLength: int, minLength: int)

  const EmptyTextError := "Text cannot be empty"
  const SummaryFailure := "Failed to generate summary"
  const TooShortTag := "[Too Short] "
  const TooShortNote := "Input too short for meaningful summarization"
  const KeyPointsTag := "[Key Points] "

  /** The words of a request text, as text.split() sees them after strip(). */
  function WordCount(text: string): (n: nat)
    ensures n == |PySplit(text)| == RunCount(PythonBlank, text, true)
    ensures n == 0 <==> AllBlank(PythonBlank, text)
  {
    TokensCount(PythonBlank, text);
    TokensEmptyIff(PythonBlank, text);
    |PySplit(PyStrip(text))|
  }

  /** max_len: half the word count, kept within [60, 180]. */
  function MaxLength(wordCount: nat): (r: int)
    ensures 60 <= r <= 180
    ensures 120 <= wordCount < 362 ==> r == wordCount / 2
    ensures wordCount < 120 ==> r == 60
    ensures wordCount >= 362 ==> r == 180
  {
    Min(180, Max(60, wordCount / 2))
  }

  /** min_len: a third of the word count, kept within [30, 120]. */
  function MinLength(wordCount: nat): (r: int)
    ensures 30 <= r <= 120
    ensures 90 <= wordCount < 363 ==> r == wordCount / 3
    ensures wordCount < 90 ==> r == 30
    ensures wordCount >= 363 ==> r == 120
  {
    Min(120, Max(30, wordCount / 3))
  }

  /** The summariser is never asked for a minimum above its maximum. */
  lemma MinLengthAtMostMaxLength(wordCount: nat)
    ensures MinLength(wordCount) <= MaxLength(wordCount)
  {
    assert wordCount / 3 <= wordCount / 2;
  }

  /** Both bounds grow with the text. */
  lemma LengthsMonotone(a: nat, b: nat)
    requires a <= b
    ensures MaxLength(a) <= MaxLength(b) && MinLength(a) <= MinLength(b)
  {
    assert a / 2 <= b / 2 && a / 3 <= b / 3;
  }

  /** The reply for a text of under 25 words: the first ten words, "..." when some were cut. */
  function TooShortSummary(words: seq<string>): (r: string)
    ensures |TooShortTag| <= |r| && r[..|TooShortTag|] == TooShortTag
    ensures |words| > 10 ==> r[|r| - 3..] == "..."
    ensures words == [] ==> r == TooShortTag
  {
    var shown := words[..Min(|words|, 10)];
    var r := TooShortTag + JoinSpace(shown) + (if |words| > 10 then "..." else "");
    assert r == TooShortTag + (JoinSpace(shown) + (if |words| > 10 then "..." else ""));
    r
  }

  /** The fallback summary: "[Key Points] " and the first two sentences, joined by a space. */
  function KeyPointsSummary(sentences: seq<string>): (r: string)
    ensures |KeyPointsTag| <= |r| && r[..|KeyPointsTag|] == KeyPointsTag
    ensures sentences == [] ==> r == KeyPointsTag
  {
    KeyPointsTag + JoinSpace(sentences[..Min(|sentences|, 2)])
  }

  /**
   * The summariser call /summarize makes for a request whose "text" field is
   * text (None when the field is missing): none for a missing, blank or
   * too short text.
   */
  function SummarizerCall(text: Option<string>): (g: Option<Generation>)
    ensures g.Some? <==> text.Some? && WordCount(text.value) >= 25
    ensures g.Some? ==>
              var n := WordCount(text.value);
              && g.value.input == PyStrip(text.value)
              && 60 <= g.value.maxLength <= 180 && 30 <= g.value.minLength <= g.value.maxLength
              && g.value.maxLength == MaxLength(n) && g.value.minLength == MinLength(n)
  {
    if text.None? then None
    else
      var t := PyStrip(text.value);
      var n := WordCount(t);
      if n < 25 then None
      else
        MinLengthAtMostMaxLength(n);
        Some(Generation(t, MaxLength(n), MinLength(n)))
  }

  /**
   * What /summarize answers. generated is the summariser's text (None when
   * the pipeline raises); keyPoints holds the sentences of the text when the
   * fallback fires (its test compares word sets in floating point and is
   * not part of this model).
   */
  function Summarize(text: Option<string>, generated: Option<string>, keyPoints: Option<seq<string>>): (r: SummaryReply)
    ensures r.TooShort? <==> text.Some? && !AllBlank(PythonBlank, text.value) && WordCount(text.value) < 25
    ensures r.Summarized? <==> text.Some? && WordCount(text.value) >= 25 && generated.Some?
    ensures r.Summarized? ==> r.originalLength == WordCount(text.value) && r.summaryLength == |PySplit(r.summary)|
  {
    if text.None? then SummaryError(500, SummaryFailure)
    else
      var t := PyStrip(text.value);
      if t == [] then SummaryError(400, EmptyTextError)
      else
        var words := PySplit(t);
        if |words| < 25 then TooShort(TooShortSummary(words), TooShortNote)
        else if generated.None? then SummaryError(500, SummaryFailure)
        else
          var summary := if keyPoints.Some? then KeyPointsSummary(keyPoints.value) else generated.value;
          Summarized(summary, |words|, |PySplit(summary)|)
  }

  /** A missing text fails; a blank one is refused with 400 before anything else happens. */
  lemma SummarizeRejects(text: Option<string>, generated: Option<string>, keyPoints: Option<seq<string>>)
    ensures text.None? ==> Summarize(text, generated, keyPoints) == SummaryError(500, SummaryFailure)
    ensures text.Some? ==>
              (Summarize(text, generated, keyPoints) == SummaryError(400, EmptyTextError)
               <==> AllBlank(PythonBlank, text.value))
  {
  }

  /**
   * A text of fewer than 25 words is answered without the summariser: the
   * first min(n, 10) of its words, joined by single spaces, after
   * "[Too Short] ", then "..." exactly when words were cut, and no lengths.
   */
  lemma {:induction false} TooShortReply(text: string, generated: Option<string>, keyPoints: Option<seq<string>>)
    requires !AllBlank(PythonBlank, text) && WordCount(text) < 25
    ensures var r := Summarize(Some(text), generated, keyPoints);
            var n := WordCount(text);
            && r.TooShort? && r.note == TooShortNote
            && SummarizerCall(Some(text)).None?
            && var shown := JoinSpace(PySplit(text)[..Min(n, 10)]);
               && r.summary == TooShortTag + shown + (if n > 10 then "..." else "")
               && PySplit(shown) == PySplit(text)[..Min(n, 10)]
  {
    var words := PySplit(text);
    var shown := JoinSpace(words[..Min(|words|, 10)]);
    TokensJoin(PythonBlank, words[..Min(|words|, 10)]);
    assert PySplit(shown) == words[..Min(|words|, 10)];
  }

  /** For 25 words or more, the reply reports the word count and the summary's own word count. */
  lemma SummarizedReply(text: string, generated: string, keyPoints: Option<seq<string>>)
    requires WordCount(text) >= 25
    ensures var r := Summarize(Some(text), Some(generated), keyPoints);
            && r.Summarized?
            && r.originalLength == WordCount(text)
            && r.summaryLength == |PySplit(r.summary)|
            && (keyPoints.None? ==> r.summary == generated)
            && (keyPoints.Some? ==> r.summary == KeyPointsSummary(keyPoints.value))
  {
    assert !AllBlank(PythonBlank, text);
  }

  /** The rest of the text cannot change an answer given without the summariser. */
  lemma ShortTextIgnoresModel(text: Option<string>, g1: Option<string>, k1: Option<seq<string>>,
                              g2: Option<string>, k2: Option<seq<string>>)
    requires SummarizerCall(text).None?
    ensures Summarize(text, g1, k1) == Summarize(text, g2, k2)
  {
  }

  // ---------------------------------------------------------------------
  // /rewrite
  // ---------------------------------------------------------------------

  /** What /rewrite answers. */
  datatype RewriteReply =
    | RewriteError(status: int, error: string)
      /** jsonify({...}, 400) serialises both arguments as one JSON array, sent with status 200. */
    | StyleRejected(error: string, embeddedStatus: int)
    | Rewritten(originalText: string, rewrittenText: string, style: string, promptUsed: string)

  /** The HTTP status of a reply. */
  function HttpStatus(r: RewriteReply): int
  {
    match r
    case RewriteError(status, _) => status
    case StyleRejected(_, _) => 200
    case Rewritten(_, _, _, _) => 200
  }

  const RewriteFailure := "Failed to rewrite text"
  const InvalidStyleError := "Invalid style specified"
  const DefaultStyle := "professional"
  const ResearchMarker := " [Further research needed]"

  /** The keys of style_prompts. */
  const StyleKeys: seq<string> := ["professional", "casual", "academic", "simplified"]

  const ProfessionalInstruction :=
    "Rewrite this text in formal business English suitable for a corporate report. "
    + "Use professional terminology and complete sentences:"
  const CasualInstruction :=
    "Convert this text to casual, conversational English like you're texting a friend. "
    + "Use contractions and informal language:"
  const AcademicInstruction :=
    "Rewrite this in academic writing style with formal tone, "
    + "citations in [brackets], and complex sentence structures:"
  const SimplifiedInstruction :=
    "Simplify this text to 6th grade reading level. "
    + "Use short sentences and basic vocabulary:"

  /** The fixed instruction that opens each style's prompt. */
  function Instruction(style: string): (r: Option<string>)
    ensures r.Some? <==> style in StyleKeys
  {
    if style == "professional" then Some(ProfessionalInstruction)
    else if style == "casual" then Some(CasualInstruction)
    else if style == "academic" then Some(AcademicInstruction)
    else if style == "simplified" then Some(SimplifiedInstruction)
    else None
  }

  /** The prompt for an accepted style: the instruction, a blank line, the text verbatim. */
  function Prompt(style: string, text: string): string
    requires style in StyleKeys
  {
    Instruction(style).value + "\n\n" + text
  }

  /** What a prompt carries after its instruction and the blank line. */
  function PromptText(style: string, prompt: string): string
    requires style in StyleKeys
  {
    var n := |Instruction(style).value| + 2;
    if |prompt| < n then [] else prompt[n..]
  }

  /** The text is recovered from its prompt, and the prompt opens with the instruction. */
  lemma PromptRoundTrip(style: string, text: string)
    requires style in StyleKeys
    ensures PromptText(style, Prompt(style, text)) == text
    ensures var i := Instruction(style).value;
            Prompt(style, text)[..|i| + 2] == i + "\n\n"
  {
    var i := Instruction(style).value;
    assert Prompt(style, text) == (i + "\n\n") + text;
  }

  /** Two texts give the same prompt only when they are the same. */
  lemma PromptInjective(style: string, a: string, b: string)
    requires style in StyleKeys && Prompt(style, a) == Prompt(style, b)
    ensures a == b
  {
    PromptRoundTrip(style, a);
    PromptRoundTrip(style, b);
  }

  /** The rewriter's output as the reply carries it. */
  function PostProcess(style: string, output: string): (r: string)
    ensures style != "academic" && style != "casual" ==> r == output
  {
    if style == "academic" && !Contains(Lower(output), "[citation]") then output + ResearchMarker
    else if style == "casual" then Replace(Replace(output, " cannot ", " can't "), " do not ", " don't ")
    else output
  }

  /**
   * Academic output keeps its text and gains " [Further research needed]"
   * exactly when its lower-case form lacks "[citation]".
   */
  lemma AcademicPostProcess(output: string)
    ensures var r := PostProcess("academic", output);
            && r[..|output|] == output
            && (r == output <==> Contains(Lower(output), "[citation]"))
            && (r != output ==> r == output + ResearchMarker)
  {
    var r := PostProcess("academic", output);
    if !Contains(Lower(output), "[citation]") {
      assert |r| == |output| + |ResearchMarker|;
    }
  }

  /**
   * Casual output only gets shorter, and output without " cannot " and
   * " do not " is returned as it is.
   */
  lemma CasualPostProcess(output: string)
    ensures |PostProcess("casual", output)| <= |output|
    ensures !Contains(output, " cannot ") && !Contains(output, " do not ") ==>
              PostProcess("casual", output) == output
  {
    ReplaceShrinks(output, " cannot ", " can't ");
    var once := Replace(output, " cannot ", " can't ");
    ReplaceShrinks(once, " do not ", " don't ");
    if !Contains(output, " cannot ") && !Contains(output, " do not ") {
      ReplaceAbsent(output, " cannot ", " can't ");
      ReplaceAbsent(output, " do not ", " don't ");
    }
  }

  /** The style the request names, in lower case, "professional" when it names none. */
  function RequestedStyle(style: Option<string>): (r: string)
    ensures Lower(r) == r
    ensures style.None? ==> r == DefaultStyle
    ensures style.Some? ==> r == Lower(style.value)
  {
    LowerIdempotent(if style.Some? then style.value else DefaultStyle);
    Lower(if style.Some? then style.value else DefaultStyle)
  }

  /**
   * What /rewrite answers for a request with the given "text" and "style"
   * fields (None when missing); output is the rewriter's text, None when
   * the call raises.
   */
  function Rewrite(text: Option<string>, style: Option<string>, output: Option<string>): (r: RewriteReply)
    ensures r.Rewritten? <==>
              text.Some? && text.value != [] && RequestedStyle(style) in StyleKeys && output.Some?
    ensures r.Rewritten? ==>
              && r.originalText == text.value && r.style == RequestedStyle(style)
              && PromptText(r.style, r.promptUsed) == text.value
  {
    var t := if text.Some? then text.value else "";
    var s := RequestedStyle(style);
    if t == [] then RewriteError(400, EmptyTextError)
    else if s !in StyleKeys then StyleRejected(InvalidStyleError, 400)
    else if output.None? then RewriteError(500, RewriteFailure)
    else
      PromptRoundTrip(s, t);
      Rewritten(t, PostProcess(s, output.value), s, Prompt(s, t))
  }

  /**
   * An empty or missing text is refused with 400, a style outside the four
   * keys is refused inside a status-200 reply, and neither reaches the
   * rewriter: the reply is the same whatever it would have answered.
   */
  lemma RewriteRejects(text: Option<string>, style: Option<string>, o1: Option<string>, o2: Option<string>)
    ensures (Rewrite(text, style, o1) == RewriteError(400, EmptyTextError)) <==> (text.None? || text.value == [])
    ensures Rewrite(text, style, o1).StyleRejected? <==>
              text.Some? && text.value != [] && RequestedStyle(style) !in StyleKeys
    ensures HttpStatus(Rewrite(text, style, o1)) == 200 <==> !Rewrite(text, style, o1).RewriteError?
    ensures text.None? || text.value == [] || RequestedStyle(style) !in StyleKeys ==>
              Rewrite(text, style, o1) == Rewrite(text, style, o2)
  {
  }

  /**
   * An accepted request echoes its text and lower-cased style, sends the
   * style's prompt and replies with the post-processed output.
   */
  lemma RewriteEcho(text: string, style: Option<string>, output: string)
    requires text != [] && RequestedStyle(style) in StyleKeys
    ensures var r := Rewrite(Some(text), style, Some(output));
            && r.Rewritten?
            && r.originalText == text
            && r.style == RequestedStyle(style)
            && PromptText(r.style, r.promptUsed) == text
            && r.rewrittenText == PostProcess(r.style, output)
  {
    PromptRoundTrip(RequestedStyle(style), text);
  }

  /** With no style field the request is rewritten in the professional style. */
  lemma RewriteDefaultStyle(text: string, output: string)
    requires text != []
    ensures var r := Rewrite(Some(text), None, Some(output));
            r.Rewritten? && r.style == "professional"
  {
    assert Lower("professional") == "professional";
  }

  // ---------------------------------------------------------------------
  // /upload-pdf
  // ---------------------------------------------------------------------

  datatype UploadReply = UploadError(status: int, error: string) | Extracted(text: string)

  /**
   * What /upload-pdf answers: fileName is the filename of the "file" part
   * (None when there is no such part); extracted is the text the PDF
   * library returns (None when it raises).
   */
  function UploadPdf(fileName: Option<string>, extracted: Option<string>): (r: UploadReply)
    ensures fileName.None? ==> r == UploadError(400, "No file provided")
    ensures fileName == Some("") ==> r == UploadError(400, "No file selected")
    ensures r.Extracted? <==> fileName.Some? && fileName.value != "" && extracted.Some?
    ensures r.Extracted? ==> r.text == extracted.value
  {
    if fileName.None? then UploadError(400, "No file provided")
    else if fileName.value == "" then UploadError(400, "No file selected")
    else if extracted.None? then UploadError(500, "Failed to extract text from PDF")
    else Extracted(extracted.value)
  }
}
