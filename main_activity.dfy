/**
 * The main screen of the Android client: which text a request sends, how
 * the shown result is cleaned before translation, the file-name fallback,
 * how a summary is coloured and shown, the bold header spans, the
 * translation-language buttons and the lifecycle of the text extracted
 * from an uploaded PDF.
 *
 * The network calls are left out: a request the screen would send is
 * returned to the caller, and each reply arrives through a method call.
 */
module Client {
  import opened Text
  import Server
  import RewriteStyles

  // ---------------------------------------------------------------------
  // Which text a request sends
  // ---------------------------------------------------------------------

  /** getInputText: the trimmed input field, or the extracted PDF text when the field is blank. */
  function InputText(field: string, extracted: string): (r: string)
    ensures Trim(field) != [] ==> r == Trim(field)
    ensures Trim(field) == [] ==> r == extracted
  {
    var t := Trim(field);
    if t != [] then t else extracted
  }

  /** Nothing is sent exactly when the field holds only trim-spaces and no PDF text is kept. */
  lemma InputTextEmpty(field: string, extracted: string)
    ensures InputText(field, extracted) == [] <==> AllTrimSpace(field) && extracted == []
  {
  }

  // ---------------------------------------------------------------------
  // Text shown in the result view
  // ---------------------------------------------------------------------

  const SummaryPrefix := "Summary: "
  const ExtractedPrefix := "Extracted Text: "

  /** getCleanTextForTranslation: every "Summary: " removed, then every "Extracted Text: ". */
  function CleanText(shown: string): (r: string)
    ensures |r| <= |shown|
  {
    ReplaceShrinks(shown, SummaryPrefix, "");
    ReplaceShrinks(Replace(shown, SummaryPrefix, ""), ExtractedPrefix, "");
    Replace(Replace(shown, SummaryPrefix, ""), ExtractedPrefix, "")
  }

  /** A shown summary is translated as the summary alone. */
  lemma CleanSummaryText(summary: string)
    requires !Contains(summary, SummaryPrefix) && !Contains(summary, ExtractedPrefix)
    ensures CleanText(SummaryPrefix + summary) == summary
  {
    ReplaceLeading(summary, SummaryPrefix, "");
    ReplaceAbsent(summary, SummaryPrefix, "");
    assert Replace(SummaryPrefix + summary, SummaryPrefix, "") == summary;
    ReplaceAbsent(summary, ExtractedPrefix, "");
  }

  /** Cleaning never makes the text longer, and text without either prefix is kept as it is. */
  lemma CleanTextShrinks(shown: string)
    ensures |CleanText(shown)| <= |shown|
    ensures !Contains(shown, SummaryPrefix) && !Contains(shown, ExtractedPrefix) ==> CleanText(shown) == shown
  {
    ReplaceShrinks(shown, SummaryPrefix, "");
    ReplaceShrinks(Replace(shown, SummaryPrefix, ""), ExtractedPrefix, "");
    if !Contains(shown, SummaryPrefix) && !Contains(shown, ExtractedPrefix) {
      ReplaceAbsent(shown, SummaryPrefix, "");
      ReplaceAbsent(shown, ExtractedPrefix, "");
    }
  }

  // ---------------------------------------------------------------------
  // getFileName
  // ---------------------------------------------------------------------

  /** The path fallback: what follows the last '/', or the whole path when it has none. */
  function PathFileName(path: string): (r: string)
    ensures '/' !in r
    ensures |r| <= |path| && r == path[|path| - |r|..]
    ensures '/' !in path ==> r == path
    ensures '/' in path ==> path[|path| - |r| - 1] == '/'
  {
    var cut := LastIndexOfChar(path, '/');
    if cut != -1 then path[cut + 1..] else path
  }

  /**
   * getFileName: the display name the content resolver reports (None when
   * the URI is not a content URI or the query gives no name), otherwise
   * the path fallback.
   */
  function FileName(displayName: Option<string>, path: string): (r: string)
    ensures displayName.Some? ==> r == displayName.value
    ensures displayName.None? ==> r == PathFileName(path)
  {
    if displayName.Some? then displayName.value else PathFileName(path)
  }

  // ---------------------------------------------------------------------
  // Summaries
  // ---------------------------------------------------------------------

  datatype TextColor = Gray | Blue | Black

  predicate StartsWith(s: string, p: string) { |p| <= |s| && s[..|p|] == p }

  const TooShortMark := "[Too Short]"
  const KeyPointsMark := "[Key Points]"

  /** The colour a summary is shown in: gray for "[Too Short]", blue for "[Key Points]", else black. */
  function SummaryColor(summary: string): (c: TextColor)
    ensures c == Gray <==> StartsWith(summary, TooShortMark)
    ensures c == Blue <==> StartsWith(summary, KeyPointsMark)
  {
    MarksExclusive(summary);
    if StartsWith(summary, TooShortMark) then Gray
    else if StartsWith(summary, KeyPointsMark) then Blue
    else Black
  }

  /** The two marks cannot both open a summary, so the order of the tests does not matter. */
  lemma MarksExclusive(summary: string)
    ensures !(StartsWith(summary, TooShortMark) && StartsWith(summary, KeyPointsMark))
  {
    assert StartsWith(summary, TooShortMark) ==> summary[1] == summary[..|TooShortMark|][1] == 'T';
    assert StartsWith(summary, KeyPointsMark) ==> summary[1] == summary[..|KeyPointsMark|][1] == 'K';
  }

  /** The server's too-short reply is shown in gray. */
  lemma TooShortShownGray(words: seq<string>)
    ensures SummaryColor(Server.TooShortSummary(words)) == Gray
  {
    var shown := words[..Server.Min(|words|, 10)];
    StartsWithAppend(Server.TooShortTag, TooShortMark, JoinSpace(shown) + (if |words| > 10 then "..." else ""));
    assert Server.TooShortSummary(words)
        == Server.TooShortTag + (JoinSpace(shown) + (if |words| > 10 then "..." else ""));
  }

  /** The server's key-points fallback is shown in blue. */
  lemma KeyPointsShownBlue(sentences: seq<string>)
    ensures SummaryColor(Server.KeyPointsSummary(sentences)) == Blue
  {
    StartsWithAppend(Server.KeyPointsTag, KeyPointsMark, JoinSpace(sentences[..Server.Min(|sentences|, 2)]));
  }

  /** A string that opens with a mark still does after more text is appended. */
  lemma StartsWithAppend(s: string, mark: string, more: string)
    requires StartsWith(s, mark)
    ensures StartsWith(s + more, mark)
  {
    assert (s + more)[..|mark|] == s[..|mark|];
  }

  /** The fields the client reads from a /summarize reply. */
  datatype SummaryResponse = SummaryResponse(summary: string, originalLength: int, summaryLength: int, compressionRatio: string)

  /** Java's %d. */
  function Decimal(n: int): (r: string)
    ensures r != []
    decreases if n < 0 then 1 - n else n
  {
    if n < 0 then "-" + Decimal(-n)
    else if n < 10 then [(48 + n) as char]
    else Decimal(n / 10) + [(48 + n % 10) as char]
  }

  /** The number a string of decimal digits denotes, read left to right. */
  function DecimalValue(s: string): int
  {
    if s == [] then 0 else 10 * DecimalValue(s[..|s| - 1]) + (s[|s| - 1] as int - 48)
  }

  /** A count that is not negative is written in decimal digits only, and reads back as itself. */
  lemma {:induction false} DecimalRoundTrip(n: nat)
    ensures forall k :: 0 <= k < |Decimal(n)| ==> '0' <= Decimal(n)[k] <= '9'
    ensures DecimalValue(Decimal(n)) == n
    decreases n
  {
    if n >= 10 {
      DecimalRoundTrip(n / 10);
      var d := Decimal(n / 10);
      var c := (48 + n % 10) as char;
      assert Decimal(n) == d + [c];
      assert (d + [c])[..|d|] == d;
      forall k | 0 <= k < |d + [c]| ensures '0' <= (d + [c])[k] <= '9' {
        if k < |d| { assert (d + [c])[k] == d[k]; }
      }
    }
  }

  /** The text set for a plain summary before handleSuccessfulSummary replaces it. */
  function FormattedSummary(r: SummaryResponse): (t: string)
    ensures var head := "Summary (" + Decimal(r.originalLength) + " → ";
            |head| <= |t| && t[..|head|] == head
    ensures |r.summary| + 2 <= |t| && t[|t| - |r.summary| - 2..] == "\n\n" + r.summary
  {
    var head := "Summary (" + Decimal(r.originalLength) + " → ";
    var middle := Decimal(r.summaryLength) + " words, " + r.compressionRatio + " reduced):";
    var t := "Summary (" + Decimal(r.originalLength) + " → " + Decimal(r.summaryLength) + " words, "
      + r.compressionRatio + " reduced):\n\n" + r.summary;
    assert t == head + middle + ("\n\n" + r.summary);
    assert t == head + (middle + "\n\n" + r.summary);
    t
  }

  /** The bold span of displaySummary. */
  datatype Bold = Bold(start: nat, end: nat)

  const KeyPointsHeading := "Key Points:"

  /** displaySummary: bold over the first "Key Points:", none when the text lacks it. */
  function KeyPointsBold(text: string): (b: Option<Bold>)
    ensures b.Some? <==> Contains(text, KeyPointsHeading)
    ensures b.Some? ==>
              && b.value.end == b.value.start + |KeyPointsHeading| <= |text|
              && text[b.value.start..b.value.end] == KeyPointsHeading
              && forall j :: 0 <= j < b.value.start ==> !OccursAt(text, KeyPointsHeading, j)
  {
    if Contains(text, KeyPointsHeading) then
      var start := IndexOf(text, KeyPointsHeading);
      Some(Bold(start, start + 11))
    else None
  }

  // ---------------------------------------------------------------------
  // Rewrite results
  // ---------------------------------------------------------------------

  /** The choices of the style dialog, sent in lower case. */
  const DialogStyles: seq<string> := ["Professional", "Casual", "Academic", "Simplified"]

  /** Every dialog choice is a style the server accepts, and it is the enum's value for that style. */
  lemma DialogStylesAccepted()
    ensures forall i :: 0 <= i < |DialogStyles| ==>
              && Lower(DialogStyles[i]) == RewriteStyles.ApiValue(RewriteStyles.AllStyles[i])
              && Lower(DialogStyles[i]) in Server.StyleKeys
  {
    RewriteStyles.ApiValuesAreServerKeys();
    forall i | 0 <= i < |DialogStyles|
      ensures Lower(DialogStyles[i]) == RewriteStyles.ApiValue(RewriteStyles.AllStyles[i])
    {
      RewriteStyles.ApiValueIsLowerDisplayName(RewriteStyles.AllStyles[i]);
      assert RewriteStyles.DisplayName(RewriteStyles.AllStyles[i]) == DialogStyles[i];
    }
  }

  /** "【" + style in capitals + " Version】" */
  function RewriteHeader(style: string): (h: string)
    ensures |h| == |style| + 10
  {
    "【" + Upper(style) + " Version】"
  }

  /** The text displayRewriteResult shows. */
  function RewriteResultText(style: string, rewritten: string, original: string): (r: string)
    ensures |r| == |style| + |rewritten| + |original| + 23
  {
    RewriteHeader(style) + "\n" + rewritten + "\n\nOriginal:\n" + original
  }

  /** The shown text opens with the header and carries both texts, each recoverable by position. */
  lemma RewriteResultLayout(style: string, rewritten: string, original: string)
    ensures var r := RewriteResultText(style, rewritten, original);
            var h := |style| + 10;
            && |r| == h + |rewritten| + |original| + 13
            && r[..h] == RewriteHeader(style)
            && r[h] == '\n'
            && r[h + 1..h + 1 + |rewritten|] == rewritten
            && r[|r| - |original|..] == original
  {
    var r := RewriteResultText(style, rewritten, original);
    var h := |style| + 10;
    assert r == RewriteHeader(style) + ("\n" + rewritten + ("\n\nOriginal:\n" + original));
  }

  /** The end of the bold span as displayRewriteResult sets it: the style's length plus 12. */
  function BoldEndAsWritten(style: string): (n: nat)
    ensures n == |RewriteHeader(style)| + 2
  {
    |style| + 12
  }

  /**
   * The span set by the code runs two characters past the header it is
   * meant to cover: the line break and the first character of the
   * rewritten text.
   */
  lemma BoldOverreaches(style: string, rewritten: string, original: string)
    ensures var r := RewriteResultText(style, rewritten, original);
            var h := RewriteHeader(style);
            && BoldEndAsWritten(style) <= |r|
            && BoldEndAsWritten(style) == |h| + 2
            && r[..BoldEndAsWritten(style)] != h
            && r[|h|] == '\n'
            && (rewritten != [] ==> r[|h| + 1] == rewritten[0])
  {
    RewriteResultLayout(style, rewritten, original);
    var r := RewriteResultText(style, rewritten, original);
    var h := RewriteHeader(style);
    if rewritten != [] {
      assert r[|h| + 1] == r[|h| + 1..|h| + 1 + |rewritten|][0];
    }
  }

  /** A concrete case: for a casual rewrite "Hey", the bold text is the header, a line break and "H". */
  lemma BoldOverreachExample()
    ensures RewriteResultText("casual", "Hey", "hi")[..BoldEndAsWritten("casual")]
            == RewriteHeader("casual") + "\nH"
  {
    RewriteResultLayout("casual", "Hey", "hi");
    var r := RewriteResultText("casual", "Hey", "hi");
    var h := RewriteHeader("casual");
    assert r[..|h| + 2] == r[..|h|] + [r[|h|], r[|h| + 1]];
    assert r[|h| + 1] == r[|h| + 1..|h| + 4][0];
  }

  /** The intended span: exactly the header "【STYLE Version】". */
  function HeaderBoldEnd(style: string): (n: nat)
    ensures n == |style| + 10
    ensures forall rewritten, original :: RewriteResultText(style, rewritten, original)[..n] == RewriteHeader(style)
  {
    var n := |RewriteHeader(style)|;
    assert forall rewritten, original :: RewriteResultText(style, rewritten, original)[..n] == RewriteHeader(style) by {
      forall rewritten, original ensures RewriteResultText(style, rewritten, original)[..n] == RewriteHeader(style) {
        RewriteResultLayout(style, rewritten, original);
      }
    }
    n
  }

  // ---------------------------------------------------------------------
  // Translation languages
  // ---------------------------------------------------------------------

  const LanguageCodes: seq<string> := ["mr", "hi", "te", "pa"]
  const LanguageNames: seq<string> := ["Marathi", "Hindi", "Telugu", "Punjabi"]

  /** Arrays.asList(codes).indexOf(code): the first index holding code, or -1. */
  function IndexOfCode(codes: seq<string>, code: string): (r: int)
    ensures r == -1 <==> code !in codes
    ensures r != -1 ==> 0 <= r < |codes| && codes[r] == code && code !in codes[..r]
  {
    if codes == [] then -1
    else if codes[0] == code then 0
    else
      var r := IndexOfCode(codes[1..], code);
      assert codes == [codes[0]] + codes[1..];
      if r == -1 then -1
      else
        assert codes[..r + 1] == [codes[0]] + codes[1..][..r];
        r + 1
  }

  /** The name shown before a translation: the name at the code's index. */
  function LanguageName(code: string): (r: string)
    requires code in LanguageCodes
    ensures r in LanguageNames
  {
    LanguageNames[IndexOfCode(LanguageCodes, code)]
  }

  /** Each code is looked up to the name in the same position. */
  lemma LanguageNameAt(i: nat)
    requires i < |LanguageCodes|
    ensures LanguageName(LanguageCodes[i]) == LanguageNames[i]
  {
    if i == 0 {
      assert IndexOfCode(LanguageCodes, "mr") == 0;
    } else if i == 1 {
      assert IndexOfCode(LanguageCodes, "hi") == 1;
    } else if i == 2 {
      assert IndexOfCode(LanguageCodes, "te") == 2;
    } else {
      assert IndexOfCode(LanguageCodes, "pa") == 3;
    }
  }

  /** A translation button: its caption and the code it requests. */
  datatype LanguageButton = LanguageButton(caption: string, code: string)

  /** The loop of setupLanguageButtons: one button per language, in order. */
  method LanguageButtonRow() returns (row: seq<LanguageButton>)
    ensures |row| == |LanguageCodes|
    ensures forall i :: 0 <= i < |row| ==> row[i] == LanguageButton(LanguageNames[i], LanguageCodes[i])
  {
    row := [];
    for i := 0 to |LanguageCodes|
      invariant |row| == i
      invariant forall k :: 0 <= k < i ==> row[k] == LanguageButton(LanguageNames[k], LanguageCodes[k])
    {
      row := row + [LanguageButton(LanguageNames[i], LanguageCodes[i])];
    }
  }

  /** A button that requests a listed language under that language's name. */
  predicate WellNamed(b: LanguageButton) {
    b.code in LanguageCodes && b.caption == LanguageName(b.code)
  }

  /** Every button of the row is well named. */
  lemma RowWellNamed(row: seq<LanguageButton>)
    requires |row| == |LanguageCodes|
    requires forall i :: 0 <= i < |row| ==> row[i] == LanguageButton(LanguageNames[i], LanguageCodes[i])
    ensures forall i :: 0 <= i < |row| ==> WellNamed(row[i])
  {
    forall i | 0 <= i < |row| ensures WellNamed(row[i]) {
      LanguageNameAt(i);
    }
  }

  // ---------------------------------------------------------------------
  // The screen
  // ---------------------------------------------------------------------

  /** A /summarize, /rewrite or /translate request the screen sends. */
  datatype Request =
    | SummaryRequest(text: string)
    | RewriteRequest(text: string, style: string)
    | TranslationRequest(text: string, lang: string)

  /** What the word-count button does: a toast, or opening the word-count screen with the text. */
  datatype WordCountAction = Toast(message: string) | OpenWordCount(fullText: string)

  class MainScreen {
    var inputField: string
    var extractedText: string
    var resultText: string
    var resultColor: TextColor
    var bold: Option<Bold>
    var languageButtons: seq<LanguageButton>
    var buttonsVisible: bool
    var uploadStatusVisible: bool
    var loading: bool

    /** Every button requests a listed language under its own name, and a bold span lies in the text. */
    predicate Valid()
      reads this
    {
      && (forall i :: 0 <= i < |languageButtons| ==> WellNamed(languageButtons[i]))
      && (bold.Some? ==> bold.value.start <= bold.value.end <= |resultText|)
    }

    constructor()
      ensures Valid()
      ensures inputField == [] && extractedText == [] && resultText == [] && bold.None?
      ensures languageButtons == [] && !buttonsVisible && !uploadStatusVisible && !loading
    {
      inputField := [];
      extractedText := [];
      resultText := [];
      resultColor := Black;
      bold := None;
      languageButtons := [];
      buttonsVisible := false;
      uploadStatusVisible := false;
      loading := false;
    }

    /** The text a request would send now. */
    function Input(): string
      reads this
    {
      InputText(inputField, extractedText)
    }

    /** The user edits the input field. */
    method Type(text: string)
      requires Valid()
      modifies this
      ensures Valid() && inputField == text
      ensures extractedText == old(extractedText) && resultText == old(resultText) && bold == old(bold)
      ensures languageButtons == old(languageButtons) && buttonsVisible == old(buttonsVisible)
      ensures uploadStatusVisible == old(uploadStatusVisible) && loading == old(loading)
      ensures resultColor == old(resultColor)
    {
      inputField := text;
    }

    /** showError: the message replaces the shown text. */
    method ShowError(message: string)
      requires Valid()
      modifies this
      ensures Valid() && resultText == message && bold.None?
      ensures inputField == old(inputField) && extractedText == old(extractedText)
      ensures languageButtons == old(languageButtons) && buttonsVisible == old(buttonsVisible)
      ensures uploadStatusVisible == old(uploadStatusVisible) && loading == old(loading)
      ensures resultColor == old(resultColor)
    {
      resultText := message;
      bold := None;
    }

    /** handleSuccessfulUpload: the PDF text is kept and shown. */
    method UploadSucceeded(text: string)
      requires Valid()
      modifies this
      ensures Valid() && extractedText == text && resultText == ExtractedPrefix + text && bold.None?
      ensures uploadStatusVisible && !loading
      ensures inputField == old(inputField) && languageButtons == old(languageButtons)
      ensures buttonsVisible == old(buttonsVisible) && resultColor == old(resultColor)
    {
      loading := false;
      extractedText := text;
      resultText := ExtractedPrefix + text;
      bold := None;
      uploadStatusVisible := true;
    }

    /** resetUI: the PDF text is dropped, so requests send only the input field from now on. */
    method ResetUI()
      requires Valid()
      modifies this
      ensures Valid() && extractedText == [] && resultText == [] && bold.None?
      ensures !uploadStatusVisible && !buttonsVisible
      ensures Input() == Trim(inputField)
      ensures inputField == old(inputField) && languageButtons == old(languageButtons)
      ensures loading == old(loading) && resultColor == old(resultColor)
    {
      extractedText := [];
      resultText := [];
      bold := None;
      uploadStatusVisible := false;
      buttonsVisible := false;
    }

    /** summarizeText: send the input, or show "No text provided" when there is none. */
    method RequestSummary() returns (request: Option<Request>)
      requires Valid()
      modifies this
      ensures Valid()
      ensures request.Some? <==> old(Input()) != []
      ensures request.Some? ==> request.value == SummaryRequest(old(Input())) && loading
      ensures request.None? ==> resultText == "No text provided" && bold.None? && loading == old(loading)
      ensures request.Some? ==> resultText == old(resultText) && bold == old(bold)
      ensures inputField == old(inputField) && extractedText == old(extractedText)
      ensures languageButtons == old(languageButtons) && buttonsVisible == old(buttonsVisible)
      ensures uploadStatusVisible == old(uploadStatusVisible) && resultColor == old(resultColor)
    {
      var text := Input();
      if text == [] {
        ShowError("No text provided");
        request := None;
      } else {
        loading := true;
        request := Some(SummaryRequest(text));
      }
    }

    /** A successful /summarize reply: coloured by its mark, shown after "Summary: ", with the language buttons. */
    method ShowSummary(reply: SummaryResponse)
      requires Valid()
      modifies this
      ensures Valid()
      ensures resultColor == SummaryColor(reply.summary)
      ensures resultText == SummaryPrefix + reply.summary && bold.None?
      ensures |languageButtons| == |LanguageCodes| && buttonsVisible && !loading
      ensures forall i :: 0 <= i < |languageButtons| ==>
                languageButtons[i] == LanguageButton(LanguageNames[i], LanguageCodes[i])
      ensures inputField == old(inputField) && extractedText == old(extractedText)
      ensures uploadStatusVisible == old(uploadStatusVisible)
    {
      loading := false;
      var color := SummaryColor(reply.summary);
      resultColor := color;
      if color == Black {
        resultText := FormattedSummary(reply);
      } else {
        resultText := reply.summary;
      }
      bold := None;
      resultText := SummaryPrefix + reply.summary;
      var row := LanguageButtonRow();
      RowWellNamed(row);
      languageButtons := row;
      buttonsVisible := true;
    }

    /** A failed /summarize reply: the spinner is hidden and nothing else changes. */
    method SummaryRejected()
      requires Valid()
      modifies this
      ensures Valid() && !loading
      ensures inputField == old(inputField) && extractedText == old(extractedText)
      ensures resultText == old(resultText) && bold == old(bold) && resultColor == old(resultColor)
      ensures languageButtons == old(languageButtons) && buttonsVisible == old(buttonsVisible)
      ensures uploadStatusVisible == old(uploadStatusVisible)
    {
      loading := false;
    }

    /** A failed /upload-pdf, /translate or /rewrite reply: the spinner is hidden and the message shown. */
    method ReplyFailed(message: string)
      requires Valid()
      modifies this
      ensures Valid() && !loading && resultText == message && bold.None?
      ensures inputField == old(inputField) && extractedText == old(extractedText)
      ensures languageButtons == old(languageButtons) && buttonsVisible == old(buttonsVisible)
      ensures uploadStatusVisible == old(uploadStatusVisible) && resultColor == old(resultColor)
    {
      loading := false;
      ShowError(message);
    }

    /** getCleanTextForTranslation on what is shown now. */
    function CleanTextForTranslation(): string
      reads this
    {
      CleanText(resultText)
    }

    /** A language button: translate the cleaned shown text into the button's language. */
    method PressLanguageButton(k: nat) returns (request: Request)
      requires Valid() && k < |languageButtons|
      modifies this
      ensures languageButtons == old(languageButtons) && buttonsVisible == old(buttonsVisible)
      ensures Valid() && loading
      ensures request == TranslationRequest(old(CleanTextForTranslation()), languageButtons[k].code)
      ensures request.lang in LanguageCodes && languageButtons[k].caption == LanguageName(request.lang)
      ensures inputField == old(inputField) && extractedText == old(extractedText)
      ensures resultText == old(resultText) && bold == old(bold) && resultColor == old(resultColor)
      ensures uploadStatusVisible == old(uploadStatusVisible)
    {
      request := TranslationRequest(CleanTextForTranslation(), languageButtons[k].code);
      loading := true;
    }

    /** A successful /translate reply: shown after the language's name. */
    method ShowTranslation(lang: string, translated: string)
      requires Valid() && lang in LanguageCodes
      modifies this
      ensures Valid() && resultText == LanguageName(lang) + ": " + translated && bold.None? && !loading
      ensures inputField == old(inputField) && extractedText == old(extractedText)
      ensures languageButtons == old(languageButtons) && buttonsVisible == old(buttonsVisible)
      ensures uploadStatusVisible == old(uploadStatusVisible) && resultColor == old(resultColor)
    {
      loading := false;
      resultText := LanguageName(lang) + ": " + translated;
      bold := None;
    }

    /** The style dialog: send the input with the chosen style in lower case, or show "No text to rewrite". */
    method RequestRewrite(choice: nat) returns (request: Option<Request>)
      requires Valid() && choice < |DialogStyles|
      modifies this
      ensures Valid()
      ensures request.Some? <==> old(Input()) != []
      ensures request.Some? ==>
                request.value == RewriteRequest(old(Input()), Lower(DialogStyles[choice]))
                && Lower(DialogStyles[choice]) in Server.StyleKeys && loading
      ensures request.None? ==> resultText == "No text to rewrite" && bold.None? && loading == old(loading)
      ensures request.Some? ==> resultText == old(resultText) && bold == old(bold)
      ensures inputField == old(inputField) && extractedText == old(extractedText)
      ensures languageButtons == old(languageButtons) && buttonsVisible == old(buttonsVisible)
      ensures uploadStatusVisible == old(uploadStatusVisible) && resultColor == old(resultColor)
    {
      DialogStylesAccepted();
      var style := Lower(DialogStyles[choice]);
      var text := Input();
      if text == [] {
        ShowError("No text to rewrite");
        request := None;
      } else {
        loading := true;
        request := Some(RewriteRequest(text, style));
      }
    }

    /**
     * A successful /rewrite reply: the result text with its header in bold.
     * The span is the one the code sets, which covers the header, the line
     * break after it and one more character.
     */
    method ShowRewrite(style: string, rewritten: string, original: string)
      requires Valid()
      modifies this
      ensures Valid() && !loading
      ensures resultText == RewriteResultText(style, rewritten, original)
      ensures bold == Some(Bold(0, BoldEndAsWritten(style)))
      ensures BoldEndAsWritten(style) == HeaderBoldEnd(style) + 2
      ensures resultText[..HeaderBoldEnd(style)] == RewriteHeader(style)
      ensures resultText[HeaderBoldEnd(style)] == '\n'
      ensures inputField == old(inputField) && extractedText == old(extractedText)
      ensures languageButtons == old(languageButtons) && buttonsVisible == old(buttonsVisible)
      ensures uploadStatusVisible == old(uploadStatusVisible) && resultColor == old(resultColor)
    {
      BoldOverreaches(style, rewritten, original);
      loading := false;
      resultText := RewriteResultText(style, rewritten, original);
      bold := Some(Bold(0, BoldEndAsWritten(style)));
    }

    /** countWords: a toast when there is no text, otherwise the word-count screen with the text. */
    method CountWords() returns (action: WordCountAction)
      ensures Input() == [] ==> action == Toast("No text to analyze")
      ensures Input() != [] ==> action == OpenWordCount(Input())
    {
      var text := Input();
      if text == [] {
        action := Toast("No text to analyze");
      } else {
        action := OpenWordCount(text);
      }
    }
  }

  /**
   * After a summary is shown, every language button asks for the summary
   * itself (when it holds neither prefix) in the language the button names.
   */
  method SummaryThenTranslate(screen: MainScreen, reply: SummaryResponse, k: nat) returns (request: Request)
    requires screen.Valid() && k < |LanguageCodes|
    requires !Contains(reply.summary, SummaryPrefix) && !Contains(reply.summary, ExtractedPrefix)
    modifies screen
    ensures request == TranslationRequest(reply.summary, LanguageCodes[k])
    ensures |screen.languageButtons| == |LanguageCodes|
    ensures screen.languageButtons[k].caption == LanguageNames[k] == LanguageName(LanguageCodes[k])
  {
    screen.ShowSummary(reply);
    CleanSummaryText(reply.summary);
    LanguageNameAt(k);
    request := screen.PressLanguageButton(k);
  }

  /** Once resetUI has run, an uploaded PDF's text is no longer sent. */
  method UploadThenReset(screen: MainScreen, pdfText: string) returns (sent: Option<Request>)
    requires screen.Valid() && AllTrimSpace(screen.inputField)
    modifies screen
    ensures sent.None? && screen.resultText == "No text provided"
  {
    screen.UploadSucceeded(pdfText);
    screen.ResetUI();
    sent := screen.RequestSummary();
  }
}
