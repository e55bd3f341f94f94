# Text processor: a Dafny model of its deterministic core

The system is an Android app that sends text to a Flask server for
summarising, rewriting in a chosen style and translating, and that can take
its text from an uploaded PDF. This project models the parts that are
plain string and state rules, and proves properties about them. The parts
that call machine-learning models, Google Translate or the PDF library are
left out.

- **`WordCount`** (`word_count_activity.dfy`) models the word-count screen.
  - It shows a total word count, which is Java's `split("\\s+")` length.
  - `highlightAndCount` searches with the pattern `(?i)\b<quoted word>\b`. It counts every match and paints each one. The colour alternates YELLOW and CYAN between searches.
  - The pattern is modelled without a regex engine. The model chooses the ASCII reading of the pattern, which is what the `java.util.regex` documentation gives when `UNICODE_CASE` is not set:
    - the quoted word is a literal;
    - `(?i)` identifies only A-Z with a-z;
    - `\b` is a change between a word character `[A-Za-z0-9_]` and anything else. A position outside the text counts as a non-word character.

    Android's regex engine is built on ICU, which folds case and classifies word characters and `\s` across all of Unicode. The two readings agree on ASCII text (see "Left out").
  - The screen is the class `WordCountScreen`. Its `Search` method runs the `matcher.find()` loop in `HighlightAll`. That loop is proved against the specification function `Matches`, and the lemmas about `Matches` carry the guarantees about the search.
- **`Server`** (`app_server.dfy`) models the request rules of `app.py`.
  - For `/summarize`: the strip and empty check, the word count, the too-short reply and the clamped generation lengths.
  - For `/rewrite`: the text and style validation, the prompt of each style, and the post-processing of the rewriter's output.
  - For `/upload-pdf`: the request validation.
- **`Client`** (`main_activity.dfy`) models the main screen (`MainActivity`):
  - which text a request sends;
  - how the shown text is cleaned before translation;
  - the file-name fallback;
  - how a summary is coloured and shown;
  - the bold spans of `displaySummary` and `displayRewriteResult`;
  - the language lookup and the language buttons.

  The class `MainScreen` holds the screen's state: the input field, `extractedText`, the shown text and its colour and bold span, the language buttons and the visibility flags.
- **`RewriteStyles`** (`rewrite_style.dfy`) models the `RewriteStyle` enum: its display names and the values it sends.
- **`Text`** (`text.dfy`) holds the string primitives both programs rely on:
  - from Java: `String.trim`, ASCII `toLowerCase` and `toUpperCase`, `indexOf`, `lastIndexOf`, literal `replace`, and `split("\\s+")`;
  - from Python: `str.strip()`, `str.split()` and `" ".join`.

Wherever the source calls something outside the model, that becomes a parameter:
- the summariser's text;
- the sentences of the "[Key Points]" fallback;
- the rewriter's text;
- the text the PDF library extracts;
- the display name the content resolver reports.

Network replies arrive as calls of `MainScreen` methods. A request the screen would send is returned to the caller.

Two behaviours of the code that a reader may not expect, both modelled as the code has them:
- The total word count of an empty text is 1, not 0. Java's `"".split("\\s+")` is `[""]`; see `Text.JavaSplitCount`.
- A word that ends in a non-word character, such as `c++`, matches only when a word character follows it. This is what `\b` means; it is not a plain "whole word" test. See `WordCount.PlusPlusNeedsWordAfter`.

## Model

| member | source | states |
|---|---|---|
| Text.Lower | app/src/main/java/com/example/textprocessorapp/RewriteStyle.java:20 | The result has the same length, and each character is the ASCII lower-case form of the input character at the same index. |
| Text.Upper | app/src/main/java/com/example/textprocessorapp/MainActivity.java:429 | The result has the same length, and each character is the ASCII upper-case form of the input character at the same index. |
| Text.LowerIdempotent | app.py:129 | Lowering twice is lowering once, so a style the client already lowered is unchanged by the server's `.lower()`. |
| Text.Trim | app/src/main/java/com/example/textprocessorapp/MainActivity.java:309 | The result is the substring that follows the leading run of characters up to U+0020, and only such characters follow it. It is empty exactly when every character is one of them. Otherwise neither of its ends is one. |
| Text.TrimIdempotent | app/src/main/java/com/example/textprocessorapp/WordCountActivity.java:51 | Trimming a trimmed text changes nothing. |
| Text.IndexOf | app/src/main/java/com/example/textprocessorapp/MainActivity.java:367 | The result is -1 exactly when the pattern does not occur. Otherwise the pattern occurs there and at no earlier index. |
| Text.IndexOfFrom | app/src/main/java/com/example/textprocessorapp/MainActivity.java:367 | The result is the first occurrence at or after the start position, or -1 when there is none. |
| Text.LastIndexOfChar | app/src/main/java/com/example/textprocessorapp/MainActivity.java:355 | The result is -1 exactly when the character is absent. Otherwise the character is there and not after it. |
| Text.ReplaceAbsent | app/src/main/java/com/example/textprocessorapp/MainActivity.java:303-305 | A text in which the pattern does not occur is returned unchanged. |
| Text.ReplaceLeading | app/src/main/java/com/example/textprocessorapp/MainActivity.java:304 | An occurrence at the very start is replaced, and the scan resumes right after it. |
| Text.ReplaceShrinks | app.py:175 | A replacement no longer than the pattern never lengthens the text. |
| Text.Replace | app/src/main/java/com/example/textprocessorapp/MainActivity.java:303-305 | The specification of a literal `replace` (Java's `String.replace`, and Python's `str.replace` at app.py:175): occurrences are replaced left to right, never overlapping, and the scan resumes after each one. No `ensures`; the three lemmas above state its properties. |
| Text.Tokens | app.py:55 | Every token is non-empty and holds no blank. |
| Text.TokensEmptyIff | app.py:52 | There are no tokens exactly when every character is blank. |
| Text.TokensCount | app.py:55 | The number of tokens equals an independent tally of the maximal non-blank runs. |
| Text.TokensJoin | app.py:58 | Splitting the space-joined words gives the words back. |
| Text.TokensSkipBlank | app.py:55 | A leading blank adds no token. |
| Text.TokensSkipTrailingBlank | app.py:55 | A trailing blank adds no token. |
| Text.PySplit | app.py:55 | Python's `str.split()`, defined as the tokens under Python's whitespace. No `ensures`; `Text.Tokens`, `Text.TokensEmptyIff` and `Text.TokensCount` state its properties. |
| Text.JoinSpace | app.py:58 | `" ".join`: the words with one space between each pair. No `ensures`; `Text.TokensJoin` is its inverse. |
| Text.PyStrip | app.py:51 | The result is the substring that follows the leading run of Python whitespace, and only whitespace follows it. Neither of its ends is whitespace. It is empty exactly when the text is all whitespace, and splitting it gives the same words as splitting the text. |
| Text.DropTrailingEmpty | app/src/main/java/com/example/textprocessorapp/WordCountActivity.java:44 | The result is a prefix of the input whose last piece is non-empty, and every piece it drops is empty. |
| Text.SplitAtBlanksFromWord | app/src/main/java/com/example/textprocessorapp/WordCountActivity.java:44 | A text that starts with a non-blank splits into exactly its maximal non-blank runs. |
| Text.SplitAtBlanksFromBlank | app/src/main/java/com/example/textprocessorapp/WordCountActivity.java:44 | A text that starts with a blank splits into an empty piece followed by its runs. If it holds only blanks, it splits into nothing. |
| Text.JavaSplitCount | app/src/main/java/com/example/textprocessorapp/WordCountActivity.java:44 | `split("\\s+")` covers four cases: the empty text gives one empty piece; an all-blank text gives none; otherwise the result is the runs, with an extra empty piece in front when the text starts with a blank. |
| Text.JavaSplitBlank | app/src/main/java/com/example/textprocessorapp/WordCountActivity.java:44 | Java's `split("\\s+")`, defined as the pieces between blank runs with the trailing empty pieces dropped. No `ensures`; `Text.JavaSplitCount` states its four cases. |
| WordCount.Flip | app/src/main/java/com/example/textprocessorapp/WordCountActivity.java:79 | The next colour always differs from the current one. |
| WordCount.Boundary | app/src/main/java/com/example/textprocessorapp/WordCountActivity.java:58 | `\b` at a position: exactly one of the two characters around it is a word character. No `ensures`; `WordCount.MatchesSound` and `WordCount.CatInsideWords` use it. |
| WordCount.MatchAt | app/src/main/java/com/example/textprocessorapp/WordCountActivity.java:58 | The pattern matches at a position: a boundary, the word up to ASCII case, then a boundary. No `ensures`; it is what `WordCount.MatchesSound` and `WordCount.MatchesComplete` refer to. |
| WordCount.Matches | app/src/main/java/com/example/textprocessorapp/WordCountActivity.java:63-71 | The specification of the `find` loop: the next match, then the scan resumed at its end. No `ensures`; the `Matches…` lemmas below state its properties and `WordCount.HighlightAll` is proved against it. |
| WordCount.NextMatch | app/src/main/java/com/example/textprocessorapp/WordCountActivity.java:63 | A match that is found lies inside the text, at or after the start position. |
| WordCount.NextMatchLeftmost | app/src/main/java/com/example/textprocessorapp/WordCountActivity.java:58-63 | `find` reports the leftmost match at or after its start position. When it reports none, no match exists there. |
| WordCount.Paint | app/src/main/java/com/example/textprocessorapp/WordCountActivity.java:65-70 | There is one highlight per span. |
| WordCount.PaintAt | app/src/main/java/com/example/textprocessorapp/WordCountActivity.java:65-70 | Each highlight keeps its span and gets the colour of the search. |
| WordCount.MatchesBounds | app/src/main/java/com/example/textprocessorapp/WordCountActivity.java:58-70 | Every reported span is exactly as long as the word, lies in the text, and starts at or after the scan's start. |
| WordCount.MatchesSound | app/src/main/java/com/example/textprocessorapp/WordCountActivity.java:58 | Every reported span has a boundary at each end and holds the word up to ASCII case. |
| WordCount.MatchesOrdered | app/src/main/java/com/example/textprocessorapp/WordCountActivity.java:63-71 | The spans are non-empty, run left to right, and never overlap. |
| WordCount.MatchesComplete | app/src/main/java/com/example/textprocessorapp/WordCountActivity.java:63 | Every match at or after the start lies inside a reported span. |
| WordCount.MatchesEmptyIff | app/src/main/java/com/example/textprocessorapp/WordCountActivity.java:63 | No span is reported exactly when the word matches nowhere. |
| WordCount.MatchesLeftmost | app/src/main/java/com/example/textprocessorapp/WordCountActivity.java:63 | No match starts before the first span, or between one span's end and the next span's start. |
| WordCount.MatchesStep | app/src/main/java/com/example/textprocessorapp/WordCountActivity.java:63-71 | The scan is the next match followed by the scan resumed at that match's end. |
| WordCount.NoMatchBetween | app/src/main/java/com/example/textprocessorapp/WordCountActivity.java:63 | Positions without a match are skipped over. |
| WordCount.PaintedMatches | app/src/main/java/com/example/textprocessorapp/WordCountActivity.java:63-71 | A search paints one highlight per match, in its own colour, each as long as the word and starting at a match, left to right and never overlapping. |
| WordCount.SearchMissesNothing | app/src/main/java/com/example/textprocessorapp/WordCountActivity.java:58-71 | Every match anywhere in the text lies inside a painted span. |
| WordCount.PaintedWell | app/src/main/java/com/example/textprocessorapp/WordCountActivity.java:63-71 | A search's highlights share one colour and are non-empty, inside the text, ordered and disjoint. |
| WordCount.CatInsideWords | app/src/main/java/com/example/textprocessorapp/WordCountActivity.java:58 | "cat" inside "category" and "concatenate" is not matched. |
| WordCount.PlusPlusNeedsWordAfter | app/src/main/java/com/example/textprocessorapp/WordCountActivity.java:58 | "c++" followed by a space is not matched, and "c++" followed by a word character is. |
| WordCount.OverlapSkipped | app/src/main/java/com/example/textprocessorapp/WordCountActivity.java:63 | A match that overlaps one found earlier is not reported. |
| WordCount.Find | app/src/main/java/com/example/textprocessorapp/WordCountActivity.java:63 | The loop over start positions returns `NextMatch`. |
| WordCount.HighlightAll | app/src/main/java/com/example/textprocessorapp/WordCountActivity.java:60-71 | The `find` loop paints exactly the matches of the whole scan, and its count is the number of highlights. |
| WordCount.WordCountScreen.constructor | app/src/main/java/com/example/textprocessorapp/WordCountActivity.java:26-45 | The screen opens with no highlights, no count shown, YELLOW as the next colour, and the total `split("\\s+")` length. |
| WordCount.WordCountScreen.Search | app/src/main/java/com/example/textprocessorapp/WordCountActivity.java:50-80 | A word that is empty after trimming changes nothing. Otherwise the highlights are exactly that search's matches, painted afresh in the current colour; the count shown is their number, and the colour flips. |
| WordCount.SearchTwice | app/src/main/java/com/example/textprocessorapp/WordCountActivity.java:55-79 | Searching twice for the same word paints the same spans, the second time in the other colour, and the colour returns to where it started. |
| Server.WordCount | app.py:51-55 | The word count is the number of tokens of `split()`, which is the tally of maximal non-whitespace runs. It is 0 exactly when the text is all whitespace. |
| Server.MaxLength | app.py:64 | `max_len` lies in [60, 180]. It is half the word count from 120 to 361 words, 60 below 120 and 180 from 362. |
| Server.MinLength | app.py:65 | `min_len` lies in [30, 120]. It is a third of the word count from 90 to 362 words, 30 below 90 and 120 from 363. |
| Server.MinLengthAtMostMaxLength | app.py:64-65 | `min_len` never exceeds `max_len`. |
| Server.LengthsMonotone | app.py:64-65 | Both bounds grow with the word count. |
| Server.SummarizerCall | app.py:51-75 | The summariser is called exactly when the text field is present and holds at least 25 words. It gets the stripped text and the two clamped bounds, with `min_len` at most `max_len`. |
| Server.SummarizeRejects | app.py:49-102 | A missing text field gives 500 "Failed to generate summary". A blank text is refused with 400 "Text cannot be empty", and only a blank text is. |
| Server.TooShortReply | app.py:57-62 | Under 25 words the reply is "[Too Short] " plus the first min(n, 10) words joined by single spaces, then "..." exactly when n > 10. It carries the note and no lengths, and the summariser is never called. |
| Server.SummarizedReply | app.py:84-96 | From 25 words the reply carries the summariser's text, or the key-points text when the fallback fires. It reports the word count and the summary's own word count. |
| Server.ShortTextIgnoresModel | app.py:51-62 | When the summariser is not called, the reply does not depend on what it or the fallback would have produced. |
| Server.TooShortSummary | app.py:58-60 | The reply opens with "[Too Short] ", ends with "..." when more than ten words were given, and is just the tag when no words were given. |
| Server.KeyPointsSummary | app.py:89 | The fallback opens with "[Key Points] ", and is just the tag when there are no sentences. |
| Server.Summarize | app.py:47-102 | The reply is too short exactly when the text is present, not blank and under 25 words. It is a summary exactly when the text has at least 25 words and the summariser answers. A summary reports the text's word count and its own word count. |
| Server.Instruction | app.py:135-158 | There is an instruction exactly for the four style keys. |
| Server.PromptRoundTrip | app.py:135-156 | A prompt is its style's instruction, a blank line, then the text verbatim, and the text can be read back from the prompt. |
| Server.PromptInjective | app.py:135-156 | Different texts give different prompts. |
| Server.Prompt | app.py:135-156 | The instruction, a blank line, then the text. No `ensures`; `Server.PromptRoundTrip` reads the text back from it. |
| Server.PostProcess | app.py:172-175 | Output of any style other than academic or casual is returned unchanged. |
| Server.AcademicPostProcess | app.py:172-173 | Academic output keeps its text. It gains " [Further research needed]" exactly when its lower-case form lacks "[citation]". |
| Server.CasualPostProcess | app.py:174-175 | Casual output never grows. Output with neither " cannot " nor " do not " is returned unchanged. |
| Server.RequestedStyle | app.py:129-131 | The requested style is already lower case. Without a style field it is "professional", and otherwise it is the field in lower case. |
| Server.Rewrite | app.py:124-185 | A request is rewritten exactly when its text is present and non-empty, its lower-cased style is one of the four keys, and the rewriter answers. The reply then echoes the text and the style, and its prompt gives the text back. |
| Server.RewriteRejects | app.py:128-159 | An empty or missing text gives 400 "Text cannot be empty", and only such a text does. A style outside the four keys is refused inside a status-200 reply. Neither case depends on the rewriter. |
| Server.RewriteEcho | app.py:160-182 | An accepted request echoes its text and lower-cased style. The prompt it used gives the text back, and the rewritten text is the post-processed output. |
| Server.RewriteDefaultStyle | app.py:129 | Without a style field, the text is rewritten in the professional style. |
| Server.UploadPdf | app.py:104-122 | No file part gives 400 "No file provided". An empty filename gives 400 "No file selected". Otherwise the reply carries the extracted text, or 500 when extraction fails. |
| RewriteStyles.Name | app/src/main/java/com/example/textprocessorapp/RewriteStyle.java:3-6 | `name()`: the constant as declared. No `ensures`; `RewriteStyles.NameIsUpperDisplayName` relates it to the display name. |
| RewriteStyles.DisplayName | app/src/main/java/com/example/textprocessorapp/RewriteStyle.java:3-16 | Each display name is a capital letter followed by lower-case letters. |
| RewriteStyles.NameIsUpperDisplayName | app/src/main/java/com/example/textprocessorapp/RewriteStyle.java:3-6 | Each constant's name is its display name in capitals. |
| RewriteStyles.ApiValue | app/src/main/java/com/example/textprocessorapp/RewriteStyle.java:19-21 | The value sent is as long as the constant's name. |
| RewriteStyles.ApiValues | app/src/main/java/com/example/textprocessorapp/RewriteStyle.java:3-21 | The four values sent are professional, casual, academic and simplified. |
| RewriteStyles.ApiValueIsLowerDisplayName | app/src/main/java/com/example/textprocessorapp/RewriteStyle.java:3-21 | For every constant, the value sent is its display name in lower case. |
| RewriteStyles.ApiValueInjective | app/src/main/java/com/example/textprocessorapp/RewriteStyle.java:19-21 | No two constants send the same value. |
| RewriteStyles.ApiValuesAreServerKeys | app/src/main/java/com/example/textprocessorapp/RewriteStyle.java:19-21 | The values sent are exactly the server's style keys, in the same order. |
| Client.InputText | app/src/main/java/com/example/textprocessorapp/MainActivity.java:308-311 | A request sends the trimmed input when that is non-empty, and otherwise the extracted PDF text untrimmed. |
| Client.InputTextEmpty | app/src/main/java/com/example/textprocessorapp/MainActivity.java:308-311 | Nothing is sent exactly when the input is all trim-spaces and no PDF text is kept. |
| Client.CleanText | app/src/main/java/com/example/textprocessorapp/MainActivity.java:302-306 | Cleaning never lengthens the shown text. |
| Client.CleanSummaryText | app/src/main/java/com/example/textprocessorapp/MainActivity.java:302-306 | Cleaning "Summary: " followed by a summary that holds neither prefix gives the summary back. |
| Client.CleanTextShrinks | app/src/main/java/com/example/textprocessorapp/MainActivity.java:302-306 | Cleaning never lengthens the text. Text with neither prefix is unchanged. |
| Client.PathFileName | app/src/main/java/com/example/textprocessorapp/MainActivity.java:353-359 | The fallback name is the suffix after the last '/'. It holds no '/', and it is the whole path when the path has none. |
| Client.FileName | app/src/main/java/com/example/textprocessorapp/MainActivity.java:344-361 | The resolver's display name wins when there is one. Otherwise the path fallback is used. |
| Client.SummaryColor | app/src/main/java/com/example/textprocessorapp/MainActivity.java:229-247 | A summary is gray exactly when it opens with "[Too Short]", blue exactly when it opens with "[Key Points]", and black otherwise. |
| Client.MarksExclusive | app/src/main/java/com/example/textprocessorapp/MainActivity.java:229-236 | No summary opens with both marks, so the order of the tests does not matter. |
| Client.TooShortShownGray | app/src/main/java/com/example/textprocessorapp/MainActivity.java:229-231 | The server's too-short reply is shown in gray. |
| Client.KeyPointsShownBlue | app/src/main/java/com/example/textprocessorapp/MainActivity.java:233-235 | The server's key-points fallback is shown in blue. |
| Client.Decimal | app/src/main/java/com/example/textprocessorapp/MainActivity.java:239-245 | The decimal form of a count is never empty. |
| Client.DecimalRoundTrip | app/src/main/java/com/example/textprocessorapp/MainActivity.java:239-245 | A count that is not negative is written in digits only, and reading the digits back gives the count. |
| Client.FormattedSummary | app/src/main/java/com/example/textprocessorapp/MainActivity.java:239-245 | The formatted text opens with "Summary (", the original word count and the arrow, and ends with a blank line and the summary. |
| Client.KeyPointsBold | app/src/main/java/com/example/textprocessorapp/MainActivity.java:362-374 | There is a bold span exactly when the text holds "Key Points:". The span covers the first occurrence, and its 11 characters are exactly that heading. |
| Client.DialogStylesAccepted | app/src/main/java/com/example/textprocessorapp/MainActivity.java:381-391 | Each dialog choice in lower case is the enum's value for that style and a style key the server accepts. |
| Client.RewriteHeader | app/src/main/java/com/example/textprocessorapp/MainActivity.java:427-432 | The header is 10 characters longer than the style. |
| Client.RewriteResultText | app/src/main/java/com/example/textprocessorapp/MainActivity.java:427-432 | The shown text is 23 characters longer than the style, the rewritten text and the original together. |
| Client.RewriteResultLayout | app/src/main/java/com/example/textprocessorapp/MainActivity.java:427-432 | The shown text is the header, a line break, the rewritten text, then "\n\nOriginal:\n" and the original. Each part can be read back by its position. |
| Client.BoldEndAsWritten | app/src/main/java/com/example/textprocessorapp/MainActivity.java:439 | The span the code sets ends two characters after the header. |
| Client.BoldOverreaches | app/src/main/java/com/example/textprocessorapp/MainActivity.java:436-441 | The span the code sets is two characters longer than the header. It covers the line break and the first rewritten character. |
| Client.BoldOverreachExample | app/src/main/java/com/example/textprocessorapp/MainActivity.java:436-441 | For the casual rewrite "Hey", the bold text is the header, "\n" and "H". |
| Client.HeaderBoldEnd | app/src/main/java/com/example/textprocessorapp/MainActivity.java:434-441 | The intended span ends at |style| + 10, and what it covers is exactly the header, whatever the texts. |
| Client.IndexOfCode | app/src/main/java/com/example/textprocessorapp/MainActivity.java:287 | `indexOf` gives -1 exactly for an unlisted code. Otherwise it gives the first index holding the code. |
| Client.LanguageName | app/src/main/java/com/example/textprocessorapp/MainActivity.java:287 | The name shown for a listed code is one of the language names. |
| Client.LanguageNameAt | app/src/main/java/com/example/textprocessorapp/MainActivity.java:70-71 | Each code is shown under the name in the same position. |
| Client.LanguageButtonRow | app/src/main/java/com/example/textprocessorapp/MainActivity.java:265-275 | The loop builds one button per language, in order, each captioned with the language's name and requesting its code. |
| Client.RowWellNamed | app/src/main/java/com/example/textprocessorapp/MainActivity.java:268-272 | Every button's caption is the name that the translation reply is later shown under. |
| Client.MainScreen.constructor | app/src/main/java/com/example/textprocessorapp/MainActivity.java:58-71 | The screen starts with no input, no PDF text, nothing shown, no buttons and nothing visible. |
| Client.MainScreen.Type | app/src/main/java/com/example/textprocessorapp/MainActivity.java:308-309 | Editing the input changes the input field and nothing else. |
| Client.MainScreen.ShowError | app/src/main/java/com/example/textprocessorapp/MainActivity.java:334-336 | The message replaces the shown text, and nothing else changes. |
| Client.MainScreen.UploadSucceeded | app/src/main/java/com/example/textprocessorapp/MainActivity.java:201-211 | The PDF text is kept as `extractedText` and shown after "Extracted Text: ". The upload status is visible and the spinner hidden. |
| Client.MainScreen.ResetUI | app/src/main/java/com/example/textprocessorapp/MainActivity.java:323-328 | The PDF text and shown text are cleared, and the status and buttons are hidden. From then on, requests send only the trimmed input. |
| Client.MainScreen.RequestSummary | app/src/main/java/com/example/textprocessorapp/MainActivity.java:213-221 | A summary request is sent exactly when there is input text, and it carries that text. Otherwise "No text provided" is shown. |
| Client.MainScreen.ShowSummary | app/src/main/java/com/example/textprocessorapp/MainActivity.java:222-263 | The colour follows the summary's mark. The text shown last is "Summary: " plus the summary, whatever the branch, and the four language buttons are visible. |
| Client.MainScreen.SummaryRejected | app/src/main/java/com/example/textprocessorapp/MainActivity.java:223-225 | An unsuccessful /summarize reply only hides the spinner. |
| Client.MainScreen.ReplyFailed | app/src/main/java/com/example/textprocessorapp/MainActivity.java:184-197 | A failed reply hides the spinner and shows its message, and nothing else changes. |
| Client.MainScreen.PressLanguageButton | app/src/main/java/com/example/textprocessorapp/MainActivity.java:277-281 | A button requests a translation of the cleaned shown text into its own listed code, and its caption is that code's name. |
| Client.MainScreen.ShowTranslation | app/src/main/java/com/example/textprocessorapp/MainActivity.java:284-288 | A translation is shown after its language's name and ": ". |
| Client.MainScreen.RequestRewrite | app/src/main/java/com/example/textprocessorapp/MainActivity.java:388-405 | A rewrite request is sent exactly when there is input text. It carries that text and the chosen style in lower case, which the server accepts. Otherwise "No text to rewrite" is shown. |
| Client.MainScreen.ShowRewrite | app/src/main/java/com/example/textprocessorapp/MainActivity.java:426-444 | The result text is shown, and the bold span is the one the code sets: it ends two characters after the header "【STYLE Version】", which is followed by a line break (see Findings). |
| Client.MainScreen.CountWords | app/src/main/java/com/example/textprocessorapp/MainActivity.java:313-321 | With no input text, the toast "No text to analyze" is shown. Otherwise the word-count screen opens with that text. |
| Client.SummaryThenTranslate | app/src/main/java/com/example/textprocessorapp/MainActivity.java:259-306 | After a summary is shown, button k asks for the summary alone in language k, and its caption is that language's name. |
| Client.UploadThenReset | app/src/main/java/com/example/textprocessorapp/MainActivity.java:323-328 | After the reset, with a blank input, an uploaded PDF's text is no longer sent: "No text provided" is shown instead. |

## Left out

Networking, I/O and the platform:
- The Retrofit client and the asynchronous `enqueue` callbacks are not modelled. Each reply arrives as a `MainScreen` method call.
- The file picker, `onActivityResult`, `createTempFile`, content-resolver queries, setting up views and the text-to-speech button are not modelled.
- Actual colour values and the Android span objects are not modelled. The model uses two- and three-value enums and (start, end) pairs.
- SpeechActivity and ApiService (a Retrofit interface and its getters and setters) are not part of this model.

External calls, each turned into a parameter:
- the Pegasus summariser and the BART rewriter;
- spaCy sentence splitting, which supplies the "[Key Points]" sentences;
- the fitz PDF extraction. Its page loop runs inside that library.

The `/translate` route and the unused BERT model are not part of this model.

Floating point:
- The test that fires the key-points fallback (`calculate_similarity` and the 0.75 ratio) is not modelled. Whether the fallback fires is a parameter.
- The `compression_ratio` formatting is not modelled. The client only reads it back as a string.

Character semantics:
- Python's `lower()` is modelled as ASCII lowering. The two differ only on non-ASCII letters, and none of them can produce a style key or "[citation]".
- Java's locale-sensitive `toUpperCase` is modelled as ASCII upper-casing. `%d` is modelled as plain decimal.
- The regex engine is not modelled. The model takes the ASCII reading of `(?i)`, `\s` and `\b`. Android's ICU-based engine folds case, and classifies white space and word characters, across all of Unicode. The two readings differ only on non-ASCII text. The members that take the ASCII reading are `WordCount.SameIgnoringCaseAt`, `WordCount.Boundary`, `Text.JavaRegexBlank` and `Text.JavaSplitBlank`.
- Strings are sequences of code points, while Java indexes UTF-16 code units. For text with characters outside the Basic Multilingual Plane, the spans from `matcher.start()` and `matcher.end()` and the indices from `indexOf` and `lastIndexOf` are therefore counted differently. This affects `WordCount.Matches`, `WordCount.HighlightAll`, `Text.IndexOf`, `Text.LastIndexOfChar`, `Client.KeyPointsBold` and `Client.PathFileName`.
- Java's `toLowerCase()` with no argument uses the default locale. The model lowers ASCII letters whatever the locale. In a Turkish locale, `PROFESSIONAL` lowers to "professıonal", with a dotless ı, which is not a style key the server accepts. `RewriteStyles.ApiValue`, `RewriteStyles.ApiValuesAreServerKeys`, `Client.DialogStylesAccepted` and `Client.MainScreen.RequestRewrite` therefore hold only in locales whose lower-casing of A-Z is ASCII.

Null values:
- A null `fullText`, a null path from `uri.getPath()`, and a null summary or style in a reply are not modelled. They make the Java code throw.
- A JSON `null` style in a /rewrite request is not modelled.

Reply paths:
- The empty `onFailure` of the summarize call has no method. It changes nothing and leaves the spinner showing.
- The client's reading of the status-200 JSON array sent for an invalid style is not modelled; the JSON converter cannot read an array as a rewrite reply. The server side records the reply as `StyleRejected`, whose HTTP status is 200 while its body holds the intended 400.
- `displaySummary` is never called in the source. It is modelled as the span it would set (`Client.KeyPointsBold`).

Member-specific gaps:
- Server.CasualPostProcess: states only that the output never grows and that output with no occurrence is unchanged. It does not state where each replacement lands.
- WordCount.Find: the model of one `Matcher.find` call tries each start position in turn. It is stated against `NextMatch` rather than against a regex engine.

## Findings

| source | as written | input that shows it | evidently intended | confidence | as-written member | corrected member |
|---|---|---|---|---|---|---|
| app/src/main/java/com/example/textprocessorapp/MainActivity.java:436-441 | The bold span ends at `style.length() + 12`, but "【" + STYLE + " Version】" is `style.length() + 10` characters. The span therefore also covers the line break and the first character of the rewritten text. | style "casual", rewritten "Hey": the bold text is "【CASUAL Version】\nH" | The span ends at `style.length() + 10` and covers exactly the header. | not executed | Client.BoldOverreaches | Client.HeaderBoldEnd |

`Client.MainScreen.ShowRewrite` sets the span as written. Its contract also states, through `Client.HeaderBoldEnd`, where the header ends and that a line break follows it.
