# smart-summary: a verified model of the pure core

smart-summary is a Next.js application. A visitor uploads a PDF or plain-text
document. The analyze endpoint extracts its text and asks a language model
for a structured analysis: summary, key terms, main concepts, key points and
numerical data. It stores the result in Supabase, owned by the signed-in
user or by an anonymous-visitor cookie, and returns it to the page. The page
renders the analysis as a cheat sheet that highlights key terms. It can copy
the analysis to the clipboard as plain text or export it as a PDF. A hook
lists the visitor's stored summaries.

This project models the parts of that behaviour that are decisions on data
rather than calls to outside services. Each part is a Dafny module.

- `Ascii`: the character classes `\w` and `\s` of JavaScript regular
  expressions, and `toLowerCase`/`toUpperCase` restricted to ASCII.
- `Types`: the records of app/types/index.ts, plus `Option`, the user and
  the stored row.
- `TextProcessing`: `normalizeText` and `findTermInText` with a
  `\b<literal>\b` matcher.
- `ShareAndExport`: the clipboard serialiser `formatContentForClipboard` and
  the `<name>_summary.pdf` export file name.
- `CheatSheet`: `highlightMatchingTerms`. It covers the stable longest-first
  sort, the four case variants and the global whole-word wrap in a `<span>`. The
  replace is defined for any `<open>$&<close>` template; the highlighter
  uses its `<span>` one.
- `AnalyzeRoute`: the `POST` handler as a pure function. Its inputs are the
  outcomes of its external calls. Its outputs are the status, the JSON body,
  the prompt, the cookie it sets and the row it inserts.
- `Summaries`: `addSummary`, the owner filter of `fetchSummaries` and its
  fallback to an empty list.

A consequence of the route's cookie and the hook together is that the
`anonymous_id` cookie is set `httpOnly`. The hook reads it with a script
(`js-cookie`), so the hook never sees it. An anonymous visitor's list is
therefore fetched without any owner filter, and against an honest database
it shows every stored row (`Summaries.AnonymousListIsUnfiltered`).

Four facts about the handler are easy to expect otherwise:
- it never reads a document-type field from the form
  (`AnalyzeRoute.DocumentTypeIgnored`);
- its error bodies have no `numericalData` field;
- it does not check that the parsed reply is an object;
- it does not reject an empty file.

## Model

| member | source | states |
|---|---|---|
| TextProcessing.StripPunctuation | app/utils/textProcessing.ts:4 | the result contains no punctuation of the fixed set and every other character of the input; it is no longer, and punctuation-free text is left alone |
| TextProcessing.StripPunctuationIsFilter | app/utils/textProcessing.ts:4 | stripping works character by character: a concatenation is stripped part by part, and one character is kept exactly when it is outside the set, so the kept characters keep their order and number |
| TextProcessing.CollapseWhitespace | app/utils/textProcessing.ts:5 | the result has no two adjacent whitespace characters, is no longer than the input, starts with whitespace exactly when the input does, and adds only spaces |
| TextProcessing.CollapseAppend | app/utils/textProcessing.ts:5 | text split anywhere except inside a whitespace run is collapsed part by part: each run is replaced on its own and the text between runs is kept |
| TextProcessing.CollapseRun | app/utils/textProcessing.ts:5 | a run of two or more whitespace characters becomes a single space |
| TextProcessing.NormalizeText | app/utils/textProcessing.ts:1-6 | normalised text has no upper-case letter, none of the stripped punctuation, no two adjacent whitespace characters, and is no longer than the input |
| TextProcessing.CollapseFixesSingleSpaces | app/utils/textProcessing.ts:5 | a lone whitespace character is kept as it is: text without adjacent whitespace is not changed |
| TextProcessing.NormalizeFixesNormalForms | app/utils/textProcessing.ts:1-6 | text that is already lower-case, punctuation-free and without adjacent whitespace is its own normal form |
| TextProcessing.NormalizeIdempotent | app/utils/textProcessing.ts:1-6 | normalising twice is normalising once |
| TextProcessing.NormalizeKeepsWords | app/utils/textProcessing.ts:1-6 | the whitespace collapse keeps every non-whitespace character, in order |
| TextProcessing.FirstWordMatch | app/utils/textProcessing.ts:13 | a position the search returns is at or after `from`, and the literal matches there between two word boundaries |
| TextProcessing.FirstWordMatchLeftmost | app/utils/textProcessing.ts:13 | no position between `from` and the returned one matches, and when nothing is returned no position from `from` on matches |
| TextProcessing.FindTermInText | app/utils/textProcessing.ts:8-14 | the term is found exactly when its normal form occurs as a whole word in the text's normal form |
| TextProcessing.FindTermDependsOnNormalForms | app/utils/textProcessing.ts:9-10 | the answer is the same when the term and the text are replaced by their normal forms |
| TextProcessing.FindTermIgnoresCase | app/utils/textProcessing.ts:9-10 | upper-casing the term and the text does not change the answer |
| TextProcessing.TermFoundInItself | app/utils/textProcessing.ts:13 | a term whose normal form starts and ends with a word character is found in itself |
| TextProcessing.NotFoundInsideLongerWord | app/utils/textProcessing.ts:13 | a term is not found in a text that is one longer word |
| TextProcessing.LowerWordNotFoundInside | app/utils/textProcessing.ts:13 | a lower-case word is not found inside a longer lower-case word, as with `cat` in `concatenate` |
| ShareAndExport.Decimal | app/components/ShareAndExport.tsx:38 | the decimal numeral of the entry number is non-empty, all digits, and has no leading zero |
| ShareAndExport.DecimalRoundTrip | app/components/ShareAndExport.tsx:38 | reading the numeral back gives the number |
| ShareAndExport.JoinAppend | app/components/ShareAndExport.tsx:32 | joining two non-empty lists is joining each and putting the separator between them |
| ShareAndExport.JoinLength | app/components/ShareAndExport.tsx:32 | a join is as long as its parts plus one separator between each two, and the join of nothing is empty |
| ShareAndExport.KeyTermEntries | app/components/ShareAndExport.tsx:29-32 | entry i is the upper-cased term, a newline and two spaces, the explanation and a newline |
| ShareAndExport.ConceptEntries | app/components/ShareAndExport.tsx:37-40 | entry i is its one-based number, ". ", the upper-cased title, a newline and three spaces, the description and a newline |
| ShareAndExport.PointEntries | app/components/ShareAndExport.tsx:45-47 | entry i is its one-based number, ". " and the point |
| ShareAndExport.FormatContentForClipboard | app/components/ShareAndExport.tsx:17-49 | the text starts with the summary heading followed by the summary, and with no key points it ends with the key-points heading and a newline |
| ShareAndExport.ClipboardSectionOrder | app/components/ShareAndExport.tsx:21-44 | the four section titles occur in the order summary, key terms, main concepts, key points |
| ShareAndExport.ClipboardSections | app/components/ShareAndExport.tsx:21-47 | each section holds its own entries: the joined key terms sit right after the KEY TERMS heading, the joined concepts right after the MAIN CONCEPTS heading and the joined key points right after the KEY POINTS heading, each section running up to the next heading, and the text ends with the line break after the key points |
| ShareAndExport.LayoutPieces | app/components/ShareAndExport.tsx:21-49 | the clipboard layout places each heading and each body at the offset given by the lengths of the pieces before it, and ends with a line break |
| ShareAndExport.ClipboardOmitsNumericalData | app/components/ShareAndExport.tsx:18 | the numerical data has no influence on the text |
| ShareAndExport.KeyTermsInInputOrder | app/components/ShareAndExport.tsx:29-32 | the entries of a concatenation are the entries of the first part, a newline, then those of the second part |
| ShareAndExport.ExtensionUnique | app/components/ShareAndExport.tsx:78 | a name has at most one final extension: a dot followed by one or more characters that are neither a dot nor a slash |
| ShareAndExport.FindExtension | app/components/ShareAndExport.tsx:78 | the backward scan finds the final extension exactly when there is one |
| ShareAndExport.StripExtension | app/components/ShareAndExport.tsx:78 | the result is the name cut at its final extension, or the whole name when it has none |
| ShareAndExport.ExportFileName | app/components/ShareAndExport.tsx:78 | the file name ends in `_summary.pdf` and is the name without its final extension followed by that suffix |
| CheatSheet.InsertKeepsOrder | app/components/CheatSheet.tsx:15 | inserting into a longest-first list keeps it longest-first |
| CheatSheet.InsertAddsOne | app/components/CheatSheet.tsx:15 | insertion adds exactly the one term |
| CheatSheet.InsertIsStable | app/components/CheatSheet.tsx:15 | among terms of one length, the inserted term goes first and the others keep their order |
| CheatSheet.SortByLength | app/components/CheatSheet.tsx:14-16 | the sort is a permutation of its input, longest terms first, with terms of equal length in input order |
| Ascii.Lower | app/utils/textProcessing.ts:3 | lower-casing maps each position on its own: the result is as long as the input, `A`-`Z` become `a`-`z` and every other character is kept |
| Ascii.Upper | app/components/CheatSheet.tsx:23 | upper-casing maps each position on its own: the result is as long as the input, `a`-`z` become `A`-`Z` and every other character is kept |
| CheatSheet.Capitalize | app/components/CheatSheet.tsx:22 | the capitalised term is the term up to letter case, with no lower-case letter in front and no upper-case letter after it |
| CheatSheet.Variants | app/components/CheatSheet.tsx:19-24 | there are four variants and the first is the term as written |
| CheatSheet.VariantsDifferInCase | app/components/CheatSheet.tsx:19-24 | all four variants have the term's length and lower-case to the same text as the term; the second has no upper-case letter, the third has no lower-case letter in front and no upper-case letter after it, and the last is the upper-cased term |
| CheatSheet.VariantsRepeatForLowerCase | app/components/CheatSheet.tsx:19-24 | the lower-case variant equals the term as written exactly when the term has no upper-case letter |
| CheatSheet.VariantsAreLiteral | app/components/CheatSheet.tsx:19-27 | a term free of regular-expression metacharacters gives four variants free of them |
| CheatSheet.ReplaceWholeWords | app/components/CheatSheet.tsx:27-31 | the replace changes the text exactly when the pattern occurs as a whole word; it never shortens the text and lengthens it whenever it changes it |
| CheatSheet.NoMatchInside | app/components/CheatSheet.tsx:27 | whole-word matches of a word never overlap |
| CheatSheet.ReplaceFromLength | app/components/CheatSheet.tsx:27-31 | from any position on, the replace of a word adds one opening and one closing tag per whole-word match in the rest of the text |
| CheatSheet.ReplaceFromIsWrapAll | app/components/CheatSheet.tsx:27-31 | from any position on, the global replace of a non-empty literal equals an independent reference that walks the text left to right, emitting each whole-word match wrapped in the tags and continuing after it, and copying every other character unchanged |
| CheatSheet.ReplaceWholeWordsWrapsEveryMatch | app/components/CheatSheet.tsx:27-31 | the replace is global: for a term of word characters the result is exactly the reference walk, so every whole-word occurrence (not only the first) is wrapped in place and the rest of the text is kept, and the result is longer than the text by one pair of tags per occurrence |
| CheatSheet.ReplaceFromGrows | app/components/CheatSheet.tsx:27-31 | the replace never shortens the text, and lengthens it as soon as there is a match |
| CheatSheet.FirstMatchWrapped | app/components/CheatSheet.tsx:27-31 | the text before the first whole-word match is kept and the match is followed by its wrapped form |
| CheatSheet.ReplaceFromStrips | app/components/CheatSheet.tsx:27-31 | on text without a `<`, removing the inserted tags gives back the text |
| CheatSheet.ReplaceWholeWordsStrips | app/components/CheatSheet.tsx:27-31 | one replace pass on text without a `<` only inserts tags |
| CheatSheet.ReplaceFromKeeps | app/components/CheatSheet.tsx:27-31 | on any text and with any markup, the text from the copy position on survives as a subsequence of the replace's output |
| CheatSheet.ReplaceWholeWordsKeeps | app/components/CheatSheet.tsx:27-31 | one replace pass only inserts text: the input is a subsequence of the result |
| CheatSheet.SubsequenceTrans | app/components/CheatSheet.tsx:26-32 | "only inserts text" composes: a subsequence of a subsequence is a subsequence, so successive passes keep the original text |
| CheatSheet.WrappedMatchStillMatches | app/components/CheatSheet.tsx:19-31 | a wrapped match is still a whole-word match inside its span, so a repeated identical variant changes the text again and nests spans |
| CheatSheet.HighlightVariants | app/components/CheatSheet.tsx:26-32 | the passes over the variants only insert text: the input is a subsequence of the result, so the result is never shorter, and it is the input whenever it is no longer |
| CheatSheet.HighlightTerms | app/components/CheatSheet.tsx:18-33 | the passes over all terms only insert text: the input is a subsequence of the result, so the result is never shorter, and it is the input whenever it is no longer |
| CheatSheet.HighlightMatchingTerms | app/components/CheatSheet.tsx:10-33 | a missing term list or an empty one leaves the text unchanged; otherwise the text is a subsequence of the result (the highlighting only inserts), the result is never shorter, and it is the text whenever it is no longer |
| CheatSheet.HighlightWithoutMatches | app/components/CheatSheet.tsx:18-33 | text in which no variant of any term occurs as a whole word is returned unchanged |
| CheatSheet.VariantsGrow | app/components/CheatSheet.tsx:26-32 | when one of the variants occurs in the text as a whole word, the passes over the variants return a longer text |
| CheatSheet.TermsGrow | app/components/CheatSheet.tsx:18-33 | when a variant of one of the terms occurs in the text as a whole word, the passes over the terms return a longer text |
| CheatSheet.HighlightWithMatch | app/components/CheatSheet.tsx:10-33 | when a variant of one of the key terms occurs in the text as a whole word, the highlighted text is longer than the text: tags are really inserted |
| CheatSheet.HighlightUnchangedIff | app/components/CheatSheet.tsx:10-33 | the highlighting returns the text unchanged if and only if no variant of any key term occurs in it as a whole word |
| AnalyzeRoute.ExtractText | app/api/analyze/route.ts:30-48 | a PDF gives the extractor's text, plain text gives the file's text, and any other media type or a string entry gives nothing |
| AnalyzeRoute.PromptRoundTrip | app/api/analyze/route.ts:52-75 | the prompt starts with the fixed instructions, then the content marker, and the document text is recovered from it unchanged |
| AnalyzeRoute.PromptInjective | app/api/analyze/route.ts:52-75 | different texts give different prompts |
| AnalyzeRoute.ReplyText | app/api/analyze/route.ts:90-96 | the reply is accepted exactly when the call answered with non-empty content |
| AnalyzeRoute.AnonymousCookie | app/api/analyze/route.ts:104-111 | the issued cookie is `anonymous_id` with the fresh id, httpOnly, secure in production, sameSite strict, and lasts 31536000 seconds |
| AnalyzeRoute.AnonymousId | app/api/analyze/route.ts:101-106 | a non-empty incoming id is reused and otherwise the fresh one is taken |
| AnalyzeRoute.OwnedRecord | app/api/analyze/route.ts:123-132 | the row has at most one owner: the user's id when there is a user with a non-empty id, the anonymous id only without a user; it carries the document name and content |
| AnalyzeRoute.Post | app/api/analyze/route.ts:12-162 | the status is 200, 400 or 500; 200 exactly when the body is content; every error envelope has four empty fields; a row is inserted exactly on 200; a cookie is set only on 200; 500 exactly when the form cannot be read |
| AnalyzeRoute.ReadFailureIs500 | app/api/analyze/route.ts:152-160 | an unreadable form gives 500 with the error's message, or the fallback message when it has none |
| AnalyzeRoute.MissingFileIs400 | app/api/analyze/route.ts:17-25 | no file, or an empty string in its place, gives 400 "No file provided" with the empty envelope and nothing else |
| AnalyzeRoute.UnsupportedTypeIs400 | app/api/analyze/route.ts:30-48 | a media type other than PDF or plain text gives 400 "Failed to process document" and no prompt |
| AnalyzeRoute.PromptCarriesText | app/api/analyze/route.ts:52-75 | whenever a prompt is sent, its document part is the extracted text |
| AnalyzeRoute.BadReplyIs400 | app/api/analyze/route.ts:90-98 | a missing or empty reply, or one that does not parse, gives 400 "Failed to process document" with no row and no cookie |
| AnalyzeRoute.SuccessCharacterisation | app/api/analyze/route.ts:12-139 | the answer is 200 exactly when a supported file was read, the reply is non-empty and it parses; the body is then the parsed value unchanged |
| AnalyzeRoute.CookieReused | app/api/analyze/route.ts:101-104 | an existing cookie is kept and no cookie is set |
| AnalyzeRoute.CookieIssued | app/api/analyze/route.ts:104-112 | without a cookie the fresh id is set for a year, also for a signed-in user |
| AnalyzeRoute.SingleOwner | app/api/analyze/route.ts:120-132 | the stored row has at most one owner (none for a signed-in user with an empty id), the file's name, and the content returned in the body |
| AnalyzeRoute.InsertOutcomeIgnored | app/api/analyze/route.ts:134-139 | an insert error changes nothing in the response |
| AnalyzeRoute.DocumentTypeIgnored | app/api/analyze/route.ts:14-15 | the response does not depend on any document-type field of the form |
| Summaries.AddSummary | app/hooks/useSummaries.ts:17-24 | the new summary is first and the previous ones follow in their order |
| Summaries.AddSummaryKeepsPrevious | app/hooks/useSummaries.ts:17-24 | dropping the head gives back the previous list, and the list gains exactly the new summary |
| Summaries.SelectFilter | app/hooks/useSummaries.ts:29-38 | a user selects by user id, otherwise a non-empty cookie selects by anonymous id, and there is no filter exactly when there is neither |
| Summaries.Select | app/hooks/useSummaries.ts:32-38 | the selected rows are rows of the table that pass the filter, and every such row is selected |
| Summaries.FetchSummaries | app/hooks/useSummaries.ts:26-50 | loading ends false; an error or a null result gives the empty list; otherwise the list is the data returned |
| Summaries.FetchShowsOwnRows | app/hooks/useSummaries.ts:26-50 | against an honest database the list holds exactly the rows that pass the visitor's filter |
| Summaries.UnfilteredShowsEverything | app/hooks/useSummaries.ts:32-38 | with neither user nor cookie the list is the whole table |
| Summaries.UserFilterWins | app/hooks/useSummaries.ts:34-35 | with a user the filter is on the user, whatever cookie is present |
| Summaries.StoredRowVisibleToUser | app/hooks/useSummaries.ts:34-35 | a row stored for a signed-in user is listed for that user and for no anonymous id |
| Summaries.StoredRowVisibleToAnonymousOwner | app/hooks/useSummaries.ts:36-37 | a row stored anonymously is listed under the request's anonymous id and under no other id or user |
| Summaries.AnonymousListIsUnfiltered | app/hooks/useSummaries.ts:30 | the endpoint's cookie is httpOnly, so the hook cannot read it and fetches every row |

## Left out

- The I/O of the external services is left out. This covers PDF text extraction, the OpenAI call, Supabase auth, the insert and the query, `crypto.randomUUID`, `cookies()` and `JSON.parse`. Their outcomes are inputs to the model (`AnalyzeRoute.Externals`, the `answer` of `Summaries.FetchSummaries`).
- A throw from `cookies()`, `createClient`, `getUser` or the insert itself is not modelled. In the source such a throw lands in the inner catch, which answers 400.
- The model request parameters are left out: model name, `temperature` and `max_tokens`. They are opaque settings and one of them is a float.
- Console logging is left out, including the `substring` previews of the extracted text.
- The ordering by `created_at` is left to the database; `id` and `created_at` of the rows are not modelled.
- The realtime subscription that re-fetches on inserts is event-driven and asynchronous, so it is left out.
- Browser APIs are left out: clipboard writes, `alert`, `navigator.share` and `html2pdf`. Only the strings handed to them are modelled.
- JSX, styling and component state are left out. This covers the rendering of the highlighted text and the pages, layout and other components.
- app/services/documentProcessor.ts is a thin `fetch` wrapper and is not part of this model.
- next.config.ts is build configuration and is left out.
- TextProcessing.NormalizeText: case mapping is ASCII-only. JavaScript also maps non-ASCII letters, so the result matches the source on ASCII text. The length bound counts characters rather than UTF-16 code units.
- TextProcessing.FindTermInText: it requires the normalised term to contain no regular-expression metacharacter. The source builds the expression unescaped, and such a term can throw or match unintended text.
- CheatSheet.HighlightMatchingTerms: it requires every term to be free of regular-expression metacharacters, for the same reason. A `keyTerms` value that is not an array is modelled as `None`.
- CheatSheet.SortByLength: lengths are counted in characters. `term.length` counts UTF-16 code units, so terms with characters outside the Basic Multilingual Plane can be ordered differently in the source. The same holds for `CheatSheet.InsertByLength`.
- CheatSheet.VariantsDifferInCase: the capitalised variant and the case mappings are ASCII-only, as above.
- The highlighter's output on overlapping work is not characterised: a later term such as `span` or `text` can match inside markup inserted earlier. `CheatSheet.WrappedMatchStillMatches` covers only the repeated-variant case, showing that it wraps the same word again.
