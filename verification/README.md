# EU legislation sentence extractor — a Dafny model

This project models the string-processing core of `extract_sentences.py`. The
script takes the text of an EU legislative act (a regulation, decision or
directive) and produces tagged candidate sentences for later labelling. The
pipeline works like this:

1. The **operative part** of the act is located. It is the text between an
   enacting formula ("HAS ADOPTED THIS REGULATION", ...) and a signing formula
   ("Done at Brussels", ...). Phrase pairs are tried begin-major, end-minor.
   Line breaks in the span become spaces and soft-hyphen-plus-space pairs are
   deleted (`Boundary`).
2. An external segmenter cuts the span into sentences.
3. Each sentence goes through **pass 1**. Pass 1 drops a leading ':' and
   collapses inline references such as "Article 12a T" down to their final
   capital (`Normalize`).
4. The **validity filter** then applies five independent reject rules
   (`Validity`).
5. Survivors go through **pass 2**, which strips a heading such as
   "Article 4 Scope" (`Normalize`).
6. The results are joined with a triple newline (`Summary`).
7. Each piece of the summary is given a **deontic tag** ("shall ", "must ",
   ...) (`Deontic`).
8. Pieces that are near-boilerplate or carry no marker are dropped. The
   others become table rows carrying the document's word and sentence counts,
   identifier and format (`Aggregate`).

The model uses these conventions:

- Strings are `seq<char>`, and every function is pure.
- The fixed tables of the script are constants in `Rules`, gathered in
  `SOURCE_CONFIG`. Every operation takes them as a `Config`, so the same
  proofs hold for other tables. The non-raising condition of the validity
  filter (`Validity.ValidityDefined`) asks for a non-empty sentence on which
  pass 2 is defined. Rule 4 (extract_sentences.py:148) calls pass 2 for an
  excluded phrase only when that phrase is not already in the lower-cased
  sentence, because its `or` short-circuits. So the condition is exact
  whenever some excluded phrase is missing from the sentence, which with the
  script's ten phrases is every sentence that does not hold them all. It is
  stronger than needed for a sentence that holds every excluded phrase, and
  for a table with no excluded phrases.
- The two external algorithms are parameters:
  - the sentence segmenter is `segment: string -> seq<string>`;
  - the fuzzy matcher is `ratio: (string, string) -> Score`, where `Score`
    is 0..100.
- Where the script raises (an index into an empty string or token list), the
  model states the condition under which it does not raise as a predicate
  and requires it. These predicates are `Pass2Defined`, `ValidityDefined`,
  `SegmentDefined`/`SegmentsDefined` and `OperativeDefined`. `Normalize.Pass2RaisesOnTokens`
  characterises exactly when pass 2 raises.

`Text` holds the string primitives the script uses:

- `split()`, `' '.join`, `str.split(sep)`, `strip()`, `lower()` and
  `str.replace`;
- substring search;
- general facts about them, such as round trips between joining and
  splitting, and where a joined run of tokens occurs.

`Seqs` holds the filter-and-map loop that recurs through the script.

Behaviours of the code worth knowing:

- The operative-part search returns the first match even when that match is
  empty (`Boundary.EmptySpanMatches`).
- The deontic tag of a sentence without markers is the literal `'None'`.
- The "PAGE" test of rule 2 is case-sensitive and runs on the stripped text,
  which is not lower-cased.
- "This Regulation shall apply from 1 January 2020." is rejected, not
  accepted: it contains the boilerplate phrase "shall apply"
  (`Validity.BoilerplateRunRejected`).
- Pass 1 is not idempotent on a sentence that starts with "::"
  (`Normalize.Pass1NotIdempotent`). It is idempotent on any output that does
  not start with ':' (`Normalize.Pass1Idempotent`).
- The extracted text is empty not only when no pair of phrases matches but
  also when every sentence of the span is filtered out
  (`Boundary.ExtractOperativeText` states both cases).

## Model

| member | source | states |
|---|---|---|
| Normalize.MiddleHasNoUpper | extract_sentences.py:213 | the part `\s*\d\d?\d?[a-z]?\s*` of the reference pattern never contains a capital letter |
| Normalize.RefNumberHasNoUpper | extract_sentences.py:213 | the digits-and-suffix part of the reference pattern never contains a capital letter |
| Normalize.ArticleRefNotPrefix | extract_sentences.py:213 | a reference is never a proper prefix of another one, because its final capital would fall inside the other's middle part |
| Normalize.ArticleRefUnique | extract_sentences.py:213 | at a fixed start position, at most one length matches the reference pattern |
| Normalize.UpperBreaksMiddle | extract_sentences.py:213 | a capital letter anywhere rules out the middle part of the pattern |
| Normalize.RefLengthFrom | extract_sentences.py:213-214 | the shortest length ≥ n at which the pattern matches at p; None exactly when no length ≥ n matches |
| Normalize.FirstArticleRef | extract_sentences.py:213-214 | the leftmost position at or after `from` where the pattern matches, with a matching length; None exactly when nothing matches from there on |
| Normalize.FirstArticleRefIsRegexMatch | extract_sentences.py:213-218 | the first item `re.findall` reports is the leftmost match, and its length is the only one possible there |
| Normalize.CollapseArticleRefs | extract_sentences.py:211-219 | the replace loop ends with a text in which the pattern matches nowhere, and the text is never longer than its input |
| Normalize.CollapseLoneRef | extract_sentences.py:211-219 | in a text whose only reference is w, with no other capital A around it and a non-word character before it, the loop replaces w by its final capital and leaves the rest of the text as it was |
| Normalize.ArticleRefInSlice | extract_sentences.py:213 | a match inside a whitespace-bounded slice is a match in the whole text (word boundary included) |
| Normalize.NoArticleRefStrip | extract_sentences.py:221 | the final strip cannot create a new match |
| Normalize.Pass1 | extract_sentences.py:193-221 | for a non-empty sentence, the result has no reference match, has no surrounding whitespace and is no longer than the input |
| Normalize.Pass1Idempotent | extract_sentences.py:206-221 | applying pass 1 again to an output that does not start with ':' changes nothing |
| Normalize.ShortHasNoArticleRef | extract_sentences.py:213-216 | a text shorter than ten characters holds no reference, so the loop leaves it unchanged |
| Normalize.Pass1NotIdempotent | extract_sentences.py:207-208 | "::x" becomes ":x" and then "x", so pass 1 twice differs from pass 1 once |
| Normalize.NextUpperIndex | extract_sentences.py:93-113 | the least index ≥ start whose token begins with a capital, or -1 when no token does |
| Normalize.Pass2 | extract_sentences.py:158-191 | the output tokens are a suffix of the input's tokens joined by single spaces. The suffix is the whole list without a label and number, starts at index 2 when the third token is not capitalised, and otherwise starts at the first capitalised token from index 3 on (index 3 if none) |
| Normalize.Pass2KeepsUnlabelled | extract_sentences.py:188-191 | a token sentence that does not open with a structural label comes out unchanged |
| Normalize.Pass2DropsLabelAndNumber | extract_sentences.py:176-187 | "Label N word ..." with an uncapitalised third token loses exactly its first two tokens |
| Normalize.Pass2DropsOneWordTitle | extract_sentences.py:179-185 | "Label N Title Word ..." loses exactly the label, the number and the one-word title, as in "Article 12 Scope This Regulation applies" |
| Normalize.Pass2RaisesOnTokens | extract_sentences.py:175-179 | on a token sentence, pass 2 raises exactly when there is no token, a label stands alone, or a label is followed only by a number |
| Validity.PunctuationOrDigitIsTable | extract_sentences.py:135 | the character test of rule 1 agrees with membership in `string.punctuation + DIGITS` |
| Validity.TooShortCountsTokenChars | extract_sentences.py:143 | on a token sentence, rule 3 fires exactly when the tokens hold fewer than 15 characters in all |
| Validity.AnyPhraseIn | extract_sentences.py:147-149 | the loop of rule 4 fires exactly when some phrase occurs in one of the two texts |
| Validity.AnyLeadIn | extract_sentences.py:152-154 | the loop of rule 5 fires exactly when the text starts with some lead-in |
| Validity.IsValidSentence | extract_sentences.py:115-156 | a sentence is valid exactly when none of the five rules fires. The rules cover opening symbol, page furniture, length, boilerplate in the sentence or its pass-2 form, and lead-in |
| Validity.SymbolOpeningRejected | extract_sentences.py:134-136 | a sentence whose first token opens with punctuation or a digit (for instance "123 invalid start.") is rejected |
| Validity.BoilerplateRunRejected | extract_sentences.py:146-149 | a sentence in which a run of tokens spells, in lower case, a boilerplate phrase is rejected, for instance "... shall apply from 1 January 2020." |
| Summary.Clean | extract_sentences.py:240-242 | a cleaned sentence has no line break and no surrounding whitespace |
| Summary.CleanSentences | extract_sentences.py:236-243 | every kept sentence comes from a surviving segment, and every survivor's cleaned form is kept |
| Summary.CleanSentencesAppend | extract_sentences.py:239-243 | segments are processed one at a time and in order: the result of a concatenation is the concatenation of the results |
| Summary.CleanSentencesSingle | extract_sentences.py:239-243 | one segment contributes its cleaned form exactly when it survives |
| Summary.CleanSentencesSingleLine | extract_sentences.py:242-244 | no kept sentence contains a line break |
| Summary.ExtractSummary | extract_sentences.py:223-244 | splitting the summary at the separator gives back exactly the kept sentences in order; the summary is empty when none is kept |
| Boundary.MatchBounds | extract_sentences.py:279-282 | the bounds of the first match of `(?<=b)(.*?)(?=e)`: a real lookaround match, the leftmost and then the shortest one, and None exactly when there is no match |
| Boundary.FindHitFrom | extract_sentences.py:277-281 | the first (begin, end) pair from a given pair on, in begin-major order, whose pattern matches, with every earlier pair failing |
| Boundary.FindHit | extract_sentences.py:277-288 | the first matching pair in loop order, with every earlier pair failing; None exactly when no pair brackets any span |
| Boundary.Sanitize | extract_sentences.py:283-284 | the repaired span has no line break and is no longer than the matched span |
| Boundary.SanitizeNewlines | extract_sentences.py:283 | on a span without soft hyphens, every line break becomes one space and every other character stays in place |
| Boundary.SanitizeDropsSoftHyphen | extract_sentences.py:284 | a soft hyphen followed by a space between two line-break-free parts is removed, and the parts are joined directly |
| Boundary.SanitizeKeepsCleanSpan | extract_sentences.py:283-284 | a span without line breaks or soft hyphens is not changed by the repairs |
| Boundary.OperativeSpan | extract_sentences.py:277-284 | a span exists exactly when some pair matches, and it has no line break |
| Boundary.ExtractOperativeText | extract_sentences.py:277-288 | the result is "" when no pair matches; otherwise it is the summary of the segmented span, which splits back into its kept sentences |
| Boundary.EmptySpanMatches | extract_sentences.py:279-286 | an end phrase right after the begin phrase gives an empty first match, which the code returns |
| Deontic.Normalized | extract_sentences.py:411 | whitespace collapsing keeps the tokens, leaves no surrounding whitespace, and leaves only single plain spaces between them |
| Deontic.FoundMarkers | extract_sentences.py:409-412 | a marker is reported exactly when it is listed and occurs in the text |
| Deontic.FoundMarkersAppend | extract_sentences.py:410-412 | markers are checked one at a time, in list order |
| Deontic.FoundMarkersSingle | extract_sentences.py:410-412 | one marker is reported exactly when it occurs |
| Deontic.DeonticType | extract_sentences.py:393-416 | the tag is 'None' when no marker occurs; otherwise splitting it at the separator (space, bar, space) gives back exactly the found markers in list order (for markers without a bar character), and it starts with the first one and contains each one |
| Deontic.DeonticNoneIff | extract_sentences.py:409-416 | with markers distinguishable from 'None', the tag is 'None' exactly when no marker occurs in the normalised sentence |
| Deontic.SourceDeonticsDistinguishable | extract_sentences.py:88 | the script's four markers, as listed and as carried by the script's configuration, are distinguishable from the 'None' tag and hold no bar character, so their tags split back into them |
| Deontic.ProhibitionAlsoObligation | extract_sentences.py:409-412 | a sentence containing "shall not " is reported with both "shall " and "shall not " |
| Aggregate.KeepWordAndSpace | extract_sentences.py:358 | punctuation removal keeps only word characters and whitespace, all taken from the token, and keeps every word character |
| Aggregate.KeepWordAndSpaceAppend | extract_sentences.py:358 | punctuation removal works character by character: the parts of a text are cleaned separately and the results concatenated |
| Aggregate.KeepWordAndSpaceSingle | extract_sentences.py:358 | one character stays exactly when it is a word character or whitespace |
| Aggregate.KeepWordAndSpaceFixes | extract_sentences.py:358 | a text of word characters and whitespace is left as it is |
| Aggregate.CleanToken | extract_sentences.py:358-359 | a cleaned token holds only word characters and whitespace |
| Aggregate.CleanTokenOfToken | extract_sentences.py:356-359 | on a whitespace-free token the space removal does nothing and only word characters remain |
| Aggregate.RelevantTokens | extract_sentences.py:362-365 | every kept token is the relevant cleaned form of some input token, and every relevant one is kept |
| Aggregate.RelevantTokensAppend | extract_sentences.py:362-365 | tokens are judged one at a time, in order: the relevant tokens of a concatenation are those of its parts, concatenated |
| Aggregate.RelevantTokensSingle | extract_sentences.py:362-365 | one token contributes its cleaned form exactly when that form is relevant, and nothing otherwise |
| Aggregate.RelevantTokensAreTokens | extract_sentences.py:356-365 | the kept tokens are non-empty, whitespace-free and relevant |
| Aggregate.RemoveStopWords | extract_sentences.py:335-367 | the result's words are exactly the relevant cleaned tokens in order: longer than two characters and not a stopword in lower case |
| Aggregate.DocLengths | extract_sentences.py:388-391 | the sentence count is the number of separator pieces (at least one, even for ""); the word count is the number of relevant tokens and at most the number of words |
| Aggregate.Celex | extract_sentences.py:455 | the identifier is never longer than the file name, and equals it for a name without a dot |
| Aggregate.CelexDropsExtension | extract_sentences.py:455 | the identifier strips the extension: a dot-free stem comes back from both "stem.pdf" and "stem.html" |
| Aggregate.NearBoilerplate | extract_sentences.py:448-451 | a sentence is near boilerplate exactly when some excluded phrase scores at least 90 against it |
| Aggregate.RowFor | extract_sentences.py:447-463 | a kept piece is not near boilerplate and holds some marker after whitespace collapsing; with distinguishable markers every such piece is kept; its row holds the stripped piece and means what `RowMeaning` says |
| Aggregate.KeptRows | extract_sentences.py:443-465 | every row comes from some piece, and every piece that yields a row has it in the table |
| Aggregate.KeptRowsAppend | extract_sentences.py:447-463 | rows come out one piece at a time, in piece order |
| Aggregate.KeptRowsSingle | extract_sentences.py:447-463 | one piece yields its row exactly when it is kept |
| Aggregate.KeptRowsShape | extract_sentences.py:453-463 | every row's sentence is stripped, not near boilerplate and holds a marker; its tag is not 'None' and splits back into the markers found; it carries the document's identifier, counts and format |
| Aggregate.KeptRowsArePieces | extract_sentences.py:443-463 | every row's sentence is a stripped piece of the summary; with distinguishable markers, every piece that is not near boilerplate and holds a marker has a row |
| Aggregate.IdentifyInfo | extract_sentences.py:418-465 | at most as many rows as the sentence count. Every row holds a marker and is not near boilerplate, and its tag splits into the markers found. It shares the document's counts. Its format is "pdf" exactly when the name ends in ".pdf" and "html" otherwise |
| Aggregate.IdentifyInfoEmpty | extract_sentences.py:441-465 | the empty text yields no rows, whatever the fuzzy matcher says |
| Aggregate.NoOperativePartNoRows | extract_sentences.py:277-288 | a document in which no pair of phrases brackets a span contributes no rows |

## Left out

- Argument parsing and path validation (lines 23-67) are file-system checks
  and are not modelled. Among them, `is_valid_input_dir` compares a single
  character against '.html' and '.pdf' at line 51, so it counts no file.
- Text retrieval is not modelled: PDF pages via `fitz` and HTML markup via
  `BeautifulSoup` (lines 268-275, 312-320). The extractor takes the
  retrieved text as input. A file name ending in ".PDF" that reaches
  `extract_text_from_pdf` leaves `text` unbound there, and that crash is
  not modelled either.
- The directory scan, the row accumulation and the CSV output are I/O and
  are not modelled (lines 473-486). That loop dispatches on the lower-cased
  extension. It reuses the previous file's `new_doc` for a file that is
  neither PDF nor HTML, and it raises a NameError when that file comes
  first.
- The sentence segmenter `get_sentence_list` and the scorer `fuzz.ratio`
  are third-party algorithms. They are parameters; the only assumption is
  that a score lies in 0..100.
- The `title` variable (lines 270, 313) is computed and never used.
- Unicode character classes are ASCII-only. This covers `isupper`,
  `isnumeric`, `\d`, `\w`, `\s`/`isspace` and `lower()`. Whitespace is the
  ASCII part of `str.isspace`, including the separators 0x1C-0x1F.
- The phrases are pasted into the span-extraction regex without escaping.
  The model treats them as literal strings, which is what the script's own
  phrases are.
- The search loop of `extract_text_from_html` (lines 322-333) repeats the
  PDF loop (lines 277-288). One function, `Boundary.ExtractOperativeText`,
  models both, so only the PDF lines are cited.
- Aggregate.IdentifyInfo: uses the configured markers for the tag. The
  script's own `deontics` parameter is ignored by its body, and the model
  keeps that behaviour.
