# SEO analyzer keyword engine — Dafny model

This project models the keyword engine of the SEO analyzer web app. It has three parts:

- **Keyword extraction** (`extractKeywords`, module `Keywords`). The analysis service returns a response. If the response holds entities, the keywords are the trimmed entity texts. Otherwise they are the lower-cased lemmas of the words. Candidates of two characters or fewer are dropped, and so are the eight stopwords. Duplicates are removed and first-occurrence order is kept.
- **Smart keyword insertion** (`insertKeyword` and `capitalize`, module `Insertion`). Steps:
  1. If the keyword is empty, or the text already contains it ignoring case, the text is returned unchanged.
  2. Otherwise the text is split into sentences with the regex `[^.!?]+[.!?]`. If there is no match, the whole text is the one sentence.
  3. The first sentence longer than 30 characters is the target. It is trimmed, then a space, the trimmed keyword and a period are appended. The keyword is capitalised only when the target is sentence 0.
  4. The sentences are joined with spaces, and every whitespace run of two or more characters becomes one space.

  Two behaviours of the code are modelled as written:
  - When no sentence is longer than 30 characters, the index stays -1 and the code throws. This is the `NoLongSentence` failure; see "## Findings".
  - Text after the last terminator is dropped by the regex (`TrailingFragmentDropped`).
- **Client state** (`handleInsertKeyword` and the blank-text guard of `handleAnalyze`, module `AppModel`). This is a class with the fields `text`, `results` and `error`.
  - Inserting a keyword that is already in the text, ignoring case, changes nothing.
  - Otherwise the text becomes the trimmed text, `". "` and the keyword. Every copy of the keyword leaves the suggestion list.
  - Analyzing blank text sets the error "Please enter some text.".

JavaScript strings are `seq<char>`. `toLowerCase`, `toUpperCase`, `trim` and the regex class `\s` are modelled for ASCII only (module `JsString`). `includes` is a substring predicate. `Array.from(new Set(…))`, `indexOf` and `filter(k => k !== x)` are in module `Seqs`.

Behaviours of the code that a reader may not expect, all modelled as written:
- The target is the first sentence longer than 30 characters, not the longest sentence.
- The keyword and a new period go after the trimmed target, even when the target already ends in a period.
- An already-present keyword returns the text unchanged. No separate no-op signal is given.
- When the regex finds at least one sentence, a fragment after the last terminator is dropped, and so are terminators that do not follow a non-terminator. When it finds none, the whole text is the single sentence.
- Append mode trims both ends of the text, not only the end.
- The keyword filter works on entities and word lemmas. It has no relevance scores, threshold or count limit.

## Model

| member | source | states |
|---|---|---|
| Keywords.ExtractKeywords | server/services/seoServices.js:30-60 | No response, or no entities and no words, gives `[]`. Every keyword is longer than 2 characters and is not a stopword once lower-cased. Keywords are pairwise distinct. With entities, the keywords are exactly the admissible trimmed entity texts in first-occurrence order, and the words are ignored. Without entities, they are exactly the lower-cased surviving lemmas, all lower case, in first-occurrence order. |
| Keywords.FilterFirst | server/services/seoServices.js:38-44 | The `indexOf(kw) === i` filter keeps exactly the admissible candidates, each at its first occurrence, in first-occurrence order. |
| Keywords.LemmaCandidates | server/services/seoServices.js:48-55 | A string survives exactly when it is the lower-cased lemma of a word that is not `PUNCT`, whose lemma is longer than 2, and that is not a stopword. |
| Keywords.LemmaCandidatesOne | server/services/seoServices.js:48-55 | One word gives its lower-cased lemma exactly when it passes the part-of-speech, length and stopword filters, and nothing otherwise. |
| Keywords.LemmaCandidatesConcat | server/services/seoServices.js:48-55 | The candidates of a word list are those of its first part followed by those of the rest, so they stay in word order. |
| Keywords.ExtractIgnoresWords | server/services/seoServices.js:37-45 | With a non-empty entity list the result does not depend on the words, even if every entity is filtered out. |
| Seqs.DedupSpec | server/services/seoServices.js:52-56 | `Array.from(new Set(s))` holds exactly the elements of `s`, each once, in the order of their first occurrence. |
| Seqs.IndexOf | server/services/seoServices.js:43 | `indexOf` is -1 exactly for an absent element. Otherwise it is a position holding the element with no earlier copy. |
| Insertion.Matches | server/services/seoServices.js:68 | Every regex match ends in one of `.`, `!`, `?` and holds no other terminator, with at least one character before it. |
| Insertion.MatchesEmptyIff | server/services/seoServices.js:68 | The regex finds nothing exactly when no non-terminator is directly followed by a terminator. |
| Insertion.MatchesCons | server/services/seoServices.js:68 | A well-formed sentence at the start of the text is the first match, and matching continues right after it. |
| Insertion.MatchesSkip | server/services/seoServices.js:68 | Terminators that do not follow a non-terminator start no match and are skipped. The matches after them are kept. |
| Insertion.MatchesConcat | server/services/seoServices.js:68 | A text made of well-formed sentences splits back into exactly those sentences (round trip). |
| Insertion.TrailingFragmentDropped | server/services/seoServices.js:68 | Appending terminator-free text after the last terminator does not change the sentences: the fragment is lost. |
| Insertion.Sentences | server/services/seoServices.js:68 | There is always at least one sentence. With a boundary, all are well-formed matches. Without one, the whole text is the only sentence. |
| Insertion.FindLongSentence | server/services/seoServices.js:69 | `findIndex` is -1 exactly when no sentence is longer than 30. Otherwise it is the first such sentence. |
| Insertion.Capitalize | server/services/seoServices.js:80-82 | Keeps the length and every character but the first. The first character is not lower case. Lower-cased, the result equals the input. |
| Insertion.Collapse | server/services/seoServices.js:77 | The result has no two adjacent whitespace characters and is no longer than the input. A leading non-whitespace character is kept. |
| Insertion.CollapseRun | server/services/seoServices.js:77 | A whitespace run at the start of the text, ending at the end of the text or at a non-whitespace character, becomes one space when it has 2 or more characters. A lone whitespace character is kept. With `CollapseCons` this fixes the result for every input. |
| Insertion.CollapseCons | server/services/seoServices.js:77 | A non-whitespace character is copied unchanged and the replace continues after it, so a run after other text is treated like a leading run. |
| Insertion.CollapseFixes | server/services/seoServices.js:77 | A text without double whitespace is unchanged by the replace. |
| Insertion.CollapseIdempotent | server/services/seoServices.js:77 | Collapsing twice equals collapsing once. |
| Insertion.CollapseConcat | server/services/seoServices.js:77 | Before a non-whitespace character, the replace acts separately on each side. |
| Insertion.RewriteContainsKeyword | server/services/seoServices.js:71-77 | After the rewrite the text has no double whitespace and contains the trimmed keyword, ignoring case (when the keyword has no double whitespace). |
| Insertion.InsertKeyword | server/services/seoServices.js:63-78 | An empty or already-present keyword returns the text unchanged. The call fails exactly when the keyword is new and no sentence is longer than 30. |
| Insertion.InsertTarget | server/services/seoServices.js:69-77 | A real insertion targets the first sentence longer than 30. Only that sentence is replaced, by its trimmed text, a space, the trimmed keyword (capitalised only at index 0) and `.`. The result is the collapsed space-join. |
| Insertion.InsertIdempotent | server/services/seoServices.js:63-78 | A real insertion leaves no double whitespace. Inserting the same keyword again returns the text unchanged. |
| Insertion.ShortTextInsertFails | server/services/seoServices.js:69-75 | Text "Hi." with keyword "fox" fails: the index stays -1. |
| Insertion.InsertKeywordFallback | server/services/seoServices.js:69-77 | Corrected insertion that falls back to sentence 0. It never fails. It is a no-op on present keywords. Otherwise it leaves no double whitespace. It contains the trimmed keyword, ignoring case, whenever that keyword has no double whitespace. Its text in the fallback case is fixed by `FallbackTarget`, elsewhere by `FallbackAgrees`. |
| Insertion.FallbackTarget | server/services/seoServices.js:69-77 | Where the original throws (no sentence longer than 30 characters, keyword new), the corrected insertion targets sentence 0. That sentence becomes its trimmed text, a space, the capitalised trimmed keyword and a period. Every other sentence is kept, and the result is the collapsed space-join. |
| Insertion.FallbackAgrees | server/services/seoServices.js:69-77 | Wherever the original succeeds, the corrected insertion gives the same text. |
| AppModel.AppendKeyword | client/src/App.jsx:139 | The appended text contains the keyword, ignoring case. |
| AppModel.EmptyKeywordInText | client/src/App.jsx:137 | Every text contains the empty keyword, so inserting it is a no-op. |
| AppModel.App.constructor | client/src/App.jsx:112-115 | Initial state: empty text, no results, no error. |
| AppModel.App.InsertKeyword | client/src/App.jsx:136-145 | A present keyword leaves text and results unchanged. Otherwise the text becomes trimmed text + `". "` + keyword, and the keyword list loses every copy of the keyword while the other result fields stay. The error is untouched. Afterwards the text contains the keyword, so a repeat is a no-op. |
| AppModel.AppendAndFilter | client/src/App.jsx:137-144 | After an append the keyword is in the text, so a repeat is a no-op. The new list lacks the keyword and keeps every copy of every other entry (multiset) in relative order. It never grows, and filtering again changes nothing. |
| Seqs.WithoutSpec | client/src/App.jsx:143 | `filter(k => k !== keyword)` keeps exactly the values other than the keyword, in order, never grows, and is the identity when the keyword is absent. |
| Seqs.WithoutCount | client/src/App.jsx:143 | The filter keeps every copy of every other entry and no copy of the keyword: its multiset is the input's with the keyword's count set to 0. |
| Seqs.WithoutConcat | client/src/App.jsx:143 | The filter acts element by element: filtering a concatenation concatenates the filtered parts. |
| AppModel.App.Analyze | client/src/App.jsx:119-124 | The request goes out exactly when the text has a non-whitespace character. The error is cleared, or set to "Please enter some text." for blank text. The results are untouched. |
| JsString.TrimEmptyIff | client/src/App.jsx:121 | `text.trim() === ""` exactly when the text is whitespace only. |

## Left out

- `analyzeSEO` (server/services/seoServices.js:5-27): an HTTP call to the text-analysis service. The model starts from its already-decoded response.
- server/index.js: HTTP server wiring, with no logic.
- `handleAnalyze` after the guard (the request, the loading flag and error propagation): asynchronous network I/O. `Analyze` returns whether the request would be sent.
- JSX rendering and the commented-out copy of the component at the top of client/src/App.jsx: user interface only.
- React's asynchronous state updates: `InsertKeyword` is one atomic step. The `text` read in the `includes` guard of line 137 and the `prev` of the updater at line 139 are taken to be the same value.
- Unicode case mapping and Unicode whitespace: `toLowerCase`, `toUpperCase`, `trim` and `\s` are ASCII only.
- JavaScript's UTF-16 code units: a string is a sequence of `char`, and its length counts those.
- `NaN` in the `||` of line 69: `findIndex` never returns it.
- Results fields other than `keywords`: `suggestions` stands for all of them. They are carried over unchanged.
- Readability and density figures: the client shows such fields (client/src/App.jsx:175-180), but no code here computes them.
- AppModel.App.InsertKeyword: requires the results to be present unless the keyword is already in the text. With no results the source throws in the state updater of line 143. Its buttons exist only once results are shown.
- Insertion.InsertKeywordFallback: states containment of the trimmed keyword only when that keyword has no double whitespace. Otherwise the final replace rewrites the keyword itself.
- Insertion.InsertIdempotent: proved only for a keyword that is already trimmed and has no double whitespace. Otherwise trimming or collapsing can alter the keyword, and a second call may insert it again.
- Insertion.RewriteContainsKeyword: states containment only when the trimmed keyword has no double whitespace. Otherwise the final replace rewrites the keyword itself.

## Findings

| source | as written | input that shows it | evidently intended | confidence | as-written member | corrected member |
|---|---|---|---|---|---|---|
| server/services/seoServices.js:69-75 | The fallback `or 0` after `findIndex` never applies, because -1 is truthy. With no sentence longer than 30 characters, line 75 calls `trim` on `sentences[-1]`, which is undefined, and throws. | text "Hi.", keyword "fox" | Fall back to sentence 0 and insert there. | high; not executed | Insertion.ShortTextInsertFails | Insertion.InsertKeywordFallback |
