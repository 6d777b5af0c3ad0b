# El País opinion scraper — a Dafny model

This project models the data path of a small Node.js scraper. The scraper opens a
browser session on elpais.com, accepts the cookie banner, and navigates to the
Opinión section. It reads up to five article cards, revisits each article page to
find a large image, and downloads both images. It then writes the records as
pretty-printed JSON and saves the original titles. It sends the titles to a
translation service. Finally it counts the words that repeat across the
translated titles.

The model has these modules:

- `Wrappers` (wrappers.dfy) holds `Option` and `Result`.
- `JsBuiltins` (js_builtins.dfy) models the JavaScript built-ins the scraper
  relies on. These are `undefined`/`null`/string values and their truthiness;
  `startsWith`, `includes`, `split` and `join` on a single character;
  `trim` with ECMAScript white space; decimal number printing; and JSON
  string quoting.
- `FileHelper` (file_helper.dfy) models the file helper. The file system is a
  class with a map of file contents and a set of directories. The network is a
  function from (client, URL) to a response. `DownloadImage` is a recursive
  method that follows redirects. Its specification is the pure function
  `Resolve`.
- `Scraper` (scraper.dfy) models the rendered site as a value. It has the
  unreachable URLs, the consent button, the section links, the article cards and
  the detail pages. An element attribute is an `Attribute`: a string or
  `null`, never `undefined`, as Selenium's `getAttribute` returns. `ElPaisScraper` is a class whose state is the driver being
  open, the history of loaded URLs and the consent flag. Two pieces are methods
  proved against functions: the card extraction cascades and the detail-image
  cascade. The list loop and the detail loop are loops with invariants. The
  files they write are stated by `AfterDownloads`.
- `Analyzer` (analyzer.dfy) models the repeated-word analysis as nested loops
  over a word-count map. It is proved equal to `RepeatedWords`, the map of
  every word that occurs more than once, with its count. The two words
  "constructor" and "\_\_proto\_\_" are left out of that map. They are keys the
  plain object `{}` inherits, so the code's counting never records them as
  numbers.
- `Index` (index.dfy) models the steps of `main`:
  - the articles JSON in the layout `JSON.stringify(…, null, 2)` produces;
  - the joined original and translated titles;
  - the report sorted by descending count, with its fallback sentence;
  - the raw-reply file;
  - the whole run, `Run`, which is stated against the site, the network and
    the translator.

## Model

| member | source | states |
|---|---|---|
| JsBuiltins.SplitJoin | src/services/scraper.js:191 | joining the pieces of a comma split with a comma gives back the srcset: the split loses no character |
| JsBuiltins.SplitLast | src/services/scraper.js:191-192 | the last piece of a split is a suffix of the string without the separator, starting at the string's start or right after a separator |
| JsBuiltins.JoinSplit | index.js:29 | splitting a join of separator-free pieces gives back exactly those pieces |
| JsBuiltins.TrimSlice | src/services/scraper.js:192 | the trimmed string occurs in the input, with only white space before and after it |
| JsBuiltins.ParseNumberToString | index.js:48 | a count printed in decimal reads back as the same number |
| JsBuiltins.NumberToStringInjective | index.js:48 | different counts never print as the same digits |
| JsBuiltins.JsonEscapeSingleLine | index.js:21 | a JSON-quoted string never contains a line feed or carriage return |
| FileHelper.Normalize | src/utils/fileHelper.js:16 | a protocol-relative URL gets "https:" in front, any other URL is unchanged; the result starts with "https" exactly when the input started with "//" or "https" |
| FileHelper.OutcomeOf | src/utils/fileHelper.js:35-49 | the promise resolves exactly when the fetch saved a body |
| FileHelper.ApplyEffect | src/utils/fileHelper.js:20-49 | a download touches only its own path; the file remains unless the failure unlinked it; a saved body or an empty file is what stays there |
| FileHelper.ResolveFuelMonotone | src/utils/fileHelper.js:23-33 | giving the redirect bound more room never changes an outcome reached within the bound |
| FileHelper.ResolveRedirect | src/utils/fileHelper.js:23-31 | a 301/302 reply with a Location header downloads exactly what that location downloads |
| FileHelper.ApplyOutcome | src/utils/fileHelper.js:35-49 | when the download resolves, the file holds the body; when it rejects for any reason other than a throwing request, the file is gone |
| FileHelper.ClientFor | src/utils/fileHelper.js:18 | definition: the https client for a URL starting with "https", the http client otherwise; used by `ResolveFirstRequest` |
| FileHelper.Resolve | src/utils/fileHelper.js:15-49 | definition of the download state machine; its outcomes are stated by `ResolveFirstRequest`, `ResolveFinal` and `ResolveRedirect` |
| FileHelper.Apply | src/utils/fileHelper.js:20-49 | definition of the disk after an outcome; stated by `ApplyEffect` |
| FileHelper.Downloaded | src/utils/fileHelper.js:13-51 | definition: a falsy URL leaves the disk alone, otherwise `Apply` of `Resolve`; used in the contract of `DownloadImage` |
| FileHelper.ResolveFirstRequest | src/utils/fileHelper.js:20-49 | the first reply decides: a redirect without a Location header fails with no location, any status but 200, 301 and 302 fails with that status, a request error fails with its message, a throwing request leaves an empty file, and a 200 saves its body |
| FileHelper.FinalResponse | src/utils/fileHelper.js:23-33 | definition: the reply that ends the chain of followed redirects; stated by `ResolveFinal` |
| FileHelper.ResolveFinal | src/utils/fileHelper.js:20-49 | the download saves exactly when the final reply is a 200, and then its body; it leaves an empty file exactly when the final request threw; running out of redirect room happens only on a redirect with a Location |
| FileHelper.DownloadEffect | src/utils/fileHelper.js:13-51 | only the destination changes; after a final 200 it holds the body, after a throwing request an empty file, and after every other ending it is gone |
| FileHelper.ApplyIdempotent | src/utils/fileHelper.js:13-51 | downloading the same resource twice to the same path leaves the same files as once |
| FileHelper.DirectoryAndParents | src/utils/fileHelper.js:7-11 | a recursive mkdir creates the directory and only prefixes of its path |
| FileHelper.WithDirectory | src/utils/fileHelper.js:7-11 | existing directories stay, and afterwards the path exists |
| FileHelper.WithDirectoryIdempotent | src/utils/fileHelper.js:7-11 | ensuring a directory twice is the same as once |
| FileHelper.FileSystem.EnsureDirectoryExistence | src/utils/fileHelper.js:7-11 | creates the directory and its parents unless the path exists; files unchanged |
| FileHelper.FileSystem.SaveToFile | src/utils/fileHelper.js:53-55 | the named file now holds the content and nothing else changes |
| FileHelper.FileSystem.DownloadImage | src/utils/fileHelper.js:13-51 | a falsy URL resolves and changes nothing; otherwise the files and the outcome are those of `Resolve` on the normalized URL, including redirects, non-200 replies and stream errors |
| Scraper.FirstCandidate | src/services/scraper.js:170 | the first srcset candidate is a prefix of the srcset without a comma or space, ending where a comma, space or the end comes |
| Scraper.LastCandidatePrefix | src/services/scraper.js:192 | the last srcset candidate is the part of the trimmed last comma piece before its first space |
| Scraper.LastCandidateShape | src/services/scraper.js:192 | the last candidate has no comma or space and does not start with white space |
| Scraper.LastCandidate | src/services/scraper.js:191-192 | definition of the last srcset candidate; stated by `LastCandidatePrefix`, `LastCandidateShape` and `LastCandidateInSrcset` |
| Scraper.LastCandidateInSrcset | src/services/scraper.js:191-192 | the last candidate occurs in the srcset after its last comma |
| Scraper.ListImageUrl | src/services/scraper.js:165-171 | definition of the list image rule; stated by `ExtractListViewData` |
| Scraper.DetailImageUrl | src/services/scraper.js:186-195 | definition of the detail image rule; stated by `ExtractDetailImage` |
| Scraper.ListView | src/services/scraper.js:140-175 | definition of the list record; `ExtractListViewData` is proved equal to it and states its cases |
| Scraper.DetailImage | src/services/scraper.js:177-200 | definition of the detail image; `ExtractDetailImage` is proved equal to it and states its cases |
| Scraper.ClickOutcome | src/services/scraper.js:64-66 | definition of what the click on the located link loads and whether the URL then contains "opinion"; used by `NavigateToOpinion` |
| Scraper.ListImagePath | src/services/scraper.js:121-122 | definition of the list image path; stated by `ImagePathsDistinct` |
| Scraper.DetailImagePath | src/services/scraper.js:128-129 | definition of the detail image path; stated by `ImagePathsDistinct` |
| Scraper.ExtractListViewData | src/services/scraper.js:140-175 | the title and link come from the h2 link, or from the header when the h2 attempt throws, or are the placeholders; the teaser comes from the first paragraph or a placeholder; the list image comes from src unless src is missing or a data: URI, and then from the first srcset candidate; the detail fields stay unset |
| Scraper.ExtractDetailImage | src/services/scraper.js:177-200 | the image is the figure image, else the first article image, else null; src is used unless it is missing or a data: URI, and then the last srcset candidate |
| Scraper.FirstLocated | src/services/scraper.js:74-87 | the found locator is the earliest in the list that matches a link, and none is found only when no locator matches |
| Scraper.FindOpinionLink | src/services/scraper.js:74-87 | tries the link text "Opinión", the same text in capitals, the partial text and the href pattern, in that order, and returns the first that locates |
| Scraper.FallbackIsOpinion | src/services/scraper.js:69 | the direct fallback URL is in the opinion section |
| Scraper.ProcessedRecord | src/services/scraper.js:105-135 | a finished record keeps its list fields; the detail image comes from its page when the link is truthy and loads; each image path is set exactly when its URL is truthy |
| Scraper.FinishedAt | src/services/scraper.js:105-135 | the detail phase keeps the number and order of records and finishes each one independently |
| Scraper.ImagePathsDistinct | src/services/scraper.js:121-128 | list and detail image paths never collide, and different indices have different paths |
| Scraper.ImageFileAfterDownloads | src/services/scraper.js:120-132 | after all downloads, each record's image path holds what its own URL fetches, or is left as it was when the URL is falsy |
| Scraper.UntouchedByDownloads | src/services/scraper.js:120-132 | a path that is no record's image path is untouched by the downloads |
| Scraper.CollectListData | src/services/scraper.js:97-101 | the list phase extracts exactly the first `limit` cards, in order |
| Scraper.ElPaisScraper.InitializeDriver | src/services/scraper.js:12-40 | opens the driver and ensures the images, list and detail directories |
| Scraper.ElPaisScraper.Load | src/services/scraper.js:44 | `driver.get` succeeds exactly when the URL is reachable, and then appends it to the history; the driver and the consent flag are unchanged |
| Scraper.ElPaisScraper.NavigateToHome | src/services/scraper.js:42-45 | succeeds exactly when the base URL is reachable, which is then appended to the history |
| Scraper.ElPaisScraper.HandleCookies | src/services/scraper.js:47-59 | consent is accepted exactly when the button appears and is displayed; a missing button is not an error |
| Scraper.ElPaisScraper.NavigateToOpinion | src/services/scraper.js:61-72 | clicks the first located opinion link, or else loads the fallback URL; fails only when that load fails; on success the current URL contains "opinion" |
| Scraper.ElPaisScraper.ProcessArticle | src/services/scraper.js:105-133 | visits the article page if there is a link, sets the detail image and the two paths, and downloads both images to their indexed paths |
| Scraper.ElPaisScraper.ScrapeArticles | src/services/scraper.js:89-138 | with no cards, fails with no articles found and changes nothing; otherwise returns min(cards, 5) finished records in card order, with the visit history and the downloaded files stated |
| Scraper.ElPaisScraper.DetailPhase | src/services/scraper.js:105-135 | the detail loop finishes every record in order, with its visits and downloads |
| Scraper.ElPaisScraper.Close | src/services/scraper.js:211-213 | quits the driver and keeps the rest of the state |
| Analyzer.LowerChar | src/services/analyzer.js:22 | definition of lower-casing one character; `LowerCharNotUpper` states that no ASCII capital remains |
| Analyzer.LowerCharNotUpper | src/services/analyzer.js:22 | a lower-cased character is never an ASCII capital |
| Analyzer.LowerCase | src/services/analyzer.js:22 | definition of `toLowerCase`; stated by `LowerCaseAt` |
| Analyzer.LowerCaseAt | src/services/analyzer.js:22 | lower-casing keeps the length and maps each character on its own |
| Analyzer.StripNonWord | src/services/analyzer.js:22 | definition of `replace(/[^\w\s]/g, '')`; stated by `StripNonWordKeeps` |
| Analyzer.StripNonWordKeeps | src/services/analyzer.js:22 | stripping keeps only word characters and white space from the header, and leaves a clean header unchanged |
| Analyzer.SplitWs | src/services/analyzer.js:23 | `split(/\s+/)` always gives at least one piece; stated by `SplitWsPieces` and `SplitWsConcat` |
| Analyzer.SplitWsPieces | src/services/analyzer.js:23 | every piece of a white-space split comes from the header |
| Analyzer.SplitWsConcat | src/services/analyzer.js:23 | the pieces put together are the header with its white space removed |
| Analyzer.NonEmptyKeeps | src/services/analyzer.js:25 | skipping empty tokens keeps each non-empty word with its multiplicity |
| Analyzer.CleanHeader | src/services/analyzer.js:22 | definition: lower-case, then strip; stated by `CaseInsensitive` and `AccentsVanish` |
| Analyzer.HeaderWords | src/services/analyzer.js:18-29 | definition of the words a header contributes: none for a falsy header, else the non-empty pieces; stated by `HeaderWordsAreWords` |
| Analyzer.HeaderWordsAreWords | src/services/analyzer.js:18-29 | each counted word is non-empty, lower-case, and made of word characters |
| Analyzer.Inherited | src/services/analyzer.js:15 | definition of the two keys an object literal inherits that the counting never records: "constructor" and "\_\_proto\_\_" |
| Analyzer.OwnKeys | src/services/analyzer.js:34 | keeps exactly the entries whose key is not inherited, with their values |
| Analyzer.RepeatedWords | src/services/analyzer.js:10-41 | a word is in the result exactly when it occurs more than once across the headers and is not "constructor" or "\_\_proto\_\_", and it maps to its number of occurrences |
| Analyzer.CountWords | src/services/analyzer.js:24-29 | the inner loop adds one to the count of each non-empty word of the header |
| Analyzer.CountHeader | src/services/analyzer.js:17-30 | one call of the outer callback adds the words of the header to the counts, and nothing for a falsy header |
| Analyzer.CountAll | src/services/analyzer.js:17-30 | after the outer loop the map counts every word of every truthy header |
| Analyzer.KeepRepeated | src/services/analyzer.js:32-38 | the filter keeps exactly the words with a count above one, with their counts |
| Analyzer.RepeatedOfCounts | src/services/analyzer.js:15-38 | filtering counts that tally every own word gives `RepeatedWords` |
| Analyzer.AnalyzeRepeatedWords | src/services/analyzer.js:10-41 | a non-array or empty input gives an empty map; otherwise the result maps exactly the words occurring more than once, other than "constructor" and "\_\_proto\_\_", to their number of occurrences |
| Analyzer.OccurrencesAppend | src/services/analyzer.js:17-30 | occurrences over two lists of headers add up |
| Analyzer.RepeatedAreWords | src/services/analyzer.js:22-38 | every repeated word is a clean lower-case word |
| Analyzer.CaseInsensitive | src/services/analyzer.js:22 | headers that differ only in ASCII letter case give the same words |
| Analyzer.AccentsVanish | src/services/analyzer.js:22 | the ASCII-only filter removes accented letters: "Opinión" counts as "opinin" |
| Analyzer.ThreeHeaders | src/services/analyzer.js:10-41 | "The Cat Sat", "the cat ran", "a dog ran" give exactly the, cat and ran, each twice |
| Index.Titles | index.js:25 | the headers are the article titles, one per article, in order |
| Index.OriginalHeaderLines | index.js:29 | the saved original headers split back into the titles when no title holds a line break |
| Index.JoinLines | index.js:38 | definition of `translated.join('\n')`; stated by `TranslatedLines` |
| Index.Texts | index.js:38 | each translated element joins as its string, with null and undefined as empty |
| Index.TranslatedLines | index.js:38 | the saved translation splits back into its elements when none holds a line break |
| Index.EntriesExist | index.js:46 | every repeated-word map has an entries list: each word once with its count |
| Index.Insert | index.js:47 | insertion adds exactly the one entry |
| Index.InsertSorted | index.js:47 | insertion keeps the entries in descending count order |
| Index.SortByCount | index.js:47 | the sorted entries are in descending count order and are a permutation of the input |
| Index.SortSorted | index.js:47 | the sort is stable: entries already in descending order stay as they are |
| Index.FormatLine | index.js:48 | definition of one report line; stated by `ParseFormatLine` |
| Index.FormatLines | index.js:48 | one `"word": count` line per entry, in order |
| Index.ParseFormatLine | index.js:48 | a formatted line reads back as its entry |
| Index.Report | index.js:46-50 | definition of the analysis file; stated by `ReportFallback`, `ReportRoundTrip` and `ReportOfAnalysis` |
| Index.ReportFallback | index.js:49-50 | the report is the fallback sentence exactly when there are no entries |
| Index.ReportRoundTrip | index.js:46-50 | the saved report reads back as the sorted entries |
| Index.ReportOfAnalysis | index.js:42-50 | the report of an analysis is the fallback exactly when no word repeats; otherwise it reads back as a sorted list of every repeated word once with its count |
| Index.ArticlesJson | index.js:21 | definition of `JSON.stringify(articles, null, 2)`; stated by `ArticlesJsonJoin` and `ArticlesJsonLayout` |
| Index.ArticleJsons | index.js:21 | one JSON object per article, in order |
| Index.ArticlesJsonJoin | index.js:21 | the articles JSON is the line layout of JSON.stringify with a two-space indent joined by line feeds |
| Index.PropertiesSingle | index.js:21 | every property line of an article object is a single line |
| Index.ArticlesJsonLayout | index.js:21 | the saved articles JSON splits into exactly one line per bracket, brace and defined field, with undefined fields omitted |
| Index.SaveTranslation | index.js:32-58 | a rejected translation changes nothing; a non-array reply saves the raw JSON; an array reply saves the joined lines and the report of its analysis |
| Index.Publish | index.js:18-58 | saves the articles JSON and the original headers, then the translation outcome |
| Index.TranslationKeeps | index.js:32-58 | the translation step changes no file but its own three |
| Index.SavedBeforeTranslation | index.js:21-29 | however the translation ends, the articles JSON and the original headers stay saved |
| Index.AnalysisSaved | index.js:36-50 | after an array reply, the translated lines are saved and the analysis file reads back as the sorted repeated words, or is the fallback exactly when none repeats |
| Index.ScrapedRecords | src/services/scraper.js:89-138 | the records of a run are min(cards, 5) finished records in card order |
| Index.Run | index.js:7-66 | the image directories are always ensured and the driver is always closed; when the home page, the opinion section or the cards are missing, no file is written; otherwise the images are downloaded and the results saved as stated |

## Left out

- Building the Chrome driver and its options is left out: headless flags, window size and the user agent are browser configuration.
- The optional external driver passed to `initializeDriver`, and its early return when a driver already exists, are left out. The model always starts a fresh driver.
- Timeouts, waits and sleeps are left out. A wait that times out is modelled as the element being absent.
- Console output is left out. This covers `printArticle`, `printAnalysisResults` and every log line.
- The translation service is a function parameter, `Translator`: src/services/translator.js is not part of this model. A rejection is `Err`, an array reply is `ArrayReply`, any other reply is `OtherReply` with its JSON text.
- Translated array elements are modelled as strings, null or undefined. Numbers, objects and nested arrays in a reply are left out.
- Asynchronous execution is left out. Each download is finished before the next starts, as the awaited code does, and each is treated as one atomic step. The asynchronous `unlink` is treated as done.
- A relative `Location` header is used as given. URL resolution against the request URL is left out.
- FileHelper.FileSystem.DownloadImage: takes a `fuel` bound on redirects, which the code does not have. Only the artificial `RedirectFuelExhausted` outcome depends on it, and `ResolveFuelMonotone` shows that more fuel changes nothing else.
- Write failures of `writeFileSync` and `mkdirSync` are left out. Exceptions from `initializeDriver` are also left out, because the model has no driver that can fail to start.
- Analyzer.LowerChar: maps one character to one character. It lower-cases the ASCII capitals, maps the Kelvin sign U+212A to "k" and maps U+0130 to "i"; JavaScript gives "i" followed by U+0307 for U+0130, and the filter deletes the U+0307. Every other character is kept as it is; JavaScript would lower-case some of them, but only to letters outside `\w`, which the filter deletes either way.
- Index.SortByCount: does not model the order of equal counts. `Object.entries` lists the keys in an order the model leaves open (`EntriesExist` with a choice), and the sort is stable within that order.
- Index.Property: writes keys without escaping. The seven keys are plain identifiers, so escaping would not change them.
- Index.OriginalHeaderLines: requires titles without line breaks. A title with a line break splits into more than one line, just as the code's output does.
- Index.TranslatedLines: requires translated items without line breaks, for the same reason.
- The record's image paths follow the code: a path is set whenever its URL is truthy, even if the download then fails (src/services/scraper.js:120-132). `printArticle` then reports the image as "Saved" because the path is set (src/services/scraper.js:207-208), whether or not a file was written.
- Words are counted when they appear twice or more, as `count > 1` in the code does. The comment above the filter says "more than twice" (src/services/analyzer.js:32-38).
- The test file tests/elpais.test.js is not modelled: it drives a real browser.
