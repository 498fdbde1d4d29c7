# Jaundice-rate service: a Dafny model of the word pipeline and the per-URL handler

The service scores news articles for "jaundice", meaning sensationalism. An
HTTP query carries a comma-separated list of article URLs. For each URL the
server does four things in order:

1. fetches the page;
2. sanitises it into plain text;
3. splits the text into normalised words, dropping short ones;
4. reports the share of those words that appear in a list of charged words,
   as a percentage.

In the model, with its four statuses, each URL gets exactly one record in the
response, provided every stage ends in one of the outcomes the handler
catches. The record holds the URL, a processing status, and (only when
everything succeeded) the word count and the score.

The code as written falls short of this in two ways:
- A TIMEOUT or PARSING_ERROR outcome also raises, because the enumeration
  lacks those members; see "Findings".
- An exception the handler does not catch escapes the article task. The
  handler then raises, and the client gets a server error instead of the
  JSON list; see "Left out".

The model has two modules:

- `TextTools` (`text_tools.dfy`) covers `text_tools.py`:
  - `CleanWord` models `_clean_word`. It deletes `«`, `»` and `…` anywhere,
    then trims ASCII punctuation from both ends.
  - `Tokens` models Python's whitespace `str.split()`.
  - `SplitByWords` is the imperative loop of `split_by_words`. It is proved
    against the specification function `KeptWords`.
  - `ChargedCount` and `JaundiceRate` model `calculate_jaundice_rate`.
  - The morphology analyser is the parameter `normalize: string -> string`.
- `Server` (`server.dfy`) covers `server.py`:
  - The fetch, the sanitiser and the splitter are total functions returning
    outcome datatypes, bundled as a `Pipeline`.
  - `ProcessArticle` decides the status by the first failing stage and appends
    one record to the shared `ResultList`.
  - `HandleArticlesQuery` splits the `urls` value on commas with `SplitOn`
    (Python's `str.split(',')`) and runs `ProcessArticle` once per URL, in a
    sequential loop.

The score is the exact rational `100 * count / length` as a `real`.

The status enumeration in `enums.py` declares only `OK` and `FETCH_ERROR`,
while `server.py` also reports `PARSING_ERROR` and `TIMEOUT`. The model's
`Status` has all four values, which is the behaviour the code evidently means.
The code as written is modelled separately, under "Findings".

## Model

| member | source | states |
|---|---|---|
| TextTools.PunctuationRanges | text_tools.py:12 | A character is in the 32-character `string.punctuation` exactly when it lies in one of the four ASCII punctuation ranges that `IsPunctuation` tests. |
| TextTools.RemoveChar | text_tools.py:10 | `str.replace(c, '')`: the result never contains `c`, and a string without `c` is returned unchanged. |
| TextTools.RemoveCharKeepsOthers | text_tools.py:10 | Deleting `c` keeps every other character, in order (the result is a subsequence of the input), and keeps each other character's count. |
| TextTools.Unquote | text_tools.py:10 | After the three `replace` calls the word has no `«`, `»` or `…`; a word that had none is unchanged. |
| TextTools.StripLeft | text_tools.py:12 | The left half of `strip(string.punctuation)`: the result is no longer than the input and is empty or starts with a non-punctuation character. |
| TextTools.StripRight | text_tools.py:12 | The right half of `strip(string.punctuation)`: the result is no longer than the input and is empty or ends with a non-punctuation character. |
| TextTools.Strip | text_tools.py:12 | `strip(string.punctuation)`: the result is empty or neither starts nor ends with punctuation. |
| TextTools.StripLeftSpec | text_tools.py:12 | Left `strip(string.punctuation)` removes a prefix made only of punctuation and leaves a result that is empty or starts with a non-punctuation character. |
| TextTools.StripRightSpec | text_tools.py:12 | Right `strip(string.punctuation)` removes a suffix made only of punctuation and leaves a result that is empty or ends with a non-punctuation character. |
| TextTools.StripIsTrim | text_tools.py:12 | The stripped string is a contiguous slice of its input, with only punctuation cut off on either side. |
| TextTools.CleanWord | text_tools.py:9-13 | `_clean_word`: the result has no `«`, `»` or `…`; it is empty or neither starts nor ends with ASCII punctuation; and it is a contiguous slice of the mark-free word, with only punctuation removed at its two ends. |
| TextTools.CleanWordKeepsCleanWord | text_tools.py:9-13 | A word without quote marks and without punctuation at its ends is its own cleaned form. |
| TextTools.CleanWordIdempotent | text_tools.py:9-13 | Cleaning twice equals cleaning once. |
| TextTools.CleanWordKeepsInnerHyphen | text_tools.py:12 | `"Во-первых,"` cleans to `"Во-первых"`: the inner hyphen survives and the trailing comma goes. |
| TextTools.CleanWordDropsOpeningGuillemet | text_tools.py:10-12 | `"«Удивительно,"` cleans to `"Удивительно"`. |
| TextTools.CleanWordDropsClosingGuillemet | text_tools.py:10-12 | `"началом!»"` cleans to `"началом"`: the guillemet is deleted, then the exposed `!` is stripped. |
| TextTools.CleanWordDropsComma | text_tools.py:12 | `"хочет,"` cleans to `"хочет"`. |
| TextTools.CleanWordKeepsPlainWords | text_tools.py:9-13 | `"он"` and `"чтобы"` are unchanged by cleaning. |
| TextTools.IsSpace | text_tools.py:29 | The characters on which argument-less `str.split()` breaks a text: Python's `str.isspace` set (ASCII whitespace, the separators U+001C-U+001F, U+0085, U+00A0 and the Unicode space separators). Its definition is the whole statement; it has no contract. |
| TextTools.WordEnd | text_tools.py:29 | The run of non-space characters at the start of a string ends at a whitespace character or at the end of the string. |
| TextTools.Tokens | text_tools.py:29 | `text.split()`: every token is non-empty and contains no whitespace. |
| TextTools.TokensSkipsSpace | text_tools.py:29 | Leading whitespace produces no tokens. |
| TextTools.TokensJoinSpace | text_tools.py:29 | Splitting the space-join of non-empty, whitespace-free words gives those words back (the round trip of `str.split()`). |
| TextTools.IsKept | text_tools.py:32 | The filter: words shorter than two characters are dropped, words longer than two are kept, and of the two-letter words only `"не"` is kept. |
| TextTools.TokenForm | text_tools.py:30-31 | The per-token form `normalize(_clean_word(t))`. Its definition is the whole statement; it has no contract. |
| TextTools.TokenFormOfCleanToken | text_tools.py:30-31 | A token with no quote marks and no punctuation at its ends reaches the analyser unchanged. |
| TextTools.Normalized | text_tools.py:29-31 | The k-th entry is the form of the k-th whitespace token, and there are as many entries as tokens. |
| TextTools.KeptForm | text_tools.py:30-33 | What one token contributes: nothing when its form fails the filter, otherwise exactly that form. |
| TextTools.KeptWords | text_tools.py:28-35 | The words `split_by_words` keeps: there are never more than there are tokens. |
| TextTools.KeptWordsAppend | text_tools.py:29-33 | Keeping distributes over concatenation of token lists, so the output order follows the token order. |
| TextTools.KeptWordsAreKept | text_tools.py:32 | Every kept word is longer than two characters or is `"не"`. |
| TextTools.KeptWordsSubsequence | text_tools.py:29-35 | The kept words are an order-preserving subsequence of the normalised forms of the tokens. |
| TextTools.KeptWordsFromTokens | text_tools.py:29-35 | Every kept word is the normalised form of some token. |
| TextTools.KeptWordsComplete | text_tools.py:32-33 | Conversely, every token whose normalised form passes the length test has that form among the kept words. How many times it occurs is fixed by `KeptWordsAppend` together with `KeptForm`. |
| TextTools.SplitByWords | text_tools.py:25-35 | The loop appends exactly `KeptWords` of the whitespace tokens: every word passes the length test, and there are at most as many words as tokens. |
| TextTools.ExampleTokens | text_tools.py:29 | `"Во-первых, он хочет, чтобы"` splits on whitespace into the four tokens `"Во-первых,"`, `"он"`, `"хочет,"`, `"чтобы"`. |
| TextTools.SplitExampleDropsShortWords | text_tools.py:25-35 | The sentence's tokens, given the analyser's normal forms `во-первых`, `он`, `хотеть` and `чтобы`, keep exactly `["во-первых", "хотеть", "чтобы"]`: the two-letter `он` is dropped. |
| TextTools.ChargedCount | text_tools.py:44 | The number of article words that are charged is at most the article length, and it is zero exactly when no article word is charged. |
| TextTools.JaundiceRate | text_tools.py:38-46 | `calculate_jaundice_rate`: the score lies in [0, 100]; an empty article scores 0; the score is 0 exactly when no word is charged, and 100 exactly when a non-empty article has every word charged. |
| TextTools.ChargedCountAppend | text_tools.py:44 | The charged count of a concatenation is the sum of the counts. |
| TextTools.ChargedCountPermutation | text_tools.py:44 | Reordering the article words leaves the charged count unchanged. |
| TextTools.ChargedCountMembership | text_tools.py:44 | Only set membership of the charged words matters (`set(charged_words)`): their order and repetition do not change the count. |
| TextTools.JaundiceRateInvariance | text_tools.py:41-45 | The score is unchanged by permuting the article and by permuting or duplicating the charged words. |
| TextTools.JaundiceRateExample | text_tools.py:41-45 | One charged word among three gives exactly 100/3, which lies between 33 and 34. |
| Server.Status.Value | enums.py:6-7 | The `http_status` string: `"OK"` exactly for OK and `"FETCH_ERROR"` exactly for FETCH_ERROR, the two values the enumeration declares. |
| Server.ValueInjective | server.py:36-52 | The four statuses report four distinct `http_status` strings. |
| Server.ArticleRecord | server.py:29-61 | The record carries the input URL; score and word count are present exactly when the status is OK; an OK score lies in [0, 100]. |
| Server.RecordStatus | server.py:32-52 | The status is FETCH_ERROR exactly on a bad HTTP status, PARSING_ERROR exactly when the sanitiser finds no article, TIMEOUT exactly on a fetch or split timeout, and OK exactly when all three stages succeed. |
| Server.FetchFailureSkipsLaterStages | server.py:32-38 | A failed fetch decides the record whatever the sanitiser and the splitter would do: two pipelines whose fetch gives the same failure for the URL give the same record, FETCH_ERROR for a bad status and TIMEOUT for a timeout. |
| Server.ParsingErrorSkipsSplit | server.py:40-43 | `ArticleNotFound` gives PARSING_ERROR whatever the splitter would do: two pipelines that fetch the same page for the URL and sanitise it the same way give the same record. |
| Server.OkRecordScoresWords | server.py:45-52 | On success the word count is the number of split words and the score is `calculate_jaundice_rate` of those words. |
| Server.OkRecordWordBound | server.py:46-50 | With `split_by_words` as the splitter, the reported word count never exceeds the whitespace-token count of the sanitised text. |
| Server.ResultList.constructor | server.py:66 | The shared result list starts empty. |
| Server.ResultList.Append | server.py:54-61 | Appending adds one record at the end and leaves every earlier record unchanged. |
| Server.ProcessArticle | server.py:24-61 | One call appends exactly one record, `ArticleRecord` of the URL, and leaves the earlier records unchanged. |
| Server.DeclaredValue | enums.py:5-7 | The enumeration as declared resolves only OK and FETCH_ERROR, each to its status string. |
| Server.ArticleRecordAsWritten | server.py:36-61 | As written, a record is appended exactly when its status is declared in the enumeration; when one is appended, it is the intended record. |
| Server.AsWrittenLosesRecords | server.py:37-43 | As written, a fetch timeout or a missing article appends no record, where the intended record has status TIMEOUT or PARSING_ERROR. |
| Server.AsWrittenTimeoutExample | server.py:37-38 | Concrete case: a URL whose fetch times out gets no record as written, and the record `(url, TIMEOUT, None, None)` in the corrected model. |
| Server.SplitOn | server.py:69 | `str.split(',')`: there is always at least one part. |
| Server.SplitOnParts | server.py:69 | No part contains a comma. |
| Server.SplitOnCount | server.py:69 | There is one part more than there are commas; empty parts are kept. |
| Server.JoinSplitOn | server.py:69 | Joining the parts with `','` gives back the original `urls` string. |
| Server.SplitJoinOn | server.py:69 | Splitting a join of comma-free parts gives the parts back. |
| Server.Records | server.py:74-76 | The batch holds one record per URL, the k-th being `ArticleRecord` of the k-th URL. |
| Server.RecordsCarryUrls | server.py:74-76 | The `URL` fields of the batch are the URLs asked for, and their multiset equals that of the input. |
| Server.QueryUrls | server.py:68-69 | The URLs of a query number the commas of its `urls` value plus one, and they join back to that value. |
| Server.HandleArticlesQuery | server.py:64-78 | An empty query gets an empty response. Otherwise the response is exactly one record per comma-separated URL: the loop keeps the list equal to the records of the URLs processed so far. |
| Server.ResponseMatchesQuery | server.py:68-76 | A non-empty query's response has (number of commas + 1) records, and its URL multiset equals the multiset of the comma-separated parts. |

## Left out

- The HTTP fetch (`fetch`, server.py:18-21), the `async_timeout` wiring and the sanitiser `adapters.SANITIZERS` are not modelled. Each is a function-valued field of `Pipeline` that returns an outcome. The adapters package is not part of this model.
- The morphology analyser `pymorphy2.MorphAnalyzer` is not modelled. It is the parameter `normalize`, a total function from a cleaned token to its normal form.
- `read_charged_words` (file I/O) and `count_runtime` (wall clock, logging) are not modelled. The charged words are a parameter.
- `round(score, 2)` is not modelled, because it is float rounding. `JaundiceRate` returns the exact `100 * count / length`.
- The anyio task group runs the article tasks concurrently, so the source promises no order of records. `HandleArticlesQuery` runs them sequentially, in URL order. The order-free statement (same URL multiset, one record per URL) is `ResponseMatchesQuery`.
- The `SplitOutcome` timeout stands for the `TimeoutError` branch of server.py:47-48. `split_by_words` itself never raises it; the outcome is modelled as the handler expects it.
- `web.json_response`, the request object and the conversion of the records to JSON are not modelled. A record's `http_status` string is `Status.Value`.
- HandleArticlesQuery: a non-empty query without `urls` raises `KeyError` in the source. The model excludes it by a precondition instead of modelling the error.
- `main.py` (the entry point) is not part of this model.
- The outcome datatypes are assumed to be exhaustive. `process_article` catches only `aiohttp.ClientResponseError` and `asyncio.TimeoutError` from the fetch (server.py:35-38) and `ArticleNotFound` from the sanitiser (server.py:42). Any other exception skips the append at server.py:54 and escapes the task. Examples are a connection error for an unreachable host, or an invalid-URL error for an empty part such as the middle one of `urls=a,,b`, which `SplitOn` keeps as a URL. The anyio task group (server.py:74-76) then cancels the sibling tasks and re-raises, so the handler raises and the client gets an HTTP 500 server error instead of the JSON list. The model's "one record per URL" holds only when every stage ends in a modelled outcome.
- There is no cap on the number of URLs in a query. None exists in the code, so none is modelled.

## Findings

| source | as written | input that shows it | evidently intended | confidence | as-written member | corrected member |
|---|---|---|---|---|---|---|
| server.py:37-48 with enums.py:5-7 | The handler reads `ProcessingStatus.TIMEOUT` and `ProcessingStatus.PARSING_ERROR`, but the enumeration declares only `OK` and `FETCH_ERROR`. The attribute lookup raises `AttributeError` before the append, so the URL gets no record. The exception escapes `process_article`, and the task group cancels the other article tasks and re-raises, so the handler raises and the client gets a server error instead of the JSON list. | Any URL whose fetch times out, or whose page the sanitiser cannot parse. | Every URL gets one record, with status `TIMEOUT` or `PARSING_ERROR`, and the query is answered. | high; not executed | Server.AsWrittenLosesRecords | Server.ProcessArticle |
