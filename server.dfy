/**
  The request side of the jaundice-rate service (server.py): scoring one
  article URL into a result record, and answering a query by scoring every
  URL of its comma-separated `urls` parameter.

  The network fetch, the HTML sanitiser and the word splitter are outside the
  model: each is a total function from its input to an outcome that says
  whether the stage succeeded and, if not, how it failed.
 */
module Server {
  import TextTools

  datatype Option<T> = None | Some(value: T)

  // ---------------------------------------------------------------------------
  // Stage outcomes and result records
  // ---------------------------------------------------------------------------

  /** What fetching a URL gives: the page text, an HTTP error status, or a timeout. */
  datatype FetchOutcome = Fetched(html: string) | BadStatus | FetchTimeout

  /** What the sanitiser gives: the article's plain text, or `ArticleNotFound`. */
  datatype SanitizeOutcome = Sanitized(text: string) | ArticleNotFound

  /** What the word splitter gives: the article's words, or a timeout. */
  datatype SplitOutcome = Split(words: seq<string>) | SplitTimeout

  /** The three external stages an article goes through, in order. */
  datatype Pipeline = Pipeline(
    fetch: string -> FetchOutcome,
    sanitize: string -> SanitizeOutcome,
    split: string -> SplitOutcome)

  /**
    The processing statuses the handler reports. The request code uses four,
    although the status enumeration declares only `OK` and `FETCH_ERROR`; see
    `DeclaredValue` for what the two missing members do to the code as written.
   */
  datatype Status = Ok | FetchError | ParsingError | Timeout
  {
    /** The string that goes into the record's `http_status` field. */
    function Value(): (v: string)
      ensures v == "OK" <==> this == Ok
      ensures v == "FETCH_ERROR" <==> this == FetchError
    {
      match this
      case Ok => "OK"
      case FetchError => "FETCH_ERROR"
      case ParsingError => "PARSING_ERROR"
      case Timeout => "TIMEOUT"
    }
  }

  /** Distinct statuses are reported as distinct strings. */
  lemma ValueInjective(s: Status, t: Status)
    ensures s.Value() == t.Value() <==> s == t
  {
  }

  /** One entry of the response: `URL`, `http_status`, `score`, `words_count`. */
  datatype ArticleResult = ArticleResult(
    url: string,
    status: Status,
    score: Option<real>,
    wordsCount: Option<nat>)

  // ---------------------------------------------------------------------------
  // process_article
  // ---------------------------------------------------------------------------

  /**
    The record `process_article` produces for `url`: the first stage that fails
    decides the status; only when all three succeed are the word count and the
    score filled in.
   */
  function ArticleRecord(p: Pipeline, charged: seq<string>, url: string): (r: ArticleResult)
    ensures r.url == url
    ensures r.score.Some? <==> r.status == Ok
    ensures r.wordsCount.Some? <==> r.status == Ok
    ensures r.status == Ok ==> 0.0 <= r.score.value <= 100.0
  {
    match p.fetch(url)
    case BadStatus => ArticleResult(url, FetchError, None, None)
    case FetchTimeout => ArticleResult(url, Timeout, None, None)
    case Fetched(html) =>
      match p.sanitize(html)
      case ArticleNotFound => ArticleResult(url, ParsingError, None, None)
      case Sanitized(text) =>
        match p.split(text)
        case SplitTimeout => ArticleResult(url, Timeout, None, None)
        case Split(words) =>
          ArticleResult(url, Ok, Some(TextTools.JaundiceRate(words, charged)), Some(|words|))
  }

  /** Which stage outcome leads to which status, in both directions. */
  lemma RecordStatus(p: Pipeline, charged: seq<string>, url: string)
    ensures ArticleRecord(p, charged, url).status == FetchError <==> p.fetch(url) == BadStatus
    ensures ArticleRecord(p, charged, url).status == ParsingError
      <==> p.fetch(url).Fetched? && p.sanitize(p.fetch(url).html) == ArticleNotFound
    ensures ArticleRecord(p, charged, url).status == Timeout
      <==> (p.fetch(url) == FetchTimeout
            || (p.fetch(url).Fetched? && p.sanitize(p.fetch(url).html).Sanitized?
                && p.split(p.sanitize(p.fetch(url).html).text) == SplitTimeout))
    ensures ArticleRecord(p, charged, url).status == Ok
      <==> (p.fetch(url).Fetched? && p.sanitize(p.fetch(url).html).Sanitized?
            && p.split(p.sanitize(p.fetch(url).html).text).Split?)
  {
  }

  /** A failed fetch decides the record: the sanitiser and the splitter are never consulted. */
  lemma FetchFailureSkipsLaterStages(p: Pipeline, q: Pipeline, charged: seq<string>, url: string)
    requires p.fetch(url) == q.fetch(url)
    requires !p.fetch(url).Fetched?
    ensures ArticleRecord(p, charged, url) == ArticleRecord(q, charged, url)
    ensures ArticleRecord(p, charged, url).status
      == (if p.fetch(url) == BadStatus then FetchError else Timeout)
  {
  }

  /** An article the sanitiser cannot find decides the record: the splitter is never consulted. */
  lemma ParsingErrorSkipsSplit(p: Pipeline, q: Pipeline, charged: seq<string>, url: string)
    requires p.fetch(url) == q.fetch(url)
    requires p.fetch(url).Fetched? && p.sanitize(p.fetch(url).html) == ArticleNotFound
    requires p.sanitize(p.fetch(url).html) == q.sanitize(p.fetch(url).html)
    ensures ArticleRecord(p, charged, url) == ArticleRecord(q, charged, url)
    ensures ArticleRecord(p, charged, url).status == ParsingError
  {
  }

  /** On success the record counts the split words and scores them against the charged words. */
  lemma OkRecordScoresWords(p: Pipeline, charged: seq<string>, url: string, words: seq<string>)
    requires p.fetch(url).Fetched? && p.sanitize(p.fetch(url).html).Sanitized?
    requires p.split(p.sanitize(p.fetch(url).html).text) == Split(words)
    ensures ArticleRecord(p, charged, url).status == Ok
    ensures ArticleRecord(p, charged, url).wordsCount == Some(|words|)
    ensures ArticleRecord(p, charged, url).score == Some(TextTools.JaundiceRate(words, charged))
  {
  }

  /**
    With the real splitter in the third stage, a successful record counts at
    most as many words as the sanitised text has whitespace tokens.
   */
  lemma OkRecordWordBound(p: Pipeline, normalize: string -> string, charged: seq<string>, url: string)
    requires forall text ::
      p.split(text) == Split(TextTools.KeptWords(TextTools.TokenForm(normalize), TextTools.Tokens(text)))
    requires ArticleRecord(p, charged, url).status == Ok
    ensures ArticleRecord(p, charged, url).wordsCount.value
      <= |TextTools.Tokens(p.sanitize(p.fetch(url).html).text)|
  {
    RecordStatus(p, charged, url);
  }

  /** The shared `analyzed_results` list the article tasks append to. */
  class ResultList {
    var items: seq<ArticleResult>

    constructor()
      ensures items == []
    {
      items := [];
    }

    /** `list.append`: one record at the end, every earlier record unchanged. */
    method Append(r: ArticleResult)
      modifies this
      ensures items == old(items) + [r]
    {
      items := items + [r];
    }
  }

  /**
    `process_article`: runs the stages in order, sets status, score and word
    count by the first failure, and appends exactly one record for `url`.
   */
  method ProcessArticle(p: Pipeline, charged: seq<string>, url: string, results: ResultList)
    modifies results
    ensures results.items == old(results.items) + [ArticleRecord(p, charged, url)]
  {
    var score: Option<real> := None;
    var wordsCount: Option<nat> := None;
    var status: Status;
    match p.fetch(url) {
      case BadStatus =>
        status := FetchError;
      case FetchTimeout =>
        status := Timeout;
      case Fetched(html) =>
        match p.sanitize(html) {
          case ArticleNotFound =>
            status := ParsingError;
          case Sanitized(text) =>
            match p.split(text) {
              case SplitTimeout =>
                status := Timeout;
              case Split(words) =>
                wordsCount := Some(|words|);
                score := Some(TextTools.JaundiceRate(words, charged));
                status := Ok;
            }
        }
    }
    results.Append(ArticleResult(url, status, score, wordsCount));
  }

  // ---------------------------------------------------------------------------
  // The status enumeration as declared
  // ---------------------------------------------------------------------------

  /**
    Looking a status up in the enumeration as it is declared (enums.py:5-7):
    only `OK` and `FETCH_ERROR` exist, so the other two lookups raise.
   */
  function DeclaredValue(s: Status): (v: Option<string>)
    ensures v.Some? <==> s == Ok || s == FetchError
    ensures v.Some? ==> v.value == s.Value()
  {
    match s
    case Ok => Some("OK")
    case FetchError => Some("FETCH_ERROR")
    case ParsingError => None
    case Timeout => None
  }

  /**
    The record `process_article` appends as written: when the chosen status is
    missing from the enumeration, the lookup raises before the append and no
    record is produced; the exception then escapes the article task and fails
    the whole query.
   */
  function ArticleRecordAsWritten(p: Pipeline, charged: seq<string>, url: string): (r: Option<ArticleResult>)
    ensures r.Some? ==> r.value == ArticleRecord(p, charged, url)
    ensures r.None? <==> ArticleRecord(p, charged, url).status in {ParsingError, Timeout}
  {
    var rec := ArticleRecord(p, charged, url);
    match DeclaredValue(rec.status)
    case None => None
    case Some(_) => Some(rec)
  }

  /**
    As written, a fetch timeout and an article the sanitiser cannot find both
    produce no record, where the intended code reports `TIMEOUT` and
    `PARSING_ERROR` for the URL.
   */
  lemma AsWrittenLosesRecords(p: Pipeline, charged: seq<string>, url: string)
    requires p.fetch(url) == FetchTimeout
      || (p.fetch(url).Fetched? && p.sanitize(p.fetch(url).html) == ArticleNotFound)
    ensures ArticleRecordAsWritten(p, charged, url) == None
    ensures ArticleRecord(p, charged, url).status
      == (if p.fetch(url) == FetchTimeout then Timeout else ParsingError)
  {
  }

  /** A concrete input: a URL whose fetch times out gets a record only in the corrected model. */
  lemma AsWrittenTimeoutExample()
    ensures ArticleRecordAsWritten(TimeoutPipeline(), [], "https://inosmi.ru/x.html") == None
    ensures ArticleRecord(TimeoutPipeline(), [], "https://inosmi.ru/x.html")
      == ArticleResult("https://inosmi.ru/x.html", Timeout, None, None)
  {
  }

  /** A pipeline whose every fetch times out. */
  function TimeoutPipeline(): Pipeline {
    Pipeline(_ => FetchTimeout, html => Sanitized(html), _ => Split([]))
  }

  // ---------------------------------------------------------------------------
  // str.split(',')
  // ---------------------------------------------------------------------------

  /**
    Python's `s.split(sep)` for a one-character separator: every occurrence
    separates, so empty parts are kept and there is always at least one part.
   */
  function SplitOn(s: string, sep: char): (parts: seq<string>)
    ensures |parts| >= 1
    decreases |s|
  {
    if s == [] then [""]
    else
      var rest := SplitOn(s[1..], sep);
      if s[0] == sep then [""] + rest
      else [[s[0]] + rest[0]] + rest[1..]
  }

  /** `sep.join(parts)`. */
  function JoinOn(parts: seq<string>, sep: char): string
    requires |parts| >= 1
    decreases |parts|
  {
    if |parts| == 1 then parts[0] else parts[0] + [sep] + JoinOn(parts[1..], sep)
  }

  /** No part contains the separator. */
  lemma {:induction false} SplitOnParts(s: string, sep: char)
    ensures forall k :: 0 <= k < |SplitOn(s, sep)| ==> sep !in SplitOn(s, sep)[k]
    decreases |s|
  {
    if s != [] {
      SplitOnParts(s[1..], sep);
    }
  }

  /** There is one part more than there are separators. */
  lemma {:induction false} SplitOnCount(s: string, sep: char)
    ensures |SplitOn(s, sep)| == multiset(s)[sep] + 1
    decreases |s|
  {
    if s != [] {
      SplitOnCount(s[1..], sep);
      assert s == [s[0]] + s[1..];
      assert multiset(s) == multiset{s[0]} + multiset(s[1..]);
    }
  }

  /** Joining the parts with the separator gives the original string back. */
  lemma {:induction false} JoinSplitOn(s: string, sep: char)
    ensures JoinOn(SplitOn(s, sep), sep) == s
    decreases |s|
  {
    if s != [] {
      var rest := SplitOn(s[1..], sep);
      JoinSplitOn(s[1..], sep);
      if s[0] == sep {
        assert ([""] + rest)[1..] == rest;
      } else {
        var parts := [[s[0]] + rest[0]] + rest[1..];
        if |rest| == 1 {
          assert parts == [[s[0]] + rest[0]];
        } else {
          assert parts[1..] == rest[1..];
          assert JoinOn(rest, sep) == rest[0] + [sep] + JoinOn(rest[1..], sep);
        }
      }
    }
  }

  /** Splitting a join of separator-free parts gives the parts back. */
  lemma {:induction false} SplitJoinOn(parts: seq<string>, sep: char)
    requires |parts| >= 1
    requires forall k :: 0 <= k < |parts| ==> sep !in parts[k]
    ensures SplitOn(JoinOn(parts, sep), sep) == parts
    decreases |parts|
  {
    if |parts| == 1 {
      SplitPlainWord(parts[0], sep, []);
      assert parts[0] + [] == parts[0];
    } else {
      SplitJoinOn(parts[1..], sep);
      var tail := [sep] + JoinOn(parts[1..], sep);
      assert SplitOn(tail, sep) == [""] + parts[1..] by {
        assert tail[1..] == JoinOn(parts[1..], sep);
      }
      SplitPlainWord(parts[0], sep, tail);
      assert parts[0] + [sep] + JoinOn(parts[1..], sep) == parts[0] + tail;
      assert parts[0] + "" == parts[0];
      assert [parts[0]] + parts[1..] == parts;
    }
  }

  /** A separator-free prefix joins the first part of whatever follows it. */
  lemma {:induction false} SplitPlainWord(w: string, sep: char, t: string)
    requires sep !in w
    ensures SplitOn(w + t, sep) == [w + SplitOn(t, sep)[0]] + SplitOn(t, sep)[1..]
    decreases |w|
  {
    if w != [] {
      SplitPlainWord(w[1..], sep, t);
      assert (w + t)[1..] == w[1..] + t;
      assert [w[0]] + (w[1..] + SplitOn(t, sep)[0]) == w + SplitOn(t, sep)[0];
    } else {
      assert w + t == t;
      assert w + SplitOn(t, sep)[0] == SplitOn(t, sep)[0];
      assert SplitOn(t, sep) == [SplitOn(t, sep)[0]] + SplitOn(t, sep)[1..];
    }
  }

  // ---------------------------------------------------------------------------
  // handle_articles_query
  // ---------------------------------------------------------------------------

  /** One record per URL, in URL order. */
  function Records(p: Pipeline, charged: seq<string>, urls: seq<string>): (rs: seq<ArticleResult>)
    ensures |rs| == |urls|
    ensures forall k :: 0 <= k < |urls| ==> rs[k] == ArticleRecord(p, charged, urls[k])
    decreases |urls|
  {
    if urls == [] then []
    else Records(p, charged, urls[..|urls| - 1]) + [ArticleRecord(p, charged, urls[|urls| - 1])]
  }

  /** The `URL` fields of a response, in order. */
  function Urls(rs: seq<ArticleResult>): (us: seq<string>)
    ensures |us| == |rs|
  {
    seq(|rs|, k requires 0 <= k < |rs| => rs[k].url)
  }

  /** The records carry exactly the URLs asked for, each as often as it was asked for. */
  lemma RecordsCarryUrls(p: Pipeline, charged: seq<string>, urls: seq<string>)
    ensures Urls(Records(p, charged, urls)) == urls
    ensures multiset(Urls(Records(p, charged, urls))) == multiset(urls)
  {
    var rs := Records(p, charged, urls);
    forall k | 0 <= k < |urls|
      ensures Urls(rs)[k] == urls[k]
    {
      assert rs[k] == ArticleRecord(p, charged, urls[k]);
    }
  }

  /** The URLs a non-empty query asks for: its `urls` value split on commas. */
  function QueryUrls(query: map<string, string>): (urls: seq<string>)
    requires "urls" in query
    ensures |urls| == multiset(query["urls"])[','] + 1
    ensures JoinOn(urls, ',') == query["urls"]
  {
    SplitOnCount(query["urls"], ',');
    JoinSplitOn(query["urls"], ',');
    SplitOn(query["urls"], ',')
  }

  /**
    `handle_articles_query`: an empty query gets an empty list; otherwise one
    article task per comma-separated URL appends its record to a shared list,
    which becomes the response. A query without `urls` raises in the source;
    here it is excluded by the precondition.
   */
  method HandleArticlesQuery(query: map<string, string>, p: Pipeline, charged: seq<string>)
    returns (response: seq<ArticleResult>)
    requires query != map[] ==> "urls" in query
    ensures query == map[] ==> response == []
    ensures query != map[] ==> response == Records(p, charged, QueryUrls(query))
  {
    var analyzed := new ResultList();
    if query != map[] {
      var urls := QueryUrls(query);
      for i := 0 to |urls|
        invariant analyzed.items == Records(p, charged, urls[..i])
      {
        ProcessArticle(p, charged, urls[i], analyzed);
        assert urls[..i + 1][..i] == urls[..i];
      }
      assert urls[..|urls|] == urls;
    }
    response := analyzed.items;
  }

  /** A non-empty query gets one record per comma-separated URL, carrying those URLs. */
  lemma ResponseMatchesQuery(query: map<string, string>, p: Pipeline, charged: seq<string>)
    requires "urls" in query
    ensures |Records(p, charged, QueryUrls(query))| == multiset(query["urls"])[','] + 1
    ensures multiset(Urls(Records(p, charged, QueryUrls(query)))) == multiset(SplitOn(query["urls"], ','))
  {
    RecordsCarryUrls(p, charged, QueryUrls(query));
  }
}
