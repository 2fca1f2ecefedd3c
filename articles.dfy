/**
 * `get_article_content`, `process_article` and the fan-out of one day's items: an article's
 * text through the retry wrapper, and the row appended exactly when that text is non-empty.
 */
module Articles {
  import opened Wrappers
  import opened Retry
  import opened Site
  import opened Output
  import Whitespace

  /** Python truthiness of what get_article_content returns: neither None nor "". */
  predicate Truthy(c: Option<string>) {
    c.Some? && c.value != ""
  }

  /**
   * get_article_content on the outcome of the retry wrapper: the cleaned text of the body
   * block; "" when the page has no body block or when the wrapper raised anything (the
   * `except Exception`), so it never raises; None only when no attempt was made.
   */
  function ArticleContent(cfg: Config, r: RetryResult<Option<string>>): (c: Option<string>)
    ensures c.None? <==> r.NoAttempt?
    ensures r.RaisedNetwork? || r.RaisedOther? ==> c == Some("")
    ensures Truthy(c) <==> r.Value? && r.v.Some? && cfg.clean(r.v.value) != ""
    ensures Truthy(c) ==> c.value == cfg.clean(r.v.value)
  {
    match r
    case Value(body) => Some(if body.Some? then cfg.clean(body.value) else "")
    case NoAttempt => None
    case _ => Some("")
  }

  /** get_article_content: one retry run of the article's request. */
  method GetArticleContent(cfg: Config, s: Session, url: string) returns (content: Option<string>)
    modifies s
    ensures var t := RetryCall(s.articles(url), |old(s.requests)|, cfg.maxRetries, cfg.retryDelay);
      && content == ArticleContent(cfg, t.result)
      && s.requests == old(s.requests) + Repeat(Article(url), t.attempts)
      && s.waits == old(s.waits) + t.waits
  {
    var r := RetryRequest(s, Article(url), s.articles(url), cfg.maxRetries, cfg.retryDelay);
    content := ArticleContent(cfg, r);
  }

  /**
   * process_article: fetches the article and appends the row [fecha, titular, contenido,
   * seccion, url] exactly when the text is non-empty; the result says whether it did.
   */
  method ProcessArticle(cfg: Config, s: Session, f: TsvFile, item: NewsItem)
    returns (ok: bool, ghost content: Option<string>)
    requires f.Valid()
    modifies s, f
    ensures var t := RetryCall(s.articles(item.url), |old(s.requests)|, cfg.maxRetries, cfg.retryDelay);
      && content == ArticleContent(cfg, t.result)
      && s.requests == old(s.requests) + Repeat(Article(item.url), t.attempts)
      && s.waits == old(s.waits) + t.waits
    ensures ok == Truthy(content)
    ensures f.Valid() && f.rows == old(f.rows) + (if ok then [Row(item, content.value)] else [])
    ensures f.present == (old(f.present) || ok)
  {
    var text := GetArticleContent(cfg, s, item.url);
    content := text;
    ok := text.Some? && text.value != "";
    if ok {
      f.Append(Row(item, text.value));
    }
  }

  /** The rows a day's items give, in item order, given each item's article text. */
  function Saved(news: seq<NewsItem>, contents: seq<Option<string>>): (rows: seq<seq<string>>)
    requires |contents| == |news|
    ensures |rows| <= |news|
  {
    if news == [] then []
    else
      var k := |news| - 1;
      Saved(news[..k], contents[..k]) + (if Truthy(contents[k]) then [Row(news[k], contents[k].value)] else [])
  }

  /** The number of items whose article text is non-empty. */
  function Successes(contents: seq<Option<string>>): nat {
    if contents == [] then 0
    else Successes(contents[..|contents| - 1]) + (if Truthy(contents[|contents| - 1]) then 1 else 0)
  }

  /**
   * Exactly one row per item with a non-empty text: the saved rows are as many as the
   * successes, each has the five columns with a non-empty `contenido`, and each is the row of
   * one of the day's items.
   */
  lemma {:induction false} SavedRows(news: seq<NewsItem>, contents: seq<Option<string>>)
    requires |contents| == |news|
    ensures |Saved(news, contents)| == Successes(contents)
    ensures forall r :: r in Saved(news, contents) ==>
      |r| == 5 && r[2] != "" && exists k :: 0 <= k < |news| && Truthy(contents[k]) && r == Row(news[k], contents[k].value)
  {
    if news != [] {
      var k := |news| - 1;
      SavedRows(news[..k], contents[..k]);
      assert contents[..k] == contents[..|contents| - 1];
      forall r | r in Saved(news, contents)
        ensures |r| == 5 && r[2] != "" && exists j :: 0 <= j < |news| && Truthy(contents[j]) && r == Row(news[j], contents[j].value)
      {
        if r in Saved(news[..k], contents[..k]) {
          var j :| 0 <= j < k && Truthy(contents[..k][j]) && r == Row(news[..k][j], contents[..k][j].value);
          assert news[..k][j] == news[j] && contents[..k][j] == contents[j];
        }
      }
    }
  }

  /** No success, no row; every item a success, one row per item. */
  lemma SavedBounds(news: seq<NewsItem>, contents: seq<Option<string>>)
    requires |contents| == |news|
    ensures Successes(contents) <= |news|
    ensures Successes(contents) == 0 ==> Saved(news, contents) == []
    ensures (forall k :: 0 <= k < |news| ==> Truthy(contents[k])) ==> Successes(contents) == |news|
  {
    SavedRows(news, contents);
    if forall k :: 0 <= k < |news| ==> Truthy(contents[k]) {
      AllSuccesses(contents);
    }
  }

  lemma {:induction false} AllSuccesses(contents: seq<Option<string>>)
    requires forall k :: 0 <= k < |contents| ==> Truthy(contents[k])
    ensures Successes(contents) == |contents|
  {
    if contents != [] {
      AllSuccesses(contents[..|contents| - 1]);
    }
  }

  /**
   * The first |contents| items of `news` were fetched: item k's text is the outcome of its
   * own retry run, whose first request was the session's request number marks[k], and every
   * such number lies in lo .. hi.
   */
  ghost predicate Fetched(cfg: Config, articles: string -> (nat -> CallOutcome<Option<string>>), news: seq<NewsItem>,
                          contents: seq<Option<string>>, marks: seq<nat>, lo: nat, hi: nat)
  {
    && |contents| == |marks| <= |news|
    && (forall k :: 0 <= k < |contents| ==>
         contents[k] == ArticleContent(cfg, RetryCall(articles(news[k].url), marks[k], cfg.maxRetries, cfg.retryDelay).result))
    && (forall k :: 0 <= k < |marks| ==> lo <= marks[k] <= hi)
  }

  /** The backoff sleeps of the retry runs of the first |marks| items, item k's run beginning at request marks[k]. */
  function FetchWaits(cfg: Config, articles: string -> (nat -> CallOutcome<Option<string>>), news: seq<NewsItem>,
                      marks: seq<nat>): seq<int>
    requires |marks| <= |news|
  {
    if marks == [] then []
    else
      var k := |marks| - 1;
      FetchWaits(cfg, articles, news, marks[..k]) + RetryCall(articles(news[k].url), marks[k], cfg.maxRetries, cfg.retryDelay).waits
  }

  /** The requests of the retry runs of the first |marks| items, item k's run beginning at request marks[k]. */
  function FetchRequests(cfg: Config, articles: string -> (nat -> CallOutcome<Option<string>>), news: seq<NewsItem>,
                         marks: seq<nat>): seq<Request>
    requires |marks| <= |news|
  {
    if marks == [] then []
    else
      var k := |marks| - 1;
      FetchRequests(cfg, articles, news, marks[..k])
        + Repeat(Article(news[k].url), RetryCall(articles(news[k].url), marks[k], cfg.maxRetries, cfg.retryDelay).attempts)
  }

  /** Each item's run began at request `lo` plus the requests of the runs before it: one run after another. */
  ghost predicate Consecutive(cfg: Config, articles: string -> (nat -> CallOutcome<Option<string>>), news: seq<NewsItem>,
                              marks: seq<nat>, lo: nat)
    requires |marks| <= |news|
    decreases |marks|
  {
    marks != [] ==>
      var k := |marks| - 1;
      Consecutive(cfg, articles, news, marks[..k], lo) && marks[k] == lo + |FetchRequests(cfg, articles, news, marks[..k])|
  }

  /** The requests after one more item's run, begun where the runs before it ended. */
  lemma FetchRequestsSnoc(cfg: Config, articles: string -> (nat -> CallOutcome<Option<string>>), news: seq<NewsItem>,
                          marks: seq<nat>, lo: nat, mark: nat)
    requires |marks| < |news| && Consecutive(cfg, articles, news, marks, lo)
    requires mark == lo + |FetchRequests(cfg, articles, news, marks)|
    ensures FetchRequests(cfg, articles, news, marks + [mark])
      == FetchRequests(cfg, articles, news, marks)
         + Repeat(Article(news[|marks|].url), RetryCall(articles(news[|marks|].url), mark, cfg.maxRetries, cfg.retryDelay).attempts)
    ensures Consecutive(cfg, articles, news, marks + [mark], lo)
  {
    assert (marks + [mark])[..|marks|] == marks;
  }

  /** The sleeps after one more item's run. */
  lemma FetchWaitsSnoc(cfg: Config, articles: string -> (nat -> CallOutcome<Option<string>>), news: seq<NewsItem>,
                       marks: seq<nat>, mark: nat)
    requires |marks| < |news|
    ensures FetchWaits(cfg, articles, news, marks + [mark])
      == FetchWaits(cfg, articles, news, marks) + RetryCall(articles(news[|marks|].url), mark, cfg.maxRetries, cfg.retryDelay).waits
  {
    assert (marks + [mark])[..|marks|] == marks;
  }

  /** One more item fetched by the run starting at request `mark`. */
  lemma FetchedSnoc(cfg: Config, articles: string -> (nat -> CallOutcome<Option<string>>), news: seq<NewsItem>,
                    contents: seq<Option<string>>, marks: seq<nat>, lo: nat, hi: nat, c: Option<string>, mark: nat, hi': nat)
    requires Fetched(cfg, articles, news, contents, marks, lo, hi) && |contents| < |news|
    requires c == ArticleContent(cfg, RetryCall(articles(news[|contents|].url), mark, cfg.maxRetries, cfg.retryDelay).result)
    requires lo <= hi <= mark <= hi'
    ensures Fetched(cfg, articles, news, contents + [c], marks + [mark], lo, hi')
  {
  }

  /**
   * The executor over a day's items, one item after another: each item's text is the outcome
   * of its own retry run, the runs one after another from the session's next request; the
   * requests and the sleeps are those of the runs in item order; the file gets
   * Saved(news, contents) at its end, and the count is the number of rows added.
   */
  method ProcessDay(cfg: Config, s: Session, f: TsvFile, news: seq<NewsItem>)
    returns (successful: nat, ghost contents: seq<Option<string>>, ghost marks: seq<nat>)
    requires f.Valid()
    modifies s, f
    ensures |contents| == |news|
    ensures Fetched(cfg, s.articles, news, contents, marks, |old(s.requests)|, |s.requests|)
    ensures Consecutive(cfg, s.articles, news, marks, |old(s.requests)|)
    ensures s.requests == old(s.requests) + FetchRequests(cfg, s.articles, news, marks)
    ensures s.waits == old(s.waits) + FetchWaits(cfg, s.articles, news, marks)
    ensures f.Valid() && f.rows == old(f.rows) + Saved(news, contents)
    ensures successful == Successes(contents)
    ensures f.present == (old(f.present) || successful > 0)
  {
    successful := 0;
    contents := [];
    marks := [];
    for i := 0 to |news|
      invariant |contents| == i
      invariant Fetched(cfg, s.articles, news, contents, marks, |old(s.requests)|, |s.requests|)
      invariant Consecutive(cfg, s.articles, news, marks, |old(s.requests)|)
      invariant s.requests == old(s.requests) + FetchRequests(cfg, s.articles, news, marks)
      invariant s.waits == old(s.waits) + FetchWaits(cfg, s.articles, news, marks)
      invariant f.Valid() && f.rows == old(f.rows) + Saved(news[..i], contents)
      invariant successful == Successes(contents)
      invariant f.present == (old(f.present) || successful > 0)
    {
      successful, contents, marks := ProcessNext(cfg, s, f, news, i, successful, contents, marks,
                                                 old(s.requests), old(s.waits), old(f.rows), old(f.present));
    }
    assert news[..|news|] == news;
  }

  /** One iteration of ProcessDay: item i is processed and the bookkeeping extended. */
  method ProcessNext(cfg: Config, s: Session, f: TsvFile, news: seq<NewsItem>, i: nat, successful: nat,
                     ghost contents: seq<Option<string>>, ghost marks: seq<nat>,
                     ghost requests0: seq<Request>, ghost waits0: seq<int>, ghost rows0: seq<seq<string>>, ghost present0: bool)
    returns (successful': nat, ghost contents': seq<Option<string>>, ghost marks': seq<nat>)
    requires i == |contents| < |news|
    requires Fetched(cfg, s.articles, news, contents, marks, |requests0|, |s.requests|)
    requires Consecutive(cfg, s.articles, news, marks, |requests0|)
    requires s.requests == requests0 + FetchRequests(cfg, s.articles, news, marks)
    requires s.waits == waits0 + FetchWaits(cfg, s.articles, news, marks)
    requires f.Valid() && f.rows == rows0 + Saved(news[..|contents|], contents)
    requires successful == Successes(contents)
    requires f.present == (present0 || successful > 0)
    modifies s, f
    ensures |contents'| == |contents| + 1
    ensures Fetched(cfg, s.articles, news, contents', marks', |requests0|, |s.requests|)
    ensures Consecutive(cfg, s.articles, news, marks', |requests0|)
    ensures s.requests == requests0 + FetchRequests(cfg, s.articles, news, marks')
    ensures s.waits == waits0 + FetchWaits(cfg, s.articles, news, marks')
    ensures f.Valid() && f.rows == rows0 + Saved(news[..|contents'|], contents')
    ensures successful' == Successes(contents')
    ensures f.present == (present0 || successful' > 0)
  {
    ghost var before := s.requests;
    var ok;
    ghost var c;
    ok, c := ProcessArticle(cfg, s, f, news[i]);
    FetchedSnoc(cfg, s.articles, news, contents, marks, |requests0|, |before|, c, |before|, |s.requests|);
    FetchLogsStep(cfg, s.articles, news, marks, requests0, waits0, before, old(s.waits), s.requests, s.waits);
    SavedSnoc(news, contents, c, i);
    contents' := contents + [c];
    marks' := marks + [|before|];
    assert contents'[..i] == contents;
    successful' := if ok then successful + 1 else successful;
  }

  /** The request and sleep logs after one more item's run, begun at the session's next request. */
  lemma FetchLogsStep(cfg: Config, articles: string -> (nat -> CallOutcome<Option<string>>), news: seq<NewsItem>,
                      marks: seq<nat>, requests0: seq<Request>, waits0: seq<int>,
                      requests1: seq<Request>, waits1: seq<int>, requests2: seq<Request>, waits2: seq<int>)
    requires |marks| < |news| && Consecutive(cfg, articles, news, marks, |requests0|)
    requires requests1 == requests0 + FetchRequests(cfg, articles, news, marks)
    requires waits1 == waits0 + FetchWaits(cfg, articles, news, marks)
    requires var t := RetryCall(articles(news[|marks|].url), |requests1|, cfg.maxRetries, cfg.retryDelay);
      && requests2 == requests1 + Repeat(Article(news[|marks|].url), t.attempts)
      && waits2 == waits1 + t.waits
    ensures Consecutive(cfg, articles, news, marks + [|requests1|], |requests0|)
    ensures requests2 == requests0 + FetchRequests(cfg, articles, news, marks + [|requests1|])
    ensures waits2 == waits0 + FetchWaits(cfg, articles, news, marks + [|requests1|])
  {
    var url := news[|marks|].url;
    var t := RetryCall(articles(url), |requests1|, cfg.maxRetries, cfg.retryDelay);
    FetchRequestsSnoc(cfg, articles, news, marks, |requests0|, |requests1|);
    FetchWaitsSnoc(cfg, articles, news, marks, |requests1|);
    Whitespace.Regroup(requests0, FetchRequests(cfg, articles, news, marks), Repeat(Article(url), t.attempts));
    Whitespace.Regroup(waits0, FetchWaits(cfg, articles, news, marks), t.waits);
  }

  lemma PrefixGrows<T>(a: seq<T>, b: seq<T>, c: seq<T>)
    requires a <= b && b <= c
    ensures a <= c
  {
    assert c[..|a|] == c[..|b|][..|a|];
  }

  lemma SavedSnoc(news: seq<NewsItem>, contents: seq<Option<string>>, c: Option<string>, i: nat)
    requires i < |news| && |contents| == i
    ensures Saved(news[..i + 1], contents + [c])
      == Saved(news[..i], contents) + (if Truthy(c) then [Row(news[i], c.value)] else [])
  {
    assert news[..i + 1][..i] == news[..i];
    assert (contents + [c])[..i] == contents;
  }
}
