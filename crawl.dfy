/**
 * `extract_historical` and `extract` of both scrapers: the start day and file mode chosen by
 * the resume read, the per-day loop over current_date, empty_attempts, total_news and
 * days_processed, and the single-day extraction.
 */
module Crawl {
  import opened Wrappers
  import opened Calendar
  import opened Retry
  import opened Site
  import opened Listing
  import opened Output
  import opened Articles
  import Whitespace

  /** The loop's variables: current_date, empty_attempts, total_news, days_processed. */
  datatype Cursor = Cursor(current: Day, emptyAttempts: nat, totalNews: nat, daysProcessed: nat)

  /**
   * What one pass of the loop met: get_news_list returned None (`Failed`), an empty list
   * (`Empty`), or a non-empty list of which `saved` articles were written (`Found`).
   */
  datatype DayResult = Failed | Empty | Found(saved: nat)

  /** `current_date -= timedelta(days=1)`; at 0001-01-01 that raises and the date stays. */
  function Back(d: Day): Day {
    match PrevDay(d)
    case Some(q) => q
    case None => d
  }

  /** The step back is one day back, except at 0001-01-01, where the date stays. */
  lemma BackOrdinal(d: Day)
    ensures d == Epoch ==> Back(d) == d
    ensures d != Epoch ==> Ordinal(Back(d)) == Ordinal(d) - 1
  {
    PrevDayOrdinal(d);
  }

  /**
   * One pass of the while loop. A None list changes nothing (the loop sleeps and continues).
   * Otherwise an empty list counts one more empty attempt and a non-empty one resets the count
   * and adds the articles saved; then the day counts as processed and the date steps back.
   */
  function Step(c: Cursor, r: DayResult): (n: Cursor)
    ensures r.Failed? ==> n == c
    ensures r.Empty? ==> n.emptyAttempts == c.emptyAttempts + 1 && n.totalNews == c.totalNews
    ensures r.Found? ==> n.emptyAttempts == 0 && n.totalNews == c.totalNews + r.saved
    ensures !r.Failed? ==> n.daysProcessed == c.daysProcessed + 1 && n.current == Back(c.current)
  {
    match r
    case Failed => c
    case Empty => Cursor(Back(c.current), c.emptyAttempts + 1, c.totalNews, c.daysProcessed + 1)
    case Found(saved) => Cursor(Back(c.current), 0, c.totalNews + saved, c.daysProcessed + 1)
  }

  /** The cursor after the passes that met `results`, in order. */
  function Run(c: Cursor, results: seq<DayResult>): Cursor {
    if results == [] then c else Step(Run(c, results[..|results| - 1]), results[|results| - 1])
  }

  /** The loop goes on while empty_attempts < max_empty_attempts. */
  predicate Live(c: Cursor, maxEmpty: int) {
    c.emptyAttempts < maxEmpty
  }

  /** The passes that moved on to the previous day: those whose list was not None. */
  function Moves(results: seq<DayResult>): nat {
    if results == [] then 0
    else Moves(results[..|results| - 1]) + (if results[|results| - 1].Failed? then 0 else 1)
  }

  /** The articles saved over the passes. */
  function SavedSum(results: seq<DayResult>): nat {
    if results == [] then 0
    else SavedSum(results[..|results| - 1]) + (if results[|results| - 1].Found? then results[|results| - 1].saved else 0)
  }

  /** `k` steps back from `d`. */
  function BackN(d: Day, k: nat): Day {
    if k == 0 then d else Back(BackN(d, k - 1))
  }

  /** Stepping back k days lowers the day number by k, unless 0001-01-01 stopped it. */
  lemma {:induction false} BackNExact(d: Day, k: nat)
    ensures BackN(d, k) != Epoch ==> Ordinal(BackN(d, k)) == Ordinal(d) - k
  {
    if k > 0 {
      BackNExact(d, k - 1);
      BackOrdinal(BackN(d, k - 1));
    }
  }

  /**
   * What the counters add up to: days_processed counts the passes whose list was not None,
   * total_news the articles saved, and the date has stepped back once per such pass.
   */
  lemma {:induction false} RunCounts(c: Cursor, results: seq<DayResult>)
    ensures Run(c, results).daysProcessed == c.daysProcessed + Moves(results)
    ensures Run(c, results).totalNews == c.totalNews + SavedSum(results)
    ensures Run(c, results).current == BackN(c.current, Moves(results))
  {
    if results != [] {
      RunCounts(c, results[..|results| - 1]);
    }
  }

  /** Connection errors alone leave the cursor as it was. */
  lemma {:induction false} FailuresKeep(c: Cursor, results: seq<DayResult>)
    requires forall k :: 0 <= k < |results| ==> results[k].Failed?
    ensures Run(c, results) == c
  {
    if results != [] {
      FailuresKeep(c, results[..|results| - 1]);
    }
  }

  /**
   * A run of empty days from a fresh count: after k of them empty_attempts is k and the date
   * is k days back.
   */
  lemma {:induction false} EmptyDays(c: Cursor, results: seq<DayResult>)
    requires c.emptyAttempts == 0
    requires forall k :: 0 <= k < |results| ==> results[k] == Empty
    ensures Run(c, results).emptyAttempts == |results|
    ensures Run(c, results).current == BackN(c.current, |results|)
  {
    if results != [] {
      EmptyDays(c, results[..|results| - 1]);
    }
  }

  /**
   * With no news at all, the loop takes the start day and the days before it, one each,
   * and stops after exactly max_empty_attempts of them (none when that is not positive).
   */
  lemma EmptyDaysStop(c: Cursor, results: seq<DayResult>, maxEmpty: int)
    requires c.emptyAttempts == 0
    requires forall k :: 0 <= k < |results| ==> results[k] == Empty
    ensures (forall k :: 0 <= k < |results| ==> Live(Run(c, results[..k]), maxEmpty)) && !Live(Run(c, results), maxEmpty)
      <==> |results| == (if maxEmpty < 0 then 0 else maxEmpty)
  {
    forall k | 0 <= k <= |results|
      ensures Run(c, results[..k]).emptyAttempts == k
    {
      EmptyDays(c, results[..k]);
    }
    EmptyDays(c, results);
    if |results| > 0 {
      assert Run(c, results[..|results| - 1]).emptyAttempts == |results| - 1;
    }
  }

  /** Where a run starts: a day and whether the file is appended to, or the resume step overflowed. */
  datatype Start = Begin(date: Day, append: bool) | ResumeOverflow

  /**
   * The start of extract_historical. With `resume` set and the file present, the date read
   * from its first data row (`last`) minus one day, in append mode; subtracting from
   * 0001-01-01 raises out of the method. Otherwise the given start date, else today, and the
   * file is rewritten.
   */
  function Plan(resume: bool, present: bool, last: Option<Day>, startDate: Option<Day>, now: Day): (p: Start)
    ensures p.ResumeOverflow? <==> resume && present && last == Some(Epoch)
    ensures p.Begin? && p.append <==> resume && present && last.Some? && last.value != Epoch
    ensures p.Begin? && p.append ==> PrevDay(last.value) == Some(p.date)
    ensures p.Begin? && !p.append ==> p.date == startDate.GetOr(now)
  {
    if resume && present && last.Some? then
      match PrevDay(last.value)
      case Some(d) => Begin(d, true)
      case None => ResumeOverflow
    else
      Begin(startDate.GetOr(now), false)
  }

  /**
   * Resuming walks again over days already saved. The loop writes newest day first, so the
   * first data row holds the newest day d0 of the earlier run; when that run also saved an
   * older day dk, the resumed run starts at d0 minus one day, which is not older than dk.
   */
  lemma ResumeRewalks(rows: seq<seq<string>>, item: NewsItem, content: string, d0: Day, dk: Day,
                      shown: string -> string, fallback: string -> Option<Day>, suffix: string,
                      startDate: Option<Day>, now: Day)
    requires |rows| >= 2 && rows[0] == Header && rows[1] == Row(item, content)
    requires item.fecha == Format(d0)
    requires shown(Format(d0)) == Format(d0) + suffix && (suffix == [] || suffix[0] == ' ')
    requires Ordinal(dk) < Ordinal(d0)
    ensures var p := Plan(true, true, LastDate(true, rows, shown, fallback), startDate, now);
      && p.Begin? && p.append
      && Ordinal(dk) <= Ordinal(p.date) == Ordinal(d0) - 1
  {
    ResumeRoundTrip(rows, item, content, d0, shown, fallback, suffix);
    ResumeBefore(d0, dk, startDate, now);
  }

  lemma ResumeBefore(d0: Day, dk: Day, startDate: Option<Day>, now: Day)
    requires Ordinal(dk) < Ordinal(d0)
    ensures var p := Plan(true, true, Some(d0), startDate, now);
      && p.Begin? && p.append && Ordinal(dk) <= Ordinal(p.date) == Ordinal(d0) - 1
  {
    LaterNotEpoch(d0, dk);
    PlanResumes(d0, startDate, now);
  }

  /** A day after some other day is not 0001-01-01. */
  lemma LaterNotEpoch(d0: Day, dk: Day)
    requires Ordinal(dk) < Ordinal(d0)
    ensures d0 != Epoch
  {
    OrdinalPositive(dk);
  }

  /** A resume from any day but 0001-01-01 appends from the day before it. */
  lemma PlanResumes(d0: Day, startDate: Option<Day>, now: Day)
    requires d0 != Epoch
    ensures var p := Plan(true, true, Some(d0), startDate, now);
      p.Begin? && p.append && Ordinal(p.date) == Ordinal(d0) - 1
  {
    PrevDayOrdinal(d0);
  }

  /**
   * What one pass of the loop read from the site: the day it asked for; the session's request
   * numbers when the pass began and ended; the retry runs of the archive pages it read and the
   * list get_news_list made of them; and, on a non-empty day, each item's article text with the
   * request number its retry run began at.
   */
  datatype PassLog = PassLog(day: Day, start: nat, end: nat, traces: seq<Trace<Page>>, news: Option<seq<NewsItem>>,
                             contents: seq<Option<string>>, marks: seq<nat>)

  /** What the loop made of the pass: a None list, an empty one, or a non-empty one and its successes. */
  function Outcome(p: PassLog): DayResult {
    match p.news
    case None => Failed
    case Some(news) => if news == [] then Empty else Found(Successes(p.contents))
  }

  /** The rows the pass appended: those of the listed items whose article text was non-empty. */
  function PassRows(p: PassLog): seq<seq<string>> {
    if p.news.Some? && |p.contents| == |p.news.value| then Saved(p.news.value, p.contents) else []
  }

  /**
   * The sleeps of a pass before the loop's own: the backoffs of its listing run, then, on a
   * non-empty day, those of each item's article run in item order.
   */
  function PassWaits(cfg: Config, articles: string -> (nat -> CallOutcome<Option<string>>), p: PassLog): seq<int> {
    WaitLog(p.traces) + (if p.news.Some? && |p.marks| <= |p.news.value| then FetchWaits(cfg, articles, p.news.value, p.marks) else [])
  }

  /**
   * The loop's own sleep after a pass: retry_delay after a None list, and after the step back
   * from 0001-01-01, whose OverflowError the loop catches.
   */
  function LoopWait(cfg: Config, p: PassLog): seq<int> {
    if p.news.None? || PrevDay(p.day).None? then [cfg.retryDelay] else []
  }

  /** The sleeps of the loop's passes, one pass after another. */
  function AllWaits(cfg: Config, articles: string -> (nat -> CallOutcome<Option<string>>), passes: seq<PassLog>): seq<int> {
    if passes == [] then []
    else
      var p := passes[|passes| - 1];
      AllWaits(cfg, articles, passes[..|passes| - 1]) + PassWaits(cfg, articles, p) + LoopWait(cfg, p)
  }

  /** A pass that fetched no article slept only in its listing run. */
  lemma ListingOnlyWaits(cfg: Config, articles: string -> (nat -> CallOutcome<Option<string>>), p: PassLog)
    requires p.marks == []
    ensures PassWaits(cfg, articles, p) == WaitLog(p.traces) == WaitLog(p.traces) + []
  {
    assert WaitLog(p.traces) + [] == WaitLog(p.traces);
  }

  /** A pass on a listed day slept in its listing run, then in its items' article runs. */
  lemma FoundWaits(cfg: Config, articles: string -> (nat -> CallOutcome<Option<string>>), p: PassLog, news: seq<NewsItem>)
    requires p.news == Some(news) && |p.marks| <= |news|
    ensures PassWaits(cfg, articles, p) == WaitLog(p.traces) + FetchWaits(cfg, articles, news, p.marks)
  {
  }

  /** Three sleeps logged one after another. */
  lemma WaitsAppend(w0: seq<int>, w1: seq<int>, w2: seq<int>, w3: seq<int>, a: seq<int>, b: seq<int>, c: seq<int>)
    requires w1 == w0 + a && w2 == w1 + b && w3 == w2 + c
    ensures w3 == w0 + (a + b) + c
  {
    assert w3 == w0 + a + b + c;
  }

  /** A listed day's pass sleeps in its listing run, then in its article runs, then in the crawl loop. */
  lemma FoundPassWaits(cfg: Config, articles: string -> (nat -> CallOutcome<Option<string>>), p: PassLog, news: seq<NewsItem>,
                       w0: seq<int>, w1: seq<int>, w2: seq<int>)
    requires p.news == Some(news) && |p.marks| <= |news|
    requires w1 == w0 + WaitLog(p.traces) + FetchWaits(cfg, articles, news, p.marks) && w2 == w1 + LoopWait(cfg, p)
    ensures w2 == w0 + PassWaits(cfg, articles, p) + LoopWait(cfg, p)
  {
    FoundWaits(cfg, articles, p, news);
    assert w1 == w0 + PassWaits(cfg, articles, p);
  }

  /** The sleep log after one more pass. */
  lemma AllWaitsSnoc(cfg: Config, articles: string -> (nat -> CallOutcome<Option<string>>), passes: seq<PassLog>, p: PassLog,
                     w0: seq<int>, w1: seq<int>, w2: seq<int>)
    requires w1 == w0 + AllWaits(cfg, articles, passes)
    requires w2 == w1 + PassWaits(cfg, articles, p) + LoopWait(cfg, p)
    ensures w2 == w0 + AllWaits(cfg, articles, passes + [p])
  {
    assert (passes + [p])[..|passes|] == passes;
  }

  /**
   * The pass is the site's answer for its day. Its pages are the listing run of that day from
   * request `start` on, and the session's log holds exactly those requests there. On a
   * non-empty day each item's text is the outcome of its own retry run, the runs one after
   * another right after the listing, and the log holds exactly their requests up to `end`;
   * otherwise the pass requested nothing more.
   */
  ghost predicate Honest(cfg: Config, listing: (string, nat) -> (nat -> CallOutcome<Page>),
                         articles: string -> (nat -> CallOutcome<Option<string>>), log: seq<Request>, p: PassLog)
  {
    ReadListing(cfg, listing, log, p) && ReadArticles(cfg, articles, log, p)
  }

  /** The listing part of Honest: the day's listing run from request `start` on, and its requests in the log. */
  ghost predicate ReadListing(cfg: Config, listing: (string, nat) -> (nat -> CallOutcome<Page>), log: seq<Request>, p: PassLog) {
    && ListingRun(cfg, listing, Format(p.day), p.start, p.traces)
    && p.news == Listed(cfg, Format(p.day), p.traces)
    && p.start + Used(p.traces) <= |log|
    && log[p.start..p.start + Used(p.traces)] == RequestLog(Format(p.day), p.traces)
  }

  /** The article part of Honest: after the listing, the items' runs one after another up to `end`, or nothing. */
  ghost predicate ReadArticles(cfg: Config, articles: string -> (nat -> CallOutcome<Option<string>>), log: seq<Request>,
                               p: PassLog) {
    && p.start + Used(p.traces) <= p.end <= |log|
    && if p.news.Some? && p.news.value != [] then
         |p.contents| == |p.news.value|
         && Fetched(cfg, articles, p.news.value, p.contents, p.marks, p.start + Used(p.traces), p.end)
         && Consecutive(cfg, articles, p.news.value, p.marks, p.start + Used(p.traces))
         && log[p.start + Used(p.traces)..p.end] == FetchRequests(cfg, articles, p.news.value, p.marks)
       else
         p.contents == [] && p.end == p.start + Used(p.traces)
  }

  /** Later requests do not change what a pass read. */
  lemma HonestGrows(cfg: Config, listing: (string, nat) -> (nat -> CallOutcome<Page>),
                    articles: string -> (nat -> CallOutcome<Option<string>>), log: seq<Request>, log': seq<Request>, p: PassLog)
    requires Honest(cfg, listing, articles, log, p) && log <= log'
    ensures Honest(cfg, listing, articles, log', p)
  {
    assert log'[p.start..p.start + Used(p.traces)] == log[p.start..p.start + Used(p.traces)];
    assert log'[p.start + Used(p.traces)..p.end] == log[p.start + Used(p.traces)..p.end];
  }

  /**
   * None and [] are told apart by the site: a pass fails exactly when the retry run of page 1
   * of its day's archive ended in a RequestException (or was never tried), and with
   * max_retries >= 1 the pass's first request is that page.
   */
  lemma FailedPassIff(cfg: Config, listing: (string, nat) -> (nat -> CallOutcome<Page>),
                      articles: string -> (nat -> CallOutcome<Option<string>>), log: seq<Request>, p: PassLog)
    requires Honest(cfg, listing, articles, log, p)
    ensures var first := RetryCall(listing(Format(p.day), 1), p.start, cfg.maxRetries, cfg.retryDelay);
      Outcome(p).Failed? <==> first.result.RaisedNetwork? || first.result.NoAttempt?
    ensures cfg.maxRetries >= 1 ==> p.start < |log| && log[p.start] == Archive(Format(p.day), 1)
  {
    ListedNoneIff(cfg, listing, Format(p.day), p.start, p.traces);
    if cfg.maxRetries >= 1 {
      assert log[p.start] == log[p.start..p.start + Used(p.traces)][0];
    }
  }

  /** Every request for page 1 of the archive of `day` gets a page with no story block. */
  ghost predicate EmptyArchive(listing: (string, nat) -> (nat -> CallOutcome<Page>), day: string) {
    forall n :: listing(day, 1)(n).Returned? && listing(day, 1)(n).value.candidates == []
  }

  /** On a day whose archive is empty, the pass is an empty day and appends nothing. */
  lemma EmptyArchivePass(cfg: Config, listing: (string, nat) -> (nat -> CallOutcome<Page>),
                         articles: string -> (nat -> CallOutcome<Option<string>>), log: seq<Request>, p: PassLog)
    requires cfg.maxRetries >= 1 && EmptyArchive(listing, Format(p.day))
    requires Honest(cfg, listing, articles, log, p)
    ensures Outcome(p) == Empty && PassRows(p) == []
  {
    var day := Format(p.day);
    ChainedFirst(listing, day, cfg.maxRetries, cfg.retryDelay, p.start, p.traces);
    var t := p.traces[0];
    assert listing(day, 1)(p.start).Returned?;
    assert t.result.Value? && t.result.v.candidates == [];
    assert !Continues(t);
    assert p.traces == [t];
    OnePageListed(cfg, day, t);
  }

  /** The outcomes of the passes, in order. */
  function Outcomes(passes: seq<PassLog>): (r: seq<DayResult>)
    ensures |r| == |passes|
  {
    if passes == [] then [] else Outcomes(passes[..|passes| - 1]) + [Outcome(passes[|passes| - 1])]
  }

  /** The rows the passes appended, in order. */
  function AllRows(passes: seq<PassLog>): seq<seq<string>> {
    if passes == [] then [] else AllRows(passes[..|passes| - 1]) + PassRows(passes[|passes| - 1])
  }

  /** The passes used the session's requests lo .. hi one after another, each where the previous ended. */
  ghost predicate Chain(passes: seq<PassLog>, lo: nat, hi: nat) {
    if passes == [] then lo == hi
    else Chain(passes[..|passes| - 1], lo, passes[|passes| - 1].start) && passes[|passes| - 1].end == hi
  }

  /**
   * The loop's passes, from the cursor c0: each pass asked for the day the cursor stood on after
   * the passes before it, while the loop condition held.
   */
  ghost predicate Visited(c0: Cursor, passes: seq<PassLog>, maxEmpty: int)
    decreases |passes|
  {
    passes != [] ==>
      var k := |passes| - 1;
      var c := Run(c0, Outcomes(passes[..k]));
      Visited(c0, passes[..k], maxEmpty) && passes[k].day == c.current && Live(c, maxEmpty)
  }

  /** Every pass read the site's answer for its day. */
  ghost predicate AllHonest(cfg: Config, listing: (string, nat) -> (nat -> CallOutcome<Page>),
                            articles: string -> (nat -> CallOutcome<Option<string>>), log: seq<Request>,
                            passes: seq<PassLog>)
    decreases |passes|
  {
    passes != [] ==>
      AllHonest(cfg, listing, articles, log, passes[..|passes| - 1]) && Honest(cfg, listing, articles, log, passes[|passes| - 1])
  }

  /** The cursor after one more pass. */
  lemma RunSnoc(c0: Cursor, passes: seq<PassLog>, p: PassLog)
    ensures Outcomes(passes + [p]) == Outcomes(passes) + [Outcome(p)]
    ensures Run(c0, Outcomes(passes + [p])) == Step(Run(c0, Outcomes(passes)), Outcome(p))
  {
    assert (passes + [p])[..|passes|] == passes;
    var rs := Outcomes(passes + [p]);
    assert rs[..|rs| - 1] == Outcomes(passes);
  }

  /** Later requests do not change what the passes read. */
  lemma {:induction false} AllHonestGrows(cfg: Config, listing: (string, nat) -> (nat -> CallOutcome<Page>),
                                           articles: string -> (nat -> CallOutcome<Option<string>>), log: seq<Request>,
                                           log': seq<Request>, passes: seq<PassLog>)
    requires AllHonest(cfg, listing, articles, log, passes) && log <= log'
    ensures AllHonest(cfg, listing, articles, log', passes)
  {
    if passes != [] {
      var k := |passes| - 1;
      HonestGrows(cfg, listing, articles, log, log', passes[k]);
      AllHonestGrows(cfg, listing, articles, log, log', passes[..k]);
    }
  }

  /** One more honest pass. */
  lemma AllHonestSnoc(cfg: Config, listing: (string, nat) -> (nat -> CallOutcome<Page>),
                      articles: string -> (nat -> CallOutcome<Option<string>>), log: seq<Request>,
                      passes: seq<PassLog>, p: PassLog)
    requires AllHonest(cfg, listing, articles, log, passes) && Honest(cfg, listing, articles, log, p)
    ensures AllHonest(cfg, listing, articles, log, passes + [p])
  {
    assert (passes + [p])[..|passes|] == passes;
  }

  /** One more pass, taken while the loop condition held, on the day the cursor stood on. */
  lemma VisitedStep(c0: Cursor, passes: seq<PassLog>, p: PassLog, maxEmpty: int)
    requires Visited(c0, passes, maxEmpty)
    requires Live(Run(c0, Outcomes(passes)), maxEmpty) && p.day == Run(c0, Outcomes(passes)).current
    ensures Visited(c0, passes + [p], maxEmpty)
    ensures Run(c0, Outcomes(passes + [p])) == Step(Run(c0, Outcomes(passes)), Outcome(p))
  {
    assert (passes + [p])[..|passes|] == passes;
    RunSnoc(c0, passes, p);
  }

  /**
   * On a site where the archive of every day from `start` back is empty, the loop's passes
   * asked for start, start - 1, ... in turn, and each was an empty day.
   */
  lemma {:induction false} EmptySiteDays(cfg: Config, listing: (string, nat) -> (nat -> CallOutcome<Page>),
                                          articles: string -> (nat -> CallOutcome<Option<string>>), log: seq<Request>,
                                          start: Day, passes: seq<PassLog>, maxEmpty: int)
    requires cfg.maxRetries >= 1
    requires forall k: nat :: EmptyArchive(listing, Format(BackN(start, k)))
    requires Visited(Cursor(start, 0, 0, 0), passes, maxEmpty)
    requires AllHonest(cfg, listing, articles, log, passes)
    ensures forall k :: 0 <= k < |passes| ==> passes[k].day == BackN(start, k) && Outcome(passes[k]) == Empty
  {
    if passes != [] {
      var k := |passes| - 1;
      var c0 := Cursor(start, 0, 0, 0);
      PrefixFacts(cfg, listing, articles, log, c0, passes, maxEmpty);
      EmptySiteDays(cfg, listing, articles, log, start, passes[..k], maxEmpty);
      EmptySiteLast(cfg, listing, articles, log, start, passes, passes[..k], maxEmpty);
      EmptyPrefixJoin(start, passes, passes[..k]);
    }
  }

  /** The passes before the last one were visited and honest too. */
  lemma PrefixFacts(cfg: Config, listing: (string, nat) -> (nat -> CallOutcome<Page>),
                    articles: string -> (nat -> CallOutcome<Option<string>>), log: seq<Request>,
                    c0: Cursor, passes: seq<PassLog>, maxEmpty: int)
    requires passes != [] && Visited(c0, passes, maxEmpty) && AllHonest(cfg, listing, articles, log, passes)
    ensures Visited(c0, passes[..|passes| - 1], maxEmpty) && AllHonest(cfg, listing, articles, log, passes[..|passes| - 1])
  {
  }

  lemma EmptyPrefixJoin(start: Day, passes: seq<PassLog>, pre: seq<PassLog>)
    requires passes != [] && pre == passes[..|passes| - 1]
    requires forall j :: 0 <= j < |pre| ==> pre[j].day == BackN(start, j) && Outcome(pre[j]) == Empty
    requires passes[|passes| - 1].day == BackN(start, |passes| - 1) && Outcome(passes[|passes| - 1]) == Empty
    ensures forall j :: 0 <= j < |passes| ==> passes[j].day == BackN(start, j) && Outcome(passes[j]) == Empty
  {
    assert forall j :: 0 <= j < |pre| ==> passes[j] == pre[j];
  }

  /** The step of EmptySiteDays: after k empty days the loop asks for the day k days back, which is empty too. */
  lemma EmptySiteLast(cfg: Config, listing: (string, nat) -> (nat -> CallOutcome<Page>),
                      articles: string -> (nat -> CallOutcome<Option<string>>), log: seq<Request>,
                      start: Day, passes: seq<PassLog>, pre: seq<PassLog>, maxEmpty: int)
    requires cfg.maxRetries >= 1 && passes != [] && pre == passes[..|passes| - 1]
    requires EmptyArchive(listing, Format(BackN(start, |passes| - 1)))
    requires Visited(Cursor(start, 0, 0, 0), passes, maxEmpty)
    requires AllHonest(cfg, listing, articles, log, passes)
    requires forall j :: 0 <= j < |pre| ==> Outcome(pre[j]) == Empty
    ensures passes[|passes| - 1].day == BackN(start, |passes| - 1) && Outcome(passes[|passes| - 1]) == Empty
  {
    var k := |passes| - 1;
    EmptyPasses(Cursor(start, 0, 0, 0), pre);
    EmptyArchivePass(cfg, listing, articles, log, passes[k]);
  }

  /**
   * So on such a site the loop never makes more than max_empty_attempts passes, and when it
   * drained it made exactly that many.
   */
  lemma EmptySiteStops(cfg: Config, listing: (string, nat) -> (nat -> CallOutcome<Page>),
                       articles: string -> (nat -> CallOutcome<Option<string>>), log: seq<Request>,
                       start: Day, passes: seq<PassLog>, maxEmpty: int)
    requires cfg.maxRetries >= 1
    requires forall k: nat :: EmptyArchive(listing, Format(BackN(start, k)))
    requires Visited(Cursor(start, 0, 0, 0), passes, maxEmpty)
    requires AllHonest(cfg, listing, articles, log, passes)
    ensures |passes| <= (if maxEmpty < 0 then 0 else maxEmpty)
    ensures !Live(Run(Cursor(start, 0, 0, 0), Outcomes(passes)), maxEmpty) ==> |passes| == (if maxEmpty < 0 then 0 else maxEmpty)
  {
    var c0 := Cursor(start, 0, 0, 0);
    EmptySiteDays(cfg, listing, articles, log, start, passes, maxEmpty);
    EmptyPasses(c0, passes);
    if passes != [] {
      var k := |passes| - 1;
      EmptyPasses(c0, passes[..k]);
      assert Live(Run(c0, Outcomes(passes[..k])), maxEmpty);
    }
  }

  /** After a run of empty days from a fresh count, empty_attempts is their number and the date is that many days back. */
  lemma EmptyPasses(c0: Cursor, passes: seq<PassLog>)
    requires c0.emptyAttempts == 0
    requires forall k :: 0 <= k < |passes| ==> Outcome(passes[k]) == Empty
    ensures Run(c0, Outcomes(passes)).emptyAttempts == |passes|
    ensures Run(c0, Outcomes(passes)).current == BackN(c0.current, |passes|)
  {
    OutcomesAllEmpty(passes);
    EmptyDays(c0, Outcomes(passes));
  }

  /** Passes that were all empty days have only Empty outcomes. */
  lemma {:induction false} OutcomesAllEmpty(passes: seq<PassLog>)
    requires forall k :: 0 <= k < |passes| ==> Outcome(passes[k]) == Empty
    ensures forall k :: 0 <= k < |passes| ==> Outcomes(passes)[k] == Empty
  {
    if passes != [] {
      OutcomesAllEmpty(passes[..|passes| - 1]);
    }
  }

  /** The rows of the passes number the articles saved. */
  lemma {:induction false} AllRowsCount(cfg: Config, listing: (string, nat) -> (nat -> CallOutcome<Page>),
                                         articles: string -> (nat -> CallOutcome<Option<string>>), log: seq<Request>,
                                         passes: seq<PassLog>)
    requires AllHonest(cfg, listing, articles, log, passes)
    ensures |AllRows(passes)| == SavedSum(Outcomes(passes))
  {
    if passes != [] {
      var last := |passes| - 1;
      var pre, p := passes[..last], passes[last];
      AllRowsCount(cfg, listing, articles, log, pre);
      PassRowsCount(cfg, listing, articles, log, p);
      var os := Outcomes(passes);
      assert os == Outcomes(pre) + [Outcome(p)];
      assert os[..last] == Outcomes(pre) && os[last] == Outcome(p);
      assert AllRows(passes) == AllRows(pre) + PassRows(p);
    }
  }

  /** The rows the loop appended number total_news. */
  lemma RowsTally(cfg: Config, listing: (string, nat) -> (nat -> CallOutcome<Page>),
                  articles: string -> (nat -> CallOutcome<Option<string>>), log: seq<Request>,
                  c0: Cursor, passes: seq<PassLog>)
    requires AllHonest(cfg, listing, articles, log, passes) && c0.totalNews == 0
    ensures |AllRows(passes)| == Run(c0, Outcomes(passes)).totalNews
  {
    AllRowsCount(cfg, listing, articles, log, passes);
    RunCounts(c0, Outcomes(passes));
  }

  /** A pass appends as many rows as its outcome says it saved. */
  lemma PassRowsCount(cfg: Config, listing: (string, nat) -> (nat -> CallOutcome<Page>),
                      articles: string -> (nat -> CallOutcome<Option<string>>), log: seq<Request>, p: PassLog)
    requires Honest(cfg, listing, articles, log, p)
    ensures |PassRows(p)| == (if Outcome(p).Found? then Outcome(p).saved else 0)
  {
    if p.news.Some? {
      SavedRows(p.news.value, p.contents);
    }
  }

  /** A pass appended to passes that ended where it began. */
  lemma PassSnoc(passes: seq<PassLog>, p: PassLog, lo: nat)
    requires Chain(passes, lo, p.start)
    ensures Chain(passes + [p], lo, p.end)
    ensures AllRows(passes + [p]) == AllRows(passes) + PassRows(p)
  {
    assert (passes + [p])[..|passes|] == passes;
  }

  /** A pass whose list was None or empty read its listing run and nothing more. */
  lemma ListingOnlyHonest(cfg: Config, listing: (string, nat) -> (nat -> CallOutcome<Page>),
                          articles: string -> (nat -> CallOutcome<Option<string>>), log0: seq<Request>,
                          log: seq<Request>, day: Day, traces: seq<Trace<Page>>)
    requires ListingRun(cfg, listing, Format(day), |log0|, traces)
    requires log == log0 + RequestLog(Format(day), traces)
    requires Listed(cfg, Format(day), traces).None? || Listed(cfg, Format(day), traces).value == []
    ensures Honest(cfg, listing, articles, log, PassLog(day, |log0|, |log|, traces, Listed(cfg, Format(day), traces), [], []))
    ensures Outcome(PassLog(day, |log0|, |log|, traces, Listed(cfg, Format(day), traces), [], [])) ==
      if Listed(cfg, Format(day), traces).None? then Failed else Empty
    ensures PassRows(PassLog(day, |log0|, |log|, traces, Listed(cfg, Format(day), traces), [], [])) == []
  {
    assert log[|log0|..|log|] == RequestLog(Format(day), traces);
  }

  /** A pass whose list was non-empty read its listing run, then each item's article. */
  lemma FetchedHonest(cfg: Config, listing: (string, nat) -> (nat -> CallOutcome<Page>),
                      articles: string -> (nat -> CallOutcome<Option<string>>), log0: seq<Request>,
                      mid: seq<Request>, log: seq<Request>, day: Day, traces: seq<Trace<Page>>,
                      news: seq<NewsItem>, contents: seq<Option<string>>, marks: seq<nat>)
    requires ListingRun(cfg, listing, Format(day), |log0|, traces)
    requires mid == log0 + RequestLog(Format(day), traces)
    requires Listed(cfg, Format(day), traces) == Some(news) && news != []
    requires |contents| == |news| && Fetched(cfg, articles, news, contents, marks, |mid|, |log|)
    requires Consecutive(cfg, articles, news, marks, |mid|) && log == mid + FetchRequests(cfg, articles, news, marks)
    ensures Honest(cfg, listing, articles, log, PassLog(day, |log0|, |log|, traces, Some(news), contents, marks))
  {
    var p := PassLog(day, |log0|, |log|, traces, Some(news), contents, marks);
    SliceParts(log0, RequestLog(Format(day), traces), FetchRequests(cfg, articles, news, marks), mid, log, Used(traces));
    FetchedListing(cfg, listing, log0, log, traces, p);
    FetchedArticles(cfg, articles, log0, mid, log, traces, news, contents, marks, p);
  }

  /** The listing part of FetchedHonest. */
  lemma FetchedListing(cfg: Config, listing: (string, nat) -> (nat -> CallOutcome<Page>), log0: seq<Request>,
                       log: seq<Request>, traces: seq<Trace<Page>>, p: PassLog)
    requires p.start == |log0| && p.traces == traces && ListingRun(cfg, listing, Format(p.day), |log0|, traces)
    requires p.news == Listed(cfg, Format(p.day), traces)
    requires |log0| + Used(traces) <= |log| && log[|log0|..|log0| + Used(traces)] == RequestLog(Format(p.day), traces)
    ensures ReadListing(cfg, listing, log, p)
  {
  }

  /** The article part of FetchedHonest. */
  lemma FetchedArticles(cfg: Config, articles: string -> (nat -> CallOutcome<Option<string>>), log0: seq<Request>,
                        mid: seq<Request>, log: seq<Request>, traces: seq<Trace<Page>>,
                        news: seq<NewsItem>, contents: seq<Option<string>>, marks: seq<nat>, p: PassLog)
    requires p == PassLog(p.day, |log0|, |log|, traces, Some(news), contents, marks) && news != []
    requires |mid| == |log0| + Used(traces) <= |log|
    requires |contents| == |news| && Fetched(cfg, articles, news, contents, marks, |mid|, |log|)
    requires Consecutive(cfg, articles, news, marks, |mid|)
    requires log[|mid|..|log|] == FetchRequests(cfg, articles, news, marks)
    ensures ReadArticles(cfg, articles, log, p)
  {
  }

  /** The middle and the last of three logs joined one after another. */
  lemma SliceParts<T>(a: seq<T>, b: seq<T>, c: seq<T>, ab: seq<T>, x: seq<T>, n: nat)
    requires ab == a + b && x == ab + c && n == |b|
    ensures x[|a|..|a| + n] == b && x[|a| + n..|x|] == c && |ab| == |a| + n
  {
    assert forall i :: 0 <= i < |b| ==> x[|a| + i] == b[i];
    assert forall i :: 0 <= i < |c| ==> x[|a| + |b| + i] == c[i];
  }

  /** How extract_historical ended. */
  datatype Ending = Drained | Interrupted | Overflowed

  /**
   * The start of extract_historical: the resume read, then the plan; a new run rewrites the
   * file with the header, a resumed one keeps it, and an overflowing one raises before either.
   */
  method Prepare(f: TsvFile, startDate: Option<Day>, now: Day, resume: bool, shown: string -> string,
                 fallback: string -> Option<Day>)
    returns (plan: Start)
    requires f.Valid()
    modifies f
    ensures plan == Plan(resume, old(f.present), if resume && old(f.present) then LastDate(old(f.present), old(f.rows), shown, fallback) else None, startDate, now)
    ensures f.Valid()
    ensures plan.Begin? && !plan.append ==> f.present && f.rows == [Header]
    ensures !(plan.Begin? && !plan.append) ==> f.rows == old(f.rows) && f.present == old(f.present)
  {
    var last: Option<Day> := None;
    if resume && f.present {
      last := LastDate(f.present, f.rows, shown, fallback);
    }
    if resume && f.present && last.Some? {
      var previous := PrevDay(last.value);
      if previous.None? {
        return ResumeOverflow;
      }
      plan := Begin(previous.value, true);
    } else {
      plan := Begin(startDate.GetOr(now), false);
      f.Overwrite();
    }
  }

  /** `current_date -= timedelta(days=1)`, whose OverflowError the loop catches and sleeps on. */
  method StepBack(cfg: Config, s: Session, d: Day) returns (p: Day)
    modifies s
    ensures p == Back(d) && s.requests == old(s.requests)
    ensures s.waits == old(s.waits) + (if PrevDay(d).None? then [cfg.retryDelay] else [])
  {
    var previous := PrevDay(d);
    if previous.None? {
      s.Sleep(cfg.retryDelay);
      p := d;
    } else {
      p := previous.value;
    }
  }

  /**
   * The ThreadPoolExecutor block on a non-empty list: every listed item is processed and the
   * rows of those with article text are appended. `p` is the whole pass, listing included: it is
   * an honest read of the site and a Found day with as many saved articles as rows appended.
   */
  method SaveDay(cfg: Config, s: Session, f: TsvFile, day: Day, ghost log0: seq<Request>,
                 ghost traces: seq<Trace<Page>>, news: seq<NewsItem>)
    returns (successful: nat, ghost p: PassLog)
    requires f.Valid() && ListingRun(cfg, s.listing, Format(day), |log0|, traces)
    requires s.requests == log0 + RequestLog(Format(day), traces)
    requires Listed(cfg, Format(day), traces) == Some(news) && news != []
    modifies s, f
    ensures p.day == day && p.start == |log0| && p.end == |s.requests| && p.traces == traces
    ensures log0 <= s.requests && Honest(cfg, s.listing, s.articles, s.requests, p)
    ensures p.news == Some(news) && s.waits == old(s.waits) + FetchWaits(cfg, s.articles, news, p.marks)
    ensures Outcome(p) == Found(successful) && successful == |PassRows(p)|
    ensures f.Valid() && f.rows == old(f.rows) + PassRows(p)
    ensures f.present == (old(f.present) || successful > 0)
  {
    ghost var contents, marks;
    successful, contents, marks := ProcessDay(cfg, s, f, news);
    PrefixGrows(log0, old(s.requests), s.requests);
    FetchedHonest(cfg, s.listing, s.articles, log0, old(s.requests), s.requests, day, traces, news, contents, marks);
    p := PassLog(day, |log0|, |s.requests|, traces, Some(news), contents, marks);
    SavedRows(news, contents);
  }

  /**
   * One pass of the loop on the day c.current: its listing; on a non-empty one, its articles;
   * then, unless the listing was None (the loop sleeps and continues), the step back. `p` is
   * what the pass read from the site.
   */
  method Pass(cfg: Config, s: Session, f: TsvFile, c: Cursor) returns (n: Cursor, ghost p: PassLog)
    requires (cfg.site == Peru21 ==> s.Finite()) && f.Valid()
    modifies s, f
    ensures p.day == c.current && p.start == |old(s.requests)| && p.end == |s.requests|
    ensures old(s.requests) <= s.requests
    ensures Honest(cfg, s.listing, s.articles, s.requests, p)
    ensures s.waits == old(s.waits) + PassWaits(cfg, s.articles, p) + LoopWait(cfg, p)
    ensures n == Step(c, Outcome(p))
    ensures f.Valid() && f.rows == old(f.rows) + PassRows(p)
  {
    var listed;
    ghost var traces;
    listed, traces := GetNewsList(cfg, s, c.current);
    if listed.Some? && listed.value != [] {
      n, p := FoundPass(cfg, s, f, c, old(s.requests), old(s.waits), traces, listed.value);
      return;
    }
    ListingOnlyHonest(cfg, s.listing, s.articles, old(s.requests), s.requests, c.current, traces);
    p := PassLog(c.current, |old(s.requests)|, |s.requests|, traces, listed, [], []);
    ListingOnlyWaits(cfg, s.articles, p);
    if listed.None? {
      s.Sleep(cfg.retryDelay);
      n := c;
    } else {
      var current := StepBack(cfg, s, c.current);
      n := Cursor(current, c.emptyAttempts + 1, c.totalNews, c.daysProcessed + 1);
    }
  }

  /** The rest of a pass whose list was non-empty: its articles are saved, the count resets, and the date steps back. */
  method FoundPass(cfg: Config, s: Session, f: TsvFile, c: Cursor, ghost log0: seq<Request>, ghost waits0: seq<int>,
                   ghost traces: seq<Trace<Page>>, news: seq<NewsItem>)
    returns (n: Cursor, ghost p: PassLog)
    requires f.Valid() && ListingRun(cfg, s.listing, Format(c.current), |log0|, traces)
    requires Listed(cfg, Format(c.current), traces) == Some(news) && news != []
    requires s.requests == log0 + RequestLog(Format(c.current), traces) && s.waits == waits0 + WaitLog(traces)
    modifies s, f
    ensures p.day == c.current && p.start == |log0| && p.end == |s.requests|
    ensures log0 <= s.requests
    ensures Honest(cfg, s.listing, s.articles, s.requests, p)
    ensures s.waits == waits0 + PassWaits(cfg, s.articles, p) + LoopWait(cfg, p)
    ensures n == Step(c, Outcome(p))
    ensures f.Valid() && f.rows == old(f.rows) + PassRows(p)
  {
    var successful;
    successful, p := SaveDay(cfg, s, f, c.current, log0, traces, news);
    ghost var w1 := s.waits;
    var current := StepBack(cfg, s, c.current);
    FoundPassWaits(cfg, s.articles, p, news, waits0, w1, s.waits);
    n := Cursor(current, 0, c.totalNews + successful, c.daysProcessed + 1);
  }

  /**
   * The while loop of extract_historical from `start` with fresh counters. The KeyboardInterrupt
   * is the `stopAfter` budget: it arrives at the top of pass stopAfter + 1 if the loop is still
   * running. The passes read the site's answers for the days the cursor stood on, one after
   * another; the cursor is Run of their outcomes, and the file gains their rows.
   */
  method Walk(cfg: Config, s: Session, f: TsvFile, start: Day, maxEmpty: int, stopAfter: nat)
    returns (ending: Ending, cursor: Cursor, ghost passes: seq<PassLog>)
    requires (cfg.site == Peru21 ==> s.Finite()) && f.Valid()
    modifies s, f
    ensures ending != Overflowed
    ensures cursor == Run(Cursor(start, 0, 0, 0), Outcomes(passes))
    ensures Visited(Cursor(start, 0, 0, 0), passes, maxEmpty)
    ensures old(s.requests) <= s.requests && AllHonest(cfg, s.listing, s.articles, s.requests, passes)
    ensures Chain(passes, |old(s.requests)|, |s.requests|)
    ensures s.waits == old(s.waits) + AllWaits(cfg, s.articles, passes)
    ensures |passes| <= stopAfter
    ensures ending == Drained ==> !Live(cursor, maxEmpty)
    ensures ending == Interrupted ==> |passes| == stopAfter && Live(cursor, maxEmpty)
    ensures f.Valid() && f.rows == old(f.rows) + AllRows(passes)
    ensures |AllRows(passes)| == cursor.totalNews
  {
    passes := [];
    cursor := Cursor(start, 0, 0, 0);
    ghost var c0 := cursor;
    var count: nat := 0;
    while cursor.emptyAttempts < maxEmpty
      invariant count == |passes| <= stopAfter
      invariant cursor == Run(c0, Outcomes(passes))
      invariant Visited(c0, passes, maxEmpty)
      invariant old(s.requests) <= s.requests && AllHonest(cfg, s.listing, s.articles, s.requests, passes)
      invariant Chain(passes, |old(s.requests)|, |s.requests|)
      invariant s.waits == old(s.waits) + AllWaits(cfg, s.articles, passes)
      invariant f.Valid() && f.rows == old(f.rows) + AllRows(passes)
      decreases stopAfter - count
    {
      if count == stopAfter {
        ending := Interrupted;
        RowsTally(cfg, s.listing, s.articles, s.requests, c0, passes);
        return;
      }
      cursor, passes := Advance(cfg, s, f, c0, cursor, passes, old(s.requests), old(s.waits), old(f.rows), maxEmpty);
      count := count + 1;
    }
    ending := Drained;
    RowsTally(cfg, s.listing, s.articles, s.requests, c0, passes);
  }

  /** One pass of the loop of Walk, with its bookkeeping. */
  method Advance(cfg: Config, s: Session, f: TsvFile, ghost c0: Cursor, cursor: Cursor, ghost passes: seq<PassLog>,
                 ghost requests0: seq<Request>, ghost waits0: seq<int>, ghost rows0: seq<seq<string>>, ghost maxEmpty: int)
    returns (cursor': Cursor, ghost passes': seq<PassLog>)
    requires (cfg.site == Peru21 ==> s.Finite()) && f.Valid() && f.rows == rows0 + AllRows(passes)
    requires cursor == Run(c0, Outcomes(passes)) && Live(cursor, maxEmpty)
    requires Visited(c0, passes, maxEmpty) && AllHonest(cfg, s.listing, s.articles, s.requests, passes)
    requires requests0 <= s.requests && Chain(passes, |requests0|, |s.requests|)
    requires s.waits == waits0 + AllWaits(cfg, s.articles, passes)
    modifies s, f
    ensures |passes'| == |passes| + 1
    ensures cursor' == Run(c0, Outcomes(passes'))
    ensures Visited(c0, passes', maxEmpty) && AllHonest(cfg, s.listing, s.articles, s.requests, passes')
    ensures requests0 <= s.requests && Chain(passes', |requests0|, |s.requests|)
    ensures s.waits == waits0 + AllWaits(cfg, s.articles, passes')
    ensures f.Valid() && f.rows == rows0 + AllRows(passes')
  {
    ghost var p;
    ghost var log0, before, w1 := s.requests, f.rows, s.waits;
    cursor', p := Pass(cfg, s, f, cursor);
    WalkStep(cfg, s.listing, s.articles, log0, s.requests, c0, cursor, cursor', passes, p, |requests0|, rows0, before, f.rows, maxEmpty);
    PrefixGrows(requests0, log0, s.requests);
    AllWaitsSnoc(cfg, s.articles, passes, p, waits0, w1, s.waits);
    passes' := passes + [p];
  }

  /** The bookkeeping of Advance: one more pass keeps the loop's invariant. */
  lemma WalkStep(cfg: Config, listing: (string, nat) -> (nat -> CallOutcome<Page>),
                 articles: string -> (nat -> CallOutcome<Option<string>>), log0: seq<Request>, log1: seq<Request>,
                 c0: Cursor, cursor: Cursor, cursor': Cursor, passes: seq<PassLog>, p: PassLog,
                 lo: nat, rows0: seq<seq<string>>, before: seq<seq<string>>, after: seq<seq<string>>, maxEmpty: int)
    requires cursor == Run(c0, Outcomes(passes)) && Live(cursor, maxEmpty)
    requires Visited(c0, passes, maxEmpty) && AllHonest(cfg, listing, articles, log0, passes)
    requires Chain(passes, lo, |log0|) && before == rows0 + AllRows(passes)
    requires p.day == cursor.current && p.start == |log0| && p.end == |log1| && log0 <= log1
    requires Honest(cfg, listing, articles, log1, p)
    requires cursor' == Step(cursor, Outcome(p)) && after == before + PassRows(p)
    ensures cursor' == Run(c0, Outcomes(passes + [p]))
    ensures Visited(c0, passes + [p], maxEmpty) && AllHonest(cfg, listing, articles, log1, passes + [p])
    ensures Chain(passes + [p], lo, |log1|)
    ensures after == rows0 + AllRows(passes + [p])
  {
    VisitedStep(c0, passes, p, maxEmpty);
    AllHonestGrows(cfg, listing, articles, log0, log1, passes);
    AllHonestSnoc(cfg, listing, articles, log1, passes, p);
    PassSnoc(passes, p, lo);
    Whitespace.Regroup(rows0, AllRows(passes), PassRows(p));
  }

  /**
   * extract_historical: the plan, then the loop from its day. `shown` and `fallback` are
   * pandas' side of the resume read.
   */
  method ExtractHistorical(cfg: Config, s: Session, f: TsvFile, startDate: Option<Day>, now: Day,
                           maxEmpty: int, resume: bool, shown: string -> string,
                           fallback: string -> Option<Day>, stopAfter: nat)
    returns (ending: Ending, cursor: Cursor, plan: Start, ghost passes: seq<PassLog>)
    requires (cfg.site == Peru21 ==> s.Finite()) && f.Valid()
    modifies s, f
    ensures plan == Plan(resume, old(f.present), if resume && old(f.present) then LastDate(old(f.present), old(f.rows), shown, fallback) else None, startDate, now)
    ensures ending == Overflowed <==> plan.ResumeOverflow?
    ensures plan.ResumeOverflow? ==>
      && f.rows == old(f.rows) && f.present == old(f.present) && passes == []
      && s.requests == old(s.requests) && s.waits == old(s.waits)
    ensures plan.Begin? ==>
      && cursor == Run(Cursor(plan.date, 0, 0, 0), Outcomes(passes))
      && Visited(Cursor(plan.date, 0, 0, 0), passes, maxEmpty)
      && old(s.requests) <= s.requests && AllHonest(cfg, s.listing, s.articles, s.requests, passes)
      && Chain(passes, |old(s.requests)|, |s.requests|) && |passes| <= stopAfter
      && s.waits == old(s.waits) + AllWaits(cfg, s.articles, passes)
      && (ending == Drained ==> !Live(cursor, maxEmpty))
      && (ending == Interrupted ==> |passes| == stopAfter && Live(cursor, maxEmpty))
      && f.rows == (if plan.append then old(f.rows) else [Header]) + AllRows(passes)
      && |AllRows(passes)| == cursor.totalNews
  {
    plan := Prepare(f, startDate, now, resume, shown, fallback);
    if plan.ResumeOverflow? {
      ending, cursor, passes := Overflowed, Cursor(now, 0, 0, 0), [];
      return;
    }
    ending, cursor, passes := Walk(cfg, s, f, plan.date, maxEmpty, stopAfter);
  }

  /**
   * extract: one day. A None or empty list returns without touching the file; otherwise the
   * file is rewritten with the header followed by the rows of the listed items whose article
   * text is non-empty, and `successful` of the `total` items were saved.
   */
  method Extract(cfg: Config, s: Session, f: TsvFile, date: Day)
    returns (successful: nat, total: nat, ghost p: PassLog)
    requires (cfg.site == Peru21 ==> s.Finite()) && f.Valid()
    modifies s, f
    ensures p.day == date && p.start == |old(s.requests)| && p.end == |s.requests|
    ensures old(s.requests) <= s.requests && Honest(cfg, s.listing, s.articles, s.requests, p)
    ensures s.waits == old(s.waits) + PassWaits(cfg, s.articles, p)
    ensures !Outcome(p).Found? ==>
      f.present == old(f.present) && f.rows == old(f.rows) && successful == 0 && total == 0
    ensures Outcome(p).Found? ==>
      && total == |p.news.value| && successful == Outcome(p).saved <= total
      && f.present && f.rows == [Header] + PassRows(p)
  {
    var listed;
    ghost var traces;
    listed, traces := GetNewsList(cfg, s, date);
    ghost var mid := s.requests;
    successful, total := 0, 0;
    if listed.None? || listed.value == [] {
      ListingOnlyHonest(cfg, s.listing, s.articles, old(s.requests), mid, date, traces);
      p := PassLog(date, |old(s.requests)|, |mid|, traces, listed, [], []);
      ListingOnlyWaits(cfg, s.articles, p);
      return;
    }
    f.Overwrite();
    total := |listed.value|;
    ghost var w1 := s.waits;
    successful, p := SaveDay(cfg, s, f, date, old(s.requests), traces, listed.value);
    SavedBounds(listed.value, p.contents);
    FoundWaits(cfg, s.articles, p, listed.value);
    WaitsAppend(old(s.waits), w1, s.waits, s.waits, WaitLog(traces), FetchWaits(cfg, s.articles, listed.value, p.marks), []);
  }
}
