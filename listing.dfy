/**
 * `get_news_list` of both scrapers: the archive URL of a day, the filter that turns story blocks
 * into news items, Diario Correo's single-page listing and Peru21's paginated one.
 */
module Listing {
  import opened Wrappers
  import opened Decimal
  import opened Calendar
  import opened Whitespace
  import opened Markup
  import opened Retry
  import opened Site

  /** The archive page `page` (counted from 1) of the day written `day`. */
  function ArchiveUrl(baseUrl: string, day: string, page: nat): string {
    baseUrl + "/archivo/todas/" + day + "/" + (if page == 1 then "" else NatToString(page) + "/")
  }

  /** Different days or different pages are different URLs: each archive page is asked for by its own address. */
  lemma ArchiveUrlDistinct(baseUrl: string, d1: Day, p1: nat, d2: Day, p2: nat)
    requires p1 >= 1 && p2 >= 1
    requires ArchiveUrl(baseUrl, Format(d1), p1) == ArchiveUrl(baseUrl, Format(d2), p2)
    ensures d1 == d2 && p1 == p2
  {
    ArchiveUrlInjective(baseUrl, Format(d1), p1, Format(d2), p2);
    ParseFormat(d1);
    ParseFormat(d2);
  }

  lemma ArchiveUrlInjective(baseUrl: string, f1: string, p1: nat, f2: string, p2: nat)
    requires |f1| == 10 && |f2| == 10 && p1 >= 1 && p2 >= 1
    requires ArchiveUrl(baseUrl, f1, p1) == ArchiveUrl(baseUrl, f2, p2)
    ensures f1 == f2 && p1 == p2
  {
    var pre := baseUrl + "/archivo/todas/";
    var s1 := if p1 == 1 then "" else NatToString(p1) + "/";
    var s2 := if p2 == 1 then "" else NatToString(p2) + "/";
    UrlParts(pre, f1, s1);
    UrlParts(pre, f2, s2);
    PageSuffixInjective(p1, p2);
  }

  lemma PageSuffixInjective(p1: nat, p2: nat)
    requires p1 >= 1 && p2 >= 1
    requires (if p1 == 1 then "" else NatToString(p1) + "/") == (if p2 == 1 then "" else NatToString(p2) + "/")
    ensures p1 == p2
  {
    var s1 := if p1 == 1 then "" else NatToString(p1) + "/";
    var s2 := if p2 == 1 then "" else NatToString(p2) + "/";
    assert |s1| == 0 <==> p1 == 1;
    assert |s2| == 0 <==> p2 == 1;
    if p1 != 1 && p2 != 1 {
      var t1, t2 := NatToString(p1), NatToString(p2);
      assert t1 == (t1 + "/")[..|t1|];
      assert t2 == (t2 + "/")[..|t2|];
      assert |t1| == |t2|;
      assert t1 == t2;
    }
  }

  lemma UrlParts(pre: string, f: string, rest: string)
    requires |f| == 10
    ensures var u := pre + f + "/" + rest;
      u[|pre|..|pre| + 10] == f && u[|pre| + 11..] == rest
  {
    var u := pre + f + "/" + rest;
    assert u == pre + (f + "/" + rest);
    assert u[|pre|..] == f + "/" + rest;
  }

  /** `seccion`: the cleaned text of the section link, "General" when there is none. */
  function SectionOf(cfg: Config, c: Candidate): string {
    match c.section
    case Some(text) => cfg.clean(text)
    case None => "General"
  }

  /**
   * Peru21's `fecha`: the first word of the stripped update-day text, or the archive day when
   * that block is missing or blank.
   */
  function UpdateDate(updated: Option<string>, day: string): string {
    match updated
    case None => day
    case Some(text) =>
      var t := Strip(text);
      if t != "" then
        StripLeftShape(text);
        StripEnds(StripLeft(text));
        assert !IsSpace(t[0]);
        assert StripLeft(t) == t;
        FirstToken(t).value
      else
        day
  }

  /**
   * UpdateDate is the archive day when the block is missing or blank, and otherwise the
   * stripped text's first word: a non-empty prefix without whitespace, followed by whitespace
   * or by nothing.
   */
  lemma UpdateDateWord(updated: Option<string>, day: string)
    ensures var fecha := UpdateDate(updated, day);
      && (updated.None? || Strip(updated.value) == "" ==> fecha == day)
      && (updated.Some? && Strip(updated.value) != "" ==>
          var t := Strip(updated.value);
          && fecha != "" && |fecha| <= |t| && fecha == t[..|fecha|]
          && (forall i :: 0 <= i < |fecha| ==> !IsSpace(fecha[i]))
          && (|fecha| < |t| ==> IsSpace(t[|fecha|])))
  {
    if updated.Some? && Strip(updated.value) != "" {
      var t := Strip(updated.value);
      StripLeftShape(updated.value);
      StripEnds(StripLeft(updated.value));
      assert !IsSpace(t[0]);
      assert StripLeft(t) == t;
    }
  }

  /**
   * One story block into a news item, or None when it is skipped (BuildItemFilter states when).
   */
  function BuildItem(cfg: Config, day: string, c: Candidate): Option<NewsItem>
  {
    match cfg.site
    case DiarioCorreo =>
      if c.title.None? then None
      else
        var title := cfg.clean(c.title.value);
        var url := cfg.urljoin(cfg.baseUrl, c.link.GetOr(""));
        if title != "" && url != "" then Some(NewsItem(day, SectionOf(cfg, c), title, url)) else None
    case Peru21 =>
      if c.link.None? then None
      else
        var url := cfg.urljoin(cfg.baseUrl, c.link.value);
        if c.title.None? then None
        else
          var title := cfg.clean(c.title.value);
          if title != "" && url != "" then Some(NewsItem(UpdateDate(c.updated, day), SectionOf(cfg, c), title, url)) else None
  }

  /**
   * The item filter: Diario Correo keeps a block with a title link, Peru21 one with a link and
   * an `h2`; on both the cleaned title and the joined URL must be non-empty. Diario Correo dates
   * the item with the archive day, Peru21 with UpdateDate; a missing href is "" on Diario Correo.
   */
  lemma BuildItemFilter(cfg: Config, day: string, c: Candidate)
    ensures var r := BuildItem(cfg, day, c);
      && (r.Some? ==> c.title.Some? && r.value.titular == cfg.clean(c.title.value)
                      && r.value.seccion == SectionOf(cfg, c))
      && (cfg.site == DiarioCorreo ==>
          && (r.Some? <==> c.title.Some? && cfg.clean(c.title.value) != ""
                           && cfg.urljoin(cfg.baseUrl, c.link.GetOr("")) != "")
          && (r.Some? ==> r.value.fecha == day && r.value.url == cfg.urljoin(cfg.baseUrl, c.link.GetOr(""))))
      && (cfg.site == Peru21 ==>
          && (r.Some? <==> c.link.Some? && c.title.Some? && cfg.clean(c.title.value) != ""
                           && cfg.urljoin(cfg.baseUrl, c.link.value) != "")
          && (r.Some? ==> r.value.fecha == UpdateDate(c.updated, day) && r.value.url == cfg.urljoin(cfg.baseUrl, c.link.value)))
  {
  }

  /** A word: non-empty and without whitespace. */
  predicate Word(s: string) {
    s != "" && forall j :: 0 <= j < |s| ==> !IsSpace(s[j])
  }

  /**
   * What every listed item satisfies: a non-empty title and URL, and a `fecha` that is a single
   * word; on Diario Correo that word is always the archive day.
   */
  predicate ValidItem(cfg: Config, day: string, item: NewsItem) {
    && item.titular != "" && item.url != "" && Word(item.fecha)
    && (cfg.site == DiarioCorreo ==> item.fecha == day)
  }

  ghost predicate ValidItems(cfg: Config, day: string, items: seq<NewsItem>) {
    forall k :: 0 <= k < |items| ==> ValidItem(cfg, day, items[k])
  }

  lemma FormatIsWord(d: Day)
    ensures Word(Format(d))
  {
  }

  lemma BuildItemValid(cfg: Config, day: string, c: Candidate)
    requires Word(day)
    ensures BuildItem(cfg, day, c).Some? ==> ValidItem(cfg, day, BuildItem(cfg, day, c).value)
  {
    if BuildItem(cfg, day, c).Some? && cfg.site == Peru21 {
      Peru21Fecha(cfg, day, c);
      UpdateDateIsWord(c.updated, day);
    }
  }

  lemma UpdateDateIsWord(updated: Option<string>, day: string)
    requires Word(day)
    ensures Word(UpdateDate(updated, day))
  {
    UpdateDateWord(updated, day);
  }

  /** The items of one page, in page order. */
  function ItemsOf(cfg: Config, day: string, cands: seq<Candidate>): (items: seq<NewsItem>)
    ensures |items| <= |cands|
  {
    if cands == [] then []
    else
      var init := ItemsOf(cfg, day, cands[..|cands| - 1]);
      match BuildItem(cfg, day, cands[|cands| - 1])
      case Some(item) => init + [item]
      case None => init
  }

  /** The `for` loop over the story blocks of a page, appending to the list built so far. */
  method CollectItems(cfg: Config, day: string, cands: seq<Candidate>, acc: seq<NewsItem>) returns (items: seq<NewsItem>)
    ensures items == acc + ItemsOf(cfg, day, cands)
  {
    items := acc;
    for i := 0 to |cands|
      invariant items == acc + ItemsOf(cfg, day, cands[..i])
    {
      assert cands[..i + 1][..i] == cands[..i];
      var item := BuildItem(cfg, day, cands[i]);
      if item.Some? {
        items := items + [item.value];
      }
    }
    assert cands[..|cands|] == cands;
  }

  /** A page gives no item exactly when every one of its story blocks is skipped. */
  lemma ItemsEmpty(cfg: Config, day: string, cands: seq<Candidate>)
    ensures ItemsOf(cfg, day, cands) == [] <==> forall i :: 0 <= i < |cands| ==> BuildItem(cfg, day, cands[i]).None?
  {
    if ItemsOf(cfg, day, cands) == [] {
      NoItemsAllSkipped(cfg, day, cands);
    } else {
      SomeItemOneKept(cfg, day, cands);
    }
  }

  lemma {:induction false} NoItemsAllSkipped(cfg: Config, day: string, cands: seq<Candidate>)
    requires ItemsOf(cfg, day, cands) == []
    ensures forall i :: 0 <= i < |cands| ==> BuildItem(cfg, day, cands[i]).None?
  {
    if cands != [] {
      var init := cands[..|cands| - 1];
      NoItemsAllSkipped(cfg, day, init);
      forall i | 0 <= i < |cands|
        ensures BuildItem(cfg, day, cands[i]).None?
      {
        if i < |init| {
          assert cands[i] == init[i];
        }
      }
    }
  }

  lemma {:induction false} SomeItemOneKept(cfg: Config, day: string, cands: seq<Candidate>)
    requires ItemsOf(cfg, day, cands) != []
    ensures exists i :: 0 <= i < |cands| && BuildItem(cfg, day, cands[i]).Some?
  {
    var init := cands[..|cands| - 1];
    var last := |cands| - 1;
    if BuildItem(cfg, day, cands[last]).None? {
      SomeItemOneKept(cfg, day, init);
      var k :| 0 <= k < |init| && BuildItem(cfg, day, init[k]).Some?;
      assert cands[k] == init[k];
    }
  }

  /** Every item of a page is valid. */
  lemma {:induction false} ItemsValid(cfg: Config, day: string, cands: seq<Candidate>)
    requires Word(day)
    ensures ValidItems(cfg, day, ItemsOf(cfg, day, cands))
  {
    if cands != [] {
      ItemsValid(cfg, day, cands[..|cands| - 1]);
      BuildItemValid(cfg, day, cands[|cands| - 1]);
    }
  }

  /**
   * Peru21's row date need not be the archive day: a story listed under `date` whose update-date
   * block reads "<other day> <time>" is dated the other day.
   */
  lemma Peru21FechaFromUpdate(cfg: Config, date: Day, c: Candidate, other: Day, time: string)
    requires cfg.site == Peru21 && BuildItem(cfg, Format(date), c).Some?
    requires c.updated == Some(Format(other) + " " + time)
    ensures BuildItem(cfg, Format(date), c).value.fecha == Format(other)
    ensures other != date ==> BuildItem(cfg, Format(date), c).value.fecha != Format(date)
  {
    FormatIsWord(other);
    assert Format(other) + " " + time == Format(other) + (" " + time);
    UpdateDateOfWord(Format(other), " " + time, Format(date));
    Peru21Fecha(cfg, Format(date), c);
    if other != date {
      FormatInjective(other, date);
    }
  }

  lemma Peru21Fecha(cfg: Config, day: string, c: Candidate)
    requires cfg.site == Peru21 && BuildItem(cfg, day, c).Some?
    ensures BuildItem(cfg, day, c).value.fecha == UpdateDate(c.updated, day)
  {
  }

  lemma FormatInjective(d1: Day, d2: Day)
    requires d1 != d2
    ensures Format(d1) != Format(d2)
  {
    ParseFormat(d1);
    ParseFormat(d2);
  }

  /** An update-date text that starts with a word followed by whitespace or nothing gives that word. */
  lemma UpdateDateOfWord(w: string, rest: string, day: string)
    requires Word(w) && (rest == [] || IsSpace(rest[0]))
    ensures UpdateDate(Some(w + rest), day) == w
  {
    var s := w + rest;
    assert s[0] == w[0];
    assert StripLeft(s) == s;
    var t := Strip(s);
    StripRightKeepsWord(w, rest);
    assert t == w + t[|w|..];
    FirstTokenBeforeSpace(w, t[|w|..]);
    assert StripLeft(t) == t;
  }

  lemma StripRightKeepsWord(w: string, rest: string)
    requires Word(w) && (rest == [] || IsSpace(rest[0]))
    ensures var t := StripRight(w + rest);
      |w| <= |t| && t[..|w|] == w && (|t| > |w| ==> IsSpace(t[|w|]))
  {
    var s := w + rest;
    var t := StripRight(s);
    assert !IsSpace(s[|w| - 1]);
    assert |w| <= |t|;
    assert t[..|w|] == s[..|w|];
  }

  /**
   * Diario Correo's get_news_list: one archive page through the retry wrapper. None exactly
   * when the retries end in a RequestException or were never tried, [] for any other
   * exception, and the page's items otherwise.
   */
  method CorreoNewsList(cfg: Config, s: Session, day: string) returns (news: Option<seq<NewsItem>>)
    requires cfg.site == DiarioCorreo
    modifies s
    ensures var t := RetryCall(s.listing(day, 1), |old(s.requests)|, cfg.maxRetries, cfg.retryDelay);
      && (news.None? <==> t.result.RaisedNetwork? || t.result.NoAttempt?)
      && (t.result.RaisedOther? ==> news == Some([]))
      && (t.result.Value? ==> news == Some(ItemsOf(cfg, day, t.result.v.candidates)))
      && s.requests == old(s.requests) + Repeat(Archive(day, 1), t.attempts)
      && s.waits == old(s.waits) + t.waits
  {
    var r := RetryRequest(s, Archive(day, 1), s.listing(day, 1), cfg.maxRetries, cfg.retryDelay);
    match r
    case Value(page) =>
      var items := CollectItems(cfg, day, page.candidates, []);
      assert items == ItemsOf(cfg, day, page.candidates);
      news := Some(items);
    case RaisedOther =>
      news := Some([]);
    case _ =>
      news := None;
  }

  /**
   * Trace i (for page i + 1) is the retry run of that page's request, starting with the request
   * that follows all those of the pages before.
   */
  ghost predicate Chained(listing: (string, nat) -> (nat -> CallOutcome<Page>), day: string, maxRetries: int, delay: int,
                          start: nat, traces: seq<Trace<Page>>)
  {
    traces == [] ||
      (Chained(listing, day, maxRetries, delay, start, traces[..|traces| - 1])
       && traces[|traces| - 1] == RetryCall(listing(day, |traces|), start + Used(traces[..|traces| - 1]), maxRetries, delay))
  }

  /** Requests made by a run of page traces. */
  function Used(traces: seq<Trace<Page>>): nat {
    if traces == [] then 0 else Used(traces[..|traces| - 1]) + traces[|traces| - 1].attempts
  }

  /** The requests made: page i + 1 of the day once per attempt of trace i. */
  function RequestLog(day: string, traces: seq<Trace<Page>>): (log: seq<Request>)
    ensures |log| == Used(traces)
  {
    if traces == [] then []
    else RequestLog(day, traces[..|traces| - 1]) + Repeat(Archive(day, |traces|), traces[|traces| - 1].attempts)
  }

  function WaitLog(traces: seq<Trace<Page>>): seq<int> {
    if traces == [] then [] else WaitLog(traces[..|traces| - 1]) + traces[|traces| - 1].waits
  }

  /** Peru21 goes on to the next page after this one. */
  predicate Continues(t: Trace<Page>) {
    t.result.Value? && t.result.v.candidates != [] && t.result.v.hasNext
  }

  function TraceItems(cfg: Config, day: string, t: Trace<Page>): seq<NewsItem> {
    if t.result.Value? then ItemsOf(cfg, day, t.result.v.candidates) else []
  }

  /** The items of the pages read, in page order. */
  function PagesItems(cfg: Config, day: string, traces: seq<Trace<Page>>): seq<NewsItem> {
    if traces == [] then [] else PagesItems(cfg, day, traces[..|traces| - 1]) + TraceItems(cfg, day, traces[|traces| - 1])
  }

  /**
   * What get_news_list returns after the pages of `traces`: everything read when the last page
   * was read too; the earlier pages' items when the last one raised something else than a
   * RequestException; on a RequestException (or no attempt) None on page 1, else the earlier
   * pages' items. Diario Correo reads page 1 only, and this is then its None, [] or items.
   */
  function Listed(cfg: Config, day: string, traces: seq<Trace<Page>>): Option<seq<NewsItem>>
    requires |traces| >= 1
  {
    var before := PagesItems(cfg, day, traces[..|traces| - 1]);
    match traces[|traces| - 1].result
    case Value(_) => Some(PagesItems(cfg, day, traces))
    case RaisedOther => Some(before)
    case _ => if |traces| == 1 then None else Some(before)
  }

  /** Peru21's listing is None exactly when page 1 failed on the network (or was never tried). */
  lemma Peru21ListedNone(cfg: Config, day: string, traces: seq<Trace<Page>>)
    requires |traces| >= 1
    ensures Listed(cfg, day, traces).None? <==>
      |traces| == 1 && (traces[0].result.RaisedNetwork? || traces[0].result.NoAttempt?)
  {
  }

  /**
   * A failure part-way keeps the pages already read: whatever ends the listing, the items of
   * every page before the last are returned, first and in order.
   */
  lemma Peru21KeepsEarlierPages(cfg: Config, day: string, traces: seq<Trace<Page>>)
    requires |traces| >= 2
    ensures var r := Listed(cfg, day, traces);
      && r.Some?
      && PagesItems(cfg, day, traces[..|traces| - 1]) <= r.value
      && (!traces[|traces| - 1].result.Value? ==> r.value == PagesItems(cfg, day, traces[..|traces| - 1]))
  {
  }

  /** Every item of every page read satisfies ValidItems. */
  lemma {:induction false} PagesValid(cfg: Config, day: string, traces: seq<Trace<Page>>)
    requires Word(day)
    ensures ValidItems(cfg, day, PagesItems(cfg, day, traces))
  {
    if traces != [] {
      var init := traces[..|traces| - 1];
      var last := traces[|traces| - 1];
      PagesValid(cfg, day, init);
      if last.result.Value? {
        ItemsValid(cfg, day, last.result.v.candidates);
      }
      var a, b := PagesItems(cfg, day, init), TraceItems(cfg, day, last);
      assert PagesItems(cfg, day, traces) == a + b;
      forall k | 0 <= k < |a + b|
        ensures (a + b)[k] == (if k < |a| then a[k] else b[k - |a|])
      {
      }
    }
  }

  /** Appending a page's trace extends each log by that page's share. */
  lemma ChainedSnoc(listing: (string, nat) -> (nat -> CallOutcome<Page>), day: string, maxRetries: int, delay: int,
                    start: nat, before: seq<Trace<Page>>, t: Trace<Page>)
    requires Chained(listing, day, maxRetries, delay, start, before)
    requires t == RetryCall(listing(day, |before| + 1), start + Used(before), maxRetries, delay)
    ensures Chained(listing, day, maxRetries, delay, start, before + [t])
  {
    assert (before + [t])[..|before|] == before;
  }

  /** The session's logs after one more page's retry run. */
  lemma LogsGrow(day: string, before: seq<Trace<Page>>, t: Trace<Page>, log0: seq<Request>, log: seq<Request>,
                 log': seq<Request>, waits0: seq<int>, waits: seq<int>, waits': seq<int>)
    requires log == log0 + RequestLog(day, before) && log' == log + Repeat(Archive(day, |before| + 1), t.attempts)
    requires waits == waits0 + WaitLog(before) && waits' == waits + t.waits
    ensures log' == log0 + RequestLog(day, before + [t]) && waits' == waits0 + WaitLog(before + [t])
  {
    LogsSnoc(day, before, t);
    assert log' == log0 + (RequestLog(day, before) + Repeat(Archive(day, |before| + 1), t.attempts));
    assert waits' == waits0 + (WaitLog(before) + t.waits);
  }

  lemma LogsSnoc(day: string, before: seq<Trace<Page>>, t: Trace<Page>)
    ensures var traces := before + [t];
      && traces[..|traces| - 1] == before
      && Used(traces) == Used(before) + t.attempts
      && RequestLog(day, traces) == RequestLog(day, before) + Repeat(Archive(day, |traces|), t.attempts)
      && WaitLog(traces) == WaitLog(before) + t.waits
  {
    var traces := before + [t];
    assert traces[..|traces| - 1] == before;
  }

  /** Appending a page's trace appends that page's items. */
  lemma ItemsSnoc(cfg: Config, day: string, before: seq<Trace<Page>>, t: Trace<Page>)
    ensures PagesItems(cfg, day, before + [t]) == PagesItems(cfg, day, before) + TraceItems(cfg, day, t)
  {
    var traces := before + [t];
    assert traces[..|traces| - 1] == before;
  }

  lemma ContinuesSnoc(before: seq<Trace<Page>>, t: Trace<Page>)
    requires forall i :: 0 <= i < |before| ==> Continues(before[i])
    ensures forall i :: 0 <= i < |before + [t]| - 1 ==> Continues((before + [t])[i])
    ensures (before + [t])[|before + [t]| - 1] == t
    ensures Continues(t) ==> forall i :: 0 <= i < |before + [t]| ==> Continues((before + [t])[i])
  {
  }

  /** What Peru21's listing returns when it stops at the page of `t`, after the pages of `before`. */
  lemma ListedStep(cfg: Config, day: string, before: seq<Trace<Page>>, t: Trace<Page>)
    ensures t.result.Value? ==>
      Listed(cfg, day, before + [t]) == Some(PagesItems(cfg, day, before) + ItemsOf(cfg, day, t.result.v.candidates))
    ensures t.result.RaisedOther? ==> Listed(cfg, day, before + [t]) == Some(PagesItems(cfg, day, before))
    ensures t.result.RaisedNetwork? || t.result.NoAttempt? ==>
      Listed(cfg, day, before + [t]) == if before == [] then None else Some(PagesItems(cfg, day, before))
  {
    ItemsSnoc(cfg, day, before, t);
    assert (before + [t])[..|before + [t]| - 1] == before;
  }

  /**
   * One page of Peru21's listing: the retry run of page `page`'s request, which is the next
   * link of the chain of traces; the logs grow by that page's share.
   */
  method ReadPage(cfg: Config, s: Session, day: string, page: nat,
                  ghost log0: seq<Request>, ghost waits0: seq<int>, ghost before: seq<Trace<Page>>)
    returns (r: RetryResult<Page>, ghost t: Trace<Page>)
    requires page == |before| + 1
    requires Chained(s.listing, day, cfg.maxRetries, cfg.retryDelay, |log0|, before)
    requires s.requests == log0 + RequestLog(day, before)
    requires s.waits == waits0 + WaitLog(before)
    requires s.Finite()
    modifies s
    ensures r == t.result
    ensures Chained(s.listing, day, cfg.maxRetries, cfg.retryDelay, |log0|, before + [t])
    ensures r.Value? && page > s.lastPage ==> !r.v.hasNext
    ensures s.requests == log0 + RequestLog(day, before + [t])
    ensures s.waits == waits0 + WaitLog(before + [t])
  {
    var answer := s.listing(day, page);
    t := RetryCall(answer, |s.requests|, cfg.maxRetries, cfg.retryDelay);
    r := RetryRequest(s, Archive(day, page), answer, cfg.maxRetries, cfg.retryDelay);
    assert |old(s.requests)| == |log0| + Used(before);
    ChainedSnoc(s.listing, day, cfg.maxRetries, cfg.retryDelay, |log0|, before, t);
    LogsGrow(day, before, t, log0, old(s.requests), s.requests, waits0, old(s.waits), s.waits);
    if r.Value? && page > s.lastPage {
      ValueOfLastCall(answer, old(|s.requests|), cfg.maxRetries, cfg.retryDelay);
      LastPageEnds(s, day, page, old(|s.requests|) + t.attempts - 1, r.v);
    }
  }

  lemma LastPageEnds(s: Session, day: string, page: nat, n: nat, p: Page)
    requires s.Finite() && page >= s.lastPage && s.listing(day, page)(n) == Returned(p)
    ensures !p.hasNext
  {
  }

  /**
   * Peru21's get_news_list: pages 1, 2, ... through the retry wrapper, page i + 1 answered by
   * the request that follows all those of the pages before; it stops at the first page with no
   * story block, without a next link, or whose request failed, and returns Listed.
   */
  method Peru21NewsList(cfg: Config, s: Session, day: string)
    returns (news: Option<seq<NewsItem>>, ghost traces: seq<Trace<Page>>)
    requires cfg.site == Peru21 && s.Finite()
    modifies s
    ensures |traces| >= 1
    ensures Chained(s.listing, day, cfg.maxRetries, cfg.retryDelay, |old(s.requests)|, traces)
    ensures forall i :: 0 <= i < |traces| - 1 ==> Continues(traces[i])
    ensures !Continues(traces[|traces| - 1])
    ensures news == Listed(cfg, day, traces)
    ensures s.requests == old(s.requests) + RequestLog(day, traces)
    ensures s.waits == old(s.waits) + WaitLog(traces)
  {
    var all: seq<NewsItem> := [];
    var page: nat := 1;
    traces := [];
    while true
      invariant page == |traces| + 1 && page <= s.lastPage + 1
      invariant Chained(s.listing, day, cfg.maxRetries, cfg.retryDelay, |old(s.requests)|, traces)
      invariant forall i :: 0 <= i < |traces| ==> Continues(traces[i])
      invariant all == PagesItems(cfg, day, traces)
      invariant s.requests == old(s.requests) + RequestLog(day, traces)
      invariant s.waits == old(s.waits) + WaitLog(traces)
      decreases s.lastPage + 1 - page
    {
      ghost var before := traces;
      var r;
      ghost var t;
      r, t := ReadPage(cfg, s, day, page, old(s.requests), old(s.waits), before);
      traces := before + [t];
      ContinuesSnoc(before, t);
      ItemsSnoc(cfg, day, before, t);
      ListedStep(cfg, day, before, t);
      match r
      case Value(p) =>
        if p.candidates == [] {
          assert PagesItems(cfg, day, before) + ItemsOf(cfg, day, p.candidates) == all + [] == all;
          news := Some(all);
          return;
        }
        all := CollectItems(cfg, day, p.candidates, all);
        if !p.hasNext {
          news := Some(all);
          return;
        }
        page := page + 1;
      case RaisedOther =>
        news := Some(all);
        return;
      case _ =>
        news := if page == 1 then None else Some(all);
        return;
    }
  }

  /**
   * The pages get_news_list read, from request number `start` on: trace i is the retry run of
   * page i + 1, chained after the pages before. Diario Correo reads page 1 only; Peru21 goes on
   * exactly while a page has stories and a next link.
   */
  ghost predicate ListingRun(cfg: Config, listing: (string, nat) -> (nat -> CallOutcome<Page>), day: string,
                             start: nat, traces: seq<Trace<Page>>)
  {
    && |traces| >= 1
    && Chained(listing, day, cfg.maxRetries, cfg.retryDelay, start, traces)
    && (cfg.site == DiarioCorreo ==> |traces| == 1)
    && (cfg.site == Peru21 ==>
        (forall i :: 0 <= i < |traces| - 1 ==> Continues(traces[i])) && !Continues(traces[|traces| - 1]))
  }

  /** The first page's trace is the retry run of page 1 from request number `start`. */
  lemma {:induction false} ChainedFirst(listing: (string, nat) -> (nat -> CallOutcome<Page>), day: string, maxRetries: int,
                                        delay: int, start: nat, traces: seq<Trace<Page>>)
    requires |traces| >= 1 && Chained(listing, day, maxRetries, delay, start, traces)
    ensures traces[0] == RetryCall(listing(day, 1), start, maxRetries, delay)
  {
    if |traces| > 1 {
      var init := traces[..|traces| - 1];
      ChainedFirst(listing, day, maxRetries, delay, start, init);
      assert init[0] == traces[0];
    } else {
      assert traces[..0] == [];
    }
  }

  /** The request log of the pages read starts with page 1's requests. */
  lemma {:induction false} RequestLogFirst(day: string, traces: seq<Trace<Page>>)
    requires |traces| >= 1
    ensures traces[0].attempts <= |RequestLog(day, traces)|
    ensures RequestLog(day, traces)[..traces[0].attempts] == Repeat(Archive(day, 1), traces[0].attempts)
  {
    var init := traces[..|traces| - 1];
    if |traces| > 1 {
      RequestLogFirst(day, init);
      assert init[0] == traces[0];
      var log := RequestLog(day, init);
      assert RequestLog(day, traces)[..traces[0].attempts] == log[..traces[0].attempts];
    } else {
      assert init == [];
    }
  }

  /**
   * The list is None exactly when the retry run of page 1, the first request of the day,
   * ended in a RequestException or was never tried; with max_retries >= 1 the day's first
   * request is page 1 of its archive.
   */
  lemma ListedNoneIff(cfg: Config, listing: (string, nat) -> (nat -> CallOutcome<Page>), day: string,
                      start: nat, traces: seq<Trace<Page>>)
    requires ListingRun(cfg, listing, day, start, traces)
    ensures var first := RetryCall(listing(day, 1), start, cfg.maxRetries, cfg.retryDelay);
      Listed(cfg, day, traces).None? <==> first.result.RaisedNetwork? || first.result.NoAttempt?
    ensures cfg.maxRetries >= 1 ==> |RequestLog(day, traces)| >= 1 && RequestLog(day, traces)[0] == Archive(day, 1)
  {
    ChainedFirst(listing, day, cfg.maxRetries, cfg.retryDelay, start, traces);
    Peru21ListedNone(cfg, day, traces);
    if cfg.maxRetries >= 1 {
      RetryPolicy(listing(day, 1), start, cfg.maxRetries, cfg.retryDelay);
      RequestLogFirst(day, traces);
      assert RequestLog(day, traces)[0] == RequestLog(day, traces)[..traces[0].attempts][0];
    }
  }

  /** Whatever the listing returns holds valid items only. */
  lemma ListedValid(cfg: Config, day: string, traces: seq<Trace<Page>>)
    requires Word(day) && |traces| >= 1
    ensures Listed(cfg, day, traces).Some? ==> ValidItems(cfg, day, Listed(cfg, day, traces).value)
  {
    PagesValid(cfg, day, traces);
    PagesValid(cfg, day, traces[..|traces| - 1]);
  }

  /** Diario Correo's single page, as a run of one trace. */
  lemma OnePage(cfg: Config, listing: (string, nat) -> (nat -> CallOutcome<Page>), day: string, start: nat, t: Trace<Page>)
    requires cfg.site == DiarioCorreo && t == RetryCall(listing(day, 1), start, cfg.maxRetries, cfg.retryDelay)
    ensures ListingRun(cfg, listing, day, start, [t])
    ensures RequestLog(day, [t]) == Repeat(Archive(day, 1), t.attempts) && WaitLog([t]) == t.waits
  {
    assert [t][..0] == [];
    assert Chained(listing, day, cfg.maxRetries, cfg.retryDelay, start, []);
  }

  /** A listing of one page: None, [] or the page's items, as Diario Correo's get_news_list returns. */
  lemma OnePageListed(cfg: Config, day: string, t: Trace<Page>)
    ensures t.result.Value? ==> Listed(cfg, day, [t]) == Some(ItemsOf(cfg, day, t.result.v.candidates))
    ensures t.result.RaisedOther? ==> Listed(cfg, day, [t]) == Some([])
    ensures t.result.RaisedNetwork? || t.result.NoAttempt? ==> Listed(cfg, day, [t]) == None
  {
    var traces := [t];
    assert traces[..0] == [] && traces[0] == t;
    assert PagesItems(cfg, day, traces) == [] + TraceItems(cfg, day, t) == TraceItems(cfg, day, t);
  }

  /**
   * get_news_list: the site's own listing of the day, from the session's next request on. The
   * pages read form a ListingRun, the list is Listed of them, and the request and sleep logs
   * grow by exactly those pages' shares.
   */
  method GetNewsList(cfg: Config, s: Session, date: Day) returns (news: Option<seq<NewsItem>>, ghost traces: seq<Trace<Page>>)
    requires cfg.site == Peru21 ==> s.Finite()
    modifies s
    ensures ListingRun(cfg, s.listing, Format(date), |old(s.requests)|, traces)
    ensures news == Listed(cfg, Format(date), traces)
    ensures news.Some? ==> ValidItems(cfg, Format(date), news.value)
    ensures s.requests == old(s.requests) + RequestLog(Format(date), traces)
    ensures s.waits == old(s.waits) + WaitLog(traces)
  {
    var day := Format(date);
    FormatIsWord(date);
    if cfg.site == DiarioCorreo {
      ghost var t := RetryCall(s.listing(day, 1), |s.requests|, cfg.maxRetries, cfg.retryDelay);
      news := CorreoNewsList(cfg, s, day);
      traces := [t];
      OnePage(cfg, s.listing, day, |old(s.requests)|, t);
      OnePageListed(cfg, day, t);
    } else {
      news, traces := Peru21NewsList(cfg, s, day);
    }
    ListedValid(cfg, day, traces);
  }
}
