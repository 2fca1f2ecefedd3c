/**
 * The outside world of a scraper: its configuration, the archive and article pages as the HTML
 * parser hands them over, and the HTTP session with the retry wrapper `_retry_request`.
 */
module Site {
  import opened Wrappers
  import opened Markup
  import opened Retry

  /** NewsScrapper crawls Diario Correo (scrapper.py), Peru21Scrapper crawls Peru21 (scrapper_peru21.py). */
  datatype SiteKind = DiarioCorreo | Peru21

  /**
   * One story block of an archive page, already located in the HTML.
   * Diario Correo: `title` is the text of the link inside the `h2` title (None when either is
   * missing) and `link` that link's href. Peru21: `link` is the href of the first link with one
   * and `title` the `h2` text. On both, `section` is the section link's text and `updated` the
   * text of the update-date block (only Peru21 reads it).
   */
  datatype Candidate = Candidate(link: Option<string>, title: Option<string>, section: Option<string>, updated: Option<string>)

  /** An archive page: its story blocks and whether it has a `rel=next` link. */
  datatype Page = Page(candidates: seq<Candidate>, hasNext: bool)

  /** The dict a listing returns for each story. */
  datatype NewsItem = NewsItem(fecha: string, seccion: string, titular: string, url: string)

  /**
   * The scraper's settings. `urljoin` is the foreign URL resolver; `clean` is the scraper's own
   * `clean_text` method, which CleansWith ties to Markup.CleanText.
   */
  datatype Config = Config(site: SiteKind, baseUrl: string, maxRetries: int, retryDelay: int,
                           urljoin: (string, string) -> string, clean: string -> string)

  /** The scraper's clean_text is Markup.CleanText with the given emoji remover. */
  ghost predicate CleansWith(cfg: Config, demoji: string -> string) {
    forall t :: cfg.clean(t) == CleanText(t, demoji)
  }

  /** The settings `__init__` sets up by default. */
  function DefaultConfig(site: SiteKind, urljoin: (string, string) -> string, demoji: string -> string): (cfg: Config)
    ensures CleansWith(cfg, demoji)
  {
    Config(site, if site == DiarioCorreo then "https://diariocorreo.pe" else "https://peru21.pe", 3, 5, urljoin,
           t => CleanText(t, demoji))
  }

  /**
   * What one `session.get` asks for: page `page` of the archive of the day written `day`
   * (whose address is Listing.ArchiveUrl), or the article at `url`.
   */
  datatype Request = Archive(day: string, page: nat) | Article(url: string)

  /** `[req] * n` */
  function Repeat(req: Request, n: nat): (r: seq<Request>)
    ensures |r| == n && forall i :: 0 <= i < n ==> r[i] == req
  {
    seq(n, _ => req)
  }

  /**
   * The requests.Session of a scraper. The site is an oracle: the n-th request of the session,
   * if it asks for the archive of day d at page p, gets `listing(d, p)(n)`; if it asks for an
   * article, `articles(url)(n)` (the body block's text, or None when the page has none).
   * `requests` logs what was asked for, `waits` the seconds of every time.sleep.
   */
  class Session {
    const listing: (string, nat) -> (nat -> CallOutcome<Page>)
    const articles: string -> (nat -> CallOutcome<Option<string>>)
    const lastPage: nat
    var requests: seq<Request>
    ghost var waits: seq<int>

    /** No archive page at or past `lastPage` links to a next one: every day's archive is finite. */
    ghost predicate Finite() {
      forall d: string, p: nat, n: nat :: p >= lastPage && listing(d, p)(n).Returned? ==> !listing(d, p)(n).value.hasNext
    }

    constructor (listing: (string, nat) -> (nat -> CallOutcome<Page>),
                 articles: string -> (nat -> CallOutcome<Option<string>>), lastPage: nat)
      ensures this.listing == listing && this.articles == articles && this.lastPage == lastPage
      ensures requests == [] && waits == []
    {
      this.listing := listing;
      this.articles := articles;
      this.lastPage := lastPage;
      requests := [];
      waits := [];
    }

    /** `session.get(url)`, followed by raise_for_status and, where the caller does it, the parse. */
    method Get<T>(req: Request, answer: nat -> CallOutcome<T>) returns (o: CallOutcome<T>)
      modifies this
      ensures o == answer(|old(requests)|)
      ensures requests == old(requests) + [req] && waits == old(waits)
    {
      o := answer(|requests|);
      requests := requests + [req];
    }

    /** `time.sleep(seconds)` */
    ghost method Sleep(seconds: int)
      modifies this
      ensures waits == old(waits) + [seconds] && requests == old(requests)
    {
      waits := waits + [seconds];
    }
  }

  /**
   * `_retry_request(func)`: one request per attempt, a backoff sleep after each RequestException
   * but the last, and the result, the URLs asked for and the sleeps are exactly those of
   * `RetryCall`, whose shape `Retry.RetryPolicy` states.
   */
  method RetryRequest<T>(s: Session, req: Request, answer: nat -> CallOutcome<T>, maxRetries: int, delay: int)
    returns (r: RetryResult<T>)
    modifies s
    ensures var t := RetryCall(answer, |old(s.requests)|, maxRetries, delay);
      && r == t.result
      && s.requests == old(s.requests) + Repeat(req, t.attempts)
      && s.waits == old(s.waits) + t.waits
  {
    ghost var start := |s.requests|;
    var attempt: nat := 0;
    while attempt < maxRetries
      invariant attempt == 0 || attempt < maxRetries
      invariant s.requests == old(s.requests) + Repeat(req, attempt)
      invariant s.waits == old(s.waits) + Schedule(delay, attempt)
      invariant attempt < maxRetries ==> Pending(answer, start, maxRetries, delay, attempt)
      decreases maxRetries - attempt
    {
      assert |s.requests| == start + attempt;
      var o := s.Get(req, answer);
      assert Repeat(req, attempt) + [req] == Repeat(req, attempt + 1);
      AttemptDecides(answer, start, maxRetries, delay, attempt);
      assert o == answer(start + attempt);
      match o
      case Returned(v) =>
        return Value(v);
      case OtherError =>
        return RaisedOther;
      case NetworkError =>
        if attempt < maxRetries - 1 {
          s.Sleep(delay * Pow2(attempt));
          assert Schedule(delay, attempt) + [delay * Pow2(attempt)] == Schedule(delay, attempt + 1);
          attempt := attempt + 1;
        } else {
          return RaisedNetwork;
        }
    }
    return NoAttempt;
  }
}
