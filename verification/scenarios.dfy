/**
 * Whole crawls of main.py:72-86 from the starting URL, for the program's own
 * loop body: what every run guarantees, and three runs that show how the
 * loop really behaves.
 */
module CrawlScenarios {
  import opened Wrappers
  import opened BookPage
  import opened Crawler
  import opened CrawlerProperties
  import Text
  import Urls

  /**
   * The program's crawl from `s`: it ends normally only once `url` is
   * `None`, and crashes only at a URL.
   */
  function Run(fetch: Fetcher, s: Crawl): (r: Final)
    requires s.count <= MaxCount
    ensures r.halt == Exhausted ==> r.state.cursor == Nothing
    ensures r.halt.Crash? ==> r.state.cursor.At?
  {
    RunBodyIsSound(fetch);
    LoopHalts(ProgramBody(fetch), s);
    Loop(ProgramBody(fetch), s)
  }

  /**
   * A crash is `scrape` raising on the cleaned current URL, against the
   * scraped set as it stood; nothing is written for that page.
   */
  lemma RunCrashes(fetch: Fetcher, s: Crawl)
    requires s.count <= MaxCount
    ensures var r := Run(fetch, s);
            r.halt.Crash? ==>
              && r.state.cursor.At?
              && var url := Urls.CleanUrl(r.state.cursor.url);
                 Scrape(fetch(url), url, r.state.scraped) == Raised(r.halt.reason)
  {
    RunBodyIsSound(fetch);
    LoopHalts(ProgramBody(fetch), s);
  }

  /**
   * Every crawl from a starting URL and a loaded ledger: rows and ids
   * alternate, at most eleven pages are visited, the first id ledgered is
   * the cleaned starting URL's, no later id was in the loaded ledger, ids
   * repeat only back to back, and the final set is the ledger plus the ids
   * written. It ends normally only at `url = None`.
   */
  lemma RunGuarantees(fetch: Fetcher, seed: string, ledger: set<string>)
    ensures var s := Start(seed, ledger);
            var f := Run(fetch, s);
            var ws := NewWrites(ProgramBody(fetch), s);
            var ids := LedgerIds(ws);
            && Alternates(ws)
            && |ids| <= MaxCount + 1
            && (|ids| > 0 ==> ids[0] == Urls.Id(Urls.CleanUrl(seed)))
            && FreshAfterFirst(ids, ledger)
            && NoDistantRepeat(ids)
            && (forall x :: x in f.state.scraped <==> x in ledger || x in ids)
            && (f.halt == Exhausted ==> f.state.cursor == Nothing)
  {
    var body := ProgramBody(fetch);
    var s := Start(seed, ledger);
    RunBodyIsSound(fetch);
    LoopWrites(body, s);
    LoopHalts(body, s);
    assert Obeys(s.cursor, s.scraped, body(s.cursor, s.scraped));
    FirstLedgerId(body, s);
    LaterPagesWereUnscraped(body, s);
    AlternatingIdCount(NewWrites(body, s));
  }

  /**
   * The `while` loop as the program runs it, on mutable variables: it
   * computes exactly the crawl `Run` describes, never appends more than
   * eleven rows and eleven ids, and never forgets a loaded id.
   */
  method CrawlLoop(fetch: Fetcher, seed: string, ledger: set<string>) returns (final: Crawl, halt: Halt)
    ensures Final(final, halt) == Run(fetch, Start(seed, ledger))
    ensures |final.trace| <= 2 * (MaxCount + 1)
    ensures ledger <= final.scraped
  {
    var url := At(seed);
    var scraped := ledger;
    var trace: seq<Write> := [];
    var count := 0;
    ghost var body := ProgramBody(fetch);
    while true
      invariant count <= MaxCount
      invariant Loop(body, Crawl(url, scraped, trace, count)) == Run(fetch, Start(seed, ledger))
      decreases MaxCount - count
    {
      var s := Crawl(url, scraped, trace, count);
      if url == Nothing {
        LoopStops(body, s);
        return s, Exhausted;
      }
      var u := Urls.CleanUrl(url.url);
      var outcome := Scrape(fetch(u), u, scraped);
      if outcome.Raised? {
        assert body(s.cursor, s.scraped) == Raises(outcome.error);
        LoopStops(body, s);
        return s, Crash(outcome.error);
      }
      ghost var v := Visited(outcome.line, Urls.Id(u), outcome.next);
      assert body(s.cursor, s.scraped) == v;
      // data.csv, then scraped.txt
      trace := trace + [CsvRow(outcome.line), LedgerLine(Urls.Id(u))];
      scraped := scraped + {Urls.Id(u)};
      url := outcome.next;
      assert Crawl(url, scraped, trace, count) == Advance(s, v);
      if count == MaxCount {
        return Crawl(url, scraped, trace, count), Limit;
      }
      LoopContinues(body, s);
      count := count + 1;
      assert Crawl(url, scraped, trace, count) == Advance(s, v).(count := s.count + 1);
    }
  }

  /** Half of an alternating trace is ids. */
  lemma {:induction false} AlternatingIdCount(ws: seq<Write>)
    requires Alternates(ws)
    ensures 2 * |LedgerIds(ws)| == |ws|
    decreases |ws|
  {
    if |ws| > 0 {
      var rest := ws[2..];
      assert ws == [CsvRow(ws[0].line), LedgerLine(ws[1].id)] + rest;
      assert Alternates(rest) by {
        forall i | 0 <= i < |rest|
          ensures rest[i].CsvRow? <==> i % 2 == 0
        {
          assert rest[i] == ws[i + 2];
        }
      }
      AlternatingIdCount(rest);
      LedgerIdsOfVisit(ws[0].line, ws[1].id, rest);
    }
  }

  /**
   * The starting page is scraped and ledgered even when its id was already
   * in the ledger: only pages reached through `next` are checked against it.
   */
  lemma SeedIsAlwaysScraped(fetch: Fetcher, seed: string, ledger: set<string>)
    requires !Scrape(fetch(Urls.CleanUrl(seed)), Urls.CleanUrl(seed), ledger).Raised?
    ensures var ws := NewWrites(ProgramBody(fetch), Start(seed, ledger));
            && |ws| >= 2
            && ws[0].CsvRow?
            && Text.IsSuffix("\",\"" + Urls.CleanUrl(seed) + "\"\n", ws[0].line)
            && ws[1] == LedgerLine(Urls.Id(Urls.CleanUrl(seed)))
  {
    var body := ProgramBody(fetch);
    var s := Start(seed, ledger);
    assert body(s.cursor, s.scraped).Visited?;
    LoopUnfold(body, s);
  }

  /**
   * A page whose only related link is itself is scraped twice in a row:
   * the loop moves to it before its id joins the set, and stops on the
   * second visit because by then every related link has been seen.
   */
  lemma SelfLinkScrapedTwice(fetch: Fetcher, u: string, ledger: set<string>)
    requires '?' !in u && Urls.Id(u) !in ledger
    requires fetch(u).related == [Some(u)]
    ensures var s := Start(u, ledger);
            && Run(fetch, s).halt == Exhausted
            && LedgerIds(NewWrites(ProgramBody(fetch), s)) == [Urls.Id(u), Urls.Id(u)]
  {
    var body := ProgramBody(fetch);
    var s0 := Start(u, ledger);
    SelfLinkVisit(fetch, u, ledger);
    var v0 := body(s0.cursor, s0.scraped);
    var s1 := Advance(s0, v0).(count := 1);
    SelfLinkVisit(fetch, u, s1.scraped);
    var v1 := body(s1.cursor, s1.scraped);
    var s2 := Advance(s1, v1).(count := 2);
    assert body(s2.cursor, s2.scraped) == LoopTestFails;
    TwoVisitsThenStop(body, s0, v0, v1);
  }

  /** Two visits below the limit and then `url = None`: two ids, a normal end. */
  lemma TwoVisitsThenStop(body: LoopBody, s0: Crawl, v0: Visit, v1: Visit)
    requires s0.count + 1 < MaxCount
    requires body(s0.cursor, s0.scraped) == v0 && v0.Visited?
    requires var s1 := Advance(s0, v0).(count := s0.count + 1);
             && body(s1.cursor, s1.scraped) == v1 && v1.Visited?
             && var s2 := Advance(s1, v1).(count := s1.count + 1);
                body(s2.cursor, s2.scraped) == LoopTestFails
    ensures Loop(body, s0).halt == Exhausted
    ensures LedgerIds(NewWrites(body, s0)) == [v0.id, v1.id]
  {
    var s1 := Advance(s0, v0).(count := s0.count + 1);
    var s2 := Advance(s1, v1).(count := s1.count + 1);
    LoopContinues(body, s0);
    LoopContinues(body, s1);
    LoopUnfold(body, s0);
    LoopUnfold(body, s1);
    LoopStops(body, s2);
    LedgerIdsOfVisit(v1.line, v1.id, []);
    LedgerIdsOfVisit(v0.line, v0.id, NewWrites(body, s1));
  }

  /** One visit to the self-linked page: it moves to itself unless its id is already scraped. */
  lemma SelfLinkVisit(fetch: Fetcher, u: string, scraped: set<string>)
    requires '?' !in u
    requires fetch(u).related == [Some(u)]
    ensures var v := ProgramBody(fetch)(At(u), scraped);
            && v.Visited? && v.id == Urls.Id(u)
            && v.next == (if Urls.Id(u) in scraped then Nothing else At(u))
  {
    var related := fetch(u).related;
    assert Urls.CleanUrl(u) == u;
    if Urls.Id(u) !in scraped {
      assert AllSeen(related[..0], scraped);
      FirstUnseenDecides(related, scraped, 0);
    } else {
      assert Seen(related[0], scraped);
    }
  }

  /**
   * A page without related anchors crashes the crawl: `next` is never bound
   * in `scrape`, so its `return` raises before the page's row or id is
   * written. This holds wherever the crawl meets such a page, the starting
   * page and the eleventh included.
   */
  lemma DeadEndCrashes(fetch: Fetcher, s: Crawl)
    requires s.count <= MaxCount && s.cursor.At?
    requires fetch(Urls.CleanUrl(s.cursor.url)).related == []
    ensures Run(fetch, s) == Final(s, Crash(NextUnbound))
    ensures NewWrites(ProgramBody(fetch), s) == []
  {
    var body := ProgramBody(fetch);
    assert body(s.cursor, s.scraped) == Raises(NextUnbound);
    LoopStops(body, s);
  }

  /** A site where every page links on to one more `a`: `a`, `aa`, `aaa`, ... */
  function Chain(): (fetch: Fetcher)
  {
    u => Page("", None, [], [Some(u + "a")])
  }

  /** The crawl is at a plain page name longer than every scraped id. */
  predicate ChainReady(s: Crawl)
  {
    && s.cursor.At?
    && '?' !in s.cursor.url && '/' !in s.cursor.url
    && forall x :: x in s.scraped ==> |x| < |s.cursor.url|
  }

  /** A visit from such a page that ledgers it and reaches another such page. */
  predicate ChainVisit(s: Crawl, v: Visit)
  {
    v.Visited? && s.cursor.At? && v.id == s.cursor.url && ChainReady(Advance(s, v))
  }

  /** On the chain, such a page is visited, and the crawl moves on to another such page. */
  lemma ChainStep(s: Crawl)
    requires ChainReady(s)
    ensures ChainVisit(s, ProgramBody(Chain())(s.cursor, s.scraped))
  {
    var u := s.cursor.url;
    var next := u + "a";
    assert Urls.CleanUrl(u) == u && Urls.Id(u) == u;
    assert '?' !in next && '/' !in next;
    assert Urls.CleanUrl(next) == next && Urls.Id(next) == next;
    var related := Chain()(u).related;
    assert related == [Some(next)];
    assert AllSeen(related[..0], s.scraped);
    FirstUnseenDecides(related, s.scraped, 0);
  }

  /** Any body that keeps visiting such pages runs into the limit. */
  lemma {:induction false} KeepsVisitingToLimit(body: LoopBody, s: Crawl)
    requires s.count <= MaxCount && ChainReady(s)
    requires forall t {:trigger body(t.cursor, t.scraped)} ::
               ChainReady(t) ==> ChainVisit(t, body(t.cursor, t.scraped))
    ensures Loop(body, s).halt == Limit
    decreases MaxCount - s.count
  {
    var v := body(s.cursor, s.scraped);
    assert ChainVisit(s, v);
    if s.count < MaxCount {
      LoopContinues(body, s);
      var t := Advance(s, v).(count := s.count + 1);
      assert ChainReady(t);
      KeepsVisitingToLimit(body, t);
    }
  }

  /** From such a page, the chain runs into the limit. */
  lemma ChainRunsToLimit(s: Crawl)
    requires s.count <= MaxCount && ChainReady(s)
    ensures Run(Chain(), s).halt == Limit
  {
    var body := ProgramBody(Chain());
    forall t | ChainReady(t)
      ensures ChainVisit(t, body(t.cursor, t.scraped))
    {
      ChainStep(t);
    }
    KeepsVisitingToLimit(body, s);
  }

  /**
   * The limit is reached: a crawl of the chain from a plain page name with an
   * empty ledger writes eleven rows and eleven ids, then breaks.
   */
  lemma ElevenPagesPerRun(name: string)
    requires '?' !in name && '/' !in name
    ensures var f := Run(Chain(), Start(name, {}));
            f.halt == Limit && |f.state.trace| == 2 * (MaxCount + 1)
  {
    assert ChainReady(Start(name, {}));
    ChainRunsToLimit(Start(name, {}));
  }
}
