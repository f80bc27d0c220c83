/**
 * The crawl loop of main.py (lines 72-86): clean the current URL, fetch and
 * scrape the page, append its CSV line and then its id to the two logs, add
 * the id to the scraped set, move to `next`, and stop after the page at which
 * the counter reads 10.
 *
 * `Loop` is the loop with its body as a parameter: it performs the writes,
 * the set update and the counter test itself, so its own contract holds for
 * any body. `Body` is the program's body (the loop test, `clean_url`, the
 * fetch and `scrape`) and `Run` puts the two together.
 */
module Crawler {
  import opened BookPage
  import Text
  import Urls

  /** One append to an output file, in the order the program performs them. */
  datatype Write = CsvRow(line: string) | LedgerLine(id: string)
  {
    /** The text appended: to `data.csv` for a row, to `scraped.txt` for an id. */
    function Appended(): (text: string)
    {
      match this
      case CsvRow(line) => line
      case LedgerLine(id) => id + "\n"
    }
  }

  /** How the crawl ended: `url` became `None`, the counter broke the loop, or `scrape` raised. */
  datatype Halt = Exhausted | Limit | Crash(reason: ScrapeError)

  /**
   * The loop's variables: `url`, the `scraped` set, everything appended to
   * the two files so far, and `count`.
   */
  datatype Crawl = Crawl(cursor: Cursor, scraped: set<string>, trace: seq<Write>, count: nat)

  datatype Final = Final(state: Crawl, halt: Halt)

  /**
   * What one pass does before the writes: leave the loop (`url` is `None`),
   * raise, or produce a row, an id and the next `url`.
   */
  datatype Visit = LoopTestFails | Raises(reason: ScrapeError) | Visited(line: string, id: string, next: Cursor)

  /** The page fetched for a URL: the browser and parser, left uninterpreted. */
  type Fetcher = string -> Page

  /** A loop body: the visit made from the current `url` and `scraped` set. */
  type LoopBody = (Cursor, set<string>) -> Visit

  /** The loop breaks once it has processed a page with `count == 10`. */
  const MaxCount: nat := 10

  /** State at the top of the loop: `url` from the command line, the loaded ledger. */
  function Start(seed: string, ledger: set<string>): (s: Crawl)
  {
    Crawl(At(seed), ledger, [], 0)
  }

  /**
   * What the program's loop body guarantees: the loop test fails exactly
   * when `url` is `None`; a visit is to the cleaned URL, ledgers that URL's
   * id, ends its row with that URL, and moves on only to a clean URL whose
   * id was not yet scraped.
   */
  predicate Obeys(cursor: Cursor, scraped: set<string>, v: Visit)
  {
    && (v.LoopTestFails? <==> cursor == Nothing)
    && (v.Visited? ==>
          && cursor.At?
          && v.id == Urls.Id(Urls.CleanUrl(cursor.url))
          && Text.IsSuffix("\",\"" + Urls.CleanUrl(cursor.url) + "\"\n", v.line)
          && (v.next.At? ==>
                Urls.Id(v.next.url) !in scraped && Urls.CleanUrl(v.next.url) == v.next.url))
  }

  ghost predicate Sound(body: LoopBody)
  {
    forall c, sc {:trigger Obeys(c, sc, body(c, sc))} :: Obeys(c, sc, body(c, sc))
  }

  /**
   * The loop test and body of main.py:72-75: `url` must be a string other
   * than `None`; it is cleaned, fetched and scraped.
   */
  function Body(fetch: Fetcher, cursor: Cursor, scraped: set<string>): (v: Visit)
    ensures Obeys(cursor, scraped, v)
  {
    match cursor
    case Nothing => LoopTestFails
    case At(u) =>
      var url := Urls.CleanUrl(u);
      match Scrape(fetch(url), url, scraped)
      case Raised(error) => Raises(error)
      case Scraped(line, next) => Visited(line, Urls.Id(url), next)
  }

  /**
   * The writes and assignments after a visit (main.py:77-83): the row is
   * appended, then the id; the id joins `scraped`; `url` becomes `next`.
   */
  function Advance(s: Crawl, v: Visit): (t: Crawl)
    requires v.Visited?
  {
    Crawl(v.next, s.scraped + {v.id}, s.trace + [CsvRow(v.line), LedgerLine(v.id)], s.count)
  }

  /**
   * The `while` loop from state `s`: after each visit the row and then the
   * id are appended, the id joins `scraped`, and the counter test breaks
   * at 10 before incrementing, so at most eleven visits happen.
   */
  function Loop(body: LoopBody, s: Crawl): (r: Final)
    requires s.count <= MaxCount
    ensures s.trace <= r.state.trace
    ensures s.scraped <= r.state.scraped
    ensures |r.state.trace| <= |s.trace| + 2 * (MaxCount + 1 - s.count)
    ensures r.halt == Limit ==> |r.state.trace| == |s.trace| + 2 * (MaxCount + 1 - s.count)
    decreases MaxCount - s.count
  {
    var v := body(s.cursor, s.scraped);
    match v
    case LoopTestFails => Final(s, Exhausted)
    case Raises(reason) => Final(s, Crash(reason))
    case Visited(_, _, _) =>
      if s.count == MaxCount then Final(Advance(s, v), Limit)
      else Loop(body, Advance(s, v).(count := s.count + 1))
  }

  /** The program's loop body for a given browser. */
  function ProgramBody(fetch: Fetcher): (body: LoopBody)
  {
    (c, sc) => Body(fetch, c, sc)
  }

  lemma RunBodyIsSound(fetch: Fetcher)
    ensures Sound(ProgramBody(fetch))
  {
  }
}

/** What the crawl loop guarantees about its writes and its scraped set. */
module CrawlerProperties {
  import opened BookPage
  import opened Crawler
  import Urls

  /** Everything the loop from `s` appends. */
  function NewWrites(body: LoopBody, s: Crawl): (ws: seq<Write>)
    requires s.count <= MaxCount
  {
    var r := Loop(body, s);
    r.state.trace[|s.trace|..]
  }

  /** The ids appended to `scraped.txt`, in order. */
  function LedgerIds(ws: seq<Write>): (ids: seq<string>)
    ensures |ids| <= |ws|
  {
    if |ws| == 0 then []
    else (if ws[0].LedgerLine? then [ws[0].id] else []) + LedgerIds(ws[1..])
  }

  lemma {:induction false} LedgerIdsConcat(a: seq<Write>, b: seq<Write>)
    ensures LedgerIds(a + b) == LedgerIds(a) + LedgerIds(b)
    decreases |a|
  {
    if |a| > 0 {
      assert (a + b)[1..] == a[1..] + b;
      LedgerIdsConcat(a[1..], b);
    } else {
      assert a + b == b;
    }
  }

  /** A visit's row contributes nothing to the ledger, its id one line. */
  lemma LedgerIdsOfVisit(line: string, id: string, rest: seq<Write>)
    ensures LedgerIds([CsvRow(line), LedgerLine(id)] + rest) == [id] + LedgerIds(rest)
  {
    var two := [CsvRow(line), LedgerLine(id)];
    LedgerIdsConcat(two, rest);
    assert two[1..] == [LedgerLine(id)];
    assert [LedgerLine(id)][1..] == [];
  }

  /** Rows and ids alternate, each row written before the id of its page. */
  predicate Alternates(ws: seq<Write>)
  {
    |ws| % 2 == 0 && forall i :: 0 <= i < |ws| ==> (ws[i].CsvRow? <==> i % 2 == 0)
  }

  lemma AlternatesCons(line: string, id: string, rest: seq<Write>)
    requires Alternates(rest)
    ensures Alternates([CsvRow(line), LedgerLine(id)] + rest)
  {
    var ws := [CsvRow(line), LedgerLine(id)] + rest;
    forall i | 0 <= i < |ws|
      ensures ws[i].CsvRow? <==> i % 2 == 0
    {
      if i >= 2 {
        assert ws[i] == rest[i - 2];
      }
    }
  }

  /** Apart from the first, no id of `ids` is in `scraped`. */
  predicate FreshAfterFirst(ids: seq<string>, scraped: set<string>)
  {
    forall k :: 1 <= k < |ids| ==> ids[k] !in scraped
  }

  /** An id recurs, if at all, only at the very next position. */
  predicate NoDistantRepeat(ids: seq<string>)
  {
    forall j, k :: 0 <= j && j + 1 < k < |ids| ==> ids[j] != ids[k]
  }

  lemma ConsFresh(id: string, ids: seq<string>, scraped: set<string>)
    requires FreshAfterFirst(ids, scraped + {id}) && NoDistantRepeat(ids)
    requires |ids| > 0 ==> ids[0] !in scraped
    ensures FreshAfterFirst([id] + ids, scraped) && NoDistantRepeat([id] + ids)
  {
    var all := [id] + ids;
    forall k | 1 <= k < |all|
      ensures all[k] !in scraped
    {
      assert all[k] == ids[k - 1];
    }
    forall j, k | 0 <= j && j + 1 < k < |all|
      ensures all[j] != all[k]
    {
      assert all[k] == ids[k - 1];
      if j > 0 {
        assert all[j] == ids[j - 1];
      }
    }
  }

  lemma SliceSplit<T>(a: seq<T>, b: seq<T>, c: seq<T>)
    requires a <= b <= c
    ensures c[|a|..] == b[|a|..] + c[|b|..]
  {
  }

  /** Below the limit, a visit hands over to the loop from the next state. */
  lemma {:induction false} LoopContinues(body: LoopBody, s: Crawl)
    requires s.count < MaxCount && body(s.cursor, s.scraped).Visited?
    ensures Loop(body, s) == Loop(body, Advance(s, body(s.cursor, s.scraped)).(count := s.count + 1))
  {
  }

  /** A visit that leaves the loop writes nothing. */
  lemma {:induction false} LoopStops(body: LoopBody, s: Crawl)
    requires s.count <= MaxCount && !body(s.cursor, s.scraped).Visited?
    ensures Loop(body, s).state == s && NewWrites(body, s) == []
  {
  }

  /** What the loop from `s` appends: this visit's row and id, then the rest. */
  lemma {:induction false} LoopUnfold(body: LoopBody, s: Crawl)
    requires s.count <= MaxCount && body(s.cursor, s.scraped).Visited?
    ensures var v := body(s.cursor, s.scraped);
            var t := Advance(s, v).(count := s.count + 1);
            NewWrites(body, s)
              == [CsvRow(v.line), LedgerLine(v.id)]
                 + (if s.count < MaxCount then NewWrites(body, t) else [])
  {
    var v := body(s.cursor, s.scraped);
    if s.count < MaxCount {
      LoopContinues(body, s);
      var t := Advance(s, v).(count := s.count + 1);
      var r := Loop(body, t);
      SliceSplit(s.trace, t.trace, r.state.trace);
      assert t.trace[|s.trace|..] == [CsvRow(v.line), LedgerLine(v.id)];
    } else {
      assert Advance(s, v).trace[|s.trace|..] == [CsvRow(v.line), LedgerLine(v.id)];
    }
  }

  /**
   * Whatever the body, the writes alternate row, id, row, id, ... and the
   * final scraped set is the initial one plus exactly the ledgered ids.
   */
  lemma {:induction false} LoopWrites(body: LoopBody, s: Crawl)
    requires s.count <= MaxCount
    ensures Alternates(NewWrites(body, s))
    ensures forall x :: x in Loop(body, s).state.scraped <==>
                          x in s.scraped || x in LedgerIds(NewWrites(body, s))
    decreases MaxCount - s.count
  {
    var v := body(s.cursor, s.scraped);
    if !v.Visited? {
      LoopStops(body, s);
    } else {
      LoopUnfold(body, s);
      if s.count < MaxCount {
        var t := Advance(s, v).(count := s.count + 1);
        LoopContinues(body, s);
        LoopWrites(body, t);
        var rest := NewWrites(body, t);
        LedgerIdsOfVisit(v.line, v.id, rest);
        AlternatesCons(v.line, v.id, rest);
      } else {
        LedgerIdsOfVisit(v.line, v.id, []);
        AlternatesCons(v.line, v.id, []);
      }
    }
  }

  /**
   * The loop stops without a limit only at a state whose pass failed the
   * loop test or raised, and does not write there. With the program's body
   * it ends normally only when `url` is `None`, and raises only at a URL.
   */
  lemma {:induction false} LoopHalts(body: LoopBody, s: Crawl)
    requires Sound(body) && s.count <= MaxCount
    ensures var r := Loop(body, s);
            r.halt == Exhausted ==> body(r.state.cursor, r.state.scraped) == LoopTestFails
    ensures var r := Loop(body, s);
            r.halt.Crash? ==> body(r.state.cursor, r.state.scraped) == Raises(r.halt.reason)
    ensures Loop(body, s).halt == Exhausted ==> Loop(body, s).state.cursor == Nothing
    ensures Loop(body, s).halt.Crash? ==> Loop(body, s).state.cursor.At?
    decreases MaxCount - s.count
  {
    var v := body(s.cursor, s.scraped);
    assert Obeys(s.cursor, s.scraped, v);
    if v.Visited? && s.count < MaxCount {
      LoopContinues(body, s);
      LoopHalts(body, Advance(s, v).(count := s.count + 1));
    }
  }

  /** The first id ledgered from `s` is that of the URL the loop is at. */
  lemma {:induction false} FirstLedgerId(body: LoopBody, s: Crawl)
    requires s.count <= MaxCount && Obeys(s.cursor, s.scraped, body(s.cursor, s.scraped))
    ensures |LedgerIds(NewWrites(body, s))| > 0 ==>
              s.cursor.At? && LedgerIds(NewWrites(body, s))[0] == Urls.Id(Urls.CleanUrl(s.cursor.url))
  {
    var v := body(s.cursor, s.scraped);
    if !v.Visited? {
      LoopStops(body, s);
    } else {
      LoopUnfold(body, s);
      var rest := if s.count < MaxCount then NewWrites(body, Advance(s, v).(count := s.count + 1)) else [];
      LedgerIdsOfVisit(v.line, v.id, rest);
    }
  }

  /**
   * Every page after the first was unscraped when its predecessor was
   * scraped. Since the current id joins the set only after `scrape` returns,
   * a page may be followed by itself; apart from such an immediate repeat
   * no id is ledgered twice, and none after the first was in the initial set.
   */
  lemma {:induction false} LaterPagesWereUnscraped(body: LoopBody, s: Crawl)
    requires Sound(body) && s.count <= MaxCount
    ensures FreshAfterFirst(LedgerIds(NewWrites(body, s)), s.scraped)
    ensures NoDistantRepeat(LedgerIds(NewWrites(body, s)))
    decreases MaxCount - s.count
  {
    var v := body(s.cursor, s.scraped);
    assert Obeys(s.cursor, s.scraped, v);
    if !v.Visited? {
      LoopStops(body, s);
    } else {
      LoopUnfold(body, s);
      if s.count < MaxCount {
        var t := Advance(s, v).(count := s.count + 1);
        var rest := NewWrites(body, t);
        LedgerIdsOfVisit(v.line, v.id, rest);
        LaterPagesWereUnscraped(body, t);
        assert Obeys(t.cursor, t.scraped, body(t.cursor, t.scraped));
        FirstLedgerId(body, t);
        if t.cursor.At? {
          assert Urls.CleanUrl(t.cursor.url) == t.cursor.url;
        }
        ConsFresh(v.id, LedgerIds(rest), s.scraped);
      } else {
        LedgerIdsOfVisit(v.line, v.id, []);
      }
    }
  }
}
