/**
 * What `scrape` (main.py) does with a parsed book page: the series and
 * contributor fields, the choice of the next related book, and the CSV line.
 * The HTML parse itself is abstracted into `Page`.
 */
module BookPage {
  import opened Wrappers
  import Text
  import Urls

  /**
   * The regions of a book page that `scrape` reads, after HTML parsing:
   * the title text, the series text if that element exists, the contributor
   * names in document order, and the `href` attribute of every anchor in the
   * related-books section (`None` for an anchor without one).
   */
  datatype Page = Page(
    title: string,
    series: Option<string>,
    contributors: seq<string>,
    related: seq<Option<string>>)

  /** The value of `next` returned by `scrape`, and so of `url` in the crawl: a URL or `None`. */
  datatype Cursor = At(url: string) | Nothing

  /** Outcome of scanning the related links. */
  datatype Pick =
    | Picked(url: string)   // the loop broke at an unscraped link
    | AllScraped            // every link was scraped: `next = None` last
    | NoLinks               // the loop body never ran: `next` is unbound
    | HrefMissing           // `clean_url(None)` raised

  /** Why `scrape` raised. */
  datatype ScrapeError =
    | NoHref        // a related anchor without `href` reached `clean_url`
    | NextUnbound   // no related anchors: `return csv_line, next` reads an unbound local

  /** What `scrape` returns, or why it raised. */
  datatype ScrapeOutcome = Scraped(line: string, next: Cursor) | Raised(error: ScrapeError)

  /** The series column: the series text up to its first `#`, or `'None'`. */
  function SeriesField(series: Option<string>): (r: string)
    ensures series.Some? ==> r <= series.value && '#' !in r
    ensures series.Some? && |r| < |series.value| ==> series.value[|r|] == '#'
    ensures series.None? ==> r == "None"
  {
    match series
    case None => "None"
    case Some(text) => Text.Before(text, '#')
  }

  /**
   * The contributors column: the names joined with `"; "`. It is empty only
   * for no names or one empty name, and splitting it on `;` gives the names
   * back in order (each after the first with the separator's space) when no
   * name contains `;`.
   */
  function Contributors(names: seq<string>): (r: string)
    ensures r == "" <==> |names| == 0 || (|names| == 1 && names[0] == "")
    ensures |names| > 0 && (forall i :: 0 <= i < |names| ==> ';' !in names[i]) ==>
              Text.Split(r, ';') == Spaced(names)
  {
    JoinedEmpty(names);
    SemicolonSplit(names);
    Text.Join(names, "; ")
  }

  /** Each name after the first, with the space that follows `;` in the separator. */
  function Spaced(names: seq<string>): (r: seq<string>)
    requires |names| > 0
    ensures |r| == |names| && r[0] == names[0]
    ensures forall i :: 1 <= i < |names| ==> r[i] == " " + names[i]
  {
    [names[0]] + seq(|names| - 1, i requires 0 <= i < |names| - 1 => " " + names[i + 1])
  }

  lemma JoinedEmpty(names: seq<string>)
    ensures Text.Join(names, "; ") == "" <==> |names| == 0 || (|names| == 1 && names[0] == "")
  {
    if |names| >= 2 {
      assert |Text.Join(names, "; ")| >= 2;
    }
  }

  /** Joining with `"; "` is joining the spaced names with `;`. */
  lemma {:induction false} JoinSpaced(names: seq<string>)
    requires |names| > 0
    ensures Text.Join(names, "; ") == Text.Join(Spaced(names), ";")
    decreases |names|
  {
    if |names| > 1 {
      var tail := names[1..];
      JoinSpaced(tail);
      var sp := Spaced(names);
      var spTail := Spaced(tail);
      assert sp[1..] == [" " + tail[0]] + spTail[1..];
      assert spTail == [tail[0]] + spTail[1..];
      Text.JoinPrependFirst(" ", tail[0], spTail[1..], ";");
      assert Text.Join(sp, ";") == names[0] + ";" + Text.Join(sp[1..], ";");
      assert Text.Join(names, "; ") == names[0] + "; " + Text.Join(tail, "; ");
    }
  }

  lemma SemicolonSplit(names: seq<string>)
    ensures |names| > 0 && (forall i :: 0 <= i < |names| ==> ';' !in names[i]) ==>
              Text.Split(Text.Join(names, "; "), ';') == Spaced(names)
  {
    if |names| > 0 && forall i :: 0 <= i < |names| ==> ';' !in names[i] {
      JoinSpaced(names);
      var sp := Spaced(names);
      forall i | 0 <= i < |sp|
        ensures ';' !in sp[i]
      {
        if i > 0 {
          assert sp[i] == " " + names[i];
        }
      }
      Text.SplitJoin(sp, ';');
    }
  }

  /** The CSV line: four double-quoted fields, no escaping, newline-terminated. */
  function CsvLine(title: string, series: string, contributors: string, url: string): (r: string)
    ensures |r| == |title| + |series| + |contributors| + |url| + 12
    ensures "\"" + title + "\",\"" <= r
    ensures Text.IsSuffix("\",\"" + url + "\"\n", r)
  {
    "\"" + title + "\",\"" + series + "\",\"" + contributors + "\",\"" + url + "\"\n"
  }

  /** A related href that names a book already in the scraped set. */
  predicate Seen(href: Option<string>, scraped: set<string>)
  {
    href.Some? && Urls.Id(Urls.CleanUrl(href.value)) in scraped
  }

  predicate AllSeen(hrefs: seq<Option<string>>, scraped: set<string>)
  {
    forall i :: 0 <= i < |hrefs| ==> Seen(hrefs[i], scraped)
  }

  /**
   * The related-link loop once it has at least started: the first href that
   * is missing or not yet scraped decides; if there is none, `AllScraped`.
   */
  function PickFrom(hrefs: seq<Option<string>>, scraped: set<string>): (r: Pick)
    ensures r != NoLinks
    ensures r == AllScraped <==> AllSeen(hrefs, scraped)
    ensures r.Picked? ==> Urls.Id(r.url) !in scraped && Urls.CleanUrl(r.url) == r.url
    decreases |hrefs|
  {
    if |hrefs| == 0 then AllScraped
    else
      match hrefs[0]
      case None => HrefMissing
      case Some(h) =>
        var c := Urls.CleanUrl(h);
        if Urls.Id(c) !in scraped then
          Urls.CleanUrlIdempotent(h);
          Picked(c)
        else
          var rest := PickFrom(hrefs[1..], scraped);
          assert AllSeen(hrefs, scraped) <==> AllSeen(hrefs[1..], scraped) by {
            assert forall i :: 1 <= i < |hrefs| ==> hrefs[i] == hrefs[1..][i - 1];
          }
          rest
  }

  /**
   * The first href that is missing or names an unscraped book decides the
   * pick: a missing one raises, an unscraped one is taken, cleaned.
   */
  lemma {:induction false} FirstUnseenDecides(hrefs: seq<Option<string>>, scraped: set<string>, k: nat)
    requires k < |hrefs| && AllSeen(hrefs[..k], scraped) && !Seen(hrefs[k], scraped)
    ensures hrefs[k].None? ==> PickFrom(hrefs, scraped) == HrefMissing
    ensures hrefs[k].Some? ==> PickFrom(hrefs, scraped) == Picked(Urls.CleanUrl(hrefs[k].value))
    decreases k
  {
    if k > 0 {
      var tail := hrefs[1..];
      assert hrefs[..k][0] == hrefs[0];
      assert Seen(hrefs[0], scraped);
      assert PickFrom(hrefs, scraped) == PickFrom(tail, scraped);
      assert tail[..k - 1] == hrefs[..k][1..];
      assert AllSeen(tail[..k - 1], scraped);
      assert tail[k - 1] == hrefs[k];
      FirstUnseenDecides(tail, scraped, k - 1);
    }
  }

  /**
   * The `next` that `scrape` computes from the related hrefs: `NoLinks` for
   * an empty list, where the loop never binds `next`, otherwise as `PickFrom`.
   */
  function PickNext(hrefs: seq<Option<string>>, scraped: set<string>): (r: Pick)
    ensures r == NoLinks <==> |hrefs| == 0
    ensures r == AllScraped <==> |hrefs| > 0 && AllSeen(hrefs, scraped)
    ensures r.Picked? ==> Urls.Id(r.url) !in scraped && Urls.CleanUrl(r.url) == r.url
  {
    if |hrefs| == 0 then NoLinks else PickFrom(hrefs, scraped)
  }

  /**
   * The `for next in related_books` loop as written. `next` is a local of
   * `scrape` (the loop binds it), so it starts out unbound: `NoLinks`.
   */
  method SelectNext(related: seq<Option<string>>, scraped: set<string>) returns (next: Pick)
    ensures next == PickNext(related, scraped)
  {
    next := NoLinks;
    var i := 0;
    while i < |related|
      invariant 0 <= i <= |related|
      invariant AllSeen(related[..i], scraped)
      invariant i == 0 ==> next == NoLinks
      invariant i > 0 ==> next == AllScraped
    {
      if related[i].None? {
        FirstUnseenDecides(related, scraped, i);
        next := HrefMissing;
        return;
      }
      var candidate := Urls.CleanUrl(related[i].value);
      if Urls.Id(candidate) !in scraped {
        FirstUnseenDecides(related, scraped, i);
        next := Picked(candidate);
        break;
      }
      next := AllScraped;
      assert related[..i + 1] == related[..i] + [related[i]];
      i := i + 1;
    }
    assert i == |related| ==> related[..i] == related;
  }

  /** `scrape(page, url, scraped)` after the HTML has been parsed into `page`. */
  function Scrape(page: Page, url: string, scraped: set<string>): (r: ScrapeOutcome)
    ensures r == Raised(NextUnbound) <==> |page.related| == 0
    ensures r == Raised(NoHref) <==> |page.related| > 0 && PickFrom(page.related, scraped) == HrefMissing
    ensures r.Scraped? ==>
              r.line == CsvLine(page.title, SeriesField(page.series), Contributors(page.contributors), url)
    ensures r.Scraped? ==> Text.IsSuffix("\",\"" + url + "\"\n", r.line)
    ensures r.Scraped? ==> "\"" + page.title + "\",\"" <= r.line
    ensures r.Scraped? ==> (r.next == Nothing <==> AllSeen(page.related, scraped))
    ensures r.Scraped? && r.next.At? ==>
              Urls.Id(r.next.url) !in scraped && Urls.CleanUrl(r.next.url) == r.next.url
  {
    var line := CsvLine(page.title, SeriesField(page.series),
                        Contributors(page.contributors), url);
    match PickNext(page.related, scraped)
    case HrefMissing => Raised(NoHref)
    case NoLinks => Raised(NextUnbound)
    case Picked(u) => Scraped(line, At(u))
    case AllScraped => Scraped(line, Nothing)
  }

  /**
   * The first related link that is missing or unscraped decides `scrape`:
   * a missing href raises, an unscraped one becomes `next`, cleaned.
   */
  lemma ScrapeFollowsFirstUnseen(page: Page, url: string, scraped: set<string>, k: nat)
    requires k < |page.related| && AllSeen(page.related[..k], scraped) && !Seen(page.related[k], scraped)
    ensures page.related[k].None? ==> Scrape(page, url, scraped) == Raised(NoHref)
    ensures page.related[k].Some? ==>
              Scrape(page, url, scraped).Scraped? &&
              Scrape(page, url, scraped).next == At(Urls.CleanUrl(page.related[k].value))
  {
    FirstUnseenDecides(page.related, scraped, k);
  }

  /**
   * The row `scrape` writes holds the page's four columns in order: split
   * on `"`, it gives back the title, the series column, the contributors
   * column and the URL, whenever none of them contains `"`.
   */
  lemma ScrapeLineColumns(page: Page, url: string, scraped: set<string>)
    requires Scrape(page, url, scraped).Scraped?
    requires '"' !in page.title && '"' !in SeriesField(page.series)
    requires '"' !in Contributors(page.contributors) && '"' !in url
    ensures Text.Split(Scrape(page, url, scraped).line, '"')
         == ["", page.title, ",", SeriesField(page.series), ",", Contributors(page.contributors), ",", url, "\n"]
  {
    CsvLineRoundTrip(page.title, SeriesField(page.series), Contributors(page.contributors), url);
  }

  /** A series literally called `None` is indistinguishable from no series. */
  lemma SeriesSentinelCollides()
    ensures SeriesField(Some("None")) == SeriesField(None)
  {
    assert '#' !in "None";
  }

  /** The CSV line is its nine quote-delimited pieces joined with `"`. */
  lemma CsvLineAsJoin(title: string, series: string, contributors: string, url: string)
    ensures CsvLine(title, series, contributors, url)
         == Text.Join(["", title, ",", series, ",", contributors, ",", url, "\n"], "\"")
  {
    var q := "\"";
    var sep := "\",\"";
    // The line grows from the left, the join from the right; they meet piece by piece.
    var a1 := q + title;
    var a2 := a1 + sep + series;
    var a3 := a2 + sep + contributors;
    var a4 := a3 + sep + url;
    var j1 := Text.Join(["\n"], q);
    var j2 := Text.Join([url, "\n"], q);
    var j3 := Text.Join([",", url, "\n"], q);
    var j4 := Text.Join([contributors, ",", url, "\n"], q);
    var j5 := Text.Join([",", contributors, ",", url, "\n"], q);
    var j6 := Text.Join([series, ",", contributors, ",", url, "\n"], q);
    var j7 := Text.Join([",", series, ",", contributors, ",", url, "\n"], q);
    var j8 := Text.Join([title, ",", series, ",", contributors, ",", url, "\n"], q);
    var j9 := Text.Join(["", title, ",", series, ",", contributors, ",", url, "\n"], q);
    assert j2 == url + q + j1;
    assert j3 == "," + q + j2;
    assert j4 == contributors + q + j3;
    assert j5 == "," + q + j4;
    assert j6 == series + q + j5;
    assert j7 == "," + q + j6;
    assert j8 == title + q + j7;
    assert j9 == "" + q + j8;
    assert CsvLine(title, series, contributors, url) == a4 + (q + j1);
    assert a4 + (q + j1) == a3 + sep + j2;
    assert sep + j2 == q + j3;
    assert a3 + sep + j2 == a2 + sep + (contributors + q + j3);
    assert sep + j4 == q + j5;
    assert a2 + sep + j4 == a1 + sep + (series + q + j5);
    assert sep + j6 == q + j7;
    assert a1 + sep + j6 == q + (title + q + j7);
  }

  /**
   * Without escaping, reading the line back by splitting on `"` recovers the
   * four fields exactly when none of them contains a `"`.
   */
  lemma CsvLineRoundTrip(title: string, series: string, contributors: string, url: string)
    requires '"' !in title && '"' !in series && '"' !in contributors && '"' !in url
    ensures Text.Split(CsvLine(title, series, contributors, url), '"')
         == ["", title, ",", series, ",", contributors, ",", url, "\n"]
  {
    CsvLineAsJoin(title, series, contributors, url);
    var parts := ["", title, ",", series, ",", contributors, ",", url, "\n"];
    assert forall i :: 0 <= i < |parts| ==> '"' !in parts[i];
    Text.SplitJoin(parts, '"');
  }

  /** Every `"` inside a field adds a piece: the line has no escaping at all. */
  lemma CsvLinePieceCount(title: string, series: string, contributors: string, url: string)
    ensures |Text.Split(CsvLine(title, series, contributors, url), '"')|
         == 9 + Text.Count(title, '"') + Text.Count(series, '"')
              + Text.Count(contributors, '"') + Text.Count(url, '"')
  {
    var q := '"';
    var a := "\"" + title;
    var b := a + "\",\"" + series;
    var c := b + "\",\"" + contributors;
    var d := c + "\",\"" + url;
    var line := d + "\"\n";
    assert Text.Count("\"", q) == 1;
    assert Text.Count("\",\"", q) == 2;
    assert Text.Count("\"\n", q) == 1;
    Text.CountConcat("\"", title, q);
    Text.CountConcat(a, "\",\"", q);
    Text.CountConcat(a + "\",\"", series, q);
    Text.CountConcat(b, "\",\"", q);
    Text.CountConcat(b + "\",\"", contributors, q);
    Text.CountConcat(c, "\",\"", q);
    Text.CountConcat(c + "\",\"", url, q);
    Text.CountConcat(d, "\"\n", q);
  }
}
