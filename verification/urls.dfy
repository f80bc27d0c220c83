/**
 * URL normalisation and book identity (main.py `clean_url` and `id`).
 */
module Urls {
  import Text

  /**
   * `clean_url(url)`: `url.split('?')[0]`, the URL with its query string cut
   * off at the first `?`; the whole URL when it has none.
   */
  function CleanUrl(url: string): (r: string)
    ensures r <= url
    ensures '?' !in r
    ensures |r| < |url| ==> url[|r|] == '?'
    ensures '?' !in url ==> r == url
  {
    Text.Before(url, '?')
  }

  /**
   * `id(url)`: `url.split('/')[-1]`, the text after the last `/`; the whole
   * URL when it has none.
   */
  function Id(url: string): (r: string)
    ensures Text.IsSuffix(r, url)
    ensures '/' !in r
    ensures |r| < |url| ==> url[|url| - |r| - 1] == '/'
    ensures '/' !in url ==> r == url
  {
    Text.After(url, '/')
  }

  /** Cleaning a URL twice is the same as cleaning it once. */
  lemma CleanUrlIdempotent(url: string)
    ensures CleanUrl(CleanUrl(url)) == CleanUrl(url)
  {
  }

  /** The id of a cleaned URL holds neither `/` nor `?`. */
  lemma CleanIdHasNoDelimiters(url: string)
    ensures '/' !in Id(CleanUrl(url)) && '?' !in Id(CleanUrl(url))
  {
    var c := CleanUrl(url);
    var r := Id(c);
    forall i | 0 <= i < |r|
      ensures r[i] != '?'
    {
      assert r[i] == c[|c| - |r| + i];
    }
  }

  /** Whatever follows the first `?` is dropped by cleaning. */
  lemma QueryIgnored(path: string, query: string)
    requires '?' !in path
    ensures CleanUrl(path + "?" + query) == path
  {
    var u := path + "?" + query;
    assert path <= u;
    assert u[|path|] == '?';
    Text.BeforeUnique(u, '?', path);
  }

  /** Two URLs that agree up to their first `?` name the same book. */
  lemma SameIdAcrossQueries(path: string, query1: string, query2: string)
    requires '?' !in path
    ensures Id(CleanUrl(path + "?" + query1)) == Id(CleanUrl(path + "?" + query2))
    ensures Id(CleanUrl(path + "?" + query1)) == Id(CleanUrl(path))
  {
    QueryIgnored(path, query1);
    QueryIgnored(path, query2);
  }

  /** The id of a URL is its last path segment. */
  lemma IdOfLastSegment(prefix: string, segment: string)
    requires '/' !in segment
    ensures Id(prefix + "/" + segment) == segment
  {
    var u := prefix + "/" + segment;
    assert u[|u| - |segment|..] == segment;
    assert u[|u| - |segment| - 1] == '/';
    Text.AfterUnique(u, '/', segment);
  }

  /** `show/42.Title?ref=x` is the book `42.Title`. */
  lemma ShowPathExample()
    ensures Id(CleanUrl("show" + "/" + "42.Title" + "?" + "ref=x")) == "42.Title"
  {
    QueryIgnored("show" + "/" + "42.Title", "ref=x");
    IdOfLastSegment("show", "42.Title");
  }
}
