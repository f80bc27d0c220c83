/**
 * Python string operations the scraper relies on, for a separator of one
 * character: `s.split(d)` and `sep.join(parts)`.
 */
module Text {

  /** Number of occurrences of `d` in `s`. */
  function Count(s: string, d: char): (n: nat)
    ensures n <= |s|
    ensures n == 0 <==> d !in s
  {
    if |s| == 0 then 0
    else (if s[0] == d then 1 else 0) + Count(s[1..], d)
  }

  /** Python's `sep.join(parts)`; `JoinSplit` and `SplitJoin` relate it to `Split`. */
  function Join(parts: seq<string>, sep: string): (r: string)
  {
    if |parts| == 0 then ""
    else if |parts| == 1 then parts[0]
    else parts[0] + sep + Join(parts[1..], sep)
  }

  /**
   * Python's `s.split(d)`: the maximal runs of `s` free of `d`, cut at every
   * occurrence of `d`; one piece more than there are occurrences.
   */
  function Split(s: string, d: char): (r: seq<string>)
    ensures |r| == Count(s, d) + 1
    ensures forall i :: 0 <= i < |r| ==> d !in r[i]
    decreases |s|
  {
    if |s| == 0 then [""]
    else
      var rest := Split(s[1..], d);
      if s[0] == d then [""] + rest
      else [[s[0]] + rest[0]] + rest[1..]
  }

  /** `r` is a suffix of `s`. */
  predicate IsSuffix(r: string, s: string)
  {
    |r| <= |s| && s[|s| - |r|..] == r
  }

  /**
   * Everything before the first `d`, or all of `s`: the longest prefix free
   * of `d`. `SplitFirst` shows it is `s.split(d)[0]`.
   */
  function Before(s: string, d: char): (r: string)
    ensures r <= s
    ensures d !in r
    ensures |r| < |s| ==> s[|r|] == d
    decreases |s|
  {
    if |s| == 0 || s[0] == d then ""
    else [s[0]] + Before(s[1..], d)
  }

  /**
   * Everything after the last `d`, or all of `s`: the longest suffix free
   * of `d`. `SplitLast` shows it is `s.split(d)[-1]`.
   */
  function After(s: string, d: char): (r: string)
    ensures IsSuffix(r, s)
    ensures d !in r
    ensures |r| < |s| ==> s[|s| - |r| - 1] == d
    decreases |s|
  {
    if |s| == 0 || s[|s| - 1] == d then ""
    else After(s[..|s| - 1], d) + [s[|s| - 1]]
  }

  /** `Before(s, d)` is Python's `s.split(d)[0]`. */
  lemma SplitFirst(s: string, d: char)
    ensures Before(s, d) == Split(s, d)[0]
  {
    var parts := Split(s, d);
    JoinSplit(s, d);
    if |parts| > 1 {
      assert s == parts[0] + [d] + Join(parts[1..], [d]);
    }
    BeforeUnique(s, d, parts[0]);
  }

  /** `After(s, d)` is Python's `s.split(d)[-1]`. */
  lemma SplitLast(s: string, d: char)
    ensures After(s, d) == Split(s, d)[|Split(s, d)| - 1]
  {
    var parts := Split(s, d);
    var n := |parts|;
    JoinSplit(s, d);
    if n > 1 {
      JoinLast(parts, [d]);
      assert s == Join(parts[..n - 1], [d]) + [d] + parts[n - 1];
    }
    AfterUnique(s, d, parts[n - 1]);
  }

  /** Joining the pieces of `s.split(d)` with `d` gives back `s`. */
  lemma {:induction false} JoinSplit(s: string, d: char)
    ensures Join(Split(s, d), [d]) == s
    decreases |s|
  {
    if |s| > 0 {
      var rest := Split(s[1..], d);
      JoinSplit(s[1..], d);
      if s[0] == d {
        assert ([""] + rest)[1..] == rest;
        assert Join([""] + rest, [d]) == "" + [d] + Join(rest, [d]);
      } else if |rest| == 1 {
        assert Split(s, d) == [[s[0]] + rest[0]];
        assert [s[0]] + s[1..] == s;
      } else {
        assert Split(s, d) == [[s[0]] + rest[0]] + rest[1..];
        JoinPrependFirst([s[0]], rest[0], rest[1..], [d]);
        assert [rest[0]] + rest[1..] == rest;
        assert [s[0]] + s[1..] == s;
      }
    }
  }

  lemma {:induction false} CountConcat(a: string, b: string, d: char)
    ensures Count(a + b, d) == Count(a, d) + Count(b, d)
    decreases |a|
  {
    if |a| > 0 {
      assert (a + b)[1..] == a[1..] + b;
      CountConcat(a[1..], b, d);
    } else {
      assert a + b == b;
    }
  }

  /** Joining peels off the last piece as well as the first. */
  lemma {:induction false} JoinLast(parts: seq<string>, sep: string)
    requires |parts| >= 2
    ensures Join(parts, sep) == Join(parts[..|parts| - 1], sep) + sep + parts[|parts| - 1]
    decreases |parts|
  {
    if |parts| > 2 {
      var tail := parts[1..];
      JoinLast(tail, sep);
      assert tail[..|tail| - 1] == parts[..|parts| - 1][1..];
    }
  }

  /** Text glued onto the front of the first piece ends up at the front of the join. */
  lemma JoinPrependFirst(a: string, b: string, rest: seq<string>, sep: string)
    ensures Join([a + b] + rest, sep) == a + Join([b] + rest, sep)
  {
    assert ([a + b] + rest)[1..] == rest;
    assert ([b] + rest)[1..] == rest;
  }

  /** A piece free of `d` at the front of `s` becomes the front of the first piece. */
  lemma {:induction false} SplitPrefix(p: string, t: string, d: char)
    requires d !in p
    ensures Split(p + t, d) == [p + Split(t, d)[0]] + Split(t, d)[1..]
    decreases |p|
  {
    if |p| == 0 {
      var tail := Split(t, d);
      assert p + t == t;
      assert p + tail[0] == tail[0];
      assert tail == [tail[0]] + tail[1..];
    } else {
      var s := p + t;
      assert s[0] == p[0] && s[0] != d;
      assert s[1..] == p[1..] + t;
      var rest := Split(s[1..], d);
      assert Split(s, d) == [[s[0]] + rest[0]] + rest[1..];
      SplitPrefix(p[1..], t, d);
      var tail := Split(t, d);
      assert rest == [p[1..] + tail[0]] + tail[1..];
      assert rest[0] == p[1..] + tail[0];
      assert rest[1..] == tail[1..];
      assert [p[0]] + p[1..] == p;
      ConcatAssoc([p[0]], p[1..], tail[0]);
    }
  }

  lemma ConcatAssoc(a: string, b: string, c: string)
    ensures a + (b + c) == (a + b) + c
  {
  }

  /** `s.split(d)` undoes `d.join(parts)` when no piece contains `d`. */
  lemma {:induction false} SplitJoin(parts: seq<string>, d: char)
    requires |parts| >= 1
    requires forall i :: 0 <= i < |parts| ==> d !in parts[i]
    ensures Split(Join(parts, [d]), d) == parts
    decreases |parts|
  {
    if |parts| == 1 {
      SplitPrefix(parts[0], "", d);
      assert parts[0] + "" == parts[0];
    } else {
      var tail := Join(parts[1..], [d]);
      SplitJoin(parts[1..], d);
      assert ([d] + tail)[1..] == tail;
      assert Split([d] + tail, d) == [""] + parts[1..];
      assert Join(parts, [d]) == parts[0] + ([d] + tail);
      SplitPrefix(parts[0], [d] + tail, d);
      assert parts[0] + "" == parts[0];
    }
  }

  /** `Before` is the only prefix free of `d` that stops at `d` or at the end. */
  lemma BeforeUnique(s: string, d: char, p: string)
    requires p <= s && d !in p
    requires |p| < |s| ==> s[|p|] == d
    ensures Before(s, d) == p
  {
  }

  /** `After` is the only suffix free of `d` that starts after a `d` or at the start. */
  lemma AfterUnique(s: string, d: char, p: string)
    requires IsSuffix(p, s) && d !in p
    requires |p| < |s| ==> s[|s| - |p| - 1] == d
    ensures After(s, d) == p
  {
  }
}
