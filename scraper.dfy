/** The string derivations hidden in the page scrapers of `scraper.py` (ids from urls, comment
    ids, titles, prices, tags, coupon clean-up, the pager arithmetic of the comment count), the
    fast scraper's record, and the counting loop of the activity walk. The page itself (Playwright,
    BeautifulSoup, HTTP) is represented by the values these derivations read off it. */
module Scraper {
  import opened Wrappers
  import opened Text
  import opened Records
  import opened Feed

  // ---------------------------------------------------------------------------------------
  // Leftmost matches

  /** `re.search`: the match at the first position, from the left, at which `m` matches. */
  function Search<T>(s: string, m: string -> Option<T>): Option<T>
    decreases |s|
  {
    if m(s).Some? then m(s)
    else if s == [] then None
    else Search(s[1..], m)
  }

  /** The search finds a match exactly when some position matches, and then it is the match at
      a position before which nothing matches. */
  lemma {:induction false} SearchLeftmost<T>(s: string, m: string -> Option<T>)
    ensures Search(s, m).Some? <==> exists i :: 0 <= i <= |s| && m(s[i..]).Some?
    ensures Search(s, m).Some? ==>
      exists i :: 0 <= i <= |s| && m(s[i..]) == Search(s, m) && forall j :: 0 <= j < i ==> m(s[j..]).None?
    decreases |s|
  {
    assert s[0..] == s;
    if m(s).None? && s != [] {
      var t := s[1..];
      SearchLeftmost(t, m);
      if Search(s, m).Some? {
        var i :| 0 <= i <= |t| && m(t[i..]) == Search(s, m) && forall j :: 0 <= j < i ==> m(t[j..]).None?;
        assert t[i..] == s[i + 1..];
        forall j | 0 <= j < i + 1 ensures m(s[j..]).None? {
          if j > 0 {
            assert t[j - 1..] == s[j..];
          }
        }
      }
      if exists i :: 0 <= i <= |s| && m(s[i..]).Some? {
        var i :| 0 <= i <= |s| && m(s[i..]).Some?;
        assert t[i - 1..] == s[i..];
      }
    }
  }

  /** Positions inside a prefix where `m` does not match do not change the search. */
  lemma {:induction false} SearchSkip<T>(a: string, b: string, m: string -> Option<T>)
    requires forall i :: 0 <= i < |a| ==> m((a + b)[i..]).None?
    ensures Search(a + b, m) == Search(b, m)
    decreases |a|
  {
    if a == [] {
      assert a + b == b;
    } else {
      assert (a + b)[0..] == a + b;
      assert (a + b)[1..] == a[1..] + b;
      forall i | 0 <= i < |a[1..]| ensures m((a[1..] + b)[i..]).None? {
        assert (a[1..] + b)[i..] == (a + b)[i + 1..];
      }
      SearchSkip(a[1..], b, m);
    }
  }

  /** The leading run of decimal digits (`\d+` taken greedily). */
  function DigitRun(s: string): (r: string)
    ensures |r| <= |s| && r == s[..|r|]
    ensures forall k :: 0 <= k < |r| ==> IsDigit(r[k])
    ensures |r| == |s| || !IsDigit(s[|r|])
    decreases |s|
  {
    if s != [] && IsDigit(s[0]) then [s[0]] + DigitRun(s[1..]) else []
  }

  /** The run of a digit string followed by something that is not a digit is that string. */
  lemma {:induction false} DigitRunOf(d: string, rest: string)
    requires forall k :: 0 <= k < |d| ==> IsDigit(d[k])
    requires rest == [] || !IsDigit(rest[0])
    ensures DigitRun(d + rest) == d
    decreases |d|
  {
    if d == [] {
      assert d + rest == rest;
    } else {
      assert (d + rest)[1..] == d[1..] + rest;
      DigitRunOf(d[1..], rest);
    }
  }

  /** `lit(\d+)` at the start of `s`: the digits. */
  function DigitsAfter(s: string, lit: string): (r: Option<string>)
    ensures r.Some? ==> StartsWith(s, lit) && r.value != [] && forall k :: 0 <= k < |r.value| ==> IsDigit(r.value[k])
  {
    if StartsWith(s, lit) && |s| > |lit| && IsDigit(s[|lit|]) then Some(DigitRun(s[|lit|..])) else None
  }

  function NodeNumberAt(s: string): Option<string> {
    DigitsAfter(s, "node/")
  }

  // ---------------------------------------------------------------------------------------
  // Deal ids

  /** The canonical id of `_extract_deal_data` from the page's final url: `node/` and the text
      after the last `/node/` cut at `#` and then at `?`; otherwise `comment/` and the path segment
      after the last `/comment/`; otherwise the url itself. */
  function CanonicalId(finalUrl: string): (id: string)
    ensures Contains(finalUrl, "/node/") ==>
      StartsWith(id, "node/") && !Contains(id[5..], "#") && !Contains(id[5..], "?") && !Contains(id[5..], "/node/")
    ensures !Contains(finalUrl, "/node/") && Contains(finalUrl, "/comment/") ==>
      StartsWith(id, "comment/") && !Contains(id[8..], "/")
    ensures !Contains(finalUrl, "/node/") && !Contains(finalUrl, "/comment/") ==> id == finalUrl
  {
    if Contains(finalUrl, "/node/") then
      var x := AfterLast(finalUrl, "/node/");
      var y := Before(x, "#");
      var z := Before(y, "?");
      PrefixAbsent(x, |y|, "/node/");
      PrefixAbsent(y, |z|, "/node/");
      PrefixAbsent(y, |z|, "#");
      assert ("node/" + z)[5..] == z;
      "node/" + z
    else if Contains(finalUrl, "/comment/") then
      var z := Before(AfterLast(finalUrl, "/comment/"), "/");
      assert ("comment/" + z)[8..] == z;
      "comment/" + z
    else finalUrl
  }

  /** The fast scraper's id: `node/` and the digits of the first `node/(\d+)` in the resolved
      url, or "unknown". */
  function FastDealId(resolved: string): (id: string)
    ensures id == "unknown" || (StartsWith(id, "node/") && |id| > 5 && forall k :: 5 <= k < |id| ==> IsDigit(id[k]))
  {
    SearchLeftmost(resolved, NodeNumberAt);
    match Search(resolved, NodeNumberAt)
    case Some(d) => "node/" + d
    case None => "unknown"
  }

  predicate AllDigits(d: string) {
    d != [] && forall k :: 0 <= k < |d| ==> IsDigit(d[k])
  }

  /** A host prefix in which neither id derivation can find the start of a node path: no `/n`
      and no `no` inside it, and a last character that is neither `/` nor `n`. The site's own
      prefix is one. */
  ghost predicate HostPrefix(p: string) {
    && p != [] && p[|p| - 1] != '/' && p[|p| - 1] != 'n'
    && (forall i :: 0 <= i < |p| - 1 ==> !(p[i] == '/' && p[i + 1] == 'n'))
    && (forall i :: 0 <= i < |p| - 1 ==> !(p[i] == 'n' && p[i + 1] == 'o'))
  }

  lemma SiteIsHostPrefix()
    ensures HostPrefix(SITE)
  {
    var s := SITE;
    assert s[20] == 'n' && s[19] == 'i' && s[21] == '.';
    forall i | 0 <= i < |s| && i != 20 ensures s[i] != 'n' {
    }
  }

  /** Neither id derivation finds `/node/` inside a host prefix. */
  lemma HostHasNoNode(p: string, s: string)
    requires HostPrefix(p) && StartsWith(s, p + "/")
    ensures forall i :: 0 <= i < |p| ==> !OccursAt(s, "/node/", i)
    ensures forall i :: 0 <= i <= |p| ==> NodeNumberAt(s[i..]).None?
  {
    assert s[..|p| + 1] == p + "/";
    forall i | 0 <= i < |p| ensures !OccursAt(s, "/node/", i) {
      if i + 6 <= |s| {
        assert s[i..i + 6][0] == s[i] && s[i..i + 6][1] == s[i + 1];
        assert s[i] == (p + "/")[i] && s[i + 1] == (p + "/")[i + 1];
      }
    }
    forall i | 0 <= i <= |p| ensures NodeNumberAt(s[i..]).None? {
      if i + 5 <= |s| {
        assert s[i..][..5][0] == s[i] && s[i..][..5][1] == s[i + 1];
        assert s[i] == (p + "/")[i];
        if i < |p| {
          assert s[i + 1] == (p + "/")[i + 1];
        }
      }
    }
  }

  /** The canonical id of a url with a `/node/` in it. */
  lemma CanonicalIdOfNode(u: string)
    requires Contains(u, "/node/")
    ensures CanonicalId(u) == "node/" + Before(Before(AfterLast(u, "/node/"), "#"), "?")
  {
  }

  /** Digits followed by nothing or by a `#...` fragment: the text before the first `#` and
      then before the first `?` is the digits. */
  lemma DigitsBeforeFragment(d: string, x: string)
    requires AllDigits(d)
    requires x == [] || x[0] == '#'
    ensures Before(Before(d + x, "#"), "?") == d
  {
    AbsentFirstChar(d, "?");
    if x != [] {
      assert d + x == d + "#" + x[1..];
      forall i | 0 <= i < |d| ensures !OccursAt(d + "#" + x[1..], "#", i) {
        assert (d + "#" + x[1..])[i..i + 1][0] == d[i];
      }
      BeforeFirst(d, "#", x[1..]);
    } else {
      assert d + x == d;
      AbsentFirstChar(d, "#");
    }
  }

  /** A url `<host>/node/<rest>` has `/node/` in it. */
  lemma NodeUrlContains(p: string, rest: string)
    ensures Contains(p + "/node/" + rest, "/node/")
  {
    var u := p + "/node/" + rest;
    ContainsAt(u, "/node/");
    assert u[|p|..|p| + 6] == "/node/";
    assert OccursAt(u, "/node/", |p|);
  }

  /** In a url `<host>/node/<rest>` without a further `/node/`, what follows the last `/node/` is
      `rest`. */
  lemma NodeUrlAfterLast(p: string, rest: string)
    requires HostPrefix(p)
    requires !Contains(rest, "/node/")
    ensures AfterLast(p + "/node/" + rest, "/node/") == rest
  {
    var u := p + "/node/" + rest;
    assert u[..|p| + 1] == p + "/";
    HostHasNoNode(p, u);
    AfterLastOfLast(p, "/node/", rest);
  }

  /** For a url `<host>/node/<digits>`, possibly with a `#...` fragment, the canonical id is
      `node/<digits>`. */
  lemma CanonicalNodeIdAt(p: string, d: string, x: string)
    requires HostPrefix(p) && AllDigits(d)
    requires x == [] || x[0] == '#'
    requires !Contains(x, "/node/")
    ensures CanonicalId(p + "/node/" + d + x) == "node/" + d
  {
    assert p + "/node/" + d + x == p + "/node/" + (d + x);
    AbsentConcat(d, x, "/node/");
    NodeUrlContains(p, d + x);
    NodeUrlAfterLast(p, d + x);
    CanonicalIdOfNode(p + "/node/" + (d + x));
    DigitsBeforeFragment(d, x);
  }

  /** For a deal url `SITE/node/<digits>`, possibly with a `#...` fragment, the canonical id
      is `node/<digits>`. */
  lemma CanonicalNodeId(d: string, x: string)
    requires AllDigits(d)
    requires x == [] || x[0] == '#'
    requires !Contains(x, "/node/")
    ensures CanonicalId(SITE + "/node/" + d + x) == "node/" + d
  {
    SiteIsHostPrefix();
    CanonicalNodeIdAt(SITE, d, x);
  }

  /** The site prefix has no `/` followed by `c`, and does not end with `/`. */
  lemma SiteHasNoSlashC()
    ensures forall i :: 0 <= i < |SITE| - 1 ==> !(SITE[i] == '/' && SITE[i + 1] == 'c')
    ensures SITE[|SITE| - 1] != '/'
  {
    var s := SITE;
    assert s[6] == '/' && s[7] == '/' && s[8] == 'w';
    forall i | 0 <= i < |s| && i != 6 && i != 7 ensures s[i] != '/' {
    }
  }

  /** No `/comment/` starts inside the site prefix of a site url. */
  lemma SiteHasNoComment(y: string)
    ensures forall i :: 0 <= i < |SITE| ==> !OccursAt(SITE + "/comment/" + y, "/comment/", i)
  {
    var u := SITE + "/comment/" + y;
    SiteHasNoSlashC();
    forall i | 0 <= i < |SITE| ensures !OccursAt(u, "/comment/", i) {
      assert u[i..i + 9][0] == u[i] == SITE[i];
      if i < |SITE| - 1 {
        assert u[i..i + 9][1] == u[i + 1] == SITE[i + 1];
      }
    }
  }

  /** A text whose first piece has no `/`, followed by nothing or by a `/`-led tail free of
      `/comment/`, does not contain `/comment/`, and its head before the first `/` is that piece. */
  lemma CommentSegment(n: string, x: string)
    requires '/' !in n && (x == [] || x[0] == '/') && !Contains(x, "/comment/")
    ensures !Contains(n + x, "/comment/")
    ensures Before(n + x, "/") == n
  {
    assert forall k :: 0 <= k < |n| ==> n[k] != '/';
    AbsentConcat(n, x, "/comment/");
    SegmentBeforeSlash(n, x);
  }

  lemma SegmentBeforeSlash(n: string, x: string)
    requires '/' !in n && (x == [] || x[0] == '/')
    ensures Before(n + x, "/") == n
  {
    assert forall k :: 0 <= k < |n| ==> n[k] != '/';
    AbsentFirstChar(n, "/");
    if x == [] {
      assert n + x == n;
    } else {
      assert n + x == n + "/" + x[1..];
      NoEarlyOccurrence(n, "/", x[1..]);
      BeforeFirst(n, "/", x[1..]);
    }
  }

  /** For a comment url `SITE/comment/<n>`, with `n` free of `/` and possibly followed by a
      further path, the canonical id is `comment/<n>`. */
  lemma CanonicalCommentId(n: string, x: string)
    requires '/' !in n && (x == [] || x[0] == '/') && !Contains(x, "/comment/")
    requires !Contains(SITE + "/comment/" + n + x, "/node/")
    ensures CanonicalId(SITE + "/comment/" + n + x) == "comment/" + n
  {
    var u := SITE + "/comment/" + (n + x);
    assert SITE + "/comment/" + n + x == u;
    CommentSegment(n, x);
    SiteHasNoComment(n + x);
    AfterLastOfLast(SITE, "/comment/", n + x);
    assert OccursAt(u, "/comment/", |SITE|);
    ContainsAt(u, "/comment/");
  }

  /** For a url `<host>/node/<digits>` the fast scraper's id is `node/<digits>`. */
  lemma FastNodeIdAt(p: string, d: string, x: string)
    requires HostPrefix(p) && AllDigits(d)
    requires x == [] || !IsDigit(x[0])
    ensures FastDealId(p + "/node/" + d + x) == "node/" + d
  {
    var a := p + "/";
    var b := "node/" + (d + x);
    var u := a + b;
    assert p + "/node/" + d + x == u;
    HostHasNoNode(p, u);
    SearchSkip(a, b, NodeNumberAt);
    assert b[5..] == d + x;
    assert b[..5] == "node/";
    DigitRunOf(d, x);
  }

  /** For a deal url the fast scraper's id is `node/<digits>` too, so the two ids agree. */
  lemma FastNodeId(d: string, x: string)
    requires AllDigits(d)
    requires x == [] || !IsDigit(x[0])
    ensures FastDealId(SITE + "/node/" + d + x) == "node/" + d
  {
    SiteIsHostPrefix();
    FastNodeIdAt(SITE, d, x);
  }

  // ---------------------------------------------------------------------------------------
  // Comment ids

  /** `_extract_deal_data`'s deep-linked comment: the fragment after the last `#` of the final
      url if that contains `#comment-`, else of the requested url; kept only when non-empty. */
  function DeepLinkCommentId(finalUrl: string, url: string): (r: Option<string>)
    ensures r.Some? ==> r.value != "" && !Contains(r.value, "#")
    ensures r.Some? ==> Contains(finalUrl, "#comment-") || Contains(url, "#comment-")
    ensures !Contains(finalUrl, "#comment-") && !Contains(url, "#comment-") ==> r == None
  {
    var frag :=
      if Contains(finalUrl, "#comment-") then AfterLast(finalUrl, "#")
      else if Contains(url, "#comment-") then AfterLast(url, "#")
      else "";
    if frag != "" then Some(frag) else None
  }

  /** The fast scraper's comment id, `comment-` and: the text after `#comment-` in the resolved
      url; else the part after `/comment/` of its path with `/redir` and slashes removed; else the
      segment after `/comment/` in the requested url. A piece that is missing leaves that step
      without an id. */
  function FastCommentId(resolved: string, url: string): (r: Option<string>)
    ensures r.Some? ==> StartsWith(r.value, "comment-")
    ensures Contains(resolved, "#comment-") ==> r.Some?
    ensures r.Some? ==> Contains(resolved, "#comment-") || Contains(resolved, "/comment/") || Contains(url, "/comment/")
  {
    var first :=
      if Contains(resolved, "#comment-") then
        SplitContains(resolved, "#comment-");
        Some(Split(resolved, "#comment-")[1])
      else if Contains(resolved, "/comment/") then
        var parts := Split(Before(resolved, "?"), "/comment/");
        if |parts| > 1 then
          Some(Replace(Replace(parts[1], "/redir", ""), "/", ""))
        else None
      else None;
    var part :=
      if first.Some? then first
      else if Contains(url, "/comment/") then
        var parts := Split(Before(url, "?"), "/comment/");
        if |parts| > 1 then Some(Before(parts[1], "/")) else None
      else None;
    if part.Some? then Some("comment-" + part.value) else None
  }

  /** A final url carrying `#comment-` gives the fragment after its last `#`, whatever the
      requested url was; an empty fragment gives no id. */
  lemma DeepLinkFromFinal(page: string, frag: string, url: string)
    requires '#' !in frag && Contains(page + "#" + frag, "#comment-")
    ensures DeepLinkCommentId(page + "#" + frag, url) == if frag != "" then Some(frag) else None
  {
    assert "#" == ['#'];
    AfterLastChar(page, '#', frag);
  }

  /** A final url without `#comment-` falls back to the fragment of the requested url. */
  lemma DeepLinkFromRequested(finalUrl: string, page: string, frag: string)
    requires !Contains(finalUrl, "#comment-")
    requires '#' !in frag && Contains(page + "#" + frag, "#comment-")
    ensures DeepLinkCommentId(finalUrl, page + "#" + frag) == if frag != "" then Some(frag) else None
  {
    assert "#" == ['#'];
    AfterLastChar(page, '#', frag);
  }

  /** How `FastCommentId` reads a resolved url with `/comment/` but no `#comment-`. */
  lemma FastCommentStep2(resolved: string, url: string)
    requires !Contains(resolved, "#comment-") && Contains(resolved, "/comment/")
    requires |Split(Before(resolved, "?"), "/comment/")| > 1
    ensures FastCommentId(resolved, url) ==
      Some("comment-" + Replace(Replace(Split(Before(resolved, "?"), "/comment/")[1], "/redir", ""), "/", ""))
  {
  }

  /** How `FastCommentId` falls back to the requested url. */
  lemma FastCommentStep3(resolved: string, url: string)
    requires !Contains(resolved, "#comment-") && !Contains(resolved, "/comment/") && Contains(url, "/comment/")
    requires |Split(Before(url, "?"), "/comment/")| > 1
    ensures FastCommentId(resolved, url) == Some("comment-" + Before(Split(Before(url, "?"), "/comment/")[1], "/"))
  {
  }

  /** A text with no `?` before a query (empty or starting with `?`) is what comes before `?`. */
  lemma BeforeQuery(path: string, query: string)
    requires '?' !in path && (query == "" || query[0] == '?')
    ensures Before(path + query, "?") == path
  {
    SplitHeadAppend(path, query, "?");
    SplitHeadAtSep(query, "?");
  }

  /** `p/comment/rest` with its first `/comment/` after `p`, and none in `rest`, splits in two. */
  lemma CommentPathSplit(p: string, rest: string)
    requires forall i :: 0 <= i < |p| ==> !OccursAt(p + "/comment/" + rest, "/comment/", i)
    requires !Contains(rest, "/comment/")
    ensures Split(p + "/comment/" + rest, "/comment/") == [p, rest]
  {
    SplitFirst(p, "/comment/", rest);
    SplitAbsent(rest, "/comment/");
  }

  /** The cleaning of step 2 gives the bare comment number back from `<n>`, `<n>/` or `<n>/redir`. */
  lemma CommentPartCleaned(n: string, tail: string)
    requires '/' !in n && (tail == "" || tail == "/" || tail == "/redir")
    ensures Replace(Replace(n + tail, "/redir", ""), "/", "") == n
  {
    if tail == "" {
      assert n + tail == n;
      AbsentFirstChar(n, "/redir");
      ReplaceAbsent(n, "/redir", "");
    } else if tail == "/" {
      ShortTailAbsent(n, tail, "/redir");
      ReplaceAbsent(n + tail, "/redir", "");
      DropSuffixSep(n, "/");
    } else {
      DropSuffixSep(n, "/redir");
    }
    AbsentFirstChar(n, "/");
    ReplaceAbsent(n, "/", "");
  }

  /** `p/comment/<n><tail>` has no `?` when none of its parts has one. */
  lemma CommentPathNoQuery(p: string, n: string, tail: string)
    requires '?' !in p && '?' !in n && '?' !in tail
    ensures '?' !in p + "/comment/" + n + tail
  {
    assert '?' !in "/comment/";
  }

  /** Step 2 of the fast comment id: a resolved url `p/comment/<n>` followed by nothing, `/` or
      `/redir`, and perhaps a query, and with no `#comment-`, gives `comment-<n>` whatever the
      requested url is. */
  lemma FastCommentFromPath(p: string, n: string, tail: string, query: string, url: string)
    requires !Contains(p + "/comment/" + n + tail + query, "#comment-")
    requires forall i :: 0 <= i < |p| ==> !OccursAt(p + "/comment/" + n + tail, "/comment/", i)
    requires '?' !in p && '/' !in n && '?' !in n
    requires tail == "" || tail == "/" || tail == "/redir"
    requires query == "" || query[0] == '?'
    ensures FastCommentId(p + "/comment/" + n + tail + query, url) == Some("comment-" + n)
  {
    var u := p + "/comment/" + n + tail + query;
    CommentPathPieces(p, n, tail, query);
    CommentPartCleaned(n, tail);
    FastCommentStep2(u, url);
  }

  /** The resolved url of step 2 holds `/comment/`, and its piece after it is `<n><tail>`. */
  lemma CommentPathPieces(p: string, n: string, tail: string, query: string)
    requires forall i :: 0 <= i < |p| ==> !OccursAt(p + "/comment/" + n + tail, "/comment/", i)
    requires '?' !in p && '/' !in n && '?' !in n
    requires tail == "" || tail == "/" || tail == "/redir"
    requires query == "" || query[0] == '?'
    ensures var u := p + "/comment/" + n + tail + query;
      && Contains(u, "/comment/")
      && var parts := Split(Before(u, "?"), "/comment/"); |parts| > 1 && parts[1] == n + tail
  {
    var path := p + "/comment/" + n + tail;
    var u := path + query;
    assert '?' !in tail;
    CommentPathNoQuery(p, n, tail);
    BeforeQuery(path, query);
    assert OccursAt(u, "/comment/", |p|);
    ContainsAt(u, "/comment/");
    assert path == p + "/comment/" + (n + tail);
    ShortTailAbsent(n, tail, "/comment/");
    CommentPathSplit(p, n + tail);
  }

  /** `p/comment/<seg>` followed by a path or a query: the piece after `/comment/` of its part
      before `?`, up to the next `/`, is `<seg>`. */
  lemma RequestedSegment(p: string, seg: string, tail: string)
    requires forall i :: 0 <= i < |p| ==> !OccursAt(p + "/comment/" + seg + tail, "/comment/", i)
    requires '?' !in p && '/' !in seg && '?' !in seg
    requires tail == "" || tail[0] == '/' || tail[0] == '?'
    ensures var parts := Split(Before(p + "/comment/" + seg + tail, "?"), "/comment/");
      |parts| > 1 && Before(parts[1], "/") == seg
  {
    var sep := "/comment/";
    RequestedPath(p, seg, tail);
    var t' := Split(tail, "?")[0];
    SplitFirst(p, sep, seg + t');
    SplitHeadAppend(seg, t', sep);
    var r := Split(t', sep)[0];
    SplitPrefix(t', sep);
    assert r == "" || r[0] == '/' by {
      if r != "" {
        assert r[0] == t'[0];
      }
    }
    SplitHeadAppend(seg, r, "/");
    SplitHeadAtSep(r, "/");
  }

  /** The part before the query of a requested url `p/comment/<seg><tail>` is
      `p/comment/<seg>` and a path that is empty or starts with `/`. */
  lemma RequestedPath(p: string, seg: string, tail: string)
    requires forall i :: 0 <= i < |p| ==> !OccursAt(p + "/comment/" + seg + tail, "/comment/", i)
    requires '?' !in p && '/' !in seg && '?' !in seg
    requires tail == "" || tail[0] == '/' || tail[0] == '?'
    ensures var t' := Split(tail, "?")[0];
      && Before(p + "/comment/" + seg + tail, "?") == p + "/comment/" + (seg + t')
      && (t' == "" || t'[0] == '/')
      && forall i :: 0 <= i < |p| ==> !OccursAt(p + "/comment/" + (seg + t'), "/comment/", i)
  {
    var sep := "/comment/";
    var x := p + sep + seg;
    CommentPathNoQuery(p, seg, "");
    assert x == p + "/comment/" + seg + "";
    BeforeQueryPrefix(x, tail);
    QueryHead(tail);
    var t' := Split(tail, "?")[0];
    assert x + t' == p + sep + (seg + t');
    NoEarlyInPrefix(x + t', x + tail, sep, |p|);
  }

  /** Before the first `?` of `x + tail`, where `x` has none, is `x` and the part of `tail`
      before its first `?`, a prefix of the whole. */
  lemma BeforeQueryPrefix(x: string, tail: string)
    requires '?' !in x
    ensures var h := Split(tail, "?")[0];
      Before(x + tail, "?") == x + h && |x + h| <= |x + tail| && (x + tail)[..|x + h|] == x + h
  {
    SplitHeadAppend(x, tail, "?");
    SplitPrefix(tail, "?");
    var h := Split(tail, "?")[0];
    assert (x + tail)[..|x + h|] == x + tail[..|h|];
  }

  /** An occurrence that a text lacks at the positions before `n` is also absent from its
      prefixes there. */
  lemma NoEarlyInPrefix(c: string, u: string, sep: string, n: int)
    requires |c| <= |u| && u[..|c|] == c
    requires forall i :: 0 <= i < n ==> !OccursAt(u, sep, i)
    ensures forall i :: 0 <= i < n ==> !OccursAt(c, sep, i)
  {
    forall i | 0 <= i < n ensures !OccursAt(c, sep, i) {
      if i + |sep| <= |c| {
        assert !OccursAt(u, sep, i);
        assert c[i..i + |sep|] == u[..|c|][i..i + |sep|] == u[i..i + |sep|];
      }
    }
  }

  /** What comes before the `?` of a path that is empty, starts with `/` or starts with `?` is
      empty or starts with `/`. */
  lemma QueryHead(tail: string)
    requires tail == "" || tail[0] == '/' || tail[0] == '?'
    ensures var h := Split(tail, "?")[0]; h == "" || h[0] == '/'
  {
    SplitPrefix(tail, "?");
    if tail == "" || tail[0] == '?' {
      SplitHeadAtSep(tail, "?");
    } else {
      var h := Split(tail, "?")[0];
      assert h == "" || h[0] == tail[0];
    }
  }

  /** Step 3: with neither `#comment-` nor `/comment/` in the resolved url, a requested url
      `p/comment/<seg>` followed by nothing, a path or a query gives `comment-<seg>`. */
  lemma FastCommentFromRequested(resolved: string, p: string, seg: string, tail: string)
    requires !Contains(resolved, "#comment-") && !Contains(resolved, "/comment/")
    requires forall i :: 0 <= i < |p| ==> !OccursAt(p + "/comment/" + seg + tail, "/comment/", i)
    requires '?' !in p && '/' !in seg && '?' !in seg
    requires tail == "" || tail[0] == '/' || tail[0] == '?'
    ensures FastCommentId(resolved, p + "/comment/" + seg + tail) == Some("comment-" + seg)
  {
    var u := p + "/comment/" + seg + tail;
    assert OccursAt(u, "/comment/", |p|);
    ContainsAt(u, "/comment/");
    RequestedSegment(p, seg, tail);
    FastCommentStep3(resolved, u);
  }

  /** For a url `<page>#comment-<n>` whose page part has no `#` and `n` no `#`, both comment-id
      derivations give `comment-<n>`. */
  lemma CommentIdsAgree(page: string, n: string, url: string)
    requires forall k :: 0 <= k < |page| ==> page[k] != '#'
    requires n != "" && forall k :: 0 <= k < |n| ==> n[k] != '#'
    ensures DeepLinkCommentId(page + "#comment-" + n, url) == Some("comment-" + n)
    ensures FastCommentId(page + "#comment-" + n, url) == Some("comment-" + n)
  {
    var u := page + "#comment-" + n;
    ContainsAt(u, "#comment-");
    assert OccursAt(u, "#comment-", |page|);
    // the fragment after the last '#'
    assert u == page + "#" + ("comment-" + n);
    var v := page + "#" + ("comment-" + n);
    forall i | 0 <= i < |page| ensures !OccursAt(v, "#", i) {
      assert v[i] == page[i] != '#';
      assert v[i..i + 1][0] == v[i];
    }
    var c := "comment-" + n;
    forall k | 0 <= k < |c| ensures c[k] != '#' {
      if k >= 8 {
        assert c[k] == n[k - 8];
      }
    }
    AbsentFirstChar(c, "#");
    AfterLastOfLast(page, "#", c);
    // the split at "#comment-"
    forall i | 0 <= i < |page| ensures !OccursAt(u, "#comment-", i) {
      if i + 9 <= |u| {
        assert u[i..i + 9][0] == page[i];
      }
    }
    AbsentFirstChar(n, "#comment-");
    SplitFirst(page, "#comment-", n);
    SplitAbsent(n, "#comment-");
  }

  // ---------------------------------------------------------------------------------------
  // Titles, prices, coupon

  const TITLE_SUFFIX: string := " - OzBargain"

  /** The fast scraper's title: " - OzBargain" removed wherever it occurs, then stripped. */
  function FastTitle(t: string): (r: string)
    ensures !Contains(t, TITLE_SUFFIX) ==> r == Strip(t)
  {
    if !Contains(t, TITLE_SUFFIX) then ReplaceAbsent(t, TITLE_SUFFIX, ""); Strip(Replace(t, TITLE_SUFFIX, ""))
    else Strip(Replace(t, TITLE_SUFFIX, ""))
  }

  /** A page title "<t> - OzBargain" gives back `t` stripped, when `t` has no hyphen. */
  lemma FastTitleOfPageTitle(t: string)
    requires forall k :: 0 <= k < |t| ==> t[k] != '-'
    ensures FastTitle(t + TITLE_SUFFIX) == Strip(t)
  {
    var u := t + TITLE_SUFFIX;
    forall i | 0 <= i < |t| ensures !OccursAt(t + TITLE_SUFFIX + "", TITLE_SUFFIX, i) {
      assert t + TITLE_SUFFIX + "" == u;
      if i + |TITLE_SUFFIX| <= |u| {
        assert u[i..i + |TITLE_SUFFIX|][1] == u[i + 1];
        if i + 1 < |t| {
          assert u[i + 1] == t[i + 1];
        }
      }
    }
    SplitFirst(t, TITLE_SUFFIX, "");
    assert t + TITLE_SUFFIX + "" == u;
    assert Split("", TITLE_SUFFIX) == [""];
    assert Split(u, TITLE_SUFFIX) == [t, ""];
    assert Join([t, ""], "") == t + "" + "";
    assert Replace(u, TITLE_SUFFIX, "") == t;
  }

  /** `(?:,\d+)*`, greedily: groups of a comma and digits, each comma followed by a digit; it
      stops where no comma and digit follow, after a digit run that cannot be extended. */
  function CommaGroups(s: string): (r: string)
    ensures |r| <= |s| && r == s[..|r|]
    ensures forall k :: 0 <= k < |r| ==> IsDigit(r[k]) || r[k] == ','
    ensures r == "" || (r[0] == ',' && IsDigit(r[|r| - 1]))
    ensures forall k :: 0 <= k < |r| && r[k] == ',' ==> k + 1 < |r| && IsDigit(r[k + 1])
    ensures !(|s| >= |r| + 2 && s[|r|] == ',' && IsDigit(s[|r| + 1]))
    ensures r != "" ==> |r| == |s| || !IsDigit(s[|r|])
    decreases |s|
  {
    if |s| >= 2 && s[0] == ',' && IsDigit(s[1]) then
      var run := DigitRun(s[1..]);
      var rest := CommaGroups(s[|run| + 1..]);
      GroupCons(s, run, rest);
      "," + run + rest
    else ""
  }

  /** A group in front of the comma groups of the text after it gives the comma groups of the
      whole text. */
  lemma GroupCons(s: string, run: string, rest: string)
    requires |s| >= 2 && s[0] == ',' && IsDigit(s[1]) && run == DigitRun(s[1..])
    requires var t := s[|run| + 1..];
      && |rest| <= |t| && rest == t[..|rest|]
      && (forall k :: 0 <= k < |rest| ==> IsDigit(rest[k]) || rest[k] == ',')
      && (rest == "" || (rest[0] == ',' && IsDigit(rest[|rest| - 1])))
      && (forall k :: 0 <= k < |rest| && rest[k] == ',' ==> k + 1 < |rest| && IsDigit(rest[k + 1]))
      && !(|t| >= |rest| + 2 && t[|rest|] == ',' && IsDigit(t[|rest| + 1]))
      && (rest != "" ==> |rest| == |t| || !IsDigit(t[|rest|]))
    ensures var r := "," + run + rest;
      && |r| <= |s| && r == s[..|r|]
      && (forall k :: 0 <= k < |r| ==> IsDigit(r[k]) || r[k] == ',')
      && (r == "" || (r[0] == ',' && IsDigit(r[|r| - 1])))
      && (forall k :: 0 <= k < |r| && r[k] == ',' ==> k + 1 < |r| && IsDigit(r[k + 1]))
      && !(|s| >= |r| + 2 && s[|r|] == ',' && IsDigit(s[|r| + 1]))
      && (r != "" ==> |r| == |s| || !IsDigit(s[|r|]))
  {
    var g := "," + run;
    assert s[..|g|] == g;
    assert s[..|g| + |rest|] == g + rest;
    GroupConsShape(run, rest);
    GroupConsStop(s, run, rest);
  }

  /** One more group in front keeps the shape of comma groups. */
  lemma GroupConsShape(run: string, rest: string)
    requires run != "" && forall k :: 0 <= k < |run| ==> IsDigit(run[k])
    requires forall k :: 0 <= k < |rest| ==> IsDigit(rest[k]) || rest[k] == ','
    requires rest == "" || (rest[0] == ',' && IsDigit(rest[|rest| - 1]))
    requires forall k :: 0 <= k < |rest| && rest[k] == ',' ==> k + 1 < |rest| && IsDigit(rest[k + 1])
    ensures var r := "," + run + rest;
      && (forall k :: 0 <= k < |r| ==> IsDigit(r[k]) || r[k] == ',')
      && r[0] == ',' && IsDigit(r[|r| - 1])
      && (forall k :: 0 <= k < |r| && r[k] == ',' ==> k + 1 < |r| && IsDigit(r[k + 1]))
  {
    var g := "," + run;
    var r := g + rest;
    assert forall k :: 0 <= k < |rest| ==> r[|g| + k] == rest[k];
    assert forall k :: 1 <= k < |g| ==> r[k] == run[k - 1];
    assert r[1] == run[0];
  }

  /** Where comma groups starting with a group in front stop reading. */
  lemma GroupConsStop(s: string, run: string, rest: string)
    requires |s| >= 2 && s[0] == ',' && IsDigit(s[1]) && run == DigitRun(s[1..])
    requires |rest| <= |s| - |run| - 1 && rest == s[|run| + 1..][..|rest|]
    requires !(|s[|run| + 1..]| >= |rest| + 2 && s[|run| + 1..][|rest|] == ',' && IsDigit(s[|run| + 1..][|rest| + 1]))
    requires rest != "" ==> |rest| == |s[|run| + 1..]| || !IsDigit(s[|run| + 1..][|rest|])
    ensures var r := "," + run + rest;
      && !(|s| >= |r| + 2 && s[|r|] == ',' && IsDigit(s[|r| + 1]))
      && (|r| == |s| || !IsDigit(s[|r|]))
  {
    var n := |run| + 1;
    var r := "," + run + rest;
    assert |r| == n + |rest|;
    assert |r| < |s| ==> s[|r|] == s[n..][|rest|];
    assert |r| + 1 < |s| ==> s[|r| + 1] == s[n..][|rest| + 1];
    assert rest == "" && n < |s| ==> s[n] == s[1..][|run|];
  }

  /** `(?:\.\d+)?`: a dot and the digit run after it when a digit follows the dot. */
  function DecimalPart(s: string): (r: string)
    ensures |r| <= |s| && r == s[..|r|]
    ensures forall k :: 0 <= k < |r| ==> IsDigit(r[k]) || r[k] == '.'
    ensures r == "" <==> !(|s| >= 2 && s[0] == '.' && IsDigit(s[1]))
    ensures r != "" ==> |r| >= 2 && r[0] == '.' && forall k :: 1 <= k < |r| ==> IsDigit(r[k])
    ensures r != "" ==> |r| == |s| || !IsDigit(s[|r|])
  {
    if |s| >= 2 && s[0] == '.' && IsDigit(s[1]) then
      var run := DigitRun(s[1..]);
      var d := "." + run;
      assert s[..|d|] == d;
      assert |d| == |s| || s[|d|] == s[1..][|run|];
      d
    else ""
  }

  predicate AmountChar(c: char) {
    IsDigit(c) || c == ',' || c == '.'
  }

  /** A price-shaped text: `$`, a digit, then digits, commas and dots. */
  predicate IsAmount(v: string) {
    |v| >= 2 && v[0] == '$' && IsDigit(v[1]) && forall k :: 1 <= k < |v| ==> AmountChar(v[k])
  }

  /** A whole text of the shape `\$\d+(?:,\d+)*(?:\.\d+)?`: `$` and a digit, then digits, commas
      and dots, where every comma or dot is followed by a digit and only digits follow a dot. */
  predicate PriceShaped(v: string) {
    && |v| >= 2 && v[0] == '$' && IsDigit(v[1])
    && (forall k :: 1 <= k < |v| ==> AmountChar(v[k]))
    && (forall k :: 1 <= k < |v| && !IsDigit(v[k]) ==> k + 1 < |v| && IsDigit(v[k + 1]))
    && (forall j, k :: 1 <= j < k < |v| && v[j] == '.' ==> IsDigit(v[k]))
  }

  /** `\$\d+(?:,\d+)*(?:\.\d+)?` at the start of `s`: the longest price-shaped prefix, present
      exactly when `s` opens with `$` and a digit. */
  function PriceAt(s: string): (r: Option<string>)
    ensures r.Some? ==> StartsWith(s, r.value) && IsAmount(r.value) && PriceShaped(r.value)
    ensures r.Some? ==> forall k :: |r.value| < k <= |s| ==> !PriceShaped(s[..k])
    ensures r.Some? <==> |s| >= 2 && s[0] == '$' && IsDigit(s[1])
  {
    if |s| >= 2 && s[0] == '$' && IsDigit(s[1]) then
      var d := "$" + DigitRun(s[1..]);
      var g := CommaGroups(s[|d|..]);
      var f := DecimalPart(s[|d| + |g|..]);
      PriceAtShape(s, d, g, f);
      PriceShapedPieces(d, g, f);
      PriceAtLongest(s, d, g, f);
      Some(d + g + f)
    else None
  }

  /** The dollar part, the comma groups and the decimal part put together are price-shaped. */
  lemma PriceShapedPieces(d: string, g: string, f: string)
    requires |d| >= 2 && d[0] == '$' && forall k :: 1 <= k < |d| ==> IsDigit(d[k])
    requires forall k :: 0 <= k < |g| ==> IsDigit(g[k]) || g[k] == ','
    requires g == "" || (g[0] == ',' && IsDigit(g[|g| - 1]))
    requires forall k :: 0 <= k < |g| && g[k] == ',' ==> k + 1 < |g| && IsDigit(g[k + 1])
    requires f == "" || (|f| >= 2 && f[0] == '.' && forall k :: 1 <= k < |f| ==> IsDigit(f[k]))
    ensures PriceShaped(d + g + f)
  {
    var v := d + g + f;
    assert forall k :: 0 <= k < |d| ==> v[k] == d[k];
    assert forall k :: 0 <= k < |g| ==> v[|d| + k] == g[k];
    assert forall k :: 0 <= k < |f| ==> v[|d| + |g| + k] == f[k];
    forall k | 1 <= k < |v| && !IsDigit(v[k]) ensures k + 1 < |v| && IsDigit(v[k + 1]) {
      if k < |d| {
      } else if k < |d| + |g| {
      } else {
        assert k == |d| + |g|;
      }
    }
    forall j, k | 1 <= j < k < |v| && v[j] == '.' ensures IsDigit(v[k]) {
      if j < |d| + |g| {
      } else {
        assert j == |d| + |g|;
      }
    }
  }

  /** What follows the price read at the start of `s`: not a digit, and neither a comma nor (when
      no decimal part was read) a dot followed by a digit. */
  lemma PriceAtStops(s: string, d: string, g: string, f: string)
    requires |s| >= 2 && s[0] == '$' && IsDigit(s[1])
    requires d == "$" + DigitRun(s[1..])
    requires g == CommaGroups(s[|d|..])
    requires f == DecimalPart(s[|d| + |g|..])
    ensures |d + g + f| <= |s|
    ensures |d + g + f| < |s| ==> !IsDigit(s[|d + g + f|])
    ensures f == "" && |d + g| + 1 < |s| ==> !(AmountChar(s[|d + g|]) && !IsDigit(s[|d + g|]) && IsDigit(s[|d + g| + 1]))
  {
    var run := DigitRun(s[1..]);
    var t := s[|d|..];
    var w := s[|d| + |g|..];
    assert |d| == |s| || s[|d|] == s[1..][|run|];
    assert |g| < |t| ==> t[|g|] == s[|d| + |g|];
    assert |g| + 1 < |t| ==> t[|g| + 1] == s[|d| + |g| + 1];
    assert |f| < |w| ==> w[|f|] == s[|d| + |g| + |f|];
    assert |w| >= 2 ==> w[0] == s[|d| + |g|] && w[1] == s[|d| + |g| + 1];
  }

  /** No price-shaped prefix of `s` is longer than the one read. */
  lemma PriceAtLongest(s: string, d: string, g: string, f: string)
    requires |s| >= 2 && s[0] == '$' && IsDigit(s[1])
    requires d == "$" + DigitRun(s[1..])
    requires g == CommaGroups(s[|d|..])
    requires f == DecimalPart(s[|d| + |g|..])
    ensures forall k :: |d + g + f| < k <= |s| ==> !PriceShaped(s[..k])
  {
    var v := d + g + f;
    PriceAtStops(s, d, g, f);
    forall k | |v| < k <= |s| ensures !PriceShaped(s[..k]) {
      var u := s[..k];
      var c := s[|v|];
      assert u[|v|] == c;
      if f != "" {
        assert u[|d| + |g|] == '.' by {
          assert s[|d| + |g|..][0] == s[|d| + |g|];
        }
      } else if |v| + 1 < k {
        assert u[|v| + 1] == s[|v| + 1];
      }
    }
  }

  /** A prefix followed by a prefix of the rest is a prefix. */
  lemma PrefixThen(s: string, a: string, b: string)
    requires StartsWith(s, a) && StartsWith(s[|a|..], b)
    ensures StartsWith(s, a + b)
  {
    assert s[..|a| + |b|] == s[..|a|] + s[|a|..][..|b|];
  }

  /** Amount characters after a price-shaped text keep it price-shaped. */
  lemma AmountThen(v: string, w: string)
    requires IsAmount(v) && forall k :: 0 <= k < |w| ==> AmountChar(w[k])
    ensures IsAmount(v + w)
  {
    var u := v + w;
    assert u[..|v|] == v;
    forall k | 1 <= k < |u| ensures AmountChar(u[k]) {
      if k >= |v| {
        assert u[k] == w[k - |v|];
      }
    }
  }

  /** `$` and the digit run after it. */
  lemma DollarRun(s: string)
    requires |s| >= 2 && s[0] == '$' && IsDigit(s[1])
    ensures StartsWith(s, "$" + DigitRun(s[1..])) && IsAmount("$" + DigitRun(s[1..]))
  {
    var r := DigitRun(s[1..]);
    var d := "$" + r;
    assert s[..|d|] == [s[0]] + s[1..][..|r|];
    forall k | 1 <= k < |d| ensures AmountChar(d[k]) {
      assert d[k] == r[k - 1];
    }
  }

  /** The three pieces of a price read at the start of `s` make a price-shaped prefix of it. */
  lemma PriceAtShape(s: string, d: string, g: string, f: string)
    requires |s| >= 2 && s[0] == '$' && IsDigit(s[1])
    requires d == "$" + DigitRun(s[1..])
    requires g == CommaGroups(s[|d|..])
    requires f == DecimalPart(s[|d| + |g|..])
    ensures StartsWith(s, d + g + f) && IsAmount(d + g + f)
  {
    DollarRun(s);
    assert StartsWith(s[|d|..], g);
    PrefixThen(s, d, g);
    assert StartsWith(s[|d + g|..], f);
    PrefixThen(s, d + g, f);
    assert forall k :: 0 <= k < |g| ==> AmountChar(g[k]);
    AmountThen(d, g);
    assert forall k :: 0 <= k < |f| ==> AmountChar(f[k]);
    AmountThen(d + g, f);
  }

  /** A `$` followed by a digit at position `i`. */
  predicate DollarDigitAt(title: string, i: int) {
    0 <= i < |title| - 1 && title[i] == '$' && IsDigit(title[i + 1])
  }

  /** `v` is the price `re.search` finds in `title` at `i`: the first `$` followed by a digit is
      at `i`, and `v` is the longest price-shaped text there. */
  predicate FirstPriceAt(title: string, i: int, v: string) {
    && DollarDigitAt(title, i) && (forall j :: 0 <= j < i ==> !DollarDigitAt(title, j))
    && StartsWith(title[i..], v) && PriceShaped(v)
    && forall k :: |v| < k <= |title| - i ==> !PriceShaped(title[i..][..k])
  }

  /** The price of a title: the longest price-shaped text at the first `$` followed by a digit. */
  function FindPrice(title: string): (r: Option<string>)
    ensures r.Some? <==> exists i :: 0 <= i < |title| - 1 && title[i] == '$' && IsDigit(title[i + 1])
    ensures r.Some? ==> IsAmount(r.value)
    ensures r.Some? ==> exists i :: FirstPriceAt(title, i, r.value)
  {
    PriceSearchFacts(title);
    PriceSearchFirst(title);
    Search(title, PriceAt)
  }

  /** The search for a price stops at the first `$` followed by a digit. */
  lemma PriceSearchFirst(title: string)
    ensures var r := Search(title, PriceAt); r.Some? ==> exists i :: FirstPriceAt(title, i, r.value)
  {
    SearchLeftmost(title, PriceAt);
    var r := Search(title, PriceAt);
    if r.Some? {
      var i :| 0 <= i <= |title| && PriceAt(title[i..]) == r && forall j :: 0 <= j < i ==> PriceAt(title[j..]).None?;
      assert title[i..][0] == title[i] && title[i..][1] == title[i + 1];
      forall j | 0 <= j < i ensures !DollarDigitAt(title, j) {
        assert PriceAt(title[j..]).None?;
        if j < |title| - 1 {
          assert title[j..][0] == title[j] && title[j..][1] == title[j + 1];
        }
      }
      assert FirstPriceAt(title, i, r.value);
    }
  }

  lemma PriceSearchFacts(title: string)
    ensures Search(title, PriceAt).Some? <==> exists i :: 0 <= i < |title| - 1 && title[i] == '$' && IsDigit(title[i + 1])
    ensures Search(title, PriceAt).Some? ==> IsAmount(Search(title, PriceAt).value)
  {
    SearchLeftmost(title, PriceAt);
    var r := Search(title, PriceAt);
    if r.Some? {
      var i :| 0 <= i <= |title| && PriceAt(title[i..]) == r;
      assert title[i..][0] == title[i] && title[i..][1] == title[i + 1];
    }
    if exists i :: 0 <= i < |title| - 1 && title[i] == '$' && IsDigit(title[i + 1]) {
      var i :| 0 <= i < |title| - 1 && title[i] == '$' && IsDigit(title[i + 1]);
      assert title[i..][0] == title[i] && title[i..][1] == title[i + 1];
      assert PriceAt(title[i..]).Some?;
    }
  }

  /** A whole-dollar amount is found as it was written, when nothing before it has a `$` and a
      space or the end follows it. */
  lemma PriceOfPlainAmount(pre: string, n: nat, rest: string)
    requires forall k :: 0 <= k < |pre| ==> pre[k] != '$'
    requires rest == [] || rest[0] == ' '
    ensures FindPrice(pre + "$" + NatToString(n) + rest) == Some("$" + NatToString(n))
  {
    var digits := NatToString(n);
    var b := "$" + digits + rest;
    assert pre + "$" + digits + rest == pre + b;
    forall i | 0 <= i < |pre| ensures PriceAt((pre + b)[i..]).None? {
      assert (pre + b)[i..][0] == pre[i];
    }
    SearchSkip(pre, b, PriceAt);
    PriceOfAmount(digits, rest);
  }

  /** The price at the start of `$<digits><rest>`, with `rest` empty or opening with a space. */
  lemma PriceOfAmount(digits: string, rest: string)
    requires AllDigits(digits)
    requires rest == [] || rest[0] == ' '
    ensures Search("$" + digits + rest, PriceAt) == Some("$" + digits)
  {
    var b := "$" + digits + rest;
    assert b[1..] == digits + rest;
    DigitRunOf(digits, rest);
    assert b[1 + |digits|..] == rest;
    assert ("$" + DigitRun(b[1..])) == "$" + digits;
    assert CommaGroups(rest) == "";
    assert rest + "" == rest;
    assert DecimalPart(rest) == "";
    assert PriceAt(b) == Some("$" + digits);
  }

  /** The description with the coupon code removed: as a prefix (then stripped), or else every
      occurrence (then stripped); untouched without a code. */
  function CleanDescription(desc: string, code: Option<string>): (r: string)
    ensures !Truthy(code) ==> r == desc
    ensures Truthy(code) && StartsWith(desc, code.value) ==> r == Strip(desc[|code.value|..])
    ensures Truthy(code) && !StartsWith(desc, code.value) ==> r == Strip(Replace(desc, code.value, ""))
    ensures Truthy(code) && !Contains(desc, code.value) ==> r == Strip(desc)
  {
    if !Truthy(code) then desc
    else if StartsWith(desc, code.value) then Strip(desc[|code.value|..])
    else
      if !Contains(desc, code.value) then ReplaceAbsent(desc, code.value, ""); Strip(Replace(desc, code.value, ""))
      else Strip(Replace(desc, code.value, ""))
  }

  /** A description that opens with the code loses exactly that prefix (later copies stay). */
  lemma CouponPrefixRemoved(code: string, rest: string)
    requires code != ""
    ensures CleanDescription(code + rest, Some(code)) == Strip(rest)
  {
    assert (code + rest)[..|code|] == code;
    assert (code + rest)[|code|..] == rest;
  }

  /** A code met once, after some text, is cut out and the two sides are joined and stripped
      (for a code whose first character does not recur in it). */
  lemma CouponInsideRemoved(a: string, code: string, b: string)
    requires a != "" && code != "" && code[0] !in code[1..]
    requires !Contains(a, code) && !Contains(b, code)
    ensures CleanDescription(a + code + b, Some(code)) == Strip(a + b)
  {
    NoEarlyOccurrence(a, code, b);
    assert !OccursAt(a + code + b, code, 0);
    ReplaceOnce(a, code, b);
  }

  // ---------------------------------------------------------------------------------------
  // Comment count

  function PageNumberAt(s: string): Option<string> {
    DigitsAfter(s, "page=")
  }

  /** The page index of a pager href: the number of its first `page=(\d+)`. */
  function PageIndex(href: Option<string>): (r: Option<nat>)
    ensures href.None? || href == Some("") ==> r.None?
  {
    if !Truthy(href) then None
    else
      SearchLeftmost(href.value, PageNumberAt);
      match Search(href.value, PageNumberAt)
      case Some(d) => Some(GroupsValue(d))
      case None => None
  }

  /** A query-string pager link `?page=<n>` has index `n`. */
  lemma PageIndexOfQuery(n: nat)
    ensures PageIndex(Some("?page=" + NatToString(n))) == Some(n)
  {
    var digits := NatToString(n);
    var s := "?page=" + digits;
    assert s == "?" + ("page=" + digits);
    assert ("?" + ("page=" + digits))[0..][0] == '?';
    SearchSkip("?", "page=" + digits, PageNumberAt);
    assert ("page=" + digits)[5..] == digits;
    DigitRunOf(digits, "");
    assert digits + "" == digits;
    NatToStringValue(n);
  }

  /** The scan of the pager links: the largest index and the first href that has it (a later
      equal index does not replace it). -1 and no href when no link has an index. */
  method MaxPageIndex(hrefs: seq<Option<string>>) returns (maxIdx: int, target: Option<string>)
    ensures maxIdx >= -1
    ensures maxIdx == -1 <==> forall i :: 0 <= i < |hrefs| ==> PageIndex(hrefs[i]).None?
    ensures maxIdx == -1 ==> target == None
    ensures forall i :: 0 <= i < |hrefs| && PageIndex(hrefs[i]).Some? ==> PageIndex(hrefs[i]).value <= maxIdx
    ensures maxIdx > -1 ==> exists i :: 0 <= i < |hrefs| && PageIndex(hrefs[i]) == Some(maxIdx) && target == hrefs[i]
                                    && forall j :: 0 <= j < i && PageIndex(hrefs[j]).Some? ==> PageIndex(hrefs[j]).value < maxIdx
  {
    maxIdx := -1;
    target := None;
    ghost var at := -1;
    var i := 0;
    while i < |hrefs|
      invariant 0 <= i <= |hrefs| && maxIdx >= -1
      invariant maxIdx == -1 <==> forall j :: 0 <= j < i ==> PageIndex(hrefs[j]).None?
      invariant maxIdx == -1 ==> target == None && at == -1
      invariant forall j :: 0 <= j < i && PageIndex(hrefs[j]).Some? ==> PageIndex(hrefs[j]).value <= maxIdx
      invariant maxIdx > -1 ==> 0 <= at < i && PageIndex(hrefs[at]) == Some(maxIdx) && target == hrefs[at]
                                && forall j :: 0 <= j < at && PageIndex(hrefs[j]).Some? ==> PageIndex(hrefs[j]).value < maxIdx
    {
      var idx := PageIndex(hrefs[i]);
      if idx.Some? && idx.value > maxIdx {
        maxIdx := idx.value;
        target := hrefs[i];
        at := i;
      }
      i := i + 1;
    }
  }

  /** The url of the last comment page: a query-only href replaces the query of the deal url,
      a path is put under the site, anything else is taken as it is. */
  function LastPageUrl(url: string, target: string): (r: string)
    ensures EndsWith(r, target)
    ensures StartsWith(target, "?") ==> !Contains(r[..|r| - |target|], "?")
    ensures StartsWith(target, "?") ==> Before(r, "?") == Before(url, "?") && |r| == |Before(url, "?")| + |target|
    ensures !StartsWith(target, "?") && StartsWith(target, "/") ==> r == SITE + target
    ensures !StartsWith(target, "?") && !StartsWith(target, "/") ==> r == target
  {
    if StartsWith(target, "?") then
      var b := Before(url, "?");
      var r := b + target;
      assert r[..|r| - |target|] == b;
      assert r[|r| - |target|..] == target;
      assert r == b + "?" + target[1..];
      NoEarlyOccurrence(b, "?", target[1..]);
      BeforeFirst(b, "?", target[1..]);
      r
    else if StartsWith(target, "/") then
      var r := SITE + target;
      assert r[|r| - |target|..] == target;
      assert r[..|SITE|] == SITE;
      r
    else target
  }

  /** `\((\d+)\)` at the start of `s`: the number. */
  function ParenNumberAt(s: string): (r: Option<nat>) {
    if |s| >= 1 && s[0] == '(' then
      var d := DigitRun(s[1..]);
      if d != [] && |s| > 1 + |d| && s[1 + |d|] == ')' then Some(GroupsValue(d)) else None
    else None
  }

  /** The number in the comments header, as in "Comments (178)". */
  function HeaderNumber(text: string): Option<nat> {
    Search(text, ParenNumberAt)
  }

  /** A parenthesised digit string at the start reads as its value. */
  lemma ParenNumberOfDigits(digits: string, rest: string)
    requires AllDigits(digits)
    ensures ParenNumberAt("(" + digits + ")" + rest) == Some(GroupsValue(digits))
  {
    var b := "(" + digits + ")" + rest;
    assert b[1..] == digits + (")" + rest);
    DigitRunOf(digits, ")" + rest);
    assert b[1 + |digits|] == ')';
  }

  /** A header "<lbl> (<n>)<rest>" whose lbl has no parenthesis gives `n`. */
  lemma HeaderNumberOf(lbl: string, n: nat, rest: string)
    requires forall k :: 0 <= k < |lbl| ==> lbl[k] != '('
    ensures HeaderNumber(lbl + "(" + NatToString(n) + ")" + rest) == Some(n)
  {
    var digits := NatToString(n);
    var b := "(" + digits + ")" + rest;
    assert lbl + "(" + digits + ")" + rest == lbl + b;
    forall i | 0 <= i < |lbl| ensures ParenNumberAt((lbl + b)[i..]).None? {
      assert (lbl + b)[i..][0] == lbl[i];
    }
    SearchSkip(lbl, b, ParenNumberAt);
    NatToStringValue(n);
    ParenNumberOfDigits(digits, rest);
    assert b[0..] == b;
  }

  /** `_get_comment_count` after the pager scan: `maxIdx` is the largest pager index (-1 for
      none), `lastPage` the number of comments found on the last page (None when navigating there
      failed), `domCount` the comments on the page at hand, `header` the comments header text.
      The pager gives 100 per full page plus the last page; failing that, a positive page count;
      and when nothing was counted, or the count is 0, the header's number wins. */
  function CommentCount(maxIdx: int, lastPage: Option<nat>, domCount: nat, header: Option<string>): (c: int)
    ensures maxIdx > -1 && lastPage.Some? && maxIdx * 100 + lastPage.value != 0 ==> c == maxIdx * 100 + lastPage.value
    ensures (maxIdx <= -1 || lastPage.None?) && domCount > 0 ==> c == domCount
    ensures (maxIdx <= -1 || lastPage.None?) && domCount == 0 && (header.None? || HeaderNumber(header.value).None?) ==>
      c == (if maxIdx > -1 then maxIdx * 100 else 0)
    ensures c == 0 || c == domCount || (maxIdx > -1 && (c == maxIdx * 100 || (lastPage.Some? && c == maxIdx * 100 + lastPage.value)))
            || (header.Some? && HeaderNumber(header.value) == Some(c))
    ensures header.Some? && HeaderNumber(header.value).Some?
            && (if maxIdx > -1 && lastPage.Some? then maxIdx * 100 + lastPage.value == 0 else domCount == 0) ==>
      c == HeaderNumber(header.value).value
  {
    var paged := maxIdx > -1 && lastPage.Some?;
    var count := if maxIdx > -1 then maxIdx * 100 + (if lastPage.Some? then lastPage.value else 0) else 0;
    var counted := paged || domCount > 0;
    var count2 := if !paged && domCount > 0 then domCount else count;
    if (!counted || count2 == 0) && header.Some? && HeaderNumber(header.value).Some? then HeaderNumber(header.value).value
    else count2
  }

  /** A two-page thread whose last page holds `r > 0` comments counts 100 + r. */
  lemma CommentCountTwoPages(r: nat, domCount: nat, header: Option<string>)
    requires r > 0
    ensures CommentCount(1, Some(r), domCount, header) == 100 + r
  {
  }

  // ---------------------------------------------------------------------------------------
  // Tags, votes and coupon code of the page scraper

  /** The stripped texts of the taxonomy links, in page order. */
  function Stripped(texts: seq<string>): (r: seq<string>)
    ensures |r| == |texts| && forall k :: 0 <= k < |r| ==> r[k] == Strip(texts[k])
  {
    seq(|texts|, k requires 0 <= k < |texts| => Strip(texts[k]))
  }

  /** After the first `i` texts: the tags are distinct, non-empty and in the order of their
      first appearance, and hold every non-empty text seen so far. */
  ghost predicate TagsSoFar(w: seq<string>, tags: seq<string>, i: int)
    requires 0 <= i <= |w|
  {
    && NoDuplicates(tags)
    && (forall j :: 0 <= j < |tags| ==> tags[j] != "" && IndexOf(w, tags[j]) < i)
    && (forall k :: 0 <= k < i && w[k] != "" ==> w[k] in tags)
    && (forall a, b :: 0 <= a < b < |tags| ==> IndexOf(w, tags[a]) < IndexOf(w, tags[b]))
  }

  lemma TagsStep(w: seq<string>, tags: seq<string>, i: int)
    requires 0 <= i < |w| && TagsSoFar(w, tags, i)
    ensures TagsSoFar(w, if w[i] != "" && w[i] !in tags then tags + [w[i]] else tags, i + 1)
  {
    if w[i] != "" && w[i] !in tags {
      TagsAppend(w, tags, i);
    }
  }

  /** A new non-empty text joins the tags at the end. */
  lemma TagsAppend(w: seq<string>, tags: seq<string>, i: int)
    requires 0 <= i < |w| && TagsSoFar(w, tags, i) && w[i] != "" && w[i] !in tags
    ensures TagsSoFar(w, tags + [w[i]], i + 1)
  {
    assert IndexOf(w, w[i]) == i;
    var t := tags + [w[i]];
    assert forall j :: 0 <= j < |tags| ==> t[j] == tags[j];
    assert t[|tags|] == w[i];
  }

  /** The tag loop: each stripped link text is appended unless it is empty or already there.
      The tags are the distinct non-empty texts, in the order of their first appearance. */
  method DedupTags(texts: seq<string>) returns (tags: seq<string>)
    ensures NoDuplicates(tags)
    ensures forall j :: 0 <= j < |tags| ==> tags[j] != ""
    ensures forall t :: t in tags <==> t != "" && t in Stripped(texts)
    ensures forall a, b :: 0 <= a < b < |tags| ==> IndexOf(Stripped(texts), tags[a]) < IndexOf(Stripped(texts), tags[b])
  {
    ghost var w := Stripped(texts);
    tags := [];
    var i := 0;
    while i < |texts|
      invariant 0 <= i <= |texts|
      invariant TagsSoFar(w, tags, i)
    {
      var tagText := Strip(texts[i]);
      TagsStep(w, tags, i);
      if tagText != "" && tagText !in tags {
        tags := tags + [tagText];
      }
      i := i + 1;
    }
  }

  /** An up- or down-vote counter: `int` of the stripped text, 0 when the element is missing or
      the text is not a number. */
  function VoteCount(text: Option<string>): (n: int)
    ensures text.None? ==> n == 0
    ensures text.Some? && ParseInt(Strip(text.value)).None? ==> n == 0
  {
    if text.None? then 0
    else match ParseInt(Strip(text.value))
      case Some(v) => v
      case None => 0
  }

  /** A counter printed as a plain number is read back as that number. */
  lemma VoteCountOfNumber(n: nat)
    ensures VoteCount(Some(NatToString(n))) == n
  {
    var s := NatToString(n);
    StripWhereFixed(s, IsSpace);
    ParseNatToString(n);
  }

  /** The coupon code: the stripped `<strong>` texts joined by ", ", or else the whole box's
      stripped text. */
  function CouponCode(strongs: seq<string>, box: string): (code: string)
    ensures strongs == [] ==> code == Strip(box)
    ensures |strongs| == 1 ==> code == Strip(strongs[0])
    ensures strongs != [] ==> StartsWith(code, Strip(strongs[0]))
    ensures |strongs| >= 2 ==> code == Strip(strongs[0]) + ", " + CouponCode(strongs[1..], box)
    decreases |strongs|
  {
    if strongs == [] then Strip(box)
    else
      var codes := Stripped(strongs);
      var code := Join(codes, ", ");
      assert code[..|codes[0]|] == codes[0];
      if |strongs| >= 2 then
        assert codes[1..] == Stripped(strongs[1..]);
        code
      else code
  }

  // ---------------------------------------------------------------------------------------
  // The fast scraper

  /** The page's `<title>` as the parser gives it: no title element; an element whose `.string`
      is None (it is empty, or has more than one child); or an element holding one string. */
  datatype PageTitle = NoTitleTag | TitleWithoutString | TitleString(text: string)

  /** `str()` of the `AttributeError` raised by calling `.replace` on a title's None `.string`. */
  const NONE_REPLACE_ERROR: string := "'NoneType' object has no attribute 'replace'"

  /** What the HTTP fetch and the HTML parse give the fast scraper: the resolved url, the
      `<title>`, the `og:description` content (None without the meta tag), the coupon box text,
      the taxonomy link texts, the text of each comment's content box by comment id, and whether
      an expired marker is present. `FastError` is any exception of the fetch, with its message. */
  datatype FastResponse =
    | FastPage(resolvedUrl: string, title: PageTitle, metaDescription: Option<string>, coupon: Option<string>,
               tagTexts: seq<string>, comments: map<string, string>, expired: bool)
    | FastError(message: string)

  /** `scrape_deal_fast`: the record built from one fetched page; `now` and `clockText` are the
      wall-clock reading and its "%H:%M" rendering. */
  function FastScrape(url: string, resp: FastResponse, now: int, clockText: string): (r: ScrapeResult)
    ensures resp.FastError? ==> r == ScrapeFailed(resp.message, url)
    ensures resp.FastPage? && resp.title.TitleWithoutString? ==> r == ScrapeFailed(NONE_REPLACE_ERROR, url)
    ensures resp.FastPage? && !resp.title.TitleWithoutString? ==> r.Scraped?
    ensures r.Scraped? ==> var d := r.data;
      && d.upvotes == 0 && d.downvotes == 0 && d.commentCount == 0 && d.price == Some("")
      && d.url == resp.resolvedUrl && d.id == Some(FastDealId(resp.resolvedUrl))
      && d.linkedCommentId == FastCommentId(resp.resolvedUrl, url)
      && (d.linkedComment.Some? ==> d.linkedCommentId.Some? && d.linkedCommentId.value in resp.comments)
      && (resp.title.NoTitleTag? ==> d.title == Some("Unknown Deal"))
      && (resp.title.TitleString? ==> d.title == Some(FastTitle(resp.title.text)))
    ensures !r.Crashed?
  {
    match resp
    case FastError(message) => ScrapeFailed(message, url)
    case FastPage(resolved, title, meta, coupon, tagTexts, comments, expired) =>
      if title.TitleWithoutString? then ScrapeFailed(NONE_REPLACE_ERROR, url)
      else
      var commentId := FastCommentId(resolved, url);
      var linked := if commentId.Some? && commentId.value in comments then Some(comments[commentId.value]) else None;
      Scraped(DealData(
        id := Some(FastDealId(resolved)),
        url := resolved,
        title := Some(if title.TitleString? then FastTitle(title.text) else "Unknown Deal"),
        price := Some(""),
        description := Some(if meta.Some? then meta.value else ""),
        couponCode := coupon,
        tags := TagList(tagTexts),
        upvotes := 0,
        downvotes := 0,
        commentCount := 0,
        timeStr := Some(clockText),
        user := Some("Unknown"),
        action := Some("scraped"),
        kind := Some("deal"),
        isExpired := expired,
        postedDate := Some(""),
        externalDomain := Some(""),
        originalUrl := None,
        eventTimestamp := Some(now),
        linkedComment := linked,
        linkedCommentId := commentId))
  }

  /** A deal page fetched in fast mode, once it scrapes, is stored under its node id. */
  lemma FastScrapeOfDealPage(url: string, d: string, resp: FastResponse, now: int, clockText: string)
    requires AllDigits(d)
    requires resp.FastPage? && resp.resolvedUrl == SITE + "/node/" + d
    ensures var r := FastScrape(url, resp, now, clockText); r.Scraped? ==> r.data.id == Some("node/" + d)
  {
    assert SITE + "/node/" + d + "" == resp.resolvedUrl;
    FastNodeId(d, "");
  }

  // ---------------------------------------------------------------------------------------
  // The activity walk

  /** One activity entry: the `.right .action` box (None when the entry has none), with its text
      and the hrefs of its links. */
  datatype ActionBox = ActionBox(text: string, hrefs: seq<Option<string>>)

  /** What the page shows at one turn of the walk: the entries, what scrolling did (the new
      height, or an exception and its message), whether a "Next" link is visible, and the height
      after clicking it. */
  datatype ScrollOutcome = Height(h: int) | ScrollFailed(message: string)
  datatype ActivityPage = ActivityPage(entries: seq<Option<ActionBox>>, scroll: ScrollOutcome, nextVisible: bool,
                                       heightAfterClick: int)

  datatype ActivityItem = ActivityItem(text: string, url: string)

  datatype StopReason = Filled | EndOfFeed | BrowserClosed | OutOfPages

  /** The kinds of activity the walk yields. */
  predicate IsActivityText(t: string) {
    Contains(t, "replied to") || Contains(t, "commented on") || Contains(t, "posted")
  }

  /** The item an entry yields, before the duplicate check: the stripped action text and the
      absolute url of its last link. */
  function Candidate(e: Option<ActionBox>): (r: Option<ActivityItem>)
    ensures r.Some? ==> IsActivityText(r.value.text) && r.value.url != ""
    ensures r.Some? ==> e.Some? && e.value.hrefs != [] && r.value.text == Strip(e.value.text)
  {
    if e.None? then None
    else
      var text := Strip(e.value.text);
      var hrefs := e.value.hrefs;
      if !IsActivityText(text) || hrefs == [] then None
      else
        var href := hrefs[|hrefs| - 1];
        if !Truthy(href) then None
        else
          var url := AbsoluteUrl(href.value);
          assert |url| >= |href.value|;
          Some(ActivityItem(text, url))
  }

  /** The urls of the items. */
  function UrlsOf(items: seq<ActivityItem>): (r: seq<string>)
    ensures |r| == |items| && forall k :: 0 <= k < |items| ==> r[k] == items[k].url
  {
    seq(|items|, k requires 0 <= k < |items| => items[k].url)
  }

  /** The items yielded so far are within the limit, distinct by url, of the wanted kinds, and
      `seen` holds exactly their urls. */
  ghost predicate WalkInvariant(items: seq<ActivityItem>, seen: set<string>, maxItems: int) {
    && (|items| <= maxItems || items == [])
    && NoDuplicates(UrlsOf(items))
    && (forall k :: 0 <= k < |items| ==> IsActivityText(items[k].text) && items[k].url != "")
    && (forall u :: u in seen <==> u in UrlsOf(items))
  }

  /** After the first `i` entries of a screen: the walk invariant holds, the items yielded
      before the screen are kept, the new ones were not seen before, and every candidate so far
      has been seen. */
  ghost predicate TakenSoFar(cands: seq<Option<ActivityItem>>, maxItems: int, items0: seq<ActivityItem>, seen0: set<string>,
                             items: seq<ActivityItem>, seen: set<string>, i: int)
    requires 0 <= i <= |cands|
  {
    && WalkInvariant(items, seen, maxItems)
    && seen0 <= seen
    && |items0| <= |items| && items[..|items0|] == items0
    && (forall k :: |items0| <= k < |items| ==> items[k].url !in seen0)
    && (forall k :: 0 <= k < i && cands[k].Some? ==> cands[k].value.url in seen)
  }

  /** Yielding a new candidate, or passing over one already seen or none, keeps that. */
  lemma TakeStep(cands: seq<Option<ActivityItem>>, maxItems: int, items0: seq<ActivityItem>, seen0: set<string>,
                 items: seq<ActivityItem>, seen: set<string>, i: int)
    requires 0 <= i < |cands| && TakenSoFar(cands, maxItems, items0, seen0, items, seen, i) && |items| < maxItems
    requires cands[i].Some? ==> IsActivityText(cands[i].value.text) && cands[i].value.url != ""
    ensures cands[i].Some? && cands[i].value.url !in seen ==>
      TakenSoFar(cands, maxItems, items0, seen0, items + [cands[i].value], seen + {cands[i].value.url}, i + 1)
    ensures !(cands[i].Some? && cands[i].value.url !in seen) ==> TakenSoFar(cands, maxItems, items0, seen0, items, seen, i + 1)
  {
    if cands[i].Some? && cands[i].value.url !in seen {
      var c := cands[i].value;
      assert UrlsOf(items + [c]) == UrlsOf(items) + [c.url];
      assert (items + [c])[..|items0|] == items[..|items0|];
    }
  }

  /** The for-loop over the entries on screen: every new candidate is yielded until the limit
      is reached. */
  method TakeEntries(entries: seq<Option<ActionBox>>, maxItems: int, items0: seq<ActivityItem>, seen0: set<string>)
    returns (items: seq<ActivityItem>, seen: set<string>)
    requires WalkInvariant(items0, seen0, maxItems)
    ensures WalkInvariant(items, seen, maxItems)
    ensures |items0| <= |items| && items[..|items0|] == items0
    ensures forall k :: |items0| <= k < |items| ==> items[k].url !in seen0
    ensures |items| >= maxItems || forall k :: 0 <= k < |entries| && Candidate(entries[k]).Some? ==> Candidate(entries[k]).value.url in seen
  {
    items, seen := items0, seen0;
    ghost var cands := seq(|entries|, k requires 0 <= k < |entries| => Candidate(entries[k]));
    var i := 0;
    while i < |entries|
      invariant 0 <= i <= |entries|
      invariant TakenSoFar(cands, maxItems, items0, seen0, items, seen, i)
    {
      if |items| >= maxItems {
        break;
      }
      var c := Candidate(entries[i]);
      assert c == cands[i];
      TakeStep(cands, maxItems, items0, seen0, items, seen, i);
      if c.Some? && c.value.url !in seen {
        seen := seen + {c.value.url};
        items := items + [c.value];
      }
      i := i + 1;
    }
    forall k | 0 <= k < i && Candidate(entries[k]).Some?
      ensures Candidate(entries[k]).value.url in seen
    {
      assert cands[k] == Candidate(entries[k]);
    }
  }

  /** The retry counter after one scroll. A taller page resets it; a page of the same height
      counts one more retry, except that past five retries a visible "Next" link is clicked and
      the count starts again; the tenth retry ends the walk, and so does an exception that says
      the browser has been closed. Any other exception leaves the counter as it was. */
  datatype Progress = Progress(retries: nat, lastHeight: int, stop: Option<StopReason>)

  function AfterScroll(retries: nat, lastHeight: int, page: ActivityPage): (r: Progress)
    requires retries < 10
    ensures r.stop.None? ==> r.retries < 10
    ensures r.stop == Some(EndOfFeed) ==> r.retries == 10
    ensures r.stop.None? || r.stop == Some(EndOfFeed) || r.stop == Some(BrowserClosed)
    ensures page.scroll.Height? && page.scroll.h != lastHeight ==> r == Progress(0, page.scroll.h, None)
    ensures page.scroll.Height? && page.scroll.h == lastHeight && retries + 1 > 5 && page.nextVisible ==>
      r == Progress(0, page.heightAfterClick, None)
    ensures page.scroll.Height? && page.scroll.h == lastHeight && !(retries + 1 > 5 && page.nextVisible) ==>
      r.retries == retries + 1 && r.lastHeight == lastHeight
    ensures page.scroll.ScrollFailed? ==> r.retries == retries && r.lastHeight == lastHeight
  {
    match page.scroll
    case ScrollFailed(message) =>
      if Contains(message, "TargetClosed") || Contains(message, "closed") then Progress(retries, lastHeight, Some(BrowserClosed))
      else Progress(retries, lastHeight, None)
    case Height(h) =>
      if h != lastHeight then Progress(0, h, None)
      else if retries + 1 > 5 && page.nextVisible then Progress(0, page.heightAfterClick, None)
      else if retries + 1 >= 10 then Progress(retries + 1, lastHeight, Some(EndOfFeed))
      else Progress(retries + 1, lastHeight, None)
  }

  /** Ten scrolls in a row that add nothing, with no "Next" link, end the walk. */
  lemma StalledWalkEnds(retries: nat, lastHeight: int, page: ActivityPage)
    requires retries == 9 && page.scroll == Height(lastHeight) && !page.nextVisible
    ensures AfterScroll(retries, lastHeight, page).stop == Some(EndOfFeed)
  {
  }

  /** `get_user_activity`, over the successive states of the profile page from `startHeight`:
      at most `maxItems` items, pairwise distinct urls, only the wanted kinds, and the reason it
      stopped. The walk also ends when the given page states run out. */
  method UserActivity(pages: seq<ActivityPage>, maxItems: int, startHeight: int)
    returns (items: seq<ActivityItem>, stop: StopReason, retries: nat)
    ensures |items| <= maxItems || items == []
    ensures NoDuplicates(UrlsOf(items))
    ensures forall k :: 0 <= k < |items| ==> IsActivityText(items[k].text) && items[k].url != ""
    ensures retries <= 10
    ensures stop == Filled ==> |items| >= maxItems
    ensures stop == EndOfFeed ==> retries == 10
    ensures stop == OutOfPages ==> |items| < maxItems
  {
    items := [];
    var seen: set<string> := {};
    retries := 0;
    var lastHeight := startHeight;
    stop := OutOfPages;
    var p := 0;
    while |items| < maxItems && p < |pages|
      invariant 0 <= p <= |pages|
      invariant WalkInvariant(items, seen, maxItems)
      invariant retries < 10
      decreases |pages| - p
    {
      items, seen := TakeEntries(pages[p].entries, maxItems, items, seen);
      if |items| >= maxItems {
        break;
      }
      var next := AfterScroll(retries, lastHeight, pages[p]);
      retries := next.retries;
      if next.stop.Some? {
        stop := next.stop.value;
        return;
      }
      lastHeight := next.lastHeight;
      p := p + 1;
    }
    if |items| >= maxItems {
      stop := Filled;
    }
  }
}
