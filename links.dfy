/**
 * Link selection on a listing page (ProjectCodeTest1.py, `extract_articles`,
 * lines 27-28): keep the `href`s that mention the politics section, drop
 * duplicates through a set, keep at most `max_articles` of them and turn every
 * link that does not start with "http" into an absolute https URL on the
 * listing page's host.
 */
module LinkSelection {
  import opened Basics
  import opened Strings

  /** The path segment a link must contain to be kept. */
  const Section: string := "/politics/"

  /** Default of `extract_articles`'s `max_articles`. */
  const DefaultMaxArticles: int := 10

  /** The set built on line 27: every href that contains the section segment. */
  function PoliticsLinks(hrefs: seq<string>): set<string>
  {
    set h | h in hrefs && Contains(h, Section)
  }

  /**
   * `order` is an iteration order of the set `s`, as `list(set(...))` yields
   * it: every member exactly once. Python leaves that order unspecified, so
   * the model takes it as an input.
   */
  ghost predicate Enumerates(order: seq<string>, s: set<string>)
  {
    Distinct(order) && forall x :: x in order <==> x in s
  }

  /** The text after the first "//" of `url`; None when there is none. */
  function AfterDoubleSlash(url: string): Option<string>
    decreases |url|
  {
    if |url| < 2 then None
    else if url[..2] == "//" then Some(url[2..])
    else AfterDoubleSlash(url[1..])
  }

  /** The text of `s` up to (not including) its first "/". */
  function UpToSlash(s: string): (r: string)
    ensures r <= s
    ensures '/' !in r
    ensures |r| == |s| || s[|r|] == '/'
  {
    if s == [] || s[0] == '/' then [] else [s[0]] + UpToSlash(s[1..])
  }

  /**
   * `url.split("//")[1].split("/")[0]`: the piece between the first and the
   * second "//" cut at its first "/". That is the text after the first "//"
   * up to the next "/" (or the end): a "/" inside the piece ends it, and
   * otherwise the second "//" starts with the next "/". None models the
   * IndexError raised when `url` has no "//".
   */
  function Host(url: string): Option<string>
  {
    match AfterDoubleSlash(url)
    case None => None
    case Some(rest) => Some(UpToSlash(rest))
  }

  /** "//" occurs at offset `i` of `url` and at no earlier offset. */
  ghost predicate FirstDoubleSlashAt(url: string, i: int)
  {
    OccursAt(url, "//", i) && forall j :: 0 <= j < i ==> !OccursAt(url, "//", j)
  }

  lemma {:induction false} AfterDoubleSlashSpec(url: string)
    ensures AfterDoubleSlash(url).None? ==> forall i :: !OccursAt(url, "//", i)
    ensures AfterDoubleSlash(url).Some? ==>
      exists i :: FirstDoubleSlashAt(url, i) && AfterDoubleSlash(url).value == url[i + 2..]
    decreases |url|
  {
    if |url| < 2 {
    } else if url[..2] == "//" {
      assert FirstDoubleSlashAt(url, 0);
    } else {
      var tail := url[1..];
      AfterDoubleSlashSpec(tail);
      assert !OccursAt(url, "//", 0);
      forall i | 1 <= i <= |url| ensures OccursAt(url, "//", i) == OccursAt(tail, "//", i - 1) {
        assert url[i..] == tail[i - 1..];
      }
      if AfterDoubleSlash(tail).Some? {
        var i :| FirstDoubleSlashAt(tail, i) && AfterDoubleSlash(tail).value == tail[i + 2..];
        assert url[i + 3..] == tail[i + 2..];
        assert FirstDoubleSlashAt(url, i + 1);
      } else {
        forall i ensures !OccursAt(url, "//", i) {
          if 1 <= i <= |url| {
            assert !OccursAt(tail, "//", i - 1);
          }
        }
      }
    }
  }

  /**
   * The host is found exactly when the URL has a "//"; it is then the text
   * after the first "//", up to the next "/" or the end of the URL, and holds
   * no "/".
   */
  lemma HostSpec(url: string)
    ensures Host(url).None? <==> !Contains(url, "//")
    ensures Host(url).Some? ==> exists i :: (FirstDoubleSlashAt(url, i) &&
      var h := Host(url).value;
      h <= url[i + 2..] && '/' !in h && (i + 2 + |h| == |url| || url[i + 2 + |h|] == '/'))
  {
    AfterDoubleSlashSpec(url);
    ContainsIffOccurs(url, "//");
    if Host(url).Some? {
      var i :| FirstDoubleSlashAt(url, i) && AfterDoubleSlash(url).value == url[i + 2..];
      var h := Host(url).value;
      assert h == UpToSlash(url[i + 2..]);
      assert |h| < |url[i + 2..]| ==> url[i + 2 + |h|] == url[i + 2..][|h|];
    }
  }

  /**
   * One link of the comprehension on line 28: unchanged when it starts with
   * "http", otherwise "https://" + host + link. None models the IndexError of
   * the host computation, which is only evaluated for such a link.
   */
  function Resolve(listingUrl: string, link: string): Option<string>
  {
    if StartsWith(link, "http") then Some(link)
    else match Host(listingUrl)
      case None => None
      case Some(h) => Some("https://" + h + link)
  }

  /**
   * Resolution is textual: a link starting with "http" is returned as it is;
   * any other link, protocol-relative "//x/..." ones included, keeps its full
   * text as a suffix after "https://" and the host; it fails only when the
   * listing URL has no "//". A resolved link starts with "http", so resolving
   * it again changes nothing.
   */
  lemma ResolveSpec(listingUrl: string, link: string)
    ensures StartsWith(link, "http") ==> Resolve(listingUrl, link) == Some(link)
    ensures !StartsWith(link, "http") ==>
      (Resolve(listingUrl, link).None? <==> !Contains(listingUrl, "//"))
    ensures !StartsWith(link, "http") && Resolve(listingUrl, link).Some? ==>
      var r := Resolve(listingUrl, link).value;
      |r| == 8 + |Host(listingUrl).value| + |link| &&
      r[..8] == "https://" && r[8..|r| - |link|] == Host(listingUrl).value && r[|r| - |link|..] == link
    ensures Resolve(listingUrl, link).Some? ==>
      Resolve(listingUrl, Resolve(listingUrl, link).value) == Resolve(listingUrl, link)
  {
    HostSpec(listingUrl);
    if !StartsWith(link, "http") && Resolve(listingUrl, link).Some? {
      var r := Resolve(listingUrl, link).value;
      assert "http" <= r;
    }
  }

  /** The comprehension on line 28 over the kept candidates; None when one of them raises. */
  function ResolveAll(listingUrl: string, links: seq<string>): (r: Option<seq<string>>)
    ensures r.Some? ==> |r.value| == |links|
    ensures r.Some? ==> forall i :: 0 <= i < |links| ==> Resolve(listingUrl, links[i]) == Some(r.value[i])
    ensures r.None? ==> exists i :: 0 <= i < |links| && Resolve(listingUrl, links[i]).None?
  {
    if links == [] then Some([])
    else
      var init := links[..|links| - 1];
      match ResolveAll(listingUrl, init)
      case None => None
      case Some(done) =>
        match Resolve(listingUrl, links[|links| - 1])
        case None => None
        case Some(l) => Some(done + [l])
  }

  /** The candidates `links[:max_articles]`, taken from one iteration order of the set. */
  function Candidates(order: seq<string>, maxArticles: int): seq<string>
  {
    Take(order, maxArticles)
  }

  /** Lines 27-28: the absolute links `extract_articles` goes on to download. */
  function SelectLinks(listingUrl: string, hrefs: seq<string>, order: seq<string>, maxArticles: int): Option<seq<string>>
    requires Enumerates(order, PoliticsLinks(hrefs))
  {
    ResolveAll(listingUrl, Candidates(order, maxArticles))
  }

  /**
   * The candidates are hrefs of the page that contain "/politics/", none
   * twice, and there are `min(max_articles, number of distinct such hrefs)`
   * of them when `max_articles` is not negative; which ones is left to the
   * set's iteration order.
   */
  lemma CandidatesSpec(hrefs: seq<string>, order: seq<string>, maxArticles: int)
    requires Enumerates(order, PoliticsLinks(hrefs))
    ensures forall c :: c in Candidates(order, maxArticles) ==> c in hrefs && Contains(c, Section)
    ensures Distinct(Candidates(order, maxArticles))
    ensures 0 <= maxArticles ==> |Candidates(order, maxArticles)| == Min(maxArticles, |PoliticsLinks(hrefs)|)
    ensures 0 <= maxArticles ==> |Candidates(order, maxArticles)| <= maxArticles
  {
    DistinctTake(order, maxArticles);
    DistinctCardinality(order);
    var cs := Candidates(order, maxArticles);
    forall c | c in cs ensures c in hrefs && Contains(c, Section) {
      var i :| 0 <= i < |cs| && cs[i] == c;
      assert c == order[i] && c in order;
      assert c in PoliticsLinks(hrefs);
    }
    assert (set x | x in order) == PoliticsLinks(hrefs);
  }

  /**
   * Whatever the set's order, `SelectLinks` fails exactly when some candidate
   * needs the host and the listing URL has no "//"; otherwise its i-th link is
   * the resolution of the i-th candidate, and there are at most
   * `max_articles` of them.
   */
  lemma SelectLinksSpec(listingUrl: string, hrefs: seq<string>, order: seq<string>, maxArticles: int)
    requires Enumerates(order, PoliticsLinks(hrefs))
    ensures var cs := Candidates(order, maxArticles);
      SelectLinks(listingUrl, hrefs, order, maxArticles).None? <==>
        !Contains(listingUrl, "//") && exists c :: c in cs && !StartsWith(c, "http")
    ensures var cs := Candidates(order, maxArticles);
      SelectLinks(listingUrl, hrefs, order, maxArticles).Some? ==>
        var ls := SelectLinks(listingUrl, hrefs, order, maxArticles).value;
        |ls| == |cs| && (0 <= maxArticles ==> |ls| <= maxArticles) &&
        forall i :: 0 <= i < |cs| ==> Resolve(listingUrl, cs[i]) == Some(ls[i])
  {
    var cs := Candidates(order, maxArticles);
    var r := SelectLinks(listingUrl, hrefs, order, maxArticles);
    if r.None? {
      var i :| 0 <= i < |cs| && Resolve(listingUrl, cs[i]).None?;
      ResolveSpec(listingUrl, cs[i]);
      assert cs[i] in cs;
    } else if !Contains(listingUrl, "//") {
      forall c | c in cs ensures StartsWith(c, "http") {
        var i :| 0 <= i < |cs| && cs[i] == c;
        ResolveSpec(listingUrl, c);
      }
    }
  }

  /** A URL `scheme//host/path...` whose scheme and host hold no "/" has that host. */
  lemma {:induction false} HostOf(scheme: string, host: string, path: string)
    requires '/' !in scheme && '/' !in host
    requires path == [] || path[0] == '/'
    ensures Host(scheme + "//" + host + path) == Some(host)
  {
    var url := scheme + "//" + host + path;
    if scheme == [] {
      assert url[..2] == "//" && url[2..] == host + path;
    } else {
      assert url[..2] != "//" by { assert url[0] == scheme[0]; }
      assert url[1..] == scheme[1..] + "//" + host + path;
      HostOf(scheme[1..], host, path);
    }
    UpToSlashOf(host, path);
  }

  lemma {:induction false} UpToSlashOf(host: string, path: string)
    requires '/' !in host
    requires path == [] || path[0] == '/'
    ensures UpToSlash(host + path) == host
  {
    if host != [] {
      assert (host + path)[1..] == host[1..] + path;
      UpToSlashOf(host[1..], path);
    }
  }

  /**
   * Duplicates are removed before resolution, on the raw hrefs: a page that
   * links to an article both by its absolute URL and by its relative path
   * keeps both candidates, and both resolve to the same URL.
   */
  lemma DedupIsOnRawHrefs(url: string, link: string, maxArticles: int)
    requires Host(url).Some? && !StartsWith(link, "http") && Contains(link, Section)
    requires 2 <= maxArticles
    ensures var abs := "https://" + Host(url).value + link;
      var hrefs := [abs, link];
      Enumerates(hrefs, PoliticsLinks(hrefs)) &&
      SelectLinks(url, hrefs, hrefs, maxArticles) == Some([abs, abs])
  {
    var abs := "https://" + Host(url).value + link;
    var hrefs := [abs, link];
    assert abs != link by { assert |abs| > |link|; }
    assert abs == ("https://" + Host(url).value) + link;
    ContainsSuffix("https://" + Host(url).value, link, Section);
    assert PoliticsLinks(hrefs) == {abs, link};
    assert Candidates(hrefs, maxArticles) == hrefs;
    assert StartsWith(abs, "http") by { assert abs[..4] == "http"; }
    assert Resolve(url, abs) == Some(abs);
    assert Resolve(url, link) == Some(abs);
    var r := ResolveAll(url, hrefs);
    assert r.Some?;
    assert r.value == [abs, abs];
    assert Distinct(hrefs);
    assert Enumerates(hrefs, PoliticsLinks(hrefs));
  }

  /** A text that occurs in `s` occurs in any text ending with `s`. */
  lemma {:induction false} ContainsSuffix(p: string, s: string, x: string)
    requires Contains(s, x)
    ensures Contains(p + s, x)
  {
    if p != [] {
      assert (p + s)[1..] == p[1..] + s;
      ContainsSuffix(p[1..], s, x);
    } else {
      assert p + s == s;
    }
  }

  /** A protocol-relative link does not start with "http" and is prefixed like a path. */
  lemma ProtocolRelativeIsPrefixed()
    ensures Resolve("https://www.foxnews.com/politics", "//static.foxnews.com/politics/x") ==
      Some("https://" + "www.foxnews.com" + "//static.foxnews.com/politics/x")
  {
    var url := "https://www.foxnews.com/politics";
    assert url == "https:" + "//" + "www.foxnews.com" + "/politics";
    HostOf("https:", "www.foxnews.com", "/politics");
    assert Host(url) == Some("www.foxnews.com");
    var link := "//static.foxnews.com/politics/x";
    assert !StartsWith(link, "http") by { assert link[0] != 'h'; }
    assert Resolve(url, link) == Some("https://" + "www.foxnews.com" + link);
  }
}
