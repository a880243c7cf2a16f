/** Reconstruction of a school thread's page list from the links of its navigation widget
    (the part of `scrape` before the message scan). The widget shows the first page, the
    last page and a few pages around the current one; the pages between the last two shown
    are synthesised, and all pages but the first are sorted by page number. */
module Pagination {
  import opened Wrappers
  import opened Text
  import opened Seqs
  import opened StableSort

  const SdnUrl: string := "https://forums.studentdoctor.net"

  /** Start of the gap when the second-to-last link has no page number. */
  const FallbackFirstGap: nat := 3

  /** `ValueError` of `int(...)` on a link whose text after its last '-' is not a number, and
      the `TypeError` of `range` when the last link has no number (the fallback the source
      uses there is the raw `max` attribute, a string). */
  datatype PageError = NonNumericLastPage(url: string) | NonNumericPageKey(url: string)

  /** The `href` values that are present, prefixed with the site URL. */
  function Links(hrefs: seq<Option<string>>): (links: seq<string>)
    ensures |links| <= |hrefs|
    ensures forall i :: 0 <= i < |links| ==> IsPrefix(SdnUrl, links[i])
    decreases |hrefs|
  {
    if hrefs == [] then []
    else (if hrefs[0].Some? then [SdnUrl + hrefs[0].value] else []) + Links(hrefs[1..])
  }

  /** Each present `href` becomes one prefixed link and each missing one is skipped, in
      order: the links of a concatenation are the links of its parts, one after the other. */
  lemma {:induction false} LinksSpec(a: seq<Option<string>>, b: seq<Option<string>>, h: string)
    ensures Links([]) == []
    ensures Links([Some(h)]) == [SdnUrl + h]
    ensures Links([None]) == []
    ensures Links(a + b) == Links(a) + Links(b)
    decreases |a|
  {
    if a != [] {
      assert (a + b)[1..] == a[1..] + b;
      LinksSpec(a[1..], b, h);
      AppendAssoc(if a[0].Some? then [SdnUrl + a[0].value] else [], Links(a[1..]), Links(b));
    } else {
      assert a + b == b;
    }
  }

  /** `url.split('-')[-1]`. */
  function Suffix(url: string): string {
    Last(Split(url, "-"))
  }

  /** `url.split('page')[0]`. */
  function Base(url: string): string {
    Split(url, "page")[0]
  }

  /** The URL synthesised for page `n`. */
  function PageUrl(base: string, n: nat): string {
    base + "page-" + NatToString(n)
  }

  /** `[base + 'page-' + str(i) for i in range(lo + 1, hi)]`. */
  function GapUrls(base: string, lo: nat, hi: nat): (urls: seq<string>)
    ensures |urls| == if hi > lo + 1 then hi - lo - 1 else 0
    ensures forall i :: 0 <= i < |urls| ==> urls[i] == PageUrl(base, lo + 1 + i)
  {
    if hi > lo + 1 then seq(hi - lo - 1, i requires 0 <= i < hi - lo - 1 => PageUrl(base, lo + 1 + i))
    else []
  }

  /** The link list after gap filling: with more than three links the pages strictly between
      the numbers of the last two are appended; with none the thread URL stands alone. */
  function WithGaps(threadUrl: string, links: seq<string>): (r: Result<seq<string>, PageError>)
    ensures r.Success? ==> |r.value| >= 1
  {
    if |links| > 3 then
      var lo := match ParseInt(Suffix(links[|links| - 2]))
                case Some(n) => n
                case None => FallbackFirstGap;
      match ParseInt(Suffix(links[|links| - 1]))
      case None => Failure(NonNumericLastPage(links[|links| - 1]))
      case Some(hi) => Success(links + GapUrls(Base(links[0]), lo, hi))
    else if |links| == 0 then Success([threadUrl])
    else Success(links)
  }

  /** Decorates each URL with `int(url.split('-')[-1])`; fails on the first that has none. */
  function KeyAll(urls: seq<string>): (r: Result<seq<Keyed<string>>, PageError>)
    ensures r.Success? <==> forall i :: 0 <= i < |urls| ==> IsNumeric(Suffix(urls[i]))
    ensures r.Success? ==> |r.value| == |urls|
    ensures r.Success? ==> forall i :: 0 <= i < |urls| ==>
              r.value[i] == Keyed(DigitsValue(Suffix(urls[i])), urls[i])
    decreases |urls|
  {
    if urls == [] then Success([])
    else match ParseInt(Suffix(urls[0]))
      case None => Failure(NonNumericPageKey(urls[0]))
      case Some(n) =>
        match KeyAll(urls[1..])
        case Failure(e) => Failure(e)
        case Success(rest) => Success([Keyed(n, urls[0])] + rest)
  }

  /** The page list of one school thread, from the `href`s of its navigation widget. */
  function Discover(threadUrl: string, hrefs: seq<Option<string>>): Result<seq<string>, PageError> {
    var nav :- WithGaps(threadUrl, Links(hrefs));
    var keyed :- KeyAll(nav[1..]);
    Success([nav[0]] + Items(Sort(keyed)))
  }

  /** Page number of a URL, as the sort uses it. */
  function PageKey(url: string): int {
    if IsNumeric(Suffix(url)) then DigitsValue(Suffix(url)) else -1
  }

  /** The URLs of `urls` whose page number is `n`, in their order in `urls`. */
  function PagesNumbered(urls: seq<string>, n: int): seq<string> {
    if urls == [] then [] else (if PageKey(urls[0]) == n then [urls[0]] else []) + PagesNumbered(urls[1..], n)
  }

  /** For items decorated with their own page number, selecting a key and undecorating
      commute. */
  lemma {:induction false} ItemsWithKey(s: seq<Keyed<string>>, n: int)
    requires forall i :: 0 <= i < |s| ==> s[i].key == PageKey(s[i].item)
    ensures Items(WithKey(s, n)) == PagesNumbered(Items(s), n)
    decreases |s|
  {
    if s != [] {
      var head := if s[0].key == n then [s[0]] else [];
      ItemsWithKey(s[1..], n);
      assert Items(s)[1..] == Items(s[1..]);
      assert Items(head + WithKey(s[1..], n)) == Items(head) + Items(WithKey(s[1..], n));
    }
  }

  // ---------------------------------------------------------------- properties

  /** A synthesised URL carries its own page number as sort key. */
  lemma PageUrlKey(base: string, n: nat)
    ensures Suffix(PageUrl(base, n)) == NatToString(n)
    ensures ParseInt(Suffix(PageUrl(base, n))) == Some(n)
  {
    var digits := NatToString(n);
    assert PageUrl(base, n) == (base + "page") + ['-'] + digits;
    SplitLastAfter(base + "page", '-', digits);
    NatToStringRoundTrip(n);
  }

  /** A widget without links gives the thread URL alone. */
  lemma NoLinks(threadUrl: string, hrefs: seq<Option<string>>)
    requires forall i :: 0 <= i < |hrefs| ==> hrefs[i].None?
    ensures Discover(threadUrl, hrefs) == Success([threadUrl])
  {
    NoneLinks(hrefs);
    var nav := [threadUrl];
    assert WithGaps(threadUrl, Links(hrefs)) == Success(nav);
    assert nav[1..] == [];
    assert KeyAll(nav[1..]) == Success([]);
    var none: seq<Keyed<string>> := [];
    assert Sort(none) == [];
    assert [nav[0]] + Items(Sort(none)) == [threadUrl];
  }

  lemma {:induction false} NoneLinks(hrefs: seq<Option<string>>)
    requires forall i :: 0 <= i < |hrefs| ==> hrefs[i].None?
    ensures Links(hrefs) == []
    decreases |hrefs|
  {
    if hrefs != [] {
      NoneLinks(hrefs[1..]);
    }
  }

  /** The final list keeps the first page first, and its tail is the other pages (the
      extracted ones after the first, plus any synthesised ones), sorted by page number
      ascending; pages that share a number keep their list order (the sort is stable). */
  lemma DiscoverSpec(threadUrl: string, hrefs: seq<Option<string>>)
    requires Discover(threadUrl, hrefs).Success?
    ensures var nav := WithGaps(threadUrl, Links(hrefs)).value;
            var r := Discover(threadUrl, hrefs).value;
            && |r| == |nav|
            && r[0] == nav[0]
            && multiset(r[1..]) == multiset(nav[1..])
            && (forall i, j :: 1 <= i < j < |r| ==> PageKey(r[i]) <= PageKey(r[j]))
            && (forall i :: 1 <= i < |r| ==> IsNumeric(Suffix(r[i])))
            && (forall n :: PagesNumbered(r[1..], n) == PagesNumbered(nav[1..], n))
  {
    var nav := WithGaps(threadUrl, Links(hrefs)).value;
    var keyed := KeyAll(nav[1..]).value;
    var sorted := Sort(keyed);
    var r := Discover(threadUrl, hrefs).value;
    SortSpec(keyed);
    SortItems(keyed);
    SortLength(keyed);
    assert r == [nav[0]] + Items(sorted);
    assert r[1..] == Items(sorted);
    assert Items(keyed) == nav[1..];
    forall i | 0 <= i < |sorted|
      ensures IsNumeric(Suffix(sorted[i].item)) && PageKey(sorted[i].item) == sorted[i].key
    {
      assert sorted[i] in multiset(keyed);
      var k :| 0 <= k < |keyed| && keyed[k] == sorted[i];
    }
    forall n
      ensures PagesNumbered(r[1..], n) == PagesNumbered(nav[1..], n)
    {
      ItemsWithKey(sorted, n);
      ItemsWithKey(keyed, n);
    }
  }

  /** With one to three links nothing is synthesised: the result is the links themselves,
      first one first and the rest reordered by page number. */
  lemma FewLinks(threadUrl: string, hrefs: seq<Option<string>>)
    requires 1 <= |Links(hrefs)| <= 3
    ensures WithGaps(threadUrl, Links(hrefs)) == Success(Links(hrefs))
    ensures Discover(threadUrl, hrefs).Success? <==>
            forall i :: 1 <= i < |Links(hrefs)| ==> IsNumeric(Suffix(Links(hrefs)[i]))
  {
    var links := Links(hrefs);
    if forall i :: 1 <= i < |links| ==> IsNumeric(Suffix(links[i])) {
      assert forall i :: 0 <= i < |links[1..]| ==> IsNumeric(Suffix(links[1..][i])) by {
        forall i | 0 <= i < |links[1..]|
          ensures IsNumeric(Suffix(links[1..][i]))
        {
          assert links[1..][i] == links[i + 1];
        }
      }
    } else {
      var i :| 1 <= i < |links| && !IsNumeric(Suffix(links[i]));
      assert links[1..][i - 1] == links[i];
    }
  }

  /** With more than three links whose last two carry numbers `lo` and `hi`, exactly the pages
      `lo + 1 .. hi - 1` are appended, each built from the part of the first link before
      "page"; all of them sort by their own number. */
  lemma GapFill(threadUrl: string, hrefs: seq<Option<string>>, lo: nat, hi: nat)
    requires |Links(hrefs)| > 3
    requires ParseInt(Suffix(Links(hrefs)[|Links(hrefs)| - 2])) == Some(lo)
    requires ParseInt(Suffix(Links(hrefs)[|Links(hrefs)| - 1])) == Some(hi)
    ensures var links := Links(hrefs);
            var added := GapUrls(Base(links[0]), lo, hi);
            && WithGaps(threadUrl, links) == Success(links + added)
            && |added| == (if hi > lo + 1 then hi - lo - 1 else 0)
            && (forall i :: 0 <= i < |added| ==> PageKey(added[i]) == lo + 1 + i)
  {
    var links := Links(hrefs);
    var added := GapUrls(Base(links[0]), lo, hi);
    forall i | 0 <= i < |added|
      ensures PageKey(added[i]) == lo + 1 + i
    {
      PageUrlKey(Base(links[0]), lo + 1 + i);
    }
  }

  /** With more than three links and no number on the last one, the source fails (`range`
      over a string); a missing number on the second-to-last one falls back to page 3. */
  lemma GapEnds(threadUrl: string, hrefs: seq<Option<string>>)
    requires |Links(hrefs)| > 3
    ensures var links := Links(hrefs);
            !IsNumeric(Suffix(links[|links| - 1])) ==>
              Discover(threadUrl, hrefs) == Failure(NonNumericLastPage(links[|links| - 1]))
    ensures var links := Links(hrefs);
            !IsNumeric(Suffix(links[|links| - 2])) && IsNumeric(Suffix(links[|links| - 1])) ==>
              WithGaps(threadUrl, links)
              == Success(links + GapUrls(Base(links[0]), FallbackFirstGap,
                                         DigitsValue(Suffix(links[|links| - 1]))))
  {
  }
}
