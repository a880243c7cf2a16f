/** `scrape(export=True)` as a whole: for each selected thread URL, in `urls` order, build its
    page list, scan the posts of those pages, and then write one CSV block per school, block
    `j` labelled with the `j`-th request. The two kinds of page fetch are parameters: the
    navigation `href`s shown on a thread's first page, and the posts shown on a page. */
module Scrape {
  import opened Wrappers
  import opened Request
  import opened Pagination
  import opened Extractor
  import opened CsvExport
  import opened OrderedDict
  import opened Resolver
  import opened Text

  /** Why a scrape raises: a page list that cannot be built, or a block that cannot be
      written. */
  datatype ScrapeError = PageListError(page: PageError) | ExportError(csv: CsvError)

  /** The matches of the school whose thread is `url`: its page list, then the scan of the
      posts of each page in that list. */
  function SchoolMatches(url: string, hrefsOf: string -> seq<Option<string>>, postsOf: string -> seq<Post>,
                         keys: seq<string>, recency: Recency): Result<Option<Found>, PageError>
  {
    var pageUrls :- Discover(url, hrefsOf(url));
    Success(ScanSchool(seq(|pageUrls|, i requires 0 <= i < |pageUrls| => postsOf(pageUrls[i])), keys, recency))
  }

  /** The `content` list: one entry per thread URL, in order; the first page list that cannot
      be built ends the scrape. */
  function Content(urls: seq<string>, hrefsOf: string -> seq<Option<string>>, postsOf: string -> seq<Post>,
                   keys: seq<string>, recency: Recency): Result<seq<Option<Found>>, PageError>
    decreases |urls|
  {
    if urls == [] then Success([])
    else
      var first :- SchoolMatches(urls[0], hrefsOf, postsOf, keys, recency);
      var rest :- Content(urls[1..], hrefsOf, postsOf, keys, recency);
      Success([first] + rest)
  }

  /** `scrape(export=True)` on the state `__init__` left behind. */
  function ScrapeCsv(sc: Scraper, hrefsOf: string -> seq<Option<string>>, postsOf: string -> seq<Post>)
    : Result<string, ScrapeError>
  {
    match Content(sc.urls, hrefsOf, postsOf, sc.keywords, sc.recency)
    case Failure(e) => Failure(PageListError(e))
    case Success(content) =>
      match ToCsv(sc.requested, content, sc.recency)
      case Failure(e) => Failure(ExportError(e))
      case Success(text) => Success(text)
  }

  /** The content list is built exactly when every thread's page list is; it then holds the
      matches of `urls[j]` at position `j`. Otherwise the error is that of the first thread
      whose page list fails. */
  lemma {:induction false} ContentSpec(urls: seq<string>, hrefsOf: string -> seq<Option<string>>,
                                       postsOf: string -> seq<Post>, keys: seq<string>, recency: Recency)
    ensures var c := Content(urls, hrefsOf, postsOf, keys, recency);
            c.Success? <==> forall j :: 0 <= j < |urls| ==> Discover(urls[j], hrefsOf(urls[j])).Success?
    ensures var c := Content(urls, hrefsOf, postsOf, keys, recency);
            c.Success? ==> |c.value| == |urls| && forall j :: 0 <= j < |urls| ==>
              SchoolMatches(urls[j], hrefsOf, postsOf, keys, recency) == Success(c.value[j])
    ensures var c := Content(urls, hrefsOf, postsOf, keys, recency);
            c.Failure? ==> exists j :: 0 <= j < |urls| && Discover(urls[j], hrefsOf(urls[j])) == Failure(c.error)
                                      && forall k :: 0 <= k < j ==> Discover(urls[k], hrefsOf(urls[k])).Success?
    decreases |urls|
  {
    if urls != [] {
      var tail := urls[1..];
      ContentSpec(tail, hrefsOf, postsOf, keys, recency);
      assert forall j :: 0 <= j < |tail| ==> tail[j] == urls[j + 1];
      var c := Content(urls, hrefsOf, postsOf, keys, recency);
      var first := SchoolMatches(urls[0], hrefsOf, postsOf, keys, recency);
      if first.Success? {
        var ct := Content(tail, hrefsOf, postsOf, keys, recency);
        if ct.Success? {
          assert c.value == [first.value] + ct.value;
          forall j | 0 <= j < |urls|
            ensures SchoolMatches(urls[j], hrefsOf, postsOf, keys, recency) == Success(c.value[j])
          {
            if j > 0 {
              assert c.value[j] == ct.value[j - 1];
            }
          }
        } else {
          var j :| 0 <= j < |tail| && Discover(tail[j], hrefsOf(tail[j])) == Failure(ct.error)
                   && forall k :: 0 <= k < j ==> Discover(tail[k], hrefsOf(tail[k])).Success?;
          assert Discover(urls[j + 1], hrefsOf(urls[j + 1])) == Failure(c.error);
          forall k | 0 <= k < j + 1
            ensures Discover(urls[k], hrefsOf(urls[k])).Success?
          {
            if k > 0 {
              assert urls[k] == tail[k - 1];
            }
          }
        }
      }
    }
  }

  /** One selected thread whose page list cannot be built fails the whole scrape with a
      page-list error, before any block is written. */
  lemma ScrapeAborts(sc: Scraper, hrefsOf: string -> seq<Option<string>>, postsOf: string -> seq<Post>, j: nat)
    requires j < |sc.urls| && Discover(sc.urls[j], hrefsOf(sc.urls[j])).Failure?
    ensures ScrapeCsv(sc, hrefsOf, postsOf).Failure?
    ensures ScrapeCsv(sc, hrefsOf, postsOf).error.PageListError?
  {
    ContentSpec(sc.urls, hrefsOf, postsOf, sc.keywords, sc.recency);
  }

  /** The scrape succeeds exactly when every selected thread's page list is built and every
      school has matches with readable dates. */
  lemma ScrapeSucceeds(sc: Scraper, hrefsOf: string -> seq<Option<string>>, postsOf: string -> seq<Post>)
    ensures ScrapeCsv(sc, hrefsOf, postsOf).Success? <==>
            forall j :: 0 <= j < |sc.urls| ==>
              && SchoolMatches(sc.urls[j], hrefsOf, postsOf, sc.keywords, sc.recency).Success?
              && Exportable(SchoolMatches(sc.urls[j], hrefsOf, postsOf, sc.keywords, sc.recency).value)
  {
    var c := Content(sc.urls, hrefsOf, postsOf, sc.keywords, sc.recency);
    ContentSpec(sc.urls, hrefsOf, postsOf, sc.keywords, sc.recency);
    if c.Success? {
      ExportSucceeds(sc.requested, c.value, sc.recency);
    } else {
      var j :| 0 <= j < |sc.urls| && Discover(sc.urls[j], hrefsOf(sc.urls[j])) == Failure(c.error);
      assert SchoolMatches(sc.urls[j], hrefsOf, postsOf, sc.keywords, sc.recency).Failure?;
    }
  }

  /** The text of a successful scrape is block `j` for thread `urls[j]`, labelled with
      request `j`, for each `j` in turn. Blocks follow the selected URLs while labels follow
      the requests, so the two line up only when the requests resolve one to one, in
      directory order. */
  lemma ScrapeText(sc: Scraper, hrefsOf: string -> seq<Option<string>>, postsOf: string -> seq<Post>)
    returns (found: seq<Found>, blocks: seq<string>)
    requires ScrapeCsv(sc, hrefsOf, postsOf).Success?
    ensures |found| == |blocks| == |sc.urls|
    ensures forall j :: 0 <= j < |sc.urls| ==>
              SchoolMatches(sc.urls[j], hrefsOf, postsOf, sc.keywords, sc.recency) == Success(Some(found[j]))
    ensures forall j :: 0 <= j < |sc.urls| ==>
              Block(sc.requested, j, Some(found[j]), sc.recency) == Success(blocks[j])
    ensures ScrapeCsv(sc, hrefsOf, postsOf).value == Flatten(blocks)
  {
    var content := Content(sc.urls, hrefsOf, postsOf, sc.keywords, sc.recency).value;
    ContentSpec(sc.urls, hrefsOf, postsOf, sc.keywords, sc.recency);
    found, blocks := ExportBlocks(sc.requested, content, sc.recency);
  }

  /** Blocks and labels drift apart even when every request resolves: with the directory
      listing "A" before "B" and the requests "b" then "a", the first block is the thread of
      "A" but carries the label "B". */
  lemma LabelDrift()
    ensures var dir := [("A", "ua"), ("B", "ub")];
            var resolved := GuessSchool(Keys(dir), ["b", "a"]).matched;
            && resolved == ["B", "A"]
            && SelectUrls(dir, resolved) == ["ua", "ub"]
            && NameLine(["b", "a"], 0) == "\"B\"\n"
  {
    var dir := [("A", "ua"), ("B", "ub")];
    assert GuessSchool(Keys(dir), ["b", "a"]).matched == ["B", "A"] by {
      assert Keys(dir) == ["A", "B"];
      DriftGuess();
    }
    DriftUrls();
    DriftLabel();
  }

  /** The first block's label line reads "B". */
  lemma DriftLabel()
    ensures NameLine(["b", "a"], 0) == "\"B\"\n"
  {
    ReplaceOther('b', "\"", "\"\"");
    var u := Upper(Escape("b"));
    assert |u| == 1 && u[0] == 'B';
    assert u == "B";
  }

  /** Both entries are selected, in directory order. */
  lemma DriftUrls()
    ensures SelectUrls([("A", "ua"), ("B", "ub")], ["B", "A"]) == ["ua", "ub"]
  {
    var dir := [("A", "ua"), ("B", "ub")];
    var names := ["B", "A"];
    var d1 := dir[..1];
    assert d1 == [("A", "ua")] && d1[..0] == [];
    var none: seq<string> := [];
    assert SelectUrls(d1[..0], names) == none;
    assert d1[0].0 in names && dir[1].0 in names;
    assert SelectUrls(d1, names) == none + ["ua"];
    assert SelectUrls(dir, names) == ["ua"] + ["ub"];
  }

  /** "b" resolves to "B" and "a" to "A", in request order. */
  lemma DriftGuess()
    ensures GuessSchool(["A", "B"], ["b", "a"]).matched == ["B", "A"]
  {
    StripLetter('b');
    StripLetter('a');
    ResolveB();
    ResolveA();
    GuessTwo("b", "a", ["A", "B"], "B", "A");
  }

  /** Two queries that resolve are matched in request order. */
  lemma GuessTwo(q1: string, q2: string, search: seq<string>, n1: string, n2: string)
    requires ResolveQuery(StripNoise(q1), search) == Some(n1)
    requires ResolveQuery(StripNoise(q2), search) == Some(n2)
    ensures GuessSchool(search, [q1, q2]).matched == [n1, n2]
  {
    var os := Outcomes(search, [q1, q2]);
    assert os[..1][..0] == [];
    assert Partition(os[..1]).matched == [n1];
  }

  lemma ResolveB()
    ensures ResolveQuery("b", ["A", "B"]) == Some("B")
  {
    var rule := RuleFor("b");
    assert ResolveFrom(rule, ["B"], None) == Some("B") by {
      StripLetter('B');
      assert Contains("b", "b") by {
        assert OccursAt("b", "b", 0);
      }
      assert rule("B") == Direct;
    }
    assert ResolveFrom(rule, ["A", "B"], None) == ResolveFrom(rule, ["B"], None) by {
      StripLetter('A');
      NoRuleBA();
      assert rule("A") == NoRule;
      assert ["A", "B"][1..] == ["B"];
    }
  }

  /** No rule accepts candidate "A" for query "b": "b" is in neither "a" nor its acronym,
      "A" holds no "university of", and the only word of the query is too short. */
  lemma NoRuleBA()
    ensures Classify("b", "A") == NoRule
  {
    assert !Contains("a", "b") by {
      FindFromSpec("a", "b", 0);
    }
    assert !Contains("b", "a") by {
      FindFromSpec("b", "a", 0);
    }
    assert AcronymOf("A") == "a";
    assert !Contains("a", "university of");
    assert Split("b", " ") == ["b"] by {
      assert FindFrom("b", " ", 0).None?;
    }
  }

  lemma ResolveA()
    ensures ResolveQuery("a", ["A", "B"]) == Some("A")
  {
    var rule := RuleFor("a");
    assert rule("A") == Direct by {
      StripLetter('A');
      assert Contains("a", "a") by {
        assert OccursAt("a", "a", 0);
      }
    }
  }

  /** A one-letter name is left alone by the noise list. */
  lemma StripLetter(c: char)
    requires c !in "-@."
    ensures StripNoise([c]) == [c]
  {
    ReplaceOther(c, "School of Medicine", "");
    ReplaceOther(c, "-", "");
    ReplaceOther(c, "@", "");
    ReplaceOther(c, "Medical College", "");
    ReplaceOther(c, ".", "");
  }

  /** A one-character string without the pattern is left alone by `replace`. */
  lemma ReplaceOther(c: char, pat: string, rep: string)
    requires |pat| > 0 && pat != [c]
    ensures Replace([c], pat, rep) == [c]
  {
    assert !IsPrefix(pat, [c]) by {
      if |pat| == 1 {
        assert [c][..1] == [c];
      }
    }
    assert [c][1..] == [];
  }
}
