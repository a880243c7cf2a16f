/** The message filter and page scan of `scrape`: which forum posts count as a hit for the
    keyword triggers, what is recorded for them, and in which order and how far the pages
    of one school are scanned. Pages are given as the posts already extracted from them. */
module Extractor {
  import opened Wrappers
  import opened Text
  import opened Seqs
  import opened OrderedDict
  import opened Request

  const MaxMessageLength: nat := 50
  const MaxShortLength: nat := 5

  /** The triggers that only count in a message of at most five characters. */
  const ShortTriggers: seq<string> := ["a.", "a!", "w.", "w!", "r."]

  /** What the forum inserts after quoted content; only the text after its last occurrence is
      kept. */
  const ExpandMarker: string := "Click to expand..."

  datatype Post = Post(text: string, author: string, date: string)

  /** What is recorded for an accepted message: 1-based page number, author and date. */
  datatype Hit = Hit(page: nat, author: string, date: string)

  /** The `found` dictionary of one school, keyed by message text. */
  type Found = Dict<string, Hit>

  /** The checks a message must pass for one trigger, in source order; the last one, a
      case-insensitive containment test, is implied by the first. */
  predicate Passes(text: string, key: string) {
    && Contains(text, key)
    && |text| <= MaxMessageLength
    && !Contains(text, "?")
    && !(key in ShortTriggers && |text| > MaxShortLength)
    && Contains(Lower(text), Lower(key))
  }

  /** The case-insensitive test never rejects a message the earlier gates let through. */
  lemma PassesIffGates(text: string, key: string)
    ensures Passes(text, key) <==>
            && Contains(text, key)
            && |text| <= MaxMessageLength
            && !Contains(text, "?")
            && (key in ShortTriggers ==> |text| <= MaxShortLength)
  {
    if Contains(text, key) {
      ContainsLower(text, key);
    }
  }

  /** Index of the first trigger at or after `from` that the message passes. */
  function FirstTriggerFrom(text: string, keys: seq<string>, from: nat): Option<nat>
    decreases |keys| - from
  {
    if from >= |keys| then None
    else if Passes(text, keys[from]) then Some(from)
    else FirstTriggerFrom(text, keys, from + 1)
  }

  /** The trigger found is the least index at or after `from` whose checks pass, and there is
      none exactly when no trigger from there on passes. */
  lemma {:induction false} FirstTriggerSpec(text: string, keys: seq<string>, from: nat)
    ensures var r := FirstTriggerFrom(text, keys, from);
            && (r.Some? ==> from <= r.value < |keys| && Passes(text, keys[r.value]))
            && (r.Some? ==> forall j :: from <= j < r.value ==> !Passes(text, keys[j]))
            && (r.None? ==> forall j :: from <= j < |keys| ==> !Passes(text, keys[j]))
    decreases |keys| - from
  {
    if from < |keys| && !Passes(text, keys[from]) {
      FirstTriggerSpec(text, keys, from + 1);
    }
  }

  /** The trigger loop over one message: the first trigger in keyword order that passes. */
  function FirstTrigger(text: string, keys: seq<string>): Option<nat> {
    FirstTriggerFrom(text, keys, 0)
  }

  predicate Accepted(post: Post, keys: seq<string>) {
    FirstTrigger(post.text, keys).Some?
  }

  /** `text.split('Click to expand...')[-1]`. */
  function StripQuoted(text: string): string {
    Last(Split(text, ExpandMarker))
  }

  /** The key recorded for a message is the text after its last expand marker, or the whole
      text when it holds none. */
  lemma StripQuotedSpec(s: string, t: string)
    ensures !Contains(t, ExpandMarker) ==> StripQuoted(t) == t
    ensures !Contains(t, ExpandMarker) ==> StripQuoted(s + ExpandMarker + t) == t
  {
    if !Contains(t, ExpandMarker) {
      SplitAbsent(t, ExpandMarker);
      assert HeadUnique(ExpandMarker) by {
        forall d | 0 < d < |ExpandMarker|
          ensures ExpandMarker[d] != ExpandMarker[0]
        {
        }
      }
      SplitLastAfterSep(s, ExpandMarker, t);
    }
  }

  function Record(found: Found, post: Post, pageIndex: nat, keys: seq<string>): Found {
    if Accepted(post, keys) then
      Put(found, StripQuoted(post.text), Hit(pageIndex + 1, post.author, post.date))
    else found
  }

  /** The message loop over one page (0-based index `pageIndex`), in document order. */
  function ScanPage(found: Found, posts: seq<Post>, pageIndex: nat, keys: seq<string>): Found
    decreases |posts|
  {
    if posts == [] then found
    else ScanPage(Record(found, posts[0], pageIndex, keys), posts[1..], pageIndex, keys)
  }

  predicate PageHasHit(posts: seq<Post>, keys: seq<string>) {
    exists i :: 0 <= i < |posts| && Accepted(posts[i], keys)
  }

  /** Some accepted message of the page is recorded under key `k`. */
  ghost predicate Yields(posts: seq<Post>, keys: seq<string>, k: string) {
    exists i :: 0 <= i < |posts| && Accepted(posts[i], keys) && StripQuoted(posts[i].text) == k
  }

  /** Page indices in scan order: last to first for "most recent", else first to last. */
  function ScanOrder(n: nat, recency: Recency): (order: seq<nat>)
    ensures |order| == n
    ensures recency == MostRecent ==> forall q :: 0 <= q < n ==> order[q] == n - 1 - q
    ensures recency != MostRecent ==> forall q :: 0 <= q < n ==> order[q] == q
  {
    seq(n, q requires 0 <= q < n => Position(n, recency, q))
  }

  /** The page scanned at step `q`; the map is its own inverse, so every page has a step. */
  function Position(n: nat, recency: Recency, q: nat): (p: nat)
    requires q < n
    ensures p < n
  {
    if recency == MostRecent then n - 1 - q else q
  }

  /** A scan order visits each of the `n` pages exactly once. */
  lemma ScanOrderVisitsAll(n: nat, recency: Recency)
    ensures forall i, j :: 0 <= i < j < n ==> ScanOrder(n, recency)[i] != ScanOrder(n, recency)[j]
    ensures forall p :: 0 <= p < n ==> p in ScanOrder(n, recency)
  {
    var order := ScanOrder(n, recency);
    forall p | 0 <= p < n
      ensures p in order
    {
      assert order[Position(n, recency, p)] == p;
    }
  }

  /** Every step of a scan order names one of `n` pages. */
  predicate InRange(order: seq<nat>, n: nat) {
    forall q :: 0 <= q < |order| ==> order[q] < n
  }

  /** The page loop from step `q` of `order`: after each page, stop when a hit has been seen
      so far, unless every page is to be scanned. */
  function ScanFrom(order: seq<nat>, q: nat, pages: seq<seq<Post>>, keys: seq<string>,
                    stopEarly: bool, found: Found, hit: bool): Found
    requires q <= |order| && InRange(order, |pages|)
    decreases |order| - q
  {
    if q == |order| then found
    else
      var p := order[q];
      var f := ScanPage(found, pages[p], p, keys);
      var hit' := hit || PageHasHit(pages[p], keys);
      if hit' && stopEarly then f else ScanFrom(order, q + 1, pages, keys, stopEarly, f, hit')
  }

  /** The matches of one school, or `None` when it has none. */
  function ScanSchool(pages: seq<seq<Post>>, keys: seq<string>, recency: Recency): Option<Found> {
    var f := ScanFrom(ScanOrder(|pages|, recency), 0, pages, keys, recency != All, [], false);
    if |f| == 0 then None else Some(f)
  }

  // ---------------------------------------------------------------- one page

  /** A message is accepted exactly when some trigger passes; the first one wins. */
  lemma AcceptedIff(post: Post, keys: seq<string>)
    ensures Accepted(post, keys) <==> exists j :: 0 <= j < |keys| && Passes(post.text, keys[j])
  {
    FirstTriggerSpec(post.text, keys, 0);
  }

  /** `Yields` on a non-empty page splits into its first message and the rest. */
  lemma YieldsCons(posts: seq<Post>, keys: seq<string>, k: string)
    requires posts != []
    ensures Yields(posts, keys, k) <==>
            (Accepted(posts[0], keys) && StripQuoted(posts[0].text) == k) || Yields(posts[1..], keys, k)
  {
    if Yields(posts[1..], keys, k) {
      var i :| 0 <= i < |posts[1..]| && Accepted(posts[1..][i], keys)
               && StripQuoted(posts[1..][i].text) == k;
      assert posts[i + 1] == posts[1..][i];
    }
    if Yields(posts, keys, k) {
      var i :| 0 <= i < |posts| && Accepted(posts[i], keys) && StripQuoted(posts[i].text) == k;
      if i > 0 {
        assert posts[1..][i - 1] == posts[i];
      }
    }
  }

  /** After a page the keys are the earlier ones plus the stripped text of every accepted
      message; keys stay distinct and nothing is dropped. */
  lemma {:induction false} ScanPageKeys(found: Found, posts: seq<Post>, p: nat, keys: seq<string>)
    ensures forall k :: k in Keys(ScanPage(found, posts, p, keys)) <==>
                          k in Keys(found) || Yields(posts, keys, k)
    ensures KeysUnique(found) ==> KeysUnique(ScanPage(found, posts, p, keys))
    ensures |ScanPage(found, posts, p, keys)| >= |found|
    decreases |posts|
  {
    if posts != [] {
      var f1 := Record(found, posts[0], p, keys);
      if Accepted(posts[0], keys) {
        PutSpec(found, StripQuoted(posts[0].text), Hit(p + 1, posts[0].author, posts[0].date));
      }
      ScanPageKeys(f1, posts[1..], p, keys);
      forall k
        ensures k in Keys(ScanPage(found, posts, p, keys)) <==> k in Keys(found) || Yields(posts, keys, k)
      {
        YieldsCons(posts, keys, k);
      }
    }
  }

  /** A page without an accepted message changes nothing. */
  lemma {:induction false} ScanPageNoHit(found: Found, posts: seq<Post>, p: nat, keys: seq<string>)
    requires forall i :: 0 <= i < |posts| ==> !Accepted(posts[i], keys)
    ensures ScanPage(found, posts, p, keys) == found
    decreases |posts|
  {
    if posts != [] {
      ScanPageNoHit(found, posts[1..], p, keys);
    }
  }

  /** Messages whose key is not `k` leave the value under `k` alone. */
  lemma {:induction false} ScanPageOthers(found: Found, posts: seq<Post>, p: nat, keys: seq<string>, k: string)
    requires forall j :: 0 <= j < |posts| && Accepted(posts[j], keys) ==> StripQuoted(posts[j].text) != k
    ensures Get(ScanPage(found, posts, p, keys), k) == Get(found, k)
    decreases |posts|
  {
    if posts != [] {
      if Accepted(posts[0], keys) {
        PutSpec(found, StripQuoted(posts[0].text), Hit(p + 1, posts[0].author, posts[0].date));
      }
      ScanPageOthers(Record(found, posts[0], p, keys), posts[1..], p, keys, k);
    }
  }

  /** A repeated message text keeps the page, author and date of its last accepted
      occurrence. */
  lemma {:induction false} LastOccurrenceWins(found: Found, posts: seq<Post>, p: nat, keys: seq<string>, i: nat)
    requires i < |posts| && Accepted(posts[i], keys)
    requires forall j :: i < j < |posts| && Accepted(posts[j], keys) ==>
               StripQuoted(posts[j].text) != StripQuoted(posts[i].text)
    ensures Get(ScanPage(found, posts, p, keys), StripQuoted(posts[i].text))
            == Some(Hit(p + 1, posts[i].author, posts[i].date))
    decreases |posts|
  {
    var k := StripQuoted(posts[i].text);
    if i == 0 {
      PutSpec(found, k, Hit(p + 1, posts[0].author, posts[0].date));
      forall j | 0 <= j < |posts[1..]| && Accepted(posts[1..][j], keys)
        ensures StripQuoted(posts[1..][j].text) != k
      {
        assert posts[1..][j] == posts[j + 1];
      }
      ScanPageOthers(Record(found, posts[0], p, keys), posts[1..], p, keys, k);
    } else {
      assert posts[1..][i - 1] == posts[i];
      forall j | i - 1 < j < |posts[1..]| && Accepted(posts[1..][j], keys)
        ensures StripQuoted(posts[1..][j].text) != k
      {
        assert posts[1..][j] == posts[j + 1];
      }
      LastOccurrenceWins(Record(found, posts[0], p, keys), posts[1..], p, keys, i - 1);
    }
  }

  /** Every value recorded while scanning page `p` names page `p + 1`. */
  lemma {:induction false} ScanPageNumbers(found: Found, posts: seq<Post>, p: nat, keys: seq<string>)
    requires forall k :: k in Keys(found) ==> Get(found, k).value.page == p + 1
    ensures forall k :: k in Keys(ScanPage(found, posts, p, keys)) ==>
              Get(ScanPage(found, posts, p, keys), k).value.page == p + 1
    decreases |posts|
  {
    if posts != [] {
      var f1 := Record(found, posts[0], p, keys);
      if Accepted(posts[0], keys) {
        PutSpec(found, StripQuoted(posts[0].text), Hit(p + 1, posts[0].author, posts[0].date));
      }
      ScanPageNumbers(f1, posts[1..], p, keys);
    }
  }

  // ---------------------------------------------------------------- all pages

  /** A page with a hit leaves at least one key behind. */
  lemma HitRecords(found: Found, posts: seq<Post>, p: nat, keys: seq<string>)
    requires PageHasHit(posts, keys)
    ensures |ScanPage(found, posts, p, keys)| > 0
  {
    ScanPageKeys(found, posts, p, keys);
    var i :| 0 <= i < |posts| && Accepted(posts[i], keys);
    assert Yields(posts, keys, StripQuoted(posts[i].text));
  }

  /** Scanning never shrinks the dictionary, and it ends non-empty once some page in the rest
      of the scan order has a hit. */
  lemma {:induction false} ScanFromGrows(order: seq<nat>, q: nat, pages: seq<seq<Post>>, keys: seq<string>,
                                         stopEarly: bool, found: Found, hit: bool)
    requires q <= |order| && InRange(order, |pages|)
    requires hit ==> |found| > 0
    ensures |ScanFrom(order, q, pages, keys, stopEarly, found, hit)| >= |found|
    ensures (exists r :: q <= r < |order| && PageHasHit(pages[order[r]], keys)) ==>
              |ScanFrom(order, q, pages, keys, stopEarly, found, hit)| > 0
    decreases |order| - q
  {
    if q < |order| {
      var p := order[q];
      var f := ScanPage(found, pages[p], p, keys);
      ScanPageKeys(found, pages[p], p, keys);
      var hit' := hit || PageHasHit(pages[p], keys);
      if PageHasHit(pages[p], keys) {
        HitRecords(found, pages[p], p, keys);
      }
      if !(hit' && stopEarly) {
        ScanFromGrows(order, q + 1, pages, keys, stopEarly, f, hit');
      }
    }
  }

  /** Pages without hits change nothing. */
  lemma {:induction false} ScanFromNoHits(order: seq<nat>, q: nat, pages: seq<seq<Post>>, keys: seq<string>,
                                          stopEarly: bool, found: Found)
    requires q <= |order| && InRange(order, |pages|)
    requires forall r :: q <= r < |order| ==> !PageHasHit(pages[order[r]], keys)
    ensures ScanFrom(order, q, pages, keys, stopEarly, found, false) == found
    decreases |order| - q
  {
    if q < |order| {
      var p := order[q];
      ScanPageNoHit(found, pages[p], p, keys);
      ScanFromNoHits(order, q + 1, pages, keys, stopEarly, found);
    }
  }

  /** A school yields `None` exactly when none of its pages has an accepted message, in
      every recency mode. */
  lemma NoneIffNoHits(pages: seq<seq<Post>>, keys: seq<string>, recency: Recency)
    ensures ScanSchool(pages, keys, recency).None? <==>
            forall p :: 0 <= p < |pages| ==> !PageHasHit(pages[p], keys)
  {
    var order := ScanOrder(|pages|, recency);
    var empty: Found := [];
    if forall p :: 0 <= p < |pages| ==> !PageHasHit(pages[p], keys) {
      ScanFromNoHits(order, 0, pages, keys, recency != All, empty);
    } else {
      var p :| 0 <= p < |pages| && PageHasHit(pages[p], keys);
      assert order[Position(|pages|, recency, p)] == p;
      ScanFromGrows(order, 0, pages, keys, recency != All, empty, false);
    }
  }

  /** Unless every page is wanted, scanning stops after the first page in scan order that has
      a hit: the result is exactly what that page alone records. */
  lemma {:induction false} StopsAtFirstHitPage(order: seq<nat>, q: nat, pages: seq<seq<Post>>,
                                               keys: seq<string>, q0: nat)
    requires InRange(order, |pages|)
    requires q <= q0 < |order| && PageHasHit(pages[order[q0]], keys)
    requires forall r :: q <= r < q0 ==> !PageHasHit(pages[order[r]], keys)
    ensures ScanFrom(order, q, pages, keys, true, [], false) == ScanPage([], pages[order[q0]], order[q0], keys)
    decreases q0 - q
  {
    if q < q0 {
      var p := order[q];
      ScanPageNoHit([], pages[p], p, keys);
      StopsAtFirstHitPage(order, q + 1, pages, keys, q0);
    }
  }

  /** In the modes that stop early, every match of a school comes from one page: the one at
      scan step `q0`, the first step whose page has a hit. */
  lemma EarlyStopSinglePage(pages: seq<seq<Post>>, keys: seq<string>, recency: Recency)
    returns (q0: nat)
    requires recency != All
    requires ScanSchool(pages, keys, recency).Some?
    ensures q0 < |pages|
    ensures PageHasHit(pages[ScanOrder(|pages|, recency)[q0]], keys)
    ensures forall q :: 0 <= q < q0 ==> !PageHasHit(pages[ScanOrder(|pages|, recency)[q]], keys)
    ensures ScanSchool(pages, keys, recency).value
            == ScanPage([], pages[ScanOrder(|pages|, recency)[q0]], ScanOrder(|pages|, recency)[q0], keys)
    ensures forall k :: k in Keys(ScanSchool(pages, keys, recency).value) ==>
              Get(ScanSchool(pages, keys, recency).value, k).value.page == ScanOrder(|pages|, recency)[q0] + 1
  {
    var order := ScanOrder(|pages|, recency);
    NoneIffNoHits(pages, keys, recency);
    var p :| 0 <= p < |pages| && PageHasHit(pages[p], keys);
    var q1 := Position(|pages|, recency, p);
    assert order[q1] == p;
    q0 := FirstHit(order, pages, keys, q1);
    StopsAtFirstHitPage(order, 0, pages, keys, q0);
    ScanPageNumbers([], pages[order[q0]], order[q0], keys);
  }

  /** The least scan position with a hit, given that position `q1` has one. */
  lemma {:induction false} FirstHit(order: seq<nat>, pages: seq<seq<Post>>, keys: seq<string>, q1: nat)
    returns (q0: nat)
    requires InRange(order, |pages|)
    requires q1 < |order| && PageHasHit(pages[order[q1]], keys)
    ensures q0 <= q1 && PageHasHit(pages[order[q0]], keys)
    ensures forall q :: 0 <= q < q0 ==> !PageHasHit(pages[order[q]], keys)
    decreases q1
  {
    if exists q :: 0 <= q < q1 && PageHasHit(pages[order[q]], keys) {
      var q :| 0 <= q < q1 && PageHasHit(pages[order[q]], keys);
      q0 := FirstHit(order, pages, keys, q);
    } else {
      q0 := q1;
    }
  }

  /** When every page is scanned, the keys are the stripped texts of the accepted messages of
      all pages from step `q` on, whatever the order. */
  lemma {:induction false} ScanAllKeys(order: seq<nat>, q: nat, pages: seq<seq<Post>>, keys: seq<string>,
                                       found: Found, hit: bool)
    requires q <= |order| && InRange(order, |pages|)
    ensures forall k :: k in Keys(ScanFrom(order, q, pages, keys, false, found, hit)) <==>
              k in Keys(found) || exists r :: q <= r < |order| && Yields(pages[order[r]], keys, k)
    decreases |order| - q
  {
    if q < |order| {
      var p := order[q];
      ScanPageKeys(found, pages[p], p, keys);
      ScanAllKeys(order, q + 1, pages, keys, ScanPage(found, pages[p], p, keys),
                  hit || PageHasHit(pages[p], keys));
    }
  }

  /** In "all" mode a message text is a key of the school's matches exactly when some page
      has an accepted message with that text. */
  lemma AllModeKeys(pages: seq<seq<Post>>, keys: seq<string>)
    requires ScanSchool(pages, keys, All).Some?
    ensures forall k :: k in Keys(ScanSchool(pages, keys, All).value) <==>
              exists p :: 0 <= p < |pages| && Yields(pages[p], keys, k)
  {
    var order := ScanOrder(|pages|, All);
    var empty: Found := [];
    ScanAllKeys(order, 0, pages, keys, empty, false);
    forall k
      ensures k in Keys(ScanSchool(pages, keys, All).value) <==>
              exists p :: 0 <= p < |pages| && Yields(pages[p], keys, k)
    {
      if exists p :: 0 <= p < |pages| && Yields(pages[p], keys, k) {
        var p :| 0 <= p < |pages| && Yields(pages[p], keys, k);
        assert order[Position(|pages|, All, p)] == p;
      }
    }
  }

  /** When every page is scanned, pages from step `q` on that never yield `k` leave the
      value under `k` alone. */
  lemma {:induction false} ScanFromOthers(order: seq<nat>, q: nat, pages: seq<seq<Post>>, keys: seq<string>,
                                          found: Found, hit: bool, k: string)
    requires q <= |order| && InRange(order, |pages|)
    requires forall r :: q <= r < |order| ==> !Yields(pages[order[r]], keys, k)
    ensures Get(ScanFrom(order, q, pages, keys, false, found, hit), k) == Get(found, k)
    decreases |order| - q
  {
    if q < |order| {
      var p := order[q];
      assert !Yields(pages[p], keys, k);
      ScanPageOthers(found, pages[p], p, keys, k);
      ScanFromOthers(order, q + 1, pages, keys, ScanPage(found, pages[p], p, keys),
                     hit || PageHasHit(pages[p], keys), k);
    }
  }

  /** When every page is scanned, a message text keeps the page, author and date of its last
      accepted occurrence on the last step of the scan whose page yields it. */
  lemma {:induction false} ScanFromLastPage(order: seq<nat>, q: nat, pages: seq<seq<Post>>, keys: seq<string>,
                                            found: Found, hit: bool, r: nat, i: nat)
    requires q <= r < |order| && InRange(order, |pages|)
    requires i < |pages[order[r]]| && Accepted(pages[order[r]][i], keys)
    requires forall j :: i < j < |pages[order[r]]| && Accepted(pages[order[r]][j], keys) ==>
               StripQuoted(pages[order[r]][j].text) != StripQuoted(pages[order[r]][i].text)
    requires forall r' :: r < r' < |order| ==>
               !Yields(pages[order[r']], keys, StripQuoted(pages[order[r]][i].text))
    ensures Get(ScanFrom(order, q, pages, keys, false, found, hit), StripQuoted(pages[order[r]][i].text))
            == Some(Hit(order[r] + 1, pages[order[r]][i].author, pages[order[r]][i].date))
    decreases r - q
  {
    if q < r {
      var p := order[q];
      ScanFromLastPage(order, q + 1, pages, keys, ScanPage(found, pages[p], p, keys),
                       hit || PageHasHit(pages[p], keys), r, i);
    } else {
      ScanFromAt(order, q, pages, keys, found, hit, i);
    }
  }

  /** The step of `ScanFromLastPage` at the page itself. */
  lemma ScanFromAt(order: seq<nat>, q: nat, pages: seq<seq<Post>>, keys: seq<string>,
                   found: Found, hit: bool, i: nat)
    requires q < |order| && InRange(order, |pages|)
    requires i < |pages[order[q]]| && Accepted(pages[order[q]][i], keys)
    requires forall j :: i < j < |pages[order[q]]| && Accepted(pages[order[q]][j], keys) ==>
               StripQuoted(pages[order[q]][j].text) != StripQuoted(pages[order[q]][i].text)
    requires forall r' :: q < r' < |order| ==>
               !Yields(pages[order[r']], keys, StripQuoted(pages[order[q]][i].text))
    ensures Get(ScanFrom(order, q, pages, keys, false, found, hit), StripQuoted(pages[order[q]][i].text))
            == Some(Hit(order[q] + 1, pages[order[q]][i].author, pages[order[q]][i].date))
  {
    var p := order[q];
    var f := ScanPage(found, pages[p], p, keys);
    LastOccurrenceWins(found, pages[p], p, keys, i);
    ScanFromOthers(order, q + 1, pages, keys, f, hit || PageHasHit(pages[p], keys), StripQuoted(pages[p][i].text));
  }

  /** In "all" mode a message text that recurs on several pages keeps what its last accepted
      occurrence on the last such page records. */
  lemma AllModeLastPage(pages: seq<seq<Post>>, keys: seq<string>, p: nat, i: nat)
    requires p < |pages| && i < |pages[p]| && Accepted(pages[p][i], keys)
    requires forall j :: i < j < |pages[p]| && Accepted(pages[p][j], keys) ==>
               StripQuoted(pages[p][j].text) != StripQuoted(pages[p][i].text)
    requires forall p' :: p < p' < |pages| ==> !Yields(pages[p'], keys, StripQuoted(pages[p][i].text))
    ensures ScanSchool(pages, keys, All).Some?
    ensures Get(ScanSchool(pages, keys, All).value, StripQuoted(pages[p][i].text))
            == Some(Hit(p + 1, pages[p][i].author, pages[p][i].date))
  {
    var order := ScanOrder(|pages|, All);
    var empty: Found := [];
    assert order[p] == p;
    assert forall r' :: p < r' < |order| ==> order[r'] == r';
    ScanFromLastPage(order, 0, pages, keys, empty, false, p, i);
  }

  lemma {:induction false} ScanFromUnique(order: seq<nat>, q: nat, pages: seq<seq<Post>>, keys: seq<string>,
                                          stopEarly: bool, found: Found, hit: bool)
    requires q <= |order| && InRange(order, |pages|)
    requires KeysUnique(found)
    ensures KeysUnique(ScanFrom(order, q, pages, keys, stopEarly, found, hit))
    decreases |order| - q
  {
    if q < |order| {
      var p := order[q];
      ScanPageKeys(found, pages[p], p, keys);
      ScanFromUnique(order, q + 1, pages, keys, stopEarly, ScanPage(found, pages[p], p, keys),
                     hit || PageHasHit(pages[p], keys));
    }
  }

  /** A school's matches hold each message text once. */
  lemma ScanSchoolUnique(pages: seq<seq<Post>>, keys: seq<string>, recency: Recency)
    requires ScanSchool(pages, keys, recency).Some?
    ensures KeysUnique(ScanSchool(pages, keys, recency).value)
  {
    var empty: Found := [];
    ScanFromUnique(ScanOrder(|pages|, recency), 0, pages, keys, recency != All, empty, false);
  }

  /** Triggers match case-sensitively: a capitalised "A." is not an acceptance for the
      decision triggers, while "a." in a short message is. */
  lemma DecisionCase()
    ensures !Accepted(Post("A.", "", ""), KeywordsDecision)
    ensures Accepted(Post("a.", "", ""), KeywordsDecision)
  {
    assert Passes("a.", KeywordsDecision[0]) by {
      assert OccursAt("a.", "a.", 0);
      assert Lower("a.") == "a.";
    }
    forall j | 0 <= j < |KeywordsDecision|
      ensures !Passes("A.", KeywordsDecision[j])
    {
      var key := KeywordsDecision[j];
      forall i | 0 <= i
        ensures !OccursAt("A.", key, i)
      {
        if i + |key| <= 2 {
          assert "A."[i..i + |key|][0] == 'A' != key[0];
        }
      }
    }
    FirstTriggerSpec("A.", KeywordsDecision, 0);
    FirstTriggerSpec("a.", KeywordsDecision, 0);
  }
}
