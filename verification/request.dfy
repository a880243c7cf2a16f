/** `SDNScraper.__init__` without its two page fetches: reading the submitted form (year,
    up to ten school fields, recency, keyword category), resolving the schools against the
    year's directory and selecting their thread URLs. */
module Request {
  import opened Wrappers
  import opened Text
  import opened OrderedDict
  import opened Resolver

  /** A submitted form value: a string, or some value that is not one (None, a list). */
  datatype Field = Str(s: string) | NotStr

  type Form = map<string, Field>

  /** What `__init__` raises: `KeyError` for a missing key, `AttributeError` when a value
      that must be a string is not, `AssertionError` for an empty custom keyword and
      `ValueError` for an unknown category. */
  datatype InitError =
    | MissingField(name: string)
    | NotAString(name: string)
    | UnknownYear(year: string)
    | EmptyCustomKeyword
    | UnrecognizedKeyword(keyword: string)

  datatype Recency = All | MostRecent | OldestFirst

  const MaxSchoolCount: nat := 10

  /** The alphabetical-listing thread of each supported admission cycle. */
  const ListingUrls: map<string, string> := map[
    "2021-2022" := "https://forums.studentdoctor.net/threads/2021-2022-alphabetical-listing-of-schools.1440875/",
    "2020-2021" := "https://forums.studentdoctor.net/threads/2020-2021-alphabetical-listing-of-schools.1406109/",
    "2019-2020" := "https://forums.studentdoctor.net/threads/2019-2020-alphabetical-listing-of-schools.1374208/",
    "2018-2019" := "https://forums.studentdoctor.net/threads/2018-2019-all-school-discussions-alphabetical-list.1350681/"
  ]

  const KeywordsSecondary: seq<string> := ["secondary received", "secondary"]
  const KeywordsInvite: seq<string> := ["ii ", "ii!", "interview invite"]
  const KeywordsDecision: seq<string> :=
    ["a.", "a!", "w.", "w!", "r.", "accepted!", "waitlisted", "rejected"]
  const KeywordsFinAid: seq<string> := ["aid", "finaid", "fin aid", "financial aid"]

  /** `data[name]` where the value must then be used as a string. */
  function RequiredString(form: Form, name: string): Result<string, InitError> {
    if name !in form then Failure(MissingField(name))
    else match form[name]
      case Str(s) => Success(s)
      case NotStr => Failure(NotAString(name))
  }

  /** `data.get(name, "")` where the value must then be used as a string. */
  function OptionalString(form: Form, name: string): Result<string, InitError> {
    if name !in form then Success("") else RequiredString(form, name)
  }

  /** `SDNScraper.URLS[data['year']]`. */
  function ListingUrl(form: Form): (r: Result<string, InitError>)
    ensures r.Success? <==> "year" in form && form["year"].Str? && form["year"].s in ListingUrls
    ensures r.Success? ==> r.value in ListingUrls.Values
    ensures r.Success? ==> r.value == ListingUrls[form["year"].s]
  {
    var year :- RequiredString(form, "year");
    if year in ListingUrls then Success(ListingUrls[year]) else Failure(UnknownYear(year))
  }

  function SchoolField(n: nat): string {
    "school-" + NatToString(n)
  }

  /** The contribution of field `school-n`: its lower-cased text when it is a non-empty string. */
  function SchoolInput(form: Form, n: nat): seq<string> {
    var f := SchoolField(n);
    if f in form && form[f].Str? && |form[f].s| > 0 then [Lower(form[f].s)] else []
  }

  /** The requests among fields `school-1` .. `school-n`, in field order. */
  function SchoolsUpTo(form: Form, n: nat): seq<string> {
    if n == 0 then [] else SchoolsUpTo(form, n - 1) + SchoolInput(form, n)
  }

  /** `schools_req`: at most ten non-empty school inputs, lower-cased. */
  function RequestedSchools(form: Form): seq<string> {
    SchoolsUpTo(form, MaxSchoolCount)
  }

  /** Field `school-m` holds a non-empty string. */
  predicate Filled(form: Form, m: nat) {
    SchoolField(m) in form && form[SchoolField(m)].Str? && |form[SchoolField(m)].s| > 0
  }

  /** The requests are the filled fields among `school-1` .. `school-n`, in field order and
      with repeats kept: `ms` lists exactly those field numbers, strictly increasing, and
      request `k` is the lower-cased text of field `ms[k]`. */
  lemma {:induction false} SchoolsUpToSpec(form: Form, n: nat) returns (ms: seq<nat>)
    ensures |ms| == |SchoolsUpTo(form, n)| <= n
    ensures forall k :: 0 <= k < |ms| ==>
              && 1 <= ms[k] <= n && Filled(form, ms[k])
              && SchoolsUpTo(form, n)[k] == Lower(form[SchoolField(ms[k])].s)
    ensures forall k, l :: 0 <= k < l < |ms| ==> ms[k] < ms[l]
    ensures forall m :: 1 <= m <= n && Filled(form, m) ==> m in ms
    decreases n
  {
    if n == 0 {
      ms := [];
    } else {
      var prev := SchoolsUpToSpec(form, n - 1);
      var before := SchoolsUpTo(form, n - 1);
      if Filled(form, n) {
        assert SchoolsUpTo(form, n) == before + [Lower(form[SchoolField(n)].s)];
        ms := prev + [n];
        forall k | 0 <= k < |prev|
          ensures ms[k] == prev[k] && SchoolsUpTo(form, n)[k] == before[k]
        {
        }
        forall k, l | 0 <= k < l < |ms|
          ensures ms[k] < ms[l]
        {
          if l == |prev| {
            assert ms[k] == prev[k] <= n - 1;
          }
        }
        forall m | 1 <= m <= n && Filled(form, m)
          ensures m in ms
        {
          if m < n {
            assert m in prev;
          } else {
            assert ms[|prev|] == n;
          }
        }
      } else {
        assert SchoolsUpTo(form, n) == before;
        ms := prev;
        forall m | 1 <= m <= n && Filled(form, m)
          ensures m in ms
        {
          assert m != n;
        }
      }
    }
  }

  /** `schools_req` lists the filled fields among the ten, in field order, repeats kept;
      every request is non-empty and already lower-case. */
  lemma RequestedSchoolsSpec(form: Form) returns (ms: seq<nat>)
    ensures |ms| == |RequestedSchools(form)| <= MaxSchoolCount
    ensures forall k :: 0 <= k < |ms| ==>
              && 1 <= ms[k] <= MaxSchoolCount && Filled(form, ms[k])
              && RequestedSchools(form)[k] == Lower(form[SchoolField(ms[k])].s)
    ensures forall k, l :: 0 <= k < l < |ms| ==> ms[k] < ms[l]
    ensures forall m :: 1 <= m <= MaxSchoolCount && Filled(form, m) ==> m in ms
    ensures forall x :: x in RequestedSchools(form) ==> |x| > 0 && Lower(x) == x
  {
    ms := SchoolsUpToSpec(form, MaxSchoolCount);
    forall x | x in RequestedSchools(form)
      ensures |x| > 0 && Lower(x) == x
    {
      var k :| 0 <= k < |RequestedSchools(form)| && RequestedSchools(form)[k] == x;
      LowerIdempotent(form[SchoolField(ms[k])].s);
    }
  }

  /** `data.get("recency", "").lower()` read as a mode: anything but "all" and "most recent"
      (including an absent field) scans oldest first. */
  function ParseRecency(form: Form): (r: Result<Recency, InitError>)
    ensures r.Failure? <==> "recency" in form && form["recency"].NotStr?
    ensures "recency" !in form ==> r == Success(OldestFirst)
    ensures "recency" in form && form["recency"].Str? ==>
              r == Success(if Lower(form["recency"].s) == "most recent" then MostRecent
                           else if Lower(form["recency"].s) == "all" then All
                           else OldestFirst)
  {
    var raw :- OptionalString(form, "recency");
    var mode := Lower(raw);
    if mode == "most recent" then Success(MostRecent)
    else if mode == "all" then Success(All)
    else Success(OldestFirst)
  }

  /** The keyword category table; "something else" takes the single trigger from field
      `opt-keyword`. */
  function Keywords(form: Form): Result<seq<string>, InitError> {
    var kw :- OptionalString(form, "keyword");
    var _ :- RequiredString(form, "keyword");
    var category := Lower(kw);
    if category == "something else" then
      var custom :- RequiredString(form, "opt-keyword");
      if |custom| == 0 then Failure(EmptyCustomKeyword) else Success([Lower(custom)])
    else if category == "secondaries" then Success(KeywordsSecondary)
    else if category == "interview invites" then Success(KeywordsInvite)
    else if category == "decisions" then Success(KeywordsDecision)
    else if category == "financial aid" then Success(KeywordsFinAid)
    else Failure(UnrecognizedKeyword(category))
  }

  predicate KnownCategory(category: string) {
    category in ["something else", "secondaries", "interview invites", "decisions", "financial aid"]
  }

  /** The category is accepted exactly when it is one of the five the table knows (and, for a
      custom one, a non-empty string trigger is supplied); an accepted category always yields
      a non-empty trigger list, a custom one exactly its lower-cased trigger. */
  lemma KeywordsSpec(form: Form)
    ensures Keywords(form).Success? <==>
            "keyword" in form && form["keyword"].Str? && KnownCategory(Lower(form["keyword"].s))
            && (Lower(form["keyword"].s) == "something else" ==>
                  "opt-keyword" in form && form["opt-keyword"].Str? && |form["opt-keyword"].s| > 0)
    ensures Keywords(form).Success? ==> |Keywords(form).value| > 0
    ensures Keywords(form).Success? && Lower(form["keyword"].s) == "something else" ==>
            Keywords(form).value == [Lower(form["opt-keyword"].s)]
    ensures Keywords(form).Success? && Lower(form["keyword"].s) == "secondaries" ==>
            Keywords(form).value == KeywordsSecondary
    ensures Keywords(form).Success? && Lower(form["keyword"].s) == "interview invites" ==>
            Keywords(form).value == KeywordsInvite
    ensures Keywords(form).Success? && Lower(form["keyword"].s) == "decisions" ==>
            Keywords(form).value == KeywordsDecision
    ensures Keywords(form).Success? && Lower(form["keyword"].s) == "financial aid" ==>
            Keywords(form).value == KeywordsFinAid
    ensures "keyword" in form && form["keyword"].Str? && !KnownCategory(Lower(form["keyword"].s)) ==>
            Keywords(form) == Failure(UnrecognizedKeyword(Lower(form["keyword"].s)))
  {
  }

  /** The state `__init__` leaves behind. */
  datatype Scraper = Scraper(
    requested: seq<string>,
    resolved: seq<string>,
    urls: seq<string>,
    recency: Recency,
    keywords: seq<string>)

  /** `__init__` given the directory parsed from the year's listing thread. */
  function Init(form: Form, directory: Dict<string, string>): Result<Scraper, InitError> {
    var _ :- ListingUrl(form);
    var requested := RequestedSchools(form);
    var resolved := GuessSchool(Keys(directory), requested).matched;
    var urls := SelectUrls(directory, resolved);
    var recency :- ParseRecency(form);
    var keywords :- Keywords(form);
    Success(Scraper(requested, resolved, urls, recency, keywords))
  }

  /** Construction succeeds exactly when year, recency and keyword each read successfully;
      then every selected URL belongs to a directory entry whose name was resolved from the
      requests. */
  lemma InitSpec(form: Form, directory: Dict<string, string>)
    ensures Init(form, directory).Success? <==>
            ListingUrl(form).Success? && ParseRecency(form).Success? && Keywords(form).Success?
    ensures Init(form, directory).Success? ==>
              var sc := Init(form, directory).value;
              forall u :: u in sc.urls ==>
                exists i :: 0 <= i < |directory| && directory[i].1 == u && directory[i].0 in sc.resolved
  {
    if Init(form, directory).Success? {
      var sc := Init(form, directory).value;
      var idx := SelectedIndices(directory, sc.resolved);
      forall u | u in sc.urls
        ensures exists i :: 0 <= i < |directory| && directory[i].1 == u && directory[i].0 in sc.resolved
      {
        var k :| 0 <= k < |sc.urls| && sc.urls[k] == u;
        assert idx[k] in idx;
      }
    }
  }
}
