/** `SDNScraper.guess_school`: resolving free-text school queries against the names of the
    year's directory, and the selection of thread URLs for the resolved names. */
module Resolver {
  import opened Wrappers
  import opened Text
  import opened Seqs
  import opened OrderedDict

  /** The fixed name the UCLA override resolves to. */
  const Geffen: string := "University of California - Los Angeles (Geffen)"

  const UniversityOf: string := "University of"

  /** The source's noise list `['School of Medicine', '-', '@', 'Medical College', '.']`,
      each token deleted with `str.replace` in list order. */
  function StripNoise(s: string): string {
    var s1 := Replace(s, "School of Medicine", "");
    var s2 := Replace(s1, "-", "");
    var s3 := Replace(s2, "@", "");
    var s4 := Replace(s3, "Medical College", "");
    Replace(s4, ".", "")
  }

  /** Which of the matching rules a (stripped) candidate satisfies first. */
  datatype Rule = Override | Direct | Acronym | Alias | Token | NoRule {
    /** All rules except the per-word one end the candidate loop. */
    predicate Breaks() {
      !Token? && !NoRule?
    }
  }

  /** Upper-case letters of the stripped name, lower-cased. Stripping `[\W_0-9]` first, as the
      source does, never removes an ASCII upper-case letter, so it is left implicit. */
  function AcronymOf(val: string): string {
    Lower(UpperLetters(val))
  }

  /** Python's `s[n:]`. */
  function Drop(s: string, n: nat): string {
    if n <= |s| then s[n..] else []
  }

  /** `('U' + val[len('University of'):]).lower()`: note the slice is taken from the start
      of the name, wherever "university of" occurs in it. */
  function AliasOf(val: string): string {
    Lower("U" + Drop(val, |UniversityOf|))
  }

  /** Some word of the query longer than two characters occurs in the candidate (or the
      candidate occurs in the whole query). */
  function TokenHit(words: seq<string>, ql: string, vl: string): bool
    decreases |words|
  {
    if words == [] then false
    else
      || ((Contains(vl, Lower(words[0])) || Contains(ql, vl)) && |words[0]| > 2)
      || TokenHit(words[1..], ql, vl)
  }

  /** The per-word rule holds exactly when some word longer than two characters has a hit;
      the whole-query test only counts when paired with such a word. */
  lemma {:induction false} TokenHitSpec(words: seq<string>, ql: string, vl: string)
    ensures TokenHit(words, ql, vl) <==>
            exists i :: 0 <= i < |words| && |words[i]| > 2 &&
              (Contains(vl, Lower(words[i])) || Contains(ql, vl))
    decreases |words|
  {
    if words != [] {
      TokenHitSpec(words[1..], ql, vl);
      if exists i :: 0 <= i < |words| && |words[i]| > 2 &&
                     (Contains(vl, Lower(words[i])) || Contains(ql, vl)) {
        var i :| 0 <= i < |words| && |words[i]| > 2 &&
                 (Contains(vl, Lower(words[i])) || Contains(ql, vl));
        if i > 0 {
          assert words[1..][i - 1] == words[i];
        }
      }
      if exists i :: 0 <= i < |words[1..]| && |words[1..][i]| > 2 &&
                     (Contains(vl, Lower(words[1..][i])) || Contains(ql, vl)) {
        var i :| 0 <= i < |words[1..]| && |words[1..][i]| > 2 &&
                 (Contains(vl, Lower(words[1..][i])) || Contains(ql, vl));
        assert words[i + 1] == words[1..][i];
      }
    }
  }

  /** The first rule that accepts stripped candidate `val` for stripped query `q`. */
  function Classify(q: string, val: string): Rule {
    var ql := Lower(q);
    var vl := Lower(val);
    if ql == "ucla" && !Contains(vl, "drew") then Override
    else if Contains(vl, ql) || Contains(ql, vl) then Direct
    else if Contains(AcronymOf(val), ql) then Acronym
    else if Contains(vl, Lower(UniversityOf))
            && (Contains(AliasOf(val), ql) || Contains(ql, AliasOf(val))) then Alias
    else if TokenHit(Split(q, " "), ql, vl) then Token
    else NoRule
  }

  function RuleOf(q: string, name: string): Rule {
    Classify(q, StripNoise(name))
  }

  /** The rule each candidate satisfies first for stripped query `q`. */
  function RuleFor(q: string): string -> Rule {
    name => RuleOf(q, name)
  }

  /** The candidate loop over directory names, given the rule each candidate satisfies
      first; `found` is the value carried so far. */
  function ResolveFrom(rule: string -> Rule, search: seq<string>, found: Option<string>): Option<string>
    decreases |search|
  {
    if search == [] then found
    else match rule(search[0])
      case Override => Some(Geffen)
      case Token => ResolveFrom(rule, search[1..], Some(search[0]))
      case NoRule => ResolveFrom(rule, search[1..], found)
      case _ => Some(search[0])
  }

  /** Resolution of one stripped query. */
  function ResolveQuery(q: string, search: seq<string>): Option<string> {
    ResolveFrom(RuleFor(q), search, None)
  }

  datatype Guess = Guess(matched: seq<string>, unmatched: seq<string>)

  /** The stripped form of one query together with what it resolved to. */
  datatype Outcome = Outcome(stripped: string, resolved: Option<string>)

  function Outcomes(search: seq<string>, query: seq<string>): (os: seq<Outcome>)
    ensures |os| == |query|
    ensures forall k :: 0 <= k < |query| ==>
              os[k] == Outcome(StripNoise(query[k]), ResolveQuery(StripNoise(query[k]), search))
  {
    seq(|query|, k requires 0 <= k < |query| =>
      Outcome(StripNoise(query[k]), ResolveQuery(StripNoise(query[k]), search)))
  }

  /** Resolved names to `matched`, stripped queries that resolved to nothing to `unmatched`,
      both in query order. */
  function Partition(os: seq<Outcome>): (g: Guess)
    ensures |g.matched| + |g.unmatched| == |os|
    decreases |os|
  {
    if os == [] then Guess([], [])
    else
      var g := Partition(os[..|os| - 1]);
      var o := os[|os| - 1];
      match o.resolved
      case Some(n) => Guess(g.matched + [n], g.unmatched)
      case None => Guess(g.matched, g.unmatched + [o.stripped])
  }

  lemma {:induction false} PartitionSpec(os: seq<Outcome>)
    ensures forall x :: x in Partition(os).matched ==>
              exists k :: 0 <= k < |os| && os[k].resolved == Some(x)
    ensures forall x :: x in Partition(os).unmatched ==>
              exists k :: 0 <= k < |os| && os[k].resolved.None? && os[k].stripped == x
    ensures forall k :: 0 <= k < |os| && os[k].resolved.Some? ==>
              os[k].resolved.value in Partition(os).matched
    ensures forall k :: 0 <= k < |os| && os[k].resolved.None? ==>
              os[k].stripped in Partition(os).unmatched
    decreases |os|
  {
    if os != [] {
      var init := os[..|os| - 1];
      PartitionSpec(init);
      var g := Partition(init);
      var o := os[|os| - 1];
      forall x | x in Partition(os).matched
        ensures exists k :: 0 <= k < |os| && os[k].resolved == Some(x)
      {
        if x in g.matched {
          var k :| 0 <= k < |init| && init[k].resolved == Some(x);
          assert os[k] == init[k];
        } else {
          assert os[|os| - 1].resolved == Some(x);
        }
      }
      forall x | x in Partition(os).unmatched
        ensures exists k :: 0 <= k < |os| && os[k].resolved.None? && os[k].stripped == x
      {
        if x in g.unmatched {
          var k :| 0 <= k < |init| && init[k].resolved.None? && init[k].stripped == x;
          assert os[k] == init[k];
        } else {
          assert os[|os| - 1].stripped == x;
        }
      }
      forall k | 0 <= k < |os| - 1
        ensures os[k] == init[k]
      {
      }
    }
  }

  /** `guess_school(search, query)`. */
  function GuessSchool(search: seq<string>, query: seq<string>): Guess {
    Partition(Outcomes(search, query))
  }

  /** Every query lands in exactly one of the two lists, every matched name is a directory
      name or the Geffen name, and `unmatched` holds only stripped queries that resolved to
      nothing. */
  lemma GuessSchoolSpec(search: seq<string>, query: seq<string>)
    ensures |GuessSchool(search, query).matched| + |GuessSchool(search, query).unmatched| == |query|
    ensures forall x :: x in GuessSchool(search, query).matched ==> x in search || x == Geffen
    ensures forall x :: x in GuessSchool(search, query).unmatched ==>
              exists k :: 0 <= k < |query| && x == StripNoise(query[k])
                          && ResolveQuery(x, search).None?
    ensures forall k :: 0 <= k < |query| && ResolveQuery(StripNoise(query[k]), search).Some? ==>
              ResolveQuery(StripNoise(query[k]), search).value in GuessSchool(search, query).matched
    ensures forall k :: 0 <= k < |query| && ResolveQuery(StripNoise(query[k]), search).None? ==>
              StripNoise(query[k]) in GuessSchool(search, query).unmatched
  {
    var os := Outcomes(search, query);
    PartitionSpec(os);
    forall x | x in GuessSchool(search, query).matched
      ensures x in search || x == Geffen
    {
      var k :| 0 <= k < |os| && os[k].resolved == Some(x);
      ResolveFromResult(RuleFor(StripNoise(query[k])), search, None);
    }
  }

  // ---------------------------------------------------------------- properties

  lemma {:induction false} ResolveFromResult(rule: string -> Rule, search: seq<string>, found: Option<string>)
    ensures ResolveFrom(rule, search, found) == found
         || ResolveFrom(rule, search, found) == Some(Geffen)
         || exists i :: 0 <= i < |search| && ResolveFrom(rule, search, found) == Some(search[i])
    decreases |search|
  {
    if search != [] {
      ResolveFromResult(rule, search[1..], Some(search[0]));
      ResolveFromResult(rule, search[1..], found);
    }
  }

  /** The first candidate that satisfies a loop-ending rule decides the outcome, whatever
      per-word matches came before it. */
  lemma {:induction false} FirstBreakingWins(rule: string -> Rule, search: seq<string>, found: Option<string>, i: nat)
    requires i < |search| && rule(search[i]).Breaks()
    requires forall j :: 0 <= j < i ==> !rule(search[j]).Breaks()
    ensures ResolveFrom(rule, search, found)
            == if rule(search[i]).Override? then Some(Geffen) else Some(search[i])
    decreases i
  {
    if i > 0 {
      assert !rule(search[0]).Breaks();
      var next := if rule(search[0]).Token? then Some(search[0]) else found;
      FirstBreakingWins(rule, search[1..], next, i - 1);
    }
  }

  /** With no loop-ending match, the last candidate with a per-word match wins, because each
      such match overwrites the previous one. */
  lemma {:induction false} LastTokenWins(rule: string -> Rule, search: seq<string>, found: Option<string>, i: nat)
    requires i < |search| && rule(search[i]).Token?
    requires forall j :: 0 <= j < |search| ==> !rule(search[j]).Breaks()
    requires forall j :: i < j < |search| ==> rule(search[j]).NoRule?
    ensures ResolveFrom(rule, search, found) == Some(search[i])
    decreases |search|
  {
    var rest := search[1..];
    if i > 0 {
      var next := if rule(search[0]).Token? then Some(search[0]) else found;
      LastTokenWins(rule, rest, next, i - 1);
    } else {
      NoRuleKeeps(rule, rest, Some(search[0]));
    }
  }

  /** Candidates that match no rule leave the carried value alone. */
  lemma {:induction false} NoRuleKeeps(rule: string -> Rule, search: seq<string>, found: Option<string>)
    requires forall j :: 0 <= j < |search| ==> rule(search[j]).NoRule?
    ensures ResolveFrom(rule, search, found) == found
    decreases |search|
  {
    if search != [] {
      NoRuleKeeps(rule, search[1..], found);
    }
  }

  /** A query is unresolved exactly when no candidate matches any rule. */
  lemma {:induction false} UnresolvedIff(q: string, search: seq<string>)
    ensures ResolveQuery(q, search).None? <==>
            forall j :: 0 <= j < |search| ==> RuleOf(q, search[j]).NoRule?
  {
    var rule := RuleFor(q);
    if forall j :: 0 <= j < |search| ==> RuleOf(q, search[j]).NoRule? {
      NoRuleKeeps(rule, search, None);
    } else {
      var i :| 0 <= i < |search| && !RuleOf(q, search[i]).NoRule?;
      SomeRuleResolves(rule, search, None, i);
    }
  }

  lemma {:induction false} SomeRuleResolves(rule: string -> Rule, search: seq<string>, found: Option<string>, i: nat)
    requires i < |search| && !rule(search[i]).NoRule?
    ensures ResolveFrom(rule, search, found).Some?
    decreases |search|
  {
    if i > 0 && !rule(search[0]).Breaks() {
      var next := if rule(search[0]).Token? then Some(search[0]) else found;
      SomeRuleResolves(rule, search[1..], next, i - 1);
    } else if rule(search[0]).Token? {
      ResolveFromResult(rule, search[1..], Some(search[0]));
    }
  }

  /** A query that strips to "ucla" resolves to the Geffen name, to a directory name whose
      stripped form mentions "drew", or to nothing; and to Geffen as soon as the first
      candidate lacks "drew". */
  lemma {:induction false} UclaResolution(q: string, search: seq<string>, found: Option<string>)
    requires Lower(q) == "ucla"
    requires found.None? || found == Some(Geffen)
             || (found.Some? && Contains(Lower(StripNoise(found.value)), "drew"))
    ensures var r := ResolveFrom(RuleFor(q), search, found);
            r.None? || r == Some(Geffen) || Contains(Lower(StripNoise(r.value)), "drew")
    ensures search != [] && !Contains(Lower(StripNoise(search[0])), "drew") ==>
            ResolveFrom(RuleFor(q), search, found) == Some(Geffen)
    decreases |search|
  {
    if search != [] {
      var next := if RuleOf(q, search[0]).Token? then Some(search[0]) else found;
      UclaResolution(q, search[1..], next);
    }
  }

  /** As written, the override only fires on candidates without "drew"; a "drew" candidate
      that also contains "ucla" is still accepted by the substring rule, so a directory that
      lists it first resolves "ucla" to it. */
  lemma DrewCandidateFirst(q: string, search: seq<string>)
    requires Lower(q) == "ucla" && search != []
    requires Contains(Lower(StripNoise(search[0])), "drew")
    requires Contains(Lower(StripNoise(search[0])), "ucla")
    ensures ResolveQuery(q, search) == Some(search[0])
  {
  }

  /** A query that strips to nothing is in every name (Python's `'' in s`), so it resolves
      to the first directory entry. */
  lemma EmptyQueryTakesFirst(q: string, search: seq<string>)
    requires StripNoise(q) == [] && search != []
    ensures ResolveQuery(StripNoise(q), search) == Some(search[0])
  {
    assert OccursAt(Lower(StripNoise(search[0])), [], 0);
  }

  /** One more outcome adds its name or its stripped query at the end. */
  lemma PartitionSnoc(s: seq<Outcome>, o: Outcome)
    ensures Partition(s + [o]) == match o.resolved
      case Some(n) => Guess(Partition(s).matched + [n], Partition(s).unmatched)
      case None => Guess(Partition(s).matched, Partition(s).unmatched + [o.stripped])
  {
    assert (s + [o])[..|s|] == s;
  }

  lemma {:induction false} PartitionAppend(a: seq<Outcome>, b: seq<Outcome>)
    ensures Partition(a + b).matched == Partition(a).matched + Partition(b).matched
    ensures Partition(a + b).unmatched == Partition(a).unmatched + Partition(b).unmatched
    decreases |b|
  {
    if b == [] {
      assert a + b == a;
    } else {
      var b', o := b[..|b| - 1], b[|b| - 1];
      PartitionAppend(a, b');
      assert b == b' + [o];
      AppendAssoc(a, b', [o]);
      PartitionSnoc(a + b', o);
      PartitionSnoc(b', o);
      var ga, gb := Partition(a), Partition(b');
      if o.resolved.Some? {
        AppendAssoc(ga.matched, gb.matched, [o.resolved.value]);
      } else {
        AppendAssoc(ga.unmatched, gb.unmatched, [o.stripped]);
      }
    }
  }

  /** Resolution handles each query on its own: the result for a concatenated query list
      is the concatenation of the results, so the request order is preserved. */
  lemma GuessSchoolAppend(search: seq<string>, a: seq<string>, b: seq<string>)
    ensures GuessSchool(search, a + b).matched
            == GuessSchool(search, a).matched + GuessSchool(search, b).matched
    ensures GuessSchool(search, a + b).unmatched
            == GuessSchool(search, a).unmatched + GuessSchool(search, b).unmatched
  {
    assert Outcomes(search, a + b) == Outcomes(search, a) + Outcomes(search, b);
    PartitionAppend(Outcomes(search, a), Outcomes(search, b));
  }

  // ---------------------------------------------------------------- noise stripping

  lemma {:induction false} RemoveKeeps(s: string, pat: string, bad: char -> bool)
    requires |pat| > 0
    requires forall i :: 0 <= i < |s| ==> !bad(s[i])
    ensures forall i :: 0 <= i < |Replace(s, pat, "")| ==> !bad(Replace(s, pat, "")[i])
    decreases |s|
  {
    if |s| > 0 {
      if IsPrefix(pat, s) {
        RemoveKeeps(s[|pat|..], pat, bad);
      } else {
        RemoveKeeps(s[1..], pat, bad);
      }
    }
  }

  /** The stripped form holds no '-', '@' or '.'. */
  lemma StripNoiseRemovesMarks(s: string)
    ensures forall i :: 0 <= i < |StripNoise(s)| ==>
              StripNoise(s)[i] != '-' && StripNoise(s)[i] != '@' && StripNoise(s)[i] != '.'
  {
    var s1 := Replace(s, "School of Medicine", "");
    var s2 := Replace(s1, "-", "");
    var s3 := Replace(s2, "@", "");
    var s4 := Replace(s3, "Medical College", "");
    RemoveCharGone(s1, '-');
    RemoveKeeps(s2, "@", c => c == '-');
    RemoveKeeps(s3, "Medical College", c => c == '-');
    RemoveKeeps(s4, ".", c => c == '-');
    RemoveCharGone(s2, '@');
    RemoveKeeps(s3, "Medical College", c => c == '@');
    RemoveKeeps(s4, ".", c => c == '@');
    RemoveCharGone(s4, '.');
  }

  lemma LowerFixed(s: string)
    requires forall i :: 0 <= i < |s| ==> !IsUpperChar(s[i])
    ensures Lower(s) == s
  {
  }

  /** Queries arrive lower-cased, so the two capitalised phrases of the noise list never
      fire on them: only '-', '@' and '.' are removed. */
  lemma StripLowerQuery(q: string)
    ensures StripNoise(Lower(q)) == Replace(Replace(Replace(Lower(q), "-", ""), "@", ""), ".", "")
  {
    var s0 := Lower(q);
    var isUp := c => IsUpperChar(c);
    LowerAvoidsUpper(s0, "School of Medicine", 0);
    ReplaceAbsent(s0, "School of Medicine", "");
    var s2 := Replace(s0, "-", "");
    var s3 := Replace(s2, "@", "");
    RemoveKeeps(s0, "-", isUp);
    RemoveKeeps(s2, "@", isUp);
    LowerFixed(s3);
    LowerAvoidsUpper(s3, "Medical College", 0);
    ReplaceAbsent(s3, "Medical College", "");
  }

  // ---------------------------------------------------------------- URL selection

  /** Positions of the directory entries whose name is among the resolved names. */
  function SelectedIndices(dir: Dict<string, string>, names: seq<string>): (idx: seq<nat>)
    ensures forall k :: 0 <= k < |idx| ==> idx[k] < |dir|
    ensures forall k, l :: 0 <= k < l < |idx| ==> idx[k] < idx[l]
    ensures forall i :: 0 <= i < |dir| ==> (i in idx <==> dir[i].0 in names)
    decreases |dir|
  {
    if dir == [] then []
    else
      var rest := SelectedIndices(dir[..|dir| - 1], names);
      if dir[|dir| - 1].0 in names then rest + [|dir| - 1] else rest
  }

  /** The thread URLs of directory entries whose name was resolved, in directory order. */
  function SelectUrls(dir: Dict<string, string>, names: seq<string>): (urls: seq<string>)
    ensures var idx := SelectedIndices(dir, names);
            |urls| == |idx| && forall k :: 0 <= k < |idx| ==> urls[k] == dir[idx[k]].1
    decreases |dir|
  {
    if dir == [] then []
    else
      var rest := SelectUrls(dir[..|dir| - 1], names);
      if dir[|dir| - 1].0 in names then rest + [dir[|dir| - 1].1] else rest
  }
}
