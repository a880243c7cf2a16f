/** The handful of Python `str` operations the scraper relies on, restricted to ASCII:
    substring membership (`x in s`), `str.replace`, `str.split`, `lower`/`upper`,
    `isupper`, `isnumeric`, `int(...)` on digit strings and `str(n)` on naturals. */
module Text {
  import opened Wrappers
  import opened Seqs

  /** `needle` sits at position `i` of `hay`. */
  ghost predicate OccursAt(hay: string, needle: string, i: int) {
    0 <= i && i + |needle| <= |hay| && hay[i..i + |needle|] == needle
  }

  predicate IsPrefix(p: string, s: string) {
    |p| <= |s| && s[..|p|] == p
  }

  /** `needle` matches `hay` at position `i` from its `k`-th character on. */
  predicate MatchesFrom(hay: string, needle: string, i: nat, k: nat)
    requires i + |needle| <= |hay| && k <= |needle|
    decreases |needle| - k
  {
    k == |needle| || (hay[i + k] == needle[k] && MatchesFrom(hay, needle, i, k + 1))
  }

  lemma {:induction false} MatchesFromIff(hay: string, needle: string, i: nat, k: nat)
    requires i + |needle| <= |hay| && k <= |needle|
    ensures MatchesFrom(hay, needle, i, k) <==> forall m :: k <= m < |needle| ==> hay[i + m] == needle[m]
    decreases |needle| - k
  {
    if k < |needle| {
      MatchesFromIff(hay, needle, i, k + 1);
    }
  }

  lemma MatchesOccurs(hay: string, needle: string, i: nat)
    requires i + |needle| <= |hay|
    ensures MatchesFrom(hay, needle, i, 0) <==> OccursAt(hay, needle, i)
  {
    MatchesFromIff(hay, needle, i, 0);
    if MatchesFrom(hay, needle, i, 0) {
      assert hay[i..i + |needle|] == needle;
    }
  }

  /** Leftmost position at or after `from` where `needle` occurs in `hay`. */
  function FindFrom(hay: string, needle: string, from: nat): (r: Option<nat>)
    ensures r.Some? ==> from <= r.value && r.value + |needle| <= |hay|
    decreases |hay| + 1 - from
  {
    if from + |needle| > |hay| then None
    else if MatchesFrom(hay, needle, from, 0) then Some(from)
    else FindFrom(hay, needle, from + 1)
  }

  /** `FindFrom` reports an occurrence at or after `from` with none before it, or reports
      nothing when there is none at all from `from` on. */
  lemma {:induction false} FindFromSpec(hay: string, needle: string, from: nat)
    ensures var r := FindFrom(hay, needle, from);
            && (r.Some? ==> from <= r.value && OccursAt(hay, needle, r.value))
            && (r.Some? ==> forall j :: from <= j < r.value ==> !OccursAt(hay, needle, j))
            && (r.None? ==> forall j :: from <= j ==> !OccursAt(hay, needle, j))
    decreases |hay| + 1 - from
  {
    if from + |needle| <= |hay| {
      MatchesOccurs(hay, needle, from);
      if !MatchesFrom(hay, needle, from, 0) {
        FindFromSpec(hay, needle, from + 1);
      }
    }
  }

  /** Python's `needle in hay`; the empty needle is in every string. */
  function Contains(hay: string, needle: string): (b: bool)
    ensures b <==> exists i :: OccursAt(hay, needle, i)
  {
    FindFromSpec(hay, needle, 0);
    FindFrom(hay, needle, 0).Some?
  }

  // ---------------------------------------------------------------- case

  predicate IsUpperChar(c: char) {
    'A' <= c <= 'Z'
  }

  function LowerChar(c: char): char {
    if IsUpperChar(c) then (c as int + 32) as char else c
  }

  function UpperChar(c: char): char {
    if 'a' <= c <= 'z' then (c as int - 32) as char else c
  }

  /** `str.lower` on ASCII text. */
  function Lower(s: string): (r: string)
    ensures |r| == |s|
    ensures forall i :: 0 <= i < |s| ==> r[i] == LowerChar(s[i])
    ensures forall i :: 0 <= i < |r| ==> !IsUpperChar(r[i])
  {
    seq(|s|, i requires 0 <= i < |s| => LowerChar(s[i]))
  }

  /** `str.upper` on ASCII text. */
  function Upper(s: string): (r: string)
    ensures |r| == |s|
    ensures forall i :: 0 <= i < |s| ==> r[i] == UpperChar(s[i])
    ensures forall i :: 0 <= i < |r| ==> !('a' <= r[i] <= 'z')
  {
    seq(|s|, i requires 0 <= i < |s| => UpperChar(s[i]))
  }

  lemma LowerIdempotent(s: string)
    ensures Lower(Lower(s)) == Lower(s)
  {
  }

  lemma LowerSlice(s: string, i: nat, j: nat)
    requires i <= j <= |s|
    ensures Lower(s)[i..j] == Lower(s[i..j])
  {
  }

  /** A case-sensitive hit is also a case-insensitive one. */
  lemma ContainsLower(hay: string, needle: string)
    requires Contains(hay, needle)
    ensures Contains(Lower(hay), Lower(needle))
  {
    var i :| OccursAt(hay, needle, i);
    LowerSlice(hay, i, i + |needle|);
    assert OccursAt(Lower(hay), Lower(needle), i);
  }

  /** A string holding an upper-case letter never occurs in lower-cased text. */
  lemma LowerAvoidsUpper(hay: string, needle: string, k: nat)
    requires k < |needle| && IsUpperChar(needle[k])
    ensures !Contains(Lower(hay), needle)
  {
  }

  /** The upper-case letters of `s`, in order. */
  function UpperLetters(s: string): (r: string)
    ensures forall i :: 0 <= i < |r| ==> IsUpperChar(r[i])
    ensures |r| <= |s|
  {
    if s == [] then []
    else (if IsUpperChar(s[0]) then [s[0]] else []) + UpperLetters(s[1..])
  }

  /** Every upper-case letter is kept and every other character dropped, in order: the
      letters of a concatenation are the letters of its parts, one after the other. */
  lemma {:induction false} UpperLettersSpec(a: string, b: string, c: char)
    ensures UpperLetters([]) == []
    ensures UpperLetters([c]) == if IsUpperChar(c) then [c] else []
    ensures UpperLetters(a + b) == UpperLetters(a) + UpperLetters(b)
    decreases |a|
  {
    if a != [] {
      assert (a + b)[1..] == a[1..] + b;
      UpperLettersSpec(a[1..], b, c);
      AppendAssoc(if IsUpperChar(a[0]) then [a[0]] else [], UpperLetters(a[1..]), UpperLetters(b));
    } else {
      assert a + b == b;
    }
  }

  // ---------------------------------------------------------------- replace

  /** Python's `s.replace(pat, rep)`: every non-overlapping occurrence of `pat`,
      scanned left to right, becomes `rep`. */
  function Replace(s: string, pat: string, rep: string): string
    requires |pat| > 0
    decreases |s|
  {
    if |s| == 0 then s
    else if IsPrefix(pat, s) then rep + Replace(s[|pat|..], pat, rep)
    else [s[0]] + Replace(s[1..], pat, rep)
  }

  lemma ContainsShift(s: string, pat: string)
    requires |s| > 0 && Contains(s[1..], pat)
    ensures Contains(s, pat)
  {
    var i :| OccursAt(s[1..], pat, i);
    assert s[1..][i..i + |pat|] == s[i + 1..i + 1 + |pat|];
    assert OccursAt(s, pat, i + 1);
  }

  /** Replacing a pattern that does not occur changes nothing. */
  lemma {:induction false} ReplaceAbsent(s: string, pat: string, rep: string)
    requires |pat| > 0 && !Contains(s, pat)
    ensures Replace(s, pat, rep) == s
    decreases |s|
  {
    if |s| > 0 {
      assert !OccursAt(s, pat, 0);
      if Contains(s[1..], pat) {
        ContainsShift(s, pat);
      }
      ReplaceAbsent(s[1..], pat, rep);
    }
  }

  /** Deleting a one-character pattern leaves no occurrence of that character. */
  lemma {:induction false} RemoveCharGone(s: string, c: char)
    ensures forall i :: 0 <= i < |Replace(s, [c], "")| ==> Replace(s, [c], "")[i] != c
    decreases |s|
  {
    if |s| > 0 {
      RemoveCharGone(s[1..], c);
    }
  }

  // ---------------------------------------------------------------- split

  /** Python's `s.split(sep)` for a non-empty separator. */
  function Split(s: string, sep: string): (r: seq<string>)
    requires |sep| > 0
    ensures |r| >= 1
  {
    SplitFrom(s, sep, 0)
  }

  /** The pieces of `s[start..]`, cut at each leftmost occurrence of `sep`. */
  function SplitFrom(s: string, sep: string, start: nat): (r: seq<string>)
    requires |sep| > 0 && start <= |s|
    ensures |r| >= 1
    decreases |s| - start
  {
    match FindFrom(s, sep, start)
    case None => [s[start..]]
    case Some(i) => [s[start..i]] + SplitFrom(s, sep, i + |sep|)
  }

  lemma SplitFromUnfold(s: string, sep: string, start: nat, i: nat)
    requires |sep| > 0 && start <= |s| && FindFrom(s, sep, start) == Some(i)
    ensures SplitFrom(s, sep, start) == [s[start..i]] + SplitFrom(s, sep, i + |sep|)
  {
  }

  lemma SplitFromEnd(s: string, sep: string, start: nat)
    requires |sep| > 0 && start <= |s| && FindFrom(s, sep, start).None?
    ensures SplitFrom(s, sep, start) == [s[start..]]
  {
  }

  /** Python's `sep.join(parts)`. */
  function Join(parts: seq<string>, sep: string): string
    requires |parts| >= 1
  {
    if |parts| == 1 then parts[0] else parts[0] + sep + Join(parts[1..], sep)
  }

  lemma JoinCons(head: string, tail: seq<string>, sep: string)
    requires |tail| >= 1
    ensures Join([head] + tail, sep) == head + sep + Join(tail, sep)
  {
    assert ([head] + tail)[1..] == tail;
  }

  /** Joining the pieces of `s[start..]` back with the separator gives `s[start..]`. */
  lemma {:induction false} SplitFromJoin(s: string, sep: string, start: nat)
    requires |sep| > 0 && start <= |s|
    ensures Join(SplitFrom(s, sep, start), sep) == s[start..]
    decreases |s| - start
  {
    match FindFrom(s, sep, start)
    case None =>
      SplitFromEnd(s, sep, start);
    case Some(i) =>
      var rest := SplitFrom(s, sep, i + |sep|);
      assert s[i..i + |sep|] == sep by {
        FindFromSpec(s, sep, start);
      }
      assert Join(rest, sep) == s[i + |sep|..] by {
        SplitFromJoin(s, sep, i + |sep|);
      }
      assert s[start..] == s[start..i] + s[i..i + |sep|] + s[i + |sep|..] by {
        SliceParts(s, start, i, i + |sep|);
      }
      SplitFromUnfold(s, sep, start, i);
      JoinCons(s[start..i], rest, sep);
  }

  /** Joining the pieces back with the separator gives the original string. */
  lemma SplitJoin(s: string, sep: string)
    requires |sep| > 0
    ensures Join(Split(s, sep), sep) == s
  {
    SplitFromJoin(s, sep, 0);
  }

  /** An occurrence inside `s[lo..hi]` is an occurrence inside `s`, shifted by `lo`. */
  lemma OccursInSlice(s: string, sep: string, lo: nat, hi: nat, j: int)
    requires lo <= hi <= |s| && OccursAt(s[lo..hi], sep, j)
    ensures OccursAt(s, sep, lo + j) && lo + j + |sep| <= hi
  {
    var piece := s[lo..hi];
    forall m | 0 <= m < |sep|
      ensures s[lo + j + m] == sep[m]
    {
      assert piece[j..j + |sep|][m] == sep[m];
    }
    assert s[lo + j..lo + j + |sep|] == sep;
  }

  /** No piece of `SplitFrom` contains the separator. */
  lemma {:induction false} SplitFromFree(s: string, sep: string, start: nat)
    requires |sep| > 0 && start <= |s|
    ensures forall k :: 0 <= k < |SplitFrom(s, sep, start)| ==> !Contains(SplitFrom(s, sep, start)[k], sep)
    decreases |s| - start
  {
    FindFromSpec(s, sep, start);
    match FindFrom(s, sep, start)
    case None =>
      if Contains(s[start..], sep) {
        var j :| OccursAt(s[start..], sep, j);
        assert s[start..] == s[start..|s|];
        OccursInSlice(s, sep, start, |s|, j);
      }
    case Some(i) =>
      SplitFromFree(s, sep, i + |sep|);
      if Contains(s[start..i], sep) {
        var j :| OccursAt(s[start..i], sep, j);
        OccursInSlice(s, sep, start, i, j);
      }
  }

  /** No piece of a split contains the separator. */
  lemma SplitPiecesFree(s: string, sep: string)
    requires |sep| > 0
    ensures forall k :: 0 <= k < |Split(s, sep)| ==> !Contains(Split(s, sep)[k], sep)
  {
    SplitFromFree(s, sep, 0);
  }

  lemma OccursChar(hay: string, c: char, j: int)
    ensures OccursAt(hay, [c], j) <==> 0 <= j < |hay| && hay[j] == c
  {
    if 0 <= j < |hay| {
      assert hay[j..j + 1] == [hay[j]];
    }
  }

  /** The first character of `sep` does not recur in it, so two occurrences of `sep` can
      never overlap. */
  predicate HeadUnique(sep: string) {
    |sep| > 0 && forall d :: 0 < d < |sep| ==> sep[d] != sep[0]
  }

  /** When `sep` occurs at `m`, no occurrence overlaps it from the left and none starts after
      it, the last piece of splitting `x` (from any start up to `m`) is the text after it. */
  lemma {:induction false} SplitFromLast(x: string, sep: string, m: nat, start: nat)
    requires |sep| > 0 && OccursAt(x, sep, m) && start <= m
    requires forall j :: m < j ==> !OccursAt(x, sep, j)
    requires forall j :: 0 <= j < m < j + |sep| ==> !OccursAt(x, sep, j)
    ensures Last(SplitFrom(x, sep, start)) == x[m + |sep|..]
    decreases |x| - start
  {
    var f := FindFrom(x, sep, start);
    assert f.Some? && f.value <= m by {
      FindFromSpec(x, sep, start);
    }
    var i := f.value;
    assert i == m || i + |sep| <= m by {
      FindFromSpec(x, sep, start);
    }
    SplitFromUnfold(x, sep, start, i);
    if i == m {
      assert FindFrom(x, sep, m + |sep|).None? by {
        FindFromSpec(x, sep, m + |sep|);
      }
      SplitFromEnd(x, sep, m + |sep|);
    } else {
      SplitFromLast(x, sep, m, i + |sep|);
    }
    LastCons(x[start..i], SplitFrom(x, sep, i + |sep|));
  }

  /** In `s + sep + t`, no occurrence of a head-unique `sep` starts after `|s|` when `t` has
      none, and none overlaps the one at `|s|` from the left. */
  lemma LastOccurrence(s: string, sep: string, t: string)
    requires HeadUnique(sep) && !Contains(t, sep)
    ensures OccursAt(s + sep + t, sep, |s|)
    ensures forall j :: |s| < j ==> !OccursAt(s + sep + t, sep, j)
    ensures forall j :: 0 <= j < |s| < j + |sep| ==> !OccursAt(s + sep + t, sep, j)
  {
    var x := s + sep + t;
    var m := |s|;
    assert x[m..m + |sep|] == sep;
    forall j | m < j
      ensures !OccursAt(x, sep, j)
    {
      if j + |sep| <= |x| {
        if j < m + |sep| {
          assert x[j..j + |sep|][0] == sep[j - m] != sep[0];
        } else {
          assert x[j..j + |sep|] == t[j - m - |sep|..j - m];
          assert !OccursAt(t, sep, j - m - |sep|);
        }
      }
    }
    forall j | 0 <= j < m < j + |sep|
      ensures !OccursAt(x, sep, j)
    {
      assert x[j..j + |sep|][m - j] == sep[0] != sep[m - j];
    }
  }

  /** The last piece of `s + sep + t`, split at a head-unique `sep`, is `t` when `t` has no
      `sep`: `split(sep)[-1]` is the text after the last separator. */
  lemma SplitLastAfterSep(s: string, sep: string, t: string)
    requires HeadUnique(sep) && !Contains(t, sep)
    ensures Last(Split(s + sep + t, sep)) == t
  {
    var x := s + sep + t;
    LastOccurrence(s, sep, t);
    SplitFromLast(x, sep, |s|, 0);
    assert x[|s| + |sep|..] == t;
  }

  /** The last piece of `s + [c] + t`, split at `c`, is `t` when `t` has no `c`. */
  lemma SplitLastAfter(s: string, c: char, t: string)
    requires forall j :: 0 <= j < |t| ==> t[j] != c
    ensures Last(Split(s + [c] + t, [c])) == t
  {
    if Contains(t, [c]) {
      var j :| OccursAt(t, [c], j);
      OccursChar(t, c, j);
    }
    SplitLastAfterSep(s, [c], t);
  }

  /** A string without the separator splits into itself alone. */
  lemma SplitAbsent(s: string, sep: string)
    requires |sep| > 0 && !Contains(s, sep)
    ensures Split(s, sep) == [s]
  {
    FindFromSpec(s, sep, 0);
  }

  // ---------------------------------------------------------------- replace as split and join

  /** Up to the leftmost occurrence at `i`, `replace` copies the text and then puts `rep`
      in place of the pattern. */
  lemma {:induction false} ReplaceUpTo(s: string, pat: string, rep: string, start: nat, i: nat)
    requires |pat| > 0 && start <= i && OccursAt(s, pat, i)
    requires forall j :: start <= j < i ==> !OccursAt(s, pat, j)
    ensures Replace(s[start..], pat, rep) == s[start..i] + rep + Replace(s[i + |pat|..], pat, rep)
    decreases i - start
  {
    var x := s[start..];
    if start == i {
      assert x[..|pat|] == s[i..i + |pat|];
      assert x[|pat|..] == s[i + |pat|..];
      assert s[start..i] == [];
    } else {
      assert !IsPrefix(pat, x) by {
        assert !OccursAt(s, pat, start);
        if |pat| <= |x| {
          assert x[..|pat|] == s[start..start + |pat|];
        }
      }
      assert x[1..] == s[start + 1..];
      ReplaceUpTo(s, pat, rep, start + 1, i);
      assert [s[start]] + s[start + 1..i] == s[start..i];
    }
  }

  lemma {:induction false} ReplaceSplitFrom(s: string, pat: string, rep: string, start: nat)
    requires |pat| > 0 && start <= |s|
    ensures Replace(s[start..], pat, rep) == Join(SplitFrom(s, pat, start), rep)
    decreases |s| - start
  {
    match FindFrom(s, pat, start)
    case None =>
      SplitFromEnd(s, pat, start);
      assert !Contains(s[start..], pat) by {
        SplitFromFree(s, pat, start);
        assert SplitFrom(s, pat, start)[0] == s[start..];
      }
      ReplaceAbsent(s[start..], pat, rep);
    case Some(i) =>
      var rest := SplitFrom(s, pat, i + |pat|);
      assert Replace(s[start..], pat, rep) == s[start..i] + rep + Replace(s[i + |pat|..], pat, rep) by {
        FindFromSpec(s, pat, start);
        ReplaceUpTo(s, pat, rep, start, i);
      }
      assert Replace(s[i + |pat|..], pat, rep) == Join(rest, rep) by {
        ReplaceSplitFrom(s, pat, rep, i + |pat|);
      }
      SplitFromUnfold(s, pat, start, i);
      JoinCons(s[start..i], rest, rep);
  }

  /** Python's identity `s.replace(pat, rep) == rep.join(s.split(pat))`: the text between
      occurrences survives unchanged and in order, and only the occurrences become `rep`. */
  lemma ReplaceIsJoinSplit(s: string, pat: string, rep: string)
    requires |pat| > 0
    ensures Replace(s, pat, rep) == Join(Split(s, pat), rep)
  {
    ReplaceSplitFrom(s, pat, rep, 0);
    assert s[0..] == s;
  }

  // ---------------------------------------------------------------- numbers

  predicate IsDigit(c: char) {
    '0' <= c <= '9'
  }

  /** `str.isnumeric` on ASCII text: non-empty and all digits. */
  predicate IsNumeric(s: string) {
    |s| > 0 && forall i :: 0 <= i < |s| ==> IsDigit(s[i])
  }

  /** The decimal value of a digit string. */
  function DigitsValue(s: string): nat
    requires forall i :: 0 <= i < |s| ==> IsDigit(s[i])
  {
    if |s| == 0 then 0
    else assert IsDigit(s[|s| - 1]); DigitsValue(s[..|s| - 1]) * 10 + (s[|s| - 1] as int - '0' as int)
  }

  /** Python's `int(s)` on the strings this model admits: digit strings only. */
  function ParseInt(s: string): Option<nat> {
    if IsNumeric(s) then Some(DigitsValue(s)) else None
  }

  function DigitChar(d: nat): (c: char)
    requires d < 10
    ensures IsDigit(c)
  {
    ('0' as int + d) as char
  }

  /** Python's `str(n)` for a natural number. */
  function NatToString(n: nat): (r: string)
    ensures IsNumeric(r)
  {
    if n < 10 then [DigitChar(n)] else NatToString(n / 10) + [DigitChar(n % 10)]
  }

  /** `int(str(n)) == n`. */
  lemma {:induction false} NatToStringRoundTrip(n: nat)
    ensures ParseInt(NatToString(n)) == Some(n)
  {
    if n >= 10 {
      NatToStringRoundTrip(n / 10);
      var s := NatToString(n);
      assert s[..|s| - 1] == NatToString(n / 10);
      assert s[|s| - 1] == DigitChar(n % 10);
      assert DigitsValue(s) == DigitsValue(NatToString(n / 10)) * 10 + n % 10;
    }
  }
}
