/** The CSV text `scrape` returns when exporting: one block per school, each a quoted label
    line, a header line and one row per match sorted by posting date, followed by a blank
    line. Also a reader for the quoted-field format, against which the output is checked. */
module CsvExport {
  import opened Wrappers
  import opened Text
  import opened OrderedDict
  import opened StableSort
  import opened Dates
  import opened Extractor
  import opened Request

  const Headers: seq<string> := ["Message", "SDN Page Number", "Author Username", "Date Posted"]

  /** The `TypeError` of iterating a school without matches, and the `ValueError` of
      `strptime` on a date it cannot read. */
  datatype CsvError = NoneEntry(index: nat) | BadDate(date: string)

  /** One message and what was recorded for it. */
  type Entry = (string, Hit)

  /** `s.replace('"', '""')`. */
  function Escape(s: string): string {
    Replace(s, "\"", "\"\"")
  }

  /** A CSV field: the escaped text between double quotes. */
  function Quote(s: string): string {
    "\"" + Escape(s) + "\""
  }

  // ---------------------------------------------------------------- reading back

  /** Reads the body of a quoted field up to its closing quote; returns the text and what
      follows the quote. */
  function ReadQuoted(t: string): (r: Option<(string, string)>)
    ensures r.Some? ==> |r.value.1| < |t|
    decreases |t|
  {
    if t == [] then None
    else if t[0] == '"' then
      if |t| >= 2 && t[1] == '"' then
        match ReadQuoted(t[2..])
        case None => None
        case Some(p) => Some(("\"" + p.0, p.1))
      else Some(([], t[1..]))
    else
      match ReadQuoted(t[1..])
      case None => None
      case Some(p) => Some(([t[0]] + p.0, p.1))
  }

  function ReadField(t: string): (r: Option<(string, string)>)
    ensures r.Some? ==> |r.value.1| < |t|
  {
    if t != [] && t[0] == '"' then ReadQuoted(t[1..]) else None
  }

  /** Reads one line of comma-separated quoted fields, ending in a newline. */
  function ReadRecord(t: string): Option<(seq<string>, string)>
    decreases |t|
  {
    match ReadField(t)
    case None => None
    case Some(p) =>
      var (v, r) := p;
      if r != [] && r[0] == ',' then
        match ReadRecord(r[1..])
        case None => None
        case Some(q) => Some(([v] + q.0, q.1))
      else if r != [] && r[0] == '\n' then Some(([v], r[1..]))
      else None
  }

  // ---------------------------------------------------------------- writing

  /** The label line of block `i`: the i-th request, escaped and upper-cased, or an empty line
      when there are fewer requests than blocks (the `IndexError` branch). */
  function NameLine(labels: seq<string>, i: nat): string {
    if i < |labels| then "\"" + Upper(Escape(labels[i])) + "\"" + "\n" else "\n"
  }

  /** Each header quoted and followed by a comma. */
  function HeaderCells(hs: seq<string>): string {
    if hs == [] then "" else Quote(hs[0]) + "," + HeaderCells(hs[1..])
  }

  /** Label line and header line: the trailing comma is replaced by a newline. */
  function Heading(labels: seq<string>, i: nat): string {
    HeadingOf(NameLine(labels, i), Headers)
  }

  /** A line followed by header cells `hs`, with the last character swapped for a newline. */
  function HeadingOf(line: string, hs: seq<string>): string {
    var f := line + HeaderCells(hs);
    if |f| > 0 then f[..|f| - 1] + "\n" else f
  }

  /** One match as a CSV line: message, date, page, author. */
  function Row(e: Entry): string {
    Quote(e.0) + "," + Quote(e.1.date) + "," + Quote(NatToString(e.1.page)) + "," + Quote(e.1.author) + "\n"
  }

  /** A line of quoted fields separated by commas. */
  function Fields(hs: seq<string>): string
    requires |hs| >= 1
    decreases |hs|
  {
    if |hs| == 1 then Quote(hs[0]) + "\n" else Quote(hs[0]) + "," + Fields(hs[1..])
  }

  /** The rows of the sorted `[date, row]` pairs, concatenated. */
  function Rows(p: seq<Keyed<Entry>>): string {
    if p == [] then "" else Row(p[0].item) + Rows(p[1..])
  }

  /** The sort key: the date, negated for "most recent" (Python's reverse sort is stable). */
  function SortKey(d: Date, recency: Recency): int {
    if recency == MostRecent then -Ordinal(d) else Ordinal(d)
  }

  /** Pairs each match, in dictionary order, with its sort key; fails on the first date
      `strptime` rejects. */
  function Decorate(found: Found, recency: Recency): (r: Result<seq<Keyed<Entry>>, CsvError>)
    ensures r.Success? <==> forall i :: 0 <= i < |found| ==> ParseDate(found[i].1.date).Some?
    ensures r.Success? ==> |r.value| == |found|
    ensures r.Success? ==> forall i :: 0 <= i < |found| ==>
              r.value[i] == Keyed(SortKey(ParseDate(found[i].1.date).value, recency), found[i])
    ensures r.Failure? ==> exists i :: 0 <= i < |found| && r.error == BadDate(found[i].1.date)
                                       && ParseDate(found[i].1.date).None?
    decreases |found|
  {
    if found == [] then Success([])
    else match ParseDate(found[0].1.date)
      case None => Failure(BadDate(found[0].1.date))
      case Some(d) =>
        match Decorate(found[1..], recency)
        case Failure(e) => Failure(e)
        case Success(rest) => Success([Keyed(SortKey(d, recency), found[0])] + rest)
  }

  /** Block `i` of the export. */
  function Block(labels: seq<string>, i: nat, entry: Option<Found>, recency: Recency): Result<string, CsvError> {
    match entry
    case None => Failure(NoneEntry(i))
    case Some(found) =>
      var keyed :- Decorate(found, recency);
      Success(Heading(labels, i) + Rows(Sort(keyed)) + "\n")
  }

  /** The block results in content order. */
  function Blocks(labels: seq<string>, content: seq<Option<Found>>, recency: Recency)
    : (rs: seq<Result<string, CsvError>>)
    ensures |rs| == |content|
  {
    seq(|content|, j requires 0 <= j < |content| => Block(labels, j, content[j], recency))
  }

  /** Block texts joined in order; the first failing block's error ends the export. */
  function Concat<E>(rs: seq<Result<string, E>>): Result<string, E>
    decreases |rs|
  {
    if rs == [] then Success("")
    else
      var b :- rs[0];
      var rest :- Concat(rs[1..]);
      Success(b + rest)
  }

  /** The export of all blocks, block `i` labelled with request `i`. */
  function ToCsv(labels: seq<string>, content: seq<Option<Found>>, recency: Recency): Result<string, CsvError> {
    Concat(Blocks(labels, content, recency))
  }

  // ---------------------------------------------------------------- properties

  lemma EscapeUnfold(s: string)
    requires s != []
    ensures Escape(s) == (if s[0] == '"' then "\"\"" else [s[0]]) + Escape(s[1..])
  {
    if s[0] == '"' {
      assert IsPrefix("\"", s);
    } else {
      assert !IsPrefix("\"", s) by {
        assert s[..1][0] == s[0];
      }
    }
  }

  /** Escaping is undone by the reader: a quoted field followed by anything but a quote reads
      back as the original text. */
  lemma {:induction false} ReadEscaped(s: string, rest: string)
    requires rest == [] || rest[0] != '"'
    ensures ReadQuoted(Escape(s) + "\"" + rest) == Some((s, rest))
    decreases |s|
  {
    var t := Escape(s) + "\"" + rest;
    if s == [] {
      assert t == "\"" + rest;
      assert t[1..] == rest;
    } else {
      EscapeUnfold(s);
      ReadEscaped(s[1..], rest);
      if s[0] == '"' {
        assert t[2..] == Escape(s[1..]) + "\"" + rest;
        assert "\"" + s[1..] == s;
      } else {
        assert t[1..] == Escape(s[1..]) + "\"" + rest;
        assert [s[0]] + s[1..] == s;
      }
    }
  }

  lemma QuoteRoundTrip(s: string, rest: string)
    requires rest == [] || rest[0] != '"'
    ensures ReadField(Quote(s) + rest) == Some((s, rest))
  {
    ReadEscaped(s, rest);
    assert (Quote(s) + rest)[1..] == Escape(s) + "\"" + rest;
  }

  /** Reading a field followed by a comma continues with the rest of the record. */
  lemma RecordCons(s: string, tail: string)
    ensures ReadRecord(Quote(s) + "," + tail) ==
            match ReadRecord(tail)
            case None => None
            case Some(q) => Some(([s] + q.0, q.1))
  {
    QuoteRoundTrip(s, "," + tail);
    assert Quote(s) + "," + tail == Quote(s) + ("," + tail);
    assert ("," + tail)[1..] == tail;
  }

  lemma RecordLast(s: string, rest: string)
    ensures ReadRecord(Quote(s) + "\n" + rest) == Some(([s], rest))
  {
    QuoteRoundTrip(s, "\n" + rest);
    assert Quote(s) + "\n" + rest == Quote(s) + ("\n" + rest);
    assert ("\n" + rest)[1..] == rest;
  }

  /** A line of quoted fields reads back as those fields. */
  lemma {:induction false} FieldsRecord(hs: seq<string>, rest: string)
    requires |hs| >= 1
    ensures ReadRecord(Fields(hs) + rest) == Some((hs, rest))
    decreases |hs|
  {
    if |hs| == 1 {
      RecordLast(hs[0], rest);
      assert Fields(hs) == Quote(hs[0]) + "\n";
      assert [hs[0]] == hs;
    } else {
      FieldsRecord(hs[1..], rest);
      RecordCons(hs[0], Fields(hs[1..]) + rest);
      assert Fields(hs) + rest == Quote(hs[0]) + "," + (Fields(hs[1..]) + rest);
      assert [hs[0]] + hs[1..] == hs;
    }
  }

  /** Dropping the last element of a sequence whose second part is not empty. */
  lemma DropLastAppend<T>(x: seq<T>, y: seq<T>)
    requires |y| >= 1
    ensures (x + y)[..|x + y| - 1] == x + y[..|y| - 1]
    ensures (x + y)[|x + y| - 1] == y[|y| - 1]
  {
  }

  lemma Reassociate<T>(a: seq<T>, b: seq<T>, c: seq<T>, d: seq<T>, x: seq<T>, y: seq<T>)
    ensures a + x + b + x + c + x + d + y == a + x + (b + x + (c + x + (d + y)))
  {
  }

  lemma FieldsCons(h: string, t: seq<string>)
    requires |t| >= 1
    ensures Fields([h] + t) == Quote(h) + "," + Fields(t)
  {
    assert ([h] + t)[1..] == t;
  }

  lemma {:induction false} CellsShape(hs: seq<string>)
    requires |hs| >= 1
    ensures |Fields(hs)| >= 1 && Fields(hs) == Fields(hs)[..|Fields(hs)| - 1] + "\n"
    ensures HeaderCells(hs) == Fields(hs)[..|Fields(hs)| - 1] + ","
    decreases |hs|
  {
    if |hs| > 1 {
      CellsShape(hs[1..]);
      var f := Fields(hs[1..]);
      DropLastAppend(Quote(hs[0]) + ",", f);
    } else {
      assert HeaderCells(hs[1..]) == "";
      DropLastAppend(Quote(hs[0]), "\n");
    }
  }

  /** A row is its four fields, in the order message, date, page, author (which is not the
      order of the header line), and reads back as them. */
  lemma RowRecord(e: Entry, rest: string)
    ensures Row(e) == Fields([e.0, e.1.date, NatToString(e.1.page), e.1.author])
    ensures ReadRecord(Row(e) + rest) == Some(([e.0, e.1.date, NatToString(e.1.page), e.1.author], rest))
  {
    var a, b, c, d := e.0, e.1.date, NatToString(e.1.page), e.1.author;
    assert Fields([d]) == Quote(d) + "\n";
    FieldsCons(c, [d]);
    assert [c] + [d] == [c, d];
    FieldsCons(b, [c, d]);
    assert [b] + [c, d] == [b, c, d];
    FieldsCons(a, [b, c, d]);
    assert [a] + [b, c, d] == [a, b, c, d];
    Reassociate(Quote(a), Quote(b), Quote(c), Quote(d), ",", "\n");
    FieldsRecord([a, b, c, d], rest);
  }

  lemma HeadingOfShape(line: string, hs: seq<string>)
    requires |hs| >= 1
    ensures HeadingOf(line, hs) == line + Fields(hs)
  {
    CellsShape(hs);
    var h := Fields(hs);
    SwapLast(line, h[..|h| - 1], ',', '\n');
  }

  /** Replacing the last element of `line + body + [c]` by `d`. */
  lemma SwapLast<T>(line: seq<T>, body: seq<T>, c: T, d: T)
    ensures (line + (body + [c]))[..|line| + |body|] + [d] == line + (body + [d])
  {
    assert (line + (body + [c]))[..|line| + |body|] == line + body;
  }

  /** The heading is the label line followed by the header line. */
  lemma HeadingShape(labels: seq<string>, i: nat)
    ensures Heading(labels, i) == NameLine(labels, i) + Fields(Headers)
  {
    HeadingOfShape(NameLine(labels, i), Headers);
  }

  lemma HeaderRecord(rest: string)
    ensures ReadRecord(Fields(Headers) + rest) == Some((Headers, rest))
  {
    FieldsRecord(Headers, rest);
  }

  lemma {:induction false} UpperEscape(s: string)
    ensures Upper(Escape(s)) == Escape(Upper(s))
    decreases |s|
  {
    if s != [] {
      EscapeUnfold(s);
      EscapeUnfold(Upper(s));
      UpperEscape(s[1..]);
      assert Upper(s)[1..] == Upper(s[1..]);
      var head := if s[0] == '"' then "\"\"" else [s[0]];
      assert Upper(head + Escape(s[1..])) == Upper(head) + Upper(Escape(s[1..]));
    }
  }

  /** The label line of block `i` reads back as the upper-cased i-th request; past the end of
      the requests it is an empty line. */
  lemma NameRecord(labels: seq<string>, i: nat, rest: string)
    ensures i < |labels| ==> ReadRecord(NameLine(labels, i) + rest) == Some(([Upper(labels[i])], rest))
    ensures i >= |labels| ==> NameLine(labels, i) == "\n"
  {
    if i < |labels| {
      UpperEscape(labels[i]);
      assert NameLine(labels, i) == Quote(Upper(labels[i])) + "\n";
      RecordLast(Upper(labels[i]), rest);
    }
  }

  /** A school's block is its label line, the header line, its rows and a blank line. */
  lemma BlockText(labels: seq<string>, i: nat, found: Found, recency: Recency)
    requires DatesReadable(found)
    ensures Block(labels, i, Some(found), recency).Success?
    ensures Block(labels, i, Some(found), recency).value
            == NameLine(labels, i) + Fields(Headers) + Rows(Sort(Decorate(found, recency).value)) + "\n"
  {
    HeadingShape(labels, i);
  }

  /** The rows of a block are the school's matches, every one of them and each once, ordered
      by posting date: oldest first or, for "most recent", newest first. */
  lemma BlockOrder(found: Found, recency: Recency)
    requires Decorate(found, recency).Success?
    ensures var sorted := Items(Sort(Decorate(found, recency).value));
            && multiset(sorted) == multiset(found)
            && (forall j :: 0 <= j < |sorted| ==> ParseDate(sorted[j].1.date).Some?)
            && (forall j, k :: 0 <= j < k < |sorted| ==>
                  SortKey(ParseDate(sorted[j].1.date).value, recency)
                  <= SortKey(ParseDate(sorted[k].1.date).value, recency))
  {
    var keyed := Decorate(found, recency).value;
    var s := Sort(keyed);
    DecoratedItems(found, recency);
    SortSpec(keyed);
    SortItems(keyed);
    SortedKeys(keyed, recency);
  }

  lemma DecoratedItems(found: Found, recency: Recency)
    requires Decorate(found, recency).Success?
    ensures Items(Decorate(found, recency).value) == found
    ensures KeysFromDates(Decorate(found, recency).value, recency)
  {
  }

  /** Every decorated entry has a readable date whose sort key it carries. */
  ghost predicate KeysFromDates(keyed: seq<Keyed<Entry>>, recency: Recency) {
    forall j :: 0 <= j < |keyed| ==>
      ParseDate(keyed[j].item.1.date).Some?
      && keyed[j].key == SortKey(ParseDate(keyed[j].item.1.date).value, recency)
  }

  lemma SortedKeys(keyed: seq<Keyed<Entry>>, recency: Recency)
    requires KeysFromDates(keyed, recency)
    ensures KeysFromDates(Sort(keyed), recency)
  {
    var s := Sort(keyed);
    SortSpec(keyed);
    forall j | 0 <= j < |s|
      ensures ParseDate(s[j].item.1.date).Some?
      ensures s[j].key == SortKey(ParseDate(s[j].item.1.date).value, recency)
    {
      assert s[j] in multiset(keyed);
      var k :| 0 <= k < |keyed| && keyed[k] == s[j];
    }
  }

  /** Rows of equal sort key appear in the order the dictionary holds them. */
  lemma BlockStable(found: Found, recency: Recency, key: int)
    requires Decorate(found, recency).Success?
    ensures WithKey(Sort(Decorate(found, recency).value), key) == WithKey(Decorate(found, recency).value, key)
  {
    SortSpec(Decorate(found, recency).value);
  }

  /** "Most recent" lists newer dates first; the other modes older first. */
  lemma SortKeyOrder(a: Date, b: Date, recency: Recency)
    requires ValidDate(a) && ValidDate(b)
    ensures SortKey(a, recency) < SortKey(b, recency) <==>
            if recency == MostRecent then Before(b, a) else Before(a, b)
  {
    OrdinalOrder(a, b);
    OrdinalOrder(b, a);
  }

  /** A school that can be exported: it has matches and every date is readable. */
  ghost predicate Exportable(entry: Option<Found>) {
    entry.Some? && DatesReadable(entry.value)
  }

  ghost predicate DatesReadable(found: Found) {
    forall k :: 0 <= k < |found| ==> ParseDate(found[k].1.date).Some?
  }

  lemma BlockSucceeds(labels: seq<string>, i: nat, entry: Option<Found>, recency: Recency)
    ensures Block(labels, i, entry, recency).Success? <==> Exportable(entry)
  {
  }

  /** Why a block fails: the school has no matches, or one of its dates is unreadable. */
  lemma BlockError(labels: seq<string>, i: nat, entry: Option<Found>, recency: Recency)
    requires Block(labels, i, entry, recency).Failure?
    ensures var e := Block(labels, i, entry, recency).error;
            || (entry.None? && e == NoneEntry(i))
            || (entry.Some? && BadDateIn(entry.value, e))
  {
  }

  /** Joined block texts, for results that all succeeded. */
  function Flatten(ss: seq<string>): string {
    if ss == [] then "" else ss[0] + Flatten(ss[1..])
  }

  /** A concatenation succeeds exactly when every part does, and then it is their texts in
      order; otherwise it reports the error of the first part that failed. */
  lemma {:induction false} ConcatSpec<E>(rs: seq<Result<string, E>>)
    ensures Concat(rs).Success? <==> forall j :: 0 <= j < |rs| ==> rs[j].Success?
    ensures Concat(rs).Success? ==>
              Concat(rs).value == Flatten(seq(|rs|, j requires 0 <= j < |rs| && rs[j].Success? => rs[j].value))
    ensures Concat(rs).Failure? ==>
              exists j :: 0 <= j < |rs| && rs[j].Failure? && Concat(rs).error == rs[j].error
                          && forall k :: 0 <= k < j ==> rs[k].Success?
    decreases |rs|
  {
    if rs != [] {
      ConcatSpec(rs[1..]);
      var tail := rs[1..];
      if Concat(rs).Success? {
        var vs := seq(|rs|, j requires 0 <= j < |rs| && rs[j].Success? => rs[j].value);
        var ws := seq(|tail|, j requires 0 <= j < |tail| && tail[j].Success? => tail[j].value);
        assert vs[1..] == ws;
      } else if rs[0].Success? {
        var j :| 0 <= j < |tail| && tail[j].Failure? && Concat(tail).error == tail[j].error
                 && forall k :: 0 <= k < j ==> tail[k].Success?;
        assert rs[j + 1] == tail[j];
        forall k | 0 <= k < j + 1
          ensures rs[k].Success?
        {
          if k > 0 {
            assert rs[k] == tail[k - 1];
          }
        }
      }
      if forall j :: 0 <= j < |rs| ==> rs[j].Success? {
        assert forall j :: 0 <= j < |tail| ==> tail[j] == rs[j + 1];
      }
    }
  }

  /** The export succeeds exactly when every school has matches and every date is readable;
      then it is the blocks in content order, block `j` labelled with request `j`. */
  lemma ExportSucceeds(labels: seq<string>, content: seq<Option<Found>>, recency: Recency)
    ensures ToCsv(labels, content, recency).Success? <==>
            forall j :: 0 <= j < |content| ==> Exportable(content[j])
    ensures ToCsv(labels, content, recency).Success? ==>
              ToCsv(labels, content, recency).value
              == Flatten(seq(|content|, j requires 0 <= j < |content| && Exportable(content[j]) =>
                               Block(labels, j, content[j], recency).value))
  {
    var rs := Blocks(labels, content, recency);
    ConcatSpec(rs);
    forall j | 0 <= j < |content|
      ensures rs[j].Success? <==> Exportable(content[j])
    {
      BlockSucceeds(labels, j, content[j], recency);
    }
    if ToCsv(labels, content, recency).Success? {
      var vs := seq(|rs|, j requires 0 <= j < |rs| && rs[j].Success? => rs[j].value);
      var ws := seq(|content|, j requires 0 <= j < |content| && Exportable(content[j]) =>
                      Block(labels, j, content[j], recency).value);
      assert vs == ws;
    }
  }

  /** A successful export is the texts of its blocks, in content order: block `j` is built
      from school `j`'s matches and labelled with request `j`. */
  lemma ExportBlocks(labels: seq<string>, content: seq<Option<Found>>, recency: Recency)
    returns (found: seq<Found>, blocks: seq<string>)
    requires ToCsv(labels, content, recency).Success?
    ensures |found| == |blocks| == |content|
    ensures forall j :: 0 <= j < |content| ==> content[j] == Some(found[j])
    ensures forall j :: 0 <= j < |content| ==> Block(labels, j, content[j], recency) == Success(blocks[j])
    ensures ToCsv(labels, content, recency).value == Flatten(blocks)
  {
    ExportSucceeds(labels, content, recency);
    forall j | 0 <= j < |content|
      ensures Exportable(content[j]) && Block(labels, j, content[j], recency).Success?
    {
      BlockSucceeds(labels, j, content[j], recency);
    }
    found := seq(|content|, j requires 0 <= j < |content| => content[j].value);
    blocks := seq(|content|, j requires 0 <= j < |content| => Block(labels, j, content[j], recency).value);
    var ws := seq(|content|, j requires 0 <= j < |content| && Exportable(content[j]) =>
                    Block(labels, j, content[j], recency).value);
    assert ws == blocks;
  }

  ghost predicate BadDateIn(found: Found, e: CsvError) {
    exists k :: 0 <= k < |found| && e == BadDate(found[k].1.date) && ParseDate(found[k].1.date).None?
  }

  /** A failing export reports the earliest school that cannot be exported: one without
      matches, or one holding a date `strptime` rejects. */
  lemma ExportError(labels: seq<string>, content: seq<Option<Found>>, recency: Recency)
    requires ToCsv(labels, content, recency).Failure?
    ensures var e := ToCsv(labels, content, recency).error;
            exists j :: 0 <= j < |content| && !Exportable(content[j])
              && (forall k :: 0 <= k < j ==> Exportable(content[k]))
              && (|| (content[j].None? && e == NoneEntry(j))
                  || (content[j].Some? && BadDateIn(content[j].value, e)))
  {
    var rs := Blocks(labels, content, recency);
    var j := FirstFailure(rs);
    assert rs[j] == Block(labels, j, content[j], recency);
    BlockError(labels, j, content[j], recency);
    BlockSucceeds(labels, j, content[j], recency);
    forall k | 0 <= k < j
      ensures Exportable(content[k])
    {
      assert rs[k] == Block(labels, k, content[k], recency);
      BlockSucceeds(labels, k, content[k], recency);
    }
  }

  /** The position of the part whose error a failed concatenation reports. */
  lemma {:induction false} FirstFailure<E>(rs: seq<Result<string, E>>) returns (j: nat)
    requires Concat(rs).Failure?
    ensures j < |rs| && rs[j].Failure? && Concat(rs).error == rs[j].error
    ensures forall k :: 0 <= k < j ==> rs[k].Success?
    decreases |rs|
  {
    if rs[0].Failure? {
      j := 0;
    } else {
      var i := FirstFailure(rs[1..]);
      j := i + 1;
      assert rs[j] == rs[1..][i];
      forall k | 0 < k < j
        ensures rs[k].Success?
      {
        assert rs[k] == rs[1..][k - 1];
      }
    }
  }
}
