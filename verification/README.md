# SDN scraper core, modelled in Dafny

`SDNScraper` reads a year's alphabetical listing of medical-school threads on the Student
Doctor Network forum. It resolves the schools a user typed against that listing, walks every
page of each school's thread, keeps the short status posts that match a keyword category
("decisions", "interview invites", ...) and returns them as JSON or as CSV.

This project models the pure logic of that class. HTTP and HTML are replaced by their
extracted values:

- **Resolver** (`resolver.dfy`): `guess_school`.
  - Noise stripping with `str.replace`.
  - The five matching rules and their precedence: the UCLA override, substring,
    upper-case abbreviation, "U" + rest-of-name alias, and per-word tokens.
  - The split of the queries into resolved names and stripped unresolved queries.
  - The selection of thread URLs in directory order.
- **Request** (`request.dfy`): the form reading of `__init__`.
  - The year table and up to ten `school-N` fields, lower-cased.
  - The recency mode and the keyword-category table.
  - Every exception `__init__` can raise, as a `Result` failure.
- **Pagination** (`pagination.dfy`): the page-list reconstruction of `scrape`.
  - Prefixing of the links.
  - Gap filling between the last two links.
  - The fallback to page 3.
  - The failure when the last link has no number.
  - The integer sort of every page but the first.
- **Extractor** (`extractor.dfy`): the message filter and the page scan.
  - The trigger gates.
  - The `Click to expand...` stripping.
  - Dictionary overwrite on repeated texts.
  - Scan order by recency and the early stop after the first page with a hit.
  - `None` for a school without hits.
- **CsvExport** (`csv_export.dfy`): the CSV text of `scrape(export=True)`.
  - Label line, header line, rows sorted by posting date, blank line.
  - A reader for the quoted-field format. Escaping is proved against this reader.
- **Supporting modules**:
  - `Text`: the Python `str` operations used, on ASCII.
  - `OrderedDict`: insertion-ordered `dict`.
  - `StableSort`: Python's stable `sorted`.
  - `Dates`: `strptime(..., '%b %d, %Y')`.
  - `Seqs`: small sequence facts.
  - `Wrappers`: `Option` and `Result`.
- **Scrape** (`scrape.dfy`): the whole of `scrape(export=True)`, composed from the modules
  above.
  - Page discovery and the scan, run for each selected URL.
  - The abort when a page list cannot be built.
  - The CSV export of the collected content.

Python's `sorted(..., reverse=True)` keeps equal keys in input order. It is modelled as a
stable ascending sort on the negated key. Every raise the core can reach is a `Failure` value
naming its cause.

## Behaviour of the code worth knowing

Each point below is a fact about `SDNScraper.py` that the model reproduces.

- **UCLA override.** The comment at SDNScraper.py:251-253 says a query for UCLA should not
  pick "Charles R Drew @ UCLA". The condition at 254 does not reject "drew" candidates
  outright, though.
  - It accepts the first candidate without "drew", so a directory whose first entry lacks
    "drew" gives the Geffen name (`Resolver.UclaResolution`).
  - A "drew" candidate falls through to the other rules. If it also contains "ucla" and comes
    first, it wins (`Resolver.DrewCandidateFirst`).
- **"upenn".** The query does not resolve to "University of Pennsylvania".
  - The alias at 275-281 keeps the space after "of", giving "u pennsylvania".
  - The abbreviation at 263-271 is "up".
- **Unresolved queries.** `guess_school` collects them after noise stripping, not raw
  (290-293). `__init__` then keeps only the resolved list (`[0]`, line 59) and discards them.
- **Category names.** They are the code's: "secondaries", "interview invites", "decisions",
  "financial aid" and "something else" (74-91).
- **Output order.** Blocks follow directory order, because `self.urls` is built by walking
  the directory (63-67). Each block's label line is taken from the request list by position
  (207). Labels and blocks therefore drift apart whenever the request order differs from
  directory order, even when every request resolves: requests "b", "a" against a directory
  listing "A" first give the block for "A" under the label "B" (`Scrape.LabelDrift`). Past
  the end of the request list the label line is empty.
- **Row columns.** Data rows are written as message, date, page, author (217-220). The header
  reads message, page, author, date (202).
- **Schools without hits.** Such a school (a `None` entry, 194-195) makes the CSV export fail
  at `for key in content[i]` (215). It does not produce an empty block.
- **Page list.** It is not deduplicated (137).
- **Last-page number.** A non-numeric last-page number is a failure. The fallback at 130 is
  the `max` attribute, a string, which `range` at 131 rejects.

## Model

| member | source | states |
|---|---|---|
| Resolver.StripNoise | SDNScraper.py:242-250 | the five `replace` calls of the noise list, applied in list order (no contract of its own; its properties are the rows below) |
| Resolver.StripNoiseRemovesMarks | SDNScraper.py:242-250 | after the noise list is applied, no '-', '@' or '.' is left in the name |
| Resolver.StripLowerQuery | SDNScraper.py:242-244 | on a lower-cased query the two capitalised phrases never fire, so stripping only removes '-', '@' and '.' |
| Resolver.Classify | SDNScraper.py:254-289 | the rule a stripped candidate meets first, tried in the code's order: the UCLA override unless the candidate contains "drew", substring either way, abbreviation, "U" + rest for "University of" names, per-word tokens; `NoRule` otherwise (no contract of its own; the resolution rows below state what the order implies) |
| Resolver.TokenHitSpec | SDNScraper.py:284-289 | the per-word rule holds exactly when some word longer than two characters is in the candidate, or the candidate is in the query and such a word exists |
| Resolver.ResolveFromResult | SDNScraper.py:246-289 | the candidate loop yields the carried value, the Geffen name, or one of the directory names |
| Resolver.FirstBreakingWins | SDNScraper.py:254-281 | the first candidate that matches the override, substring, abbreviation or alias rule decides the result, whatever token matches came earlier |
| Resolver.LastTokenWins | SDNScraper.py:284-289 | with no loop-ending match, the last candidate with a token match wins, because each overwrites the previous |
| Resolver.NoRuleKeeps | SDNScraper.py:246-289 | candidates that match no rule leave the carried value unchanged |
| Resolver.SomeRuleResolves | SDNScraper.py:246-291 | a candidate matching any rule makes the query resolve |
| Resolver.UnresolvedIff | SDNScraper.py:290-293 | a query is unresolved exactly when no candidate matches any rule |
| Resolver.UclaResolution | SDNScraper.py:254-256 | a query that strips to "ucla" yields Geffen, a "drew" candidate or nothing; it yields Geffen as soon as the first candidate lacks "drew" |
| Resolver.DrewCandidateFirst | SDNScraper.py:254-260 | a leading "drew" candidate that also contains "ucla" is taken by the substring rule |
| Resolver.EmptyQueryTakesFirst | SDNScraper.py:258-260 | a query that strips to nothing is in every name and resolves to the first directory entry |
| Resolver.Partition | SDNScraper.py:290-293 | the matched and unmatched lists together are as long as the outcomes |
| Resolver.PartitionSpec | SDNScraper.py:290-293 | every resolved outcome's name is in `lst` and every unresolved stripped query in `bad_query`, and nothing else is |
| Resolver.GuessSchoolSpec | SDNScraper.py:238-294 | each query lands in exactly one list; matched names are directory names or the Geffen name; unmatched entries are stripped queries that resolved to nothing |
| Resolver.GuessSchoolAppend | SDNScraper.py:240-293 | queries are resolved independently, so both lists keep query order |
| Resolver.SelectedIndices | SDNScraper.py:63-67 | the chosen directory positions are increasing, and a position is chosen exactly when its name was resolved |
| Resolver.SelectUrls | SDNScraper.py:63-67 | the URLs are those of the chosen positions, in directory order |
| Request.ListingUrl | SDNScraper.py:33-34 | the year reads exactly when it is a string key of the table, and then gives the year's listing URL |
| Request.SchoolsUpToSpec | SDNScraper.py:45-51 | the requests are the lower-cased non-empty string fields among the first n, one per field, in field order: a strictly increasing list of field numbers witnesses which field each came from, and every filled field appears in it |
| Request.RequestedSchoolsSpec | SDNScraper.py:44-52 | the request list holds one entry per filled field among `school-1`..`school-10`, in field order, each the lower-cased field, so repeats are kept; every entry is non-empty and lower-case |
| Request.ParseRecency | SDNScraper.py:70 | recency fails exactly for a present non-string value; a missing field is the default mode; otherwise the lower-cased text selects "most recent", "all" or the default |
| Request.Keywords | SDNScraper.py:74-91 | the keyword-category table and the custom trigger (no contract of its own; see KeywordsSpec) |
| Request.KeywordsSpec | SDNScraper.py:74-91 | the category is accepted exactly when it is one of the five known (with a non-empty custom trigger for "something else"); each built-in category yields its own trigger list, the custom one exactly its lower-cased trigger; anything else is `ValueError` |
| Request.Init | SDNScraper.py:33-91 | `__init__` given the parsed directory: year, requests, resolution, URL selection, recency, keywords (no contract of its own; see InitSpec) |
| Request.InitSpec | SDNScraper.py:33-91 | construction succeeds exactly when year, recency and keyword read; every URL belongs to a directory entry whose name was resolved |
| OrderedDict.PutSpec | SDNScraper.py:188 | after `d[k] = v`, `k` reads `v` and other keys read as before; a new key goes last and keys stay distinct |
| Text.Contains | SDNScraper.py:168 | Python `in`: true exactly when the needle occurs at some position, so the empty needle is in every string |
| Text.ContainsLower | SDNScraper.py:181 | a case-sensitive occurrence is also a case-insensitive one |
| Text.ReplaceAbsent | SDNScraper.py:244 | replacing a pattern that does not occur changes nothing |
| Text.RemoveCharGone | SDNScraper.py:244 | deleting a one-character pattern removes every copy of it |
| Text.Replace | SDNScraper.py:244 | Python `str.replace`, left to right without overlaps (no contract of its own; its properties are the rows around it) |
| Text.ReplaceIsJoinSplit | SDNScraper.py:244 | `s.replace(p, r) == r.join(s.split(p))`: only the occurrences change, and the text between them survives, in order |
| Text.UpperLetters | SDNScraper.py:263-267 | the abbreviation holds only upper-case letters and is no longer than the name |
| Text.UpperLettersSpec | SDNScraper.py:263-268 | the abbreviation keeps exactly the upper-case letters in order: the empty name gives nothing, one character gives itself exactly when it is upper-case, and the abbreviation of a concatenation is the concatenation of the abbreviations |
| Text.SplitJoin | SDNScraper.py:187 | joining the pieces of `split` with the separator gives back the string |
| Text.SplitPiecesFree | SDNScraper.py:187 | no piece of `split` contains the separator |
| Text.SplitAbsent | SDNScraper.py:187 | a string without the separator splits into itself alone |
| Text.SplitLastAfter | SDNScraper.py:126-128 | the last piece after the last separator is the text that follows it |
| Text.SplitLastAfterSep | SDNScraper.py:187 | for a separator whose first character does not recur in it, the last piece of `s + sep + t` is `t` whenever `t` does not contain the separator |
| Text.NatToStringRoundTrip | SDNScraper.py:132-137 | `int(str(n)) == n` |
| Pagination.Links | SDNScraper.py:122-123 | present hrefs only, each prefixed with the site URL |
| Pagination.LinksSpec | SDNScraper.py:119-123 | no hrefs give no links, a present href gives the site URL plus the href, a missing one gives nothing, and the links of a concatenation are the concatenation of the links |
| Pagination.GapUrls | SDNScraper.py:131-133 | exactly `hi - lo - 1` URLs, the i-th for page `lo + 1 + i` |
| Pagination.WithGaps | SDNScraper.py:125-135 | a successful gap fill gives at least one page |
| Pagination.KeyAll | SDNScraper.py:137 | the sort keys exist exactly when every suffix is numeric, and are those numbers |
| Pagination.PageUrlKey | SDNScraper.py:132-137 | a synthesised URL carries its own page number as suffix and sort key |
| Pagination.NoLinks | SDNScraper.py:134-135 | no links give the thread URL alone |
| Pagination.FewLinks | SDNScraper.py:125-138 | one to three links add no pages; the result exists exactly when every link after the first has a number |
| Pagination.GapFill | SDNScraper.py:125-133 | with more than three links ending in numbers a and b, exactly the pages a+1..b-1 are appended, built from the text before "page" |
| Pagination.GapEnds | SDNScraper.py:129-131 | a non-numeric last link fails; a non-numeric second-to-last link starts the gap at 3 |
| Pagination.Discover | SDNScraper.py:119-138 | the page list of one school: links, gap fill or fallback, then the first page followed by the rest sorted by page number (no contract of its own; see DiscoverSpec) |
| Pagination.DiscoverSpec | SDNScraper.py:136-138 | the first link stays first; the rest is a permutation of the other pages, ascending by page number; the sort is stable: for every page number the pages carrying it keep their original order |
| StableSort.SortSpec | SDNScraper.py:137 | `sorted` output is ordered by key, a permutation of its input, and stable for equal keys |
| StableSort.SortItems | SDNScraper.py:137 | sorting permutes the undecorated items too |
| Dates.ParseDate | SDNScraper.py:216 | an accepted date is a real calendar date |
| Dates.OrdinalOrder | SDNScraper.py:223-224 | comparing ordinals compares dates by year, month and day, and equal ordinals mean equal dates |
| Dates.ParseFormat | SDNScraper.py:216 | the forum's "Mon D, YYYY" rendering of a date parses back to that date |
| Extractor.PassesIffGates | SDNScraper.py:167-181 | a trigger passes exactly when it occurs case-sensitively, the text has at most 50 characters and no '?', and short triggers need at most 5 characters; the check at 181 never rejects |
| Extractor.FirstTriggerSpec | SDNScraper.py:167-189 | the trigger used is the first in keyword order that passes; there is none exactly when no trigger passes |
| Extractor.AcceptedIff | SDNScraper.py:167-189 | a message is recorded exactly when some trigger passes |
| Extractor.ScanOrder | SDNScraper.py:144-146 | step q visits page n - 1 - q for "most recent" and page q otherwise |
| Extractor.ScanOrderVisitsAll | SDNScraper.py:144-147 | every scan order visits each page exactly once |
| Extractor.ScanPage | SDNScraper.py:154-189 | the message loop of one page: each accepted message is stored under its stripped text (no contract of its own; see the ScanPage rows) |
| Extractor.ScanSchool | SDNScraper.py:142-197 | the page loop in scan order with the early stop, then `None` for an empty result (no contract of its own; see the scan rows) |
| Extractor.ScanPageKeys | SDNScraper.py:154-188 | after a page the keys are the earlier ones plus the stripped text of each accepted message; keys stay distinct |
| Extractor.ScanPageNoHit | SDNScraper.py:154-188 | a page with no accepted message changes nothing |
| Extractor.StripQuotedSpec | SDNScraper.py:187 | a text without `Click to expand...` is kept whole, and a quoted reply followed by the marker keeps exactly the text after the marker |
| Extractor.LastOccurrenceWins | SDNScraper.py:185-188 | a repeated stripped text keeps the page, author and date of its last accepted occurrence |
| Extractor.ScanFromLastPage | SDNScraper.py:144-193 | in "all" mode, scanning from any point up to a page whose post is the last accepted one with a given text, with no later page accepting it, ends with that text naming that page, author and date |
| Extractor.AllModeLastPage | SDNScraper.py:185-193 | in "all" mode a school's matches hold, for a repeated text, the page number, author and date of its last accepted occurrence across all pages |
| Extractor.ScanPageNumbers | SDNScraper.py:183-188 | every value recorded on page index p names page p + 1 |
| Extractor.NoneIffNoHits | SDNScraper.py:144-197 | a school gives `None` exactly when no page has an accepted message, in every mode |
| Extractor.StopsAtFirstHitPage | SDNScraper.py:191-193 | outside "all" mode the scan ends after the first page in scan order that has a hit |
| Extractor.EarlyStopSinglePage | SDNScraper.py:144-193 | outside "all" mode every match of a school comes from that first hit page and names it |
| Extractor.AllModeKeys | SDNScraper.py:144-193 | in "all" mode a text is a key exactly when some page has an accepted message with that stripped text |
| Extractor.ScanSchoolUnique | SDNScraper.py:142-197 | a school's matches hold each text once |
| Extractor.DecisionCase | SDNScraper.py:168 | "A." is not a decision while "a." is: triggers match case-sensitively |
| CsvExport.ReadEscaped | SDNScraper.py:217 | doubling quotes is undone by a quoted-field reader (RFC 4180, section 2, rule 7) |
| CsvExport.QuoteRoundTrip | SDNScraper.py:217-220 | a quoted field reads back as its text |
| CsvExport.RowRecord | SDNScraper.py:217-220 | a row is four quoted fields — message, date, page, author — and reads back as them |
| CsvExport.HeaderRecord | SDNScraper.py:202-213 | the header line reads back as the four headers |
| CsvExport.HeadingShape | SDNScraper.py:206-213 | removing the trailing comma leaves the label line followed by the header line |
| CsvExport.UpperEscape | SDNScraper.py:207 | upper-casing commutes with quote doubling |
| CsvExport.NameRecord | SDNScraper.py:206-209 | the label line reads back as the upper-cased request; past the requests it is an empty line |
| CsvExport.Decorate | SDNScraper.py:215-221 | dates are parsed in dictionary order; success exactly when all parse, else the error names an unreadable date |
| CsvExport.Block | SDNScraper.py:204-228 | the block of school i: `TypeError` for `None`, else label line, header line, date-sorted rows and a blank line (no contract of its own; see the Block rows) |
| CsvExport.ToCsv | SDNScraper.py:201-230 | the blocks concatenated in content order, the first failure aborting (no contract of its own; see ExportSucceeds and ExportError) |
| CsvExport.BlockText | SDNScraper.py:203-228 | a school whose dates all read gives a block: label line, header line, sorted rows and a blank line |
| CsvExport.BlockOrder | SDNScraper.py:215-226 | the rows are every match once, ordered by date, newest first for "most recent" |
| CsvExport.BlockStable | SDNScraper.py:223-224 | matches with equal dates keep dictionary order |
| CsvExport.SortKeyOrder | SDNScraper.py:223-224 | "most recent" orders newer dates first, other modes older first |
| CsvExport.BlockSucceeds | SDNScraper.py:215-216 | a block succeeds exactly when the school has matches and all dates are readable |
| CsvExport.BlockError | SDNScraper.py:215-216 | a failing block reports the `None` entry or an unreadable date of that school |
| CsvExport.ConcatSpec | SDNScraper.py:203-230 | the blocks join in order when all succeed; otherwise the first failure's error is reported |
| CsvExport.ExportSucceeds | SDNScraper.py:201-230 | the export succeeds exactly when every school is exportable, and is then the blocks in content order |
| CsvExport.ExportError | SDNScraper.py:203-216 | a failed export names the first school that cannot be exported, and why |
| CsvExport.ExportBlocks | SDNScraper.py:201-230 | a successful export is the concatenation of one block per school, block j built from school j's matches with label j |
| Scrape.ScrapeCsv | SDNScraper.py:95-230 | `scrape(export=True)`: content for every selected URL, then the CSV export under the request labels (no contract of its own; see the Scrape rows) |
| Scrape.ContentSpec | SDNScraper.py:100-197 | the content is built exactly when every selected URL's page list can be built; entry j is then school j's scan result; otherwise the failure is that of the first URL whose page list fails |
| Scrape.ScrapeAborts | SDNScraper.py:100-138 | one URL whose page list cannot be built makes the whole scrape fail with a page-list error |
| Scrape.ScrapeSucceeds | SDNScraper.py:100-230 | the CSV is produced exactly when every URL's page list builds and every school's result is exportable |
| Scrape.ScrapeText | SDNScraper.py:100-230 | a produced CSV is, in directory order, block j for the URL `self.urls[j]` with school j's matches under label line j of the request list |
| Scrape.LabelDrift | SDNScraper.py:56-67 | with requests "b", "a" and a directory listing "A" then "B", both requests resolve, the URLs come out in directory order, and the first block (for "A") carries the label "B" |

## Left out

- **Network.** The `requests.get` calls (SDNScraper.py:34, 104, 150) are network I/O. Their
  results enter the model as parameters: the directory, each page's hrefs, and each page's
  posts.
- **HTML parsing.** The BeautifulSoup traversal is a library the model cannot see. This covers:
  - the directory build from `site.text[10:]` (37-42);
  - the navigation, `input` and `a` lookup, including the `max` attribute (106-121);
  - the message, caption, author and date lookup (153-165).
- **Duplicate directory names.** A Python dict would merge them; the model takes the
  directory as given.
- **JSON output.** The `json.dumps` result of `scrape` (199-200) is library serialisation.
  `Scrape` composes only the CSV path.
- **Display-only fields.** `self.year`, `school_inputs`, `recency_input` and `keyword_input`
  (33, 53-54, 71, 75) only feed the display.
- **Unreachable branch.** The `urls is None` branch (58-62, 97-98) cannot occur: `guess_school`
  returns `None` only for a `None` query, and `__init__` always passes a list.
- **app.py.** Flask routing and template rendering are outside the model.
- **Concurrency, timeouts, retries.** The code has none of these.
- Text.Lower: ASCII only, like `Text.Upper`, `Text.UpperLetters` and the regex `[\W_0-9]`.
  Unicode case mapping and Unicode `isupper`/`isnumeric` are not modelled.
- Text.ParseInt: accepts ASCII digit strings only. Python's `int()` also takes surrounding
  whitespace, a sign and underscores; the sort key on a suffix such as " 5" or "+5" is not
  modelled.
- Dates.ParseDate: single spaces only. `strptime` also accepts runs of whitespace and a
  space-padded day. Locale handling is left out.
- Dates.FormatDate: renders only years of four digits, which is the forum's format.
- Pagination.WithGaps: `max_page` may be undefined (no `input` found) or a string. Either way
  `range` raises, so both are one failure, `NonNumericLastPage`.
