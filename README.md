# Cloudflare preferred-IP scrapers, modelled in Dafny

The repository has four scripts. Each one reads a table of Cloudflare "preferred IP"
addresses from a status web page and writes the addresses it finds to a file. This
project models what each script does with the table once the page is loaded. It
also proves what the result holds.

- `extract_ips_selenium.py` loads the page in a headless browser. It keeps the
  stripped second `td` of each row, skips empty cells and the `Loading...`
  placeholder, and stops at ten addresses (module `SeleniumTop`).
- `extract_ips.py` turns every row with at least eight `td` cells into a record
  with nine fields. The rank is the row's 1-based position. The colo link is the
  `href` of the first anchor in the seventh cell (index 6). The script stops after
  ten records. A KeyError or any other exception makes it return `None`. As
  written, the script never imports `BeautifulSoup`, so every call returns `None`
  (see "## Findings"). Module `RecordTable` models the code with the import added.
- `collect_ips.py` pairs the address of each row that has five or more `td` cells
  with the speed read from its fifth cell. IPv6 brackets are removed from the
  address. It sorts the pairs stably by speed, fastest first, and keeps ten
  (module `FastestIps`). The speed is the number before "mb/s", matched
  case-insensitively, or 0.0 (module `SpeedText`).
- `collect_ips-o.py` visits a list of URLs. For each page with status 200, it reads
  the first ten rows of the table body. It keeps the stripped third cell of each
  row when an IPv4-shaped regular expression accepts it (modules `Ipv4Pattern`
  and `PageCollector`).

`common.dfy` holds what the scripts share:

- `Option` and `Min`.
- `Kept`, which keeps the value each item of a sequence gives, if it gives one,
  in order. `Count` counts the items a predicate accepts. Each script's row
  loop is `Kept` of its own per-row function (module `Filtering`).
- ASCII whitespace and digits, digit runs, and `Trim`, which is `str.strip()`, and
  `get_text(strip=True)` of a cell holding one text node.
- The located table (module `Html`). A row is a sequence of `th`/`td` cells. A
  cell has a text and the state of its first anchor. `Tds` is `find_all('td')`.

Each loop the scripts run is a `method` with a `while` loop. The method is proved
equal to a specification function, and the lemmas state what that function
promises. The browser, the HTTP request and BeautifulSoup's lookups are
parameters:

- `Rendering` is a wait that timed out, or the outcome of the table lookup.
- `Fetch` is a request that raised, or a status code with the lookup's outcome.
- `TableLookup` is a missing table, a missing tbody, or the rows.

## Model

| member | source | states |
|---|---|---|
| Text.Trim | collect_ips.py:31-33 | `str.strip()`, and `get_text(strip=True)` of a cell holding one text node: drop the leading and the trailing whitespace; TrimSlice, TrimEdges and TrimIdempotent state what the result is |
| Text.TrimSlice | collect_ips.py:31-33 | a stripped text is a contiguous slice of the input, and only whitespace is removed before and after it |
| Text.TrimEdges | extract_ips_selenium.py:71 | a stripped text is empty or starts and ends with a non-whitespace character |
| Text.TrimIdempotent | collect_ips-o.py:49 | stripping twice is stripping once |
| Html.TdsAppend | collect_ips.py:25 | `find_all('td')` over two runs of cells is the `td` cells of the first run followed by those of the second |
| Html.TdsKeepsData | extract_ips_selenium.py:69 | a cell is kept, in its place among the others, exactly when it is a `td`; `th` cells are dropped |
| SeleniumTop.RowIp | extract_ips_selenium.py:69-72 | a row's address is the stripped text of its second `td`, if it has one and the text is neither empty nor "Loading..."; CandidatesFacts and CandidatesComplete state what the collected list holds |
| SeleniumTop.Candidates | extract_ips_selenium.py:68-73 | the usable addresses of all rows, in row order, before the cap of ten; CandidatesFacts, CandidatesComplete and CandidatesAppend state it |
| SeleniumTop.TopIps | extract_ips_selenium.py:68-75 | the first ten candidates; TopIpsFacts and LaterRowsIgnored state it |
| SeleniumTop.ExtractTop10Ips | extract_ips_selenium.py:56-80 | the loop returns the first ten usable second-`td` texts, or [] when the wait times out or the table or tbody is missing; it returns at most ten values, none empty and none "Loading..." |
| SeleniumTop.CandidatesAppend | extract_ips_selenium.py:68-73 | scanning two row lists in turn collects the candidates of each in turn |
| SeleniumTop.CandidatesFacts | extract_ips_selenium.py:69-73 | candidate k is the non-empty, non-placeholder stripped text of the second `td` (index 1) of a row with at least two `td`s, and exactly k candidates come from the rows before that row, so no row gives two |
| SeleniumTop.CandidatesComplete | extract_ips_selenium.py:69-73 | every row whose stripped second `td` is non-empty and not the placeholder gives that text, at the index equal to the number of candidates of the rows before it |
| SeleniumTop.TopIpsFacts | extract_ips_selenium.py:68-76 | at most ten addresses come back, all usable ones when there are fewer than ten, each non-empty, not the placeholder, and taken from some row |
| SeleniumTop.LaterRowsIgnored | extract_ips_selenium.py:74-75 | once ten addresses are found, rows after them never change the result |
| SeleniumTop.NoValidation | extract_ips_selenium.py:72-73 | the address is not validated: any stripped non-empty text other than the placeholder is returned verbatim |
| RecordTable.MakeRecord | extract_ips.py:46-65 | the record of a row with eight or more `td`s: its 1-based rank, the stripped texts of the cells at indices 0-5 and 7, and the `href` of the first anchor of the seventh cell (index 6), or "" when there is no anchor; ReferenceRecords states what the result holds |
| RecordTable.Reference | extract_ips.py:42-68 | with the import added, the result for a located table body: the records of the first ten wide rows, or None when one of them raises; ReferenceRecords, ReferenceAtMostWide, ReferenceInRowOrder, ReferenceComplete and ReferenceNone state it |
| RecordTable.ExtractRecords | extract_ips.py:32-71 | with the import added, the enumerated loop with its break after ten records returns the reference result, None included |
| RecordTable.ReferenceRecords | extract_ips.py:42-67 | at most ten records; record k comes from the row it is ranked by; that row has eight or more `td`s and exactly k wide rows before it; its fields are the stripped cell texts and the anchor's `href` or "" |
| RecordTable.ReferenceAtMostWide | extract_ips.py:45 | there are never more records than rows with at least eight `td`s |
| RecordTable.ReferenceInRowOrder | extract_ips.py:43-56 | record ranks rise strictly, so records appear in row order |
| RecordTable.ReferenceComplete | extract_ips.py:43-67 | no wide row before the cap is dropped: the j-th wide row is record j when fewer than ten records came back or a later record exists |
| RecordTable.ReferenceNone | extract_ips.py:52-71 | the result is None exactly when one of the first ten wide rows has an anchor without `href` in the seventh cell (index 6) |
| RecordTable.MissingImportLosesRecords | extract_ips.py:30-68 | on any table body holding one row with at least eight `td`s whose seventh cell (index 6) does not raise, the code as written returns None, while the code with the import returns exactly that row's record |
| RecordTable.SampleRowIsWide | extract_ips.py:44-52 | a row as the status page publishes it has eight `td`s and a colo link in its seventh cell (index 6), so it meets that condition |
| SpeedText.MatchAt | collect_ips.py:41 | the regex `(\d+\.?\d*)\s*mb/s` tried at one position gives the end of its group, which lies after that position and within the text; MatchAtSound and MatchAtComplete state that it is exactly the regex |
| SpeedText.Search | collect_ips.py:41 | `re.search`: the group it reports lies within the text after the start position; SearchLeftmost states that it is the leftmost match |
| SpeedText.NumberValue | collect_ips.py:43 | `float` of the matched group is never negative; SpeedOfWholeNumber and SpeedOfDecimal state its value |
| SpeedText.ParseSpeed | collect_ips.py:39-47 | the speed read from a text is never negative |
| SpeedText.MatchAtSound | collect_ips.py:41 | whatever the scanner reports at a position is a match of the regex there, with the reported group |
| SpeedText.MatchAtComplete | collect_ips.py:41 | every match of the regex at a position is the one the scanner reports, so the group is unique |
| SpeedText.SearchLeftmost | collect_ips.py:41 | the search returns the leftmost position where the regex matches, and nothing when it matches nowhere |
| SpeedText.ParseSpeedNoMatch | collect_ips.py:42-45 | with no match anywhere, the speed is 0.0 |
| SpeedText.ParseSpeedLeftmost | collect_ips.py:41-43 | otherwise the speed is the value of the group of the leftmost match |
| SpeedText.SpeedOfWholeNumber | collect_ips.py:41-43 | digits, optional whitespace and "mb/s" in any case read as the whole number the digits spell |
| SpeedText.SpeedOfDecimal | collect_ips.py:41-43 | digits, a dot, digits, optional whitespace and the unit read as the decimal number they spell |
| SpeedText.SpeedMissingUnit | collect_ips.py:44-45 | a number with no unit after it ("6.92") reads as 0.0 |
| FastestIps.StripBrackets | collect_ips.py:36-37 | the address is kept, or it is the input with its enclosing brackets removed |
| FastestIps.StripBracketsUnwraps | collect_ips.py:36-37 | a bracketed text loses exactly its two brackets |
| FastestIps.RowPair | collect_ips.py:30-51 | a row with five or more `td`s gives the pair of its stripped, unbracketed second cell and the speed of its stripped fifth cell; other rows give nothing; IpSpeedsFromRows and IpSpeedsComplete state what the list holds |
| FastestIps.IpSpeedsOf | collect_ips.py:22-51 | `ip_speed_list` after the loop: the pairs of all rows, in row order; IpSpeedsFromRows and IpSpeedsComplete state it |
| FastestIps.CollectIpSpeeds | collect_ips.py:22-51 | the row loop builds the pair list of the reference definition |
| FastestIps.IpSpeedsFromRows | collect_ips.py:23-51 | the list has exactly one pair per row with five or more `td`s; pair k is the pair of the wide row before which exactly k wide rows stand; no speed is negative |
| FastestIps.IpSpeedsComplete | collect_ips.py:23-51 | every wide row's pair is in the list, at the index equal to the number of wide rows before it |
| FastestIps.SortBySpeed | collect_ips.py:54 | `sorted(..., key=speed, reverse=True)` as an insertion sort; the Sort lemmas state that it is ordered, a permutation and stable |
| FastestIps.SortFastestFirst | collect_ips.py:54 | the sorted list is ordered by speed, fastest first |
| FastestIps.SortPermutes | collect_ips.py:54 | sorting neither drops nor adds a pair (equal multisets) |
| FastestIps.SortStable | collect_ips.py:54 | pairs of equal speed keep their relative order |
| FastestIps.SortOfSorted | collect_ips.py:54 | a list already fastest first is left as it is |
| FastestIps.SortIdempotent | collect_ips.py:54 | sorting twice is sorting once |
| FastestIps.Fastest | collect_ips.py:54-56 | `sorted_ips[:10]`; FastestFacts, FastestAreFastest and FastestCount state it |
| FastestIps.FastestFacts | collect_ips.py:54-56 | min(10, n) pairs come back, fastest first, each one of the input pairs |
| FastestIps.FastestAreFastest | collect_ips.py:54-56 | no pair left out is faster than a pair that was kept |
| FastestIps.FastestCount | collect_ips.py:22-56 | the function returns as many pairs as there are rows with five or more `td`s, up to ten |
| FastestIps.GetFastestIps | collect_ips.py:11-63 | the function gives the ten fastest pairs, or [] for a failed request, a 4xx/5xx status, or a missing table or tbody |
| Ipv4Pattern.GroupEndMeaning | collect_ips-o.py:12 | a group found at i is one to three digits followed by a non-digit or the end; when none is found, every run of one to three digits there is followed by another digit |
| Ipv4Pattern.MatchesIpv4 | collect_ips-o.py:52 | `re.match` with the pattern of line 12, as a scan: a group, three dot-and-group repetitions, then a word boundary; MatchesIpv4Meaning states that it is exactly the pattern |
| Ipv4Pattern.MatchesIpv4Sound | collect_ips-o.py:12 | whatever the group-by-group scan accepts, the pattern matches: four dotted groups of 1-3 digits followed by a word boundary |
| Ipv4Pattern.MatchesIpv4Complete | collect_ips-o.py:12 | whatever the pattern matches, the scan accepts |
| Ipv4Pattern.MatchesIpv4Meaning | collect_ips-o.py:52 | `re.match` succeeds exactly when the text starts with a dotted quad followed by a word boundary |
| Ipv4Pattern.AcceptsOutOfRange | collect_ips-o.py:12 | groups are not range-checked: "999.999.1.1" is accepted |
| Ipv4Pattern.AcceptsTrailingPort | collect_ips-o.py:52 | text after a boundary is not examined: "1.2.3.4:443" is accepted |
| Ipv4Pattern.RejectsLongGroup | collect_ips-o.py:12 | a final group of four digits is rejected |
| Ipv4Pattern.RejectsBracketedIpv6 | collect_ips-o.py:52 | a bracketed IPv6 address is rejected |
| PageCollector.RowIp | collect_ips-o.py:46-53 | a row's address is the stripped text of its third cell, `th` or `td`, if it has more than two and the pattern accepts the text; IpsOfValid and IpsOfComplete state what the list holds |
| PageCollector.IpsOf | collect_ips-o.py:40-53 | the accepted addresses of the rows, in row order; IpsOfValid and IpsOfComplete state it |
| PageCollector.PageIps | collect_ips-o.py:39-53 | what one table body adds: the addresses of its first ten rows; PageIpsFirstRows and PageIpsExample state it |
| PageCollector.ResponseIps | collect_ips-o.py:27-55 | what one URL adds: nothing for a status other than 200 or a missing tbody, else its page's addresses; AllIpsValid states it |
| PageCollector.CollectAllIps | collect_ips-o.py:19-62 | the nested loops, with the break at row ten, build the reference list of all URLs |
| PageCollector.AllIpsAppend | collect_ips-o.py:21-62 | visiting two URL lists in turn gathers their addresses in turn |
| PageCollector.IpsOfValid | collect_ips-o.py:46-53 | address k is stripped, IPv4-shaped, and the stripped third cell of the row before which exactly k addresses stand, so no row gives two |
| PageCollector.IpsOfComplete | collect_ips-o.py:46-53 | every row whose stripped third cell is IPv4-shaped gives that text, at the index equal to the number of addresses of the rows before it |
| PageCollector.PageIpsExample | collect_ips-o.py:46-53 | a row `th` "1", `td` "x", `td` "1.2.3.4:443" gives ["1.2.3.4:443"]: the `th` counts as a cell and the port is kept |
| PageCollector.AllIpsValid | collect_ips-o.py:21-62 | each URL adds at most ten addresses, each stripped and IPv4-shaped |
| PageCollector.PageIpsFirstRows | collect_ips-o.py:40-42 | rows after the tenth never contribute |

## Left out

- Browser automation is not modelled: starting Chrome, the two waits in
  `extract_ips_selenium.py` and the one in `extract_ips.py`, and `driver.quit`. A
  timed-out wait is the `WaitTimedOut` parameter. The non-fatal wait for the
  loading hint disappearing (extract_ips_selenium.py:30-36) changes nothing in
  the result.
- HTTP requests, timeouts and exceptions are not modelled. They are the `Fetch`
  parameter.
- HTML parsing is not modelled. A cell's text is one string: what `.text` and
  `get_text` return before stripping. The first anchor of a cell is the `Link`
  value, which is only read in `extract_ips.py`.
- The `main` functions are not modelled: printing, the pandas DataFrame, CSV and
  text file writing, timestamps, and deleting `ip.txt`.
- Text.Trim: a cell's text is modelled as one text node. `get_text(strip=True)`
  strips each text fragment of a cell and joins the pieces with no separator. For
  `<td>1.2.3.4 <span>x</span></td>` it gives "1.2.3.4x", which the IPv4 pattern
  rejects, while `.text.strip()` gives "1.2.3.4 x", which it accepts. The model
  gives both as `Trim` of the cell's whole text.
- Text.TrimSlice: `str.strip()` strips Unicode whitespace. The model strips ASCII
  whitespace: tab through carriage return, U+001C to U+001F and the space. It
  leaves out the non-ASCII whitespace Python also strips, such as U+0085 and
  U+00A0.
- SpeedText.ParseSpeed: `\d`, `\s` and IGNORECASE act on Unicode in Python. The
  model uses ASCII digits and whitespace, and ASCII case plus U+017F for `s`. It
  leaves out other Unicode case folds, such as the Kelvin sign, which match no
  letter of "mb/s".
- SpeedText.ParseSpeed: speeds are exact reals. Float rounding is not modelled,
  and neither is overflow to infinity for absurdly long digit strings.
- The `except ValueError` branch of collect_ips.py:46-47 is not modelled. A group
  matching `\d+\.?\d*` always converts with `float`, so that branch cannot run.
- Ipv4Pattern.MatchesIpv4Meaning: `\b` is modelled with ASCII word characters.
  Python's `\b` also treats non-ASCII letters and digits as word characters.
- FastestIps.GetFastestIps: it assumes `raise_for_status` raises exactly for
  statuses 400-599. Redirects are not modelled.
- The per-URL messages printed by `collect_ips-o.py` are not modelled.

## Findings

| source | as written | input that shows it | evidently intended | confidence | as-written member | corrected member |
|---|---|---|---|---|---|---|
| extract_ips.py:30 | `BeautifulSoup` is called, but the imports (lines 1-9) never bring it in. The NameError is caught at lines 69-71, so every call returns None | any page whose table loads: a tbody with one well-formed eight-column row, such as `SampleRow`, gives None instead of that row's record | `from bs4 import BeautifulSoup`, as in the other scripts, so that the call returns the records | not executed | RecordTable.ExpectedAsWritten, RecordTable.MissingImportLosesRecords | RecordTable.ExtractRecords, RecordTable.ReferenceRecords |
