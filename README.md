# makeRSS in Dafny

makeRSS is five Python scripts. Each one turns a web page into an RSS 2.0 feed, and each runs the same
incremental synchronisation:

1. Load a per-source ledger, a CSV file.
2. Derive a dedup key for every record.
3. Filter freshly extracted candidates against the known keys. A key is inserted the moment its
   candidate is accepted, so a duplicate inside one run is dropped too.
4. Add the survivors to the ledger.
5. Cut a window of at most 300 records for the feed document.

Two ledger policies occur:

- **Append-tail** (`Y_Sche.py`, `makeRSS_PRTIMES.py`, `makeRSS_NogizakaBlog.py`). The new rows go
  at the end of the file. The window is built from the last 300 rows: Y_Sche sorts them by date,
  descending; the other two reverse them.
- **Prepend-rewrite** (`makeRSS_HatenaBookmark.py`, `makeRSS_HinataBlog.py`). The new rows go in
  front of the old ones. The whole file is rewritten, and the window is its first 300 rows.

This project models that engine, one module per concern:

- `Common`: sequence helpers, Python's substring test, and `zip` of three lists.
- `Ledger`: the CSV file as a value (absent, or present with a header flag and rows). Two classes
  hold one such file in a field that their methods update:
  - `AppendLedger`: `load_existing_keys`, `load_existing_links`, `append_csv` and the deque tail
    read;
  - `RewriteLedger`: `load_existing_csv` and `save_csv`.
- `Dedup`: the filter loop shared by every script. Its specification is the function `Sieve`; its
  loop is the method `FilterNew`.
- `XmlText`: the control-character strip and the blank-line strip applied to the serialised
  document.
- `Calendar`: the date arithmetic of the Y_Sche month walk, `strftime('%Y%m')`, and
  `strptime(s, "%Y/%m/%d")`.
- `YScheKeys` and `YSche`: the schedule crawler. This covers the composite key
  `(pubDate, extract_url_part(link))`, the stable date sort of the window, and the month walk with
  its per-month error isolation. It also covers the browser clean-up and the skip-or-render
  decision.
- `Hatena`, `PRTimes`, `NogizakaBlog`, `HinataBlog`: one module per remaining script. Each has its
  candidate gates, its selection loop, its run over the ledger, and its source list.

The network, the browser and the markup extraction are replaced by their results, which the model
takes as inputs:

- a per-month outcome of the schedule page;
- a `fetch` function from URL to page;
- the lists of matches a pattern found.

Every loop the model covers is a `while` loop in a method: the ledger reads, the filter loops,
the Y_Sche month, day and event loops, the Hatena page loop and migration, and the per-feed and
per-source loops. Each such method is proved equal to a specification function, and the
properties of the scripts are proved as lemmas about those functions. The loops that build the
XML items are not modelled (see "## Left out"), and the blank-line comprehension is modelled as
the function `XmlText.StripBlankLines`.

Two facts of the code that are easy to miss:

- Only `makeRSS_PRTIMES.py` strips control characters from its output document. It and
  `makeRSS_HatenaBookmark.py` strip blank lines; the other three scripts strip neither.
- A link is not always non-empty: a migrated Hatena item whose link element has no text gets the
  link `''`.

## Model

| member | source | states |
|---|---|---|
| Common.LastN | makeRSS_PRTIMES/makeRSS_PRTIMES.py:40 | `deque(reader, maxlen=n)` keeps min(n, \|rows\|) rows, the last ones |
| Common.FirstN | makeRSS_HatenaBookmark/makeRSS_HatenaBookmark.py:140 | `all_items[:300]` holds min(300, \|all_items\|) rows |
| Common.IsSubstringCorrect | makeRSS_PRTIMES/makeRSS_PRTIMES.py:84 | the executable `word in text` test holds exactly when the word occurs in the text at some offset (both directions) |
| Common.Zip3 | makeRSS_NB/makeRSS_NogizakaBlog.py:85 | `zip(links, titles, dates)` has as many triples as the shortest list, and triple i holds the i-th element of each list |
| Ledger.Appended | makeRSS_Y_Schedule/Y_Sche.py:30-39 | `append_csv` on an empty list leaves the file as it is; otherwise the rows become old ++ items, and a header is written exactly when the file was absent or empty |
| Ledger.Saved | makeRSS_HatenaBookmark/makeRSS_HatenaBookmark.py:55-63 | `save_csv` on an empty list leaves the file as it is; otherwise the file is rewritten with a header and exactly the given rows |
| Ledger.KeysOfConcat | makeRSS_HB/makeRSS_HinataBlog.py:85 | the link set of new ++ old is the union of the two link sets |
| Ledger.LastNSnoc | makeRSS_PRTIMES/makeRSS_PRTIMES.py:40 | pushing one row onto a full deque of maxlen n drops its oldest row, and pushing onto a deque that is not full keeps every row |
| Ledger.Push | makeRSS_PRTIMES/makeRSS_PRTIMES.py:40 | appending to a deque of maxlen n that holds at most n rows leaves min(n, size + 1) rows, the new row last |
| Ledger.LastNTake | makeRSS_NB/makeRSS_NogizakaBlog.py:38-40 | the tail after reading row i is the tail before it with row i pushed onto the deque |
| Ledger.LastNFromEnd | makeRSS_PRTIMES/makeRSS_PRTIMES.py:33-42 | position j of the reversed tail is the j-th row counted from the end of the file |
| Ledger.NewestFirstHead | makeRSS_PRTIMES/makeRSS_PRTIMES.py:33-42 | after appending any number of rows, the reversed tail of n rows opens with the newest min(n, \|new\|) of them, the last-appended first |
| Ledger.NewestFirstTail | makeRSS_PRTIMES/makeRSS_PRTIMES.py:33-42 | when at most n rows were appended, the newest old rows follow them in the reversed tail, newest first |
| Ledger.NewestFirst | makeRSS_PRTIMES/makeRSS_PRTIMES.py:33-42 | after appending any number of rows, the reversed tail holds min(n, \|ledger\|) rows, opens with the newest min(n, \|new\|) new rows, last-appended first, and, when all new rows fit, continues with the newest old rows |
| Ledger.PrependKeepsOld | makeRSS_HatenaBookmark/makeRSS_HatenaBookmark.py:133-140 | the head window of new ++ old holds min(n, \|all\|) rows, opens with the first min(n, \|new\|) new rows in order and, when all new rows fit, continues with the first old rows in their old order |
| Ledger.WritesKeepHeader | makeRSS_PRTIMES/makeRSS_PRTIMES.py:22-31 | neither write leaves a file with data rows but no header line, and a first append to an empty file writes the header |
| Ledger.KeysOfMapped | makeRSS_NB/makeRSS_NogizakaBlog.py:87-94 | rows built one per candidate, each keeping its candidate's key, have exactly the candidates' keys, and are key-distinct exactly when the candidates are |
| Ledger.ConcatKeysDistinct | makeRSS_HB/makeRSS_HinataBlog.py:85 | two key-distinct lists with no shared key give a key-distinct list joined in either order |
| Ledger.AppendedKeysDistinct | makeRSS_PRTIMES/makeRSS_PRTIMES.py:22-31 | appending key-distinct rows with fresh keys to a key-distinct file keeps it key-distinct |
| Ledger.AppendLedger.LoadKeys | makeRSS_Y_Schedule/Y_Sche.py:19-28 | the loop collects exactly the keys of all rows of the file, and none for a missing file |
| Ledger.AppendLedger.Append | makeRSS_PRTIMES/makeRSS_PRTIMES.py:22-31 | the file afterwards is `Appended` of the file before, and a file with a header over its rows keeps one |
| Ledger.AppendLedger.ReadTail | makeRSS_NB/makeRSS_NogizakaBlog.py:38-40 | filling the bounded deque row by row yields the last min(n, \|rows\|) rows in file order |
| Ledger.AppendLedger.ReadNewestFirst | makeRSS_NB/makeRSS_NogizakaBlog.py:33-42 | `read_last_n_lines` gives [] for a missing file, otherwise the reversed tail of min(n, \|rows\|) rows |
| Ledger.RewriteLedger.Load | makeRSS_HatenaBookmark/makeRSS_HatenaBookmark.py:10-20 | `load_existing_csv` returns the rows in file order and exactly the set of their links; a missing file gives ([], {}) |
| Ledger.RewriteLedger.Save | makeRSS_HB/makeRSS_HinataBlog.py:24-32 | the file afterwards is `Saved` of the file before, and a file with a header over its rows keeps one |
| Dedup.SieveSound | makeRSS_Y_Schedule/Y_Sche.py:139-152 | every accepted candidate is an admitted input candidate whose key was not known before and is known afterwards; the known set only grows |
| Dedup.SieveDistinct | makeRSS_Y_Schedule/Y_Sche.py:142-151 | accepted candidates have pairwise distinct keys, and the final key set is exactly the initial set plus the accepted keys |
| Dedup.SieveKeys | makeRSS_Y_Schedule/Y_Sche.py:142-151 | the key set after filtering is the initial set plus the keys of the accepted candidates, and nothing else |
| Dedup.SieveKeysDistinct | makeRSS_Y_Schedule/Y_Sche.py:142-151 | no two accepted candidates share a key |
| Dedup.SieveComplete | makeRSS_HatenaBookmark/makeRSS_HatenaBookmark.py:108-118 | no admitted candidate is lost: the key of each one is known afterwards |
| Dedup.SieveNothingNew | makeRSS_PRTIMES/makeRSS_PRTIMES.py:72-73 | when every admitted candidate's key is already known, nothing is accepted and the key set stays the same |
| Dedup.SieveIdempotent | makeRSS_Y_Schedule/Y_Sche.py:142-151 | filtering the same candidates again against the resulting key set accepts nothing |
| Dedup.SieveAppend | makeRSS_HatenaBookmark/makeRSS_HatenaBookmark.py:91-128 | filtering a ++ b equals filtering a, then filtering b against the keys a left behind |
| Dedup.SieveTakesUnseen | makeRSS_NB/makeRSS_NogizakaBlog.py:85-95 | when every candidate is admitted, every candidate with an unknown key has its key among the accepted ones |
| Dedup.SievePrefix | makeRSS_Y_Schedule/Y_Sche.py:150-151 | the rows accepted from a prefix of the candidates are a prefix of those accepted from all of them |
| Dedup.SieveStep | makeRSS_HatenaBookmark/makeRSS_HatenaBookmark.py:108-118 | deciding one candidate (accept when admitted and unseen, adding its key; skip otherwise) keeps "accepted so far, then the rest filtered against the keys so far" equal to the whole filter |
| Dedup.FilterNew | makeRSS_HatenaBookmark/makeRSS_HatenaBookmark.py:105-118 | the skip-or-accept loop, inserting each accepted key at once, computes exactly `Sieve` |
| XmlText.StripControl | makeRSS_PRTIMES/makeRSS_PRTIMES.py:122 | the result is no longer than the input and holds no character of the class [\x00-\x08\x0B\x0C\x0E-\x1F\x7F] |
| XmlText.StripControlAppend | makeRSS_PRTIMES/makeRSS_PRTIMES.py:122 | stripping distributes over concatenation, so the kept characters stay in order |
| XmlText.StripControlChar | makeRSS_PRTIMES/makeRSS_PRTIMES.py:122 | one character is dropped exactly when it is a control character |
| XmlText.StripControlMembers | makeRSS_PRTIMES/makeRSS_PRTIMES.py:122 | a character occurs in the result exactly when it occurs in the input and is not a control character |
| XmlText.StripControlClean | makeRSS_PRTIMES/makeRSS_PRTIMES.py:122 | a text without control characters is left unchanged |
| XmlText.StripControlIdempotent | makeRSS_PRTIMES/makeRSS_PRTIMES.py:122 | stripping twice equals stripping once |
| XmlText.StripBlankLines | makeRSS_HatenaBookmark/makeRSS_HatenaBookmark.py:158 | no more lines than the input remain, and each holds a character that `str.strip` would not remove |
| XmlText.StripBlankLinesAppend | makeRSS_HatenaBookmark/makeRSS_HatenaBookmark.py:158 | the filter distributes over concatenation, so the kept lines stay in order |
| XmlText.StripBlankLinesMembers | makeRSS_PRTIMES/makeRSS_PRTIMES.py:124 | a line is kept exactly when it is an input line with text |
| Calendar.DaysInMonth | makeRSS_Y_Schedule/Y_Sche.py:76 | months hold 28 to 31 days, fewer than 30 exactly for February, and 29 exactly for February of a leap year |
| Calendar.FirstOfNextMonth | makeRSS_Y_Schedule/Y_Sche.py:166 | the first of the next calendar month is a valid first of month whose month index is one higher |
| Calendar.PrevDay | makeRSS_Y_Schedule/Y_Sche.py:75 | `d - timedelta(days=1)` of a valid date is a valid date |
| Calendar.AddDays | makeRSS_Y_Schedule/Y_Sche.py:76 | `d + timedelta(days=n)` of a valid date is a valid date |
| Calendar.YearLength | makeRSS_Y_Schedule/Y_Sche.py:76 | by the proleptic Gregorian day count behind `timedelta`, a year holds 366 days when leap and 365 otherwise |
| Calendar.NextMonthDayNumber | makeRSS_Y_Schedule/Y_Sche.py:166 | the first of the next month comes the rest of the current month's days, plus one, after the date |
| Calendar.PrevDayDayNumber | makeRSS_Y_Schedule/Y_Sche.py:75 | `d - timedelta(days=1)` has a day number one lower than d |
| Calendar.AddDaysDayNumber | makeRSS_Y_Schedule/Y_Sche.py:76 | `d + timedelta(days=n)` has a day number n higher than d |
| Calendar.WalkStartIsPreviousMonth | makeRSS_Y_Schedule/Y_Sche.py:75 | the walk starts on the first of the month before today's month |
| Calendar.Step | makeRSS_Y_Schedule/Y_Sche.py:166 | `(d + timedelta(days=31)).replace(day=1)` is a valid first of month, so the correction at line 167 never runs |
| Calendar.StepIsNextMonth | makeRSS_Y_Schedule/Y_Sche.py:166-168 | from a first of month, one step lands on the first of the very next month |
| Calendar.LeFirstOfMonth | makeRSS_Y_Schedule/Y_Sche.py:97 | for a first of month a, `a <= b` holds exactly when a's month is not after b's |
| Calendar.Walk | makeRSS_Y_Schedule/Y_Sche.py:97-168 | every visited date is a valid first of month no later than the end date, and visit i is i months after the start |
| Calendar.WalkUnfold | makeRSS_Y_Schedule/Y_Sche.py:97 | the walk visits the current month and continues from the next exactly when its guard holds, and visits nothing otherwise |
| Calendar.ThreeMonthSpan | makeRSS_Y_Schedule/Y_Sche.py:76 | three consecutive months hold 89 to 92 days |
| Calendar.EndShape | makeRSS_Y_Schedule/Y_Sche.py:76 | start + 90 days is day 29 or later of the month two after the start, or day 1 or 2 of the month three after it |
| Calendar.WalkLength | makeRSS_Y_Schedule/Y_Sche.py:97-168 | the month loop runs 3 or 4 times |
| Calendar.DigitChar | makeRSS_Y_Schedule/Y_Sche.py:98 | each digit value is written as the digit character that reads back as it |
| Calendar.YearMonthText | makeRSS_Y_Schedule/Y_Sche.py:98 | `strftime('%Y%m')` of a four-digit year is six characters |
| Calendar.DayField | makeRSS_Y_Schedule/Y_Sche.py:141 | a `%d` field that matches names a day from 1 to 31 |
| Calendar.ParseSlashDate | makeRSS_Y_Schedule/Y_Sche.py:141 | an accepted `%Y/%m/%d` string names a valid date with a year from 1 to 9999 |
| Calendar.YearDigits | makeRSS_Y_Schedule/Y_Sche.py:98 | a four-digit year's decimal digits recompose it |
| Calendar.YearMonthTextFields | makeRSS_Y_Schedule/Y_Sche.py:126 | `yyyymm[:4]` reads back as the year and `yyyymm[4:]` as the month |
| Calendar.DayBlockDateParses | makeRSS_Y_Schedule/Y_Sche.py:126-141 | the date built for a day block parses exactly when its day text is a `%d` field naming a day of that month, and then it names that date |
| YScheKeys.LastSegment | makeRSS_Y_Schedule/Y_Sche.py:58 | `path.split("/")[-1]` is the longest suffix without '/', preceded by a '/' when shorter than the path |
| YScheKeys.FirstValue | makeRSS_Y_Schedule/Y_Sche.py:59-60 | `parse_qs(q).get(name, [''])[0]` is '' when the name is absent, and otherwise the value of its first occurrence |
| YScheKeys.ExtractUrlPartDependsOnly | makeRSS_Y_Schedule/Y_Sche.py:55-61 | two URLs with the same last path segment and the same first values of pri1, wd00, wd01 and wd02 get the same key, whatever their host and other parameters |
| YScheKeys.FirstValueInsert | makeRSS_Y_Schedule/Y_Sche.py:59-60 | inserting a parameter of another name anywhere leaves a name's first value unchanged |
| YScheKeys.VolatileParamIgnored | makeRSS_Y_Schedule/Y_Sche.py:55-61 | adding an untracked parameter anywhere in the query leaves the key unchanged |
| YScheKeys.ExtractUrlPartMissing | makeRSS_Y_Schedule/Y_Sche.py:60 | without any tracked parameter the key is the path segment followed by four empty fields |
| YScheKeys.StrLtTrans | makeRSS_Y_Schedule/Y_Sche.py:52 | Python's string order is transitive |
| YScheKeys.StrLtTotal | makeRSS_Y_Schedule/Y_Sche.py:52 | of two different strings one is smaller |
| YScheKeys.SortByDateDescCorrect | makeRSS_Y_Schedule/Y_Sche.py:52 | `sort(key=pubDate, reverse=True)` yields rows non-increasing by date that are a permutation of the input, and rows with equal dates keep their input order |
| YSche.ToRow | makeRSS_Y_Schedule/Y_Sche.py:143-149 | the stored row's ledger key is the candidate's key (date, extract_url_part(link)) |
| YSche.EventCands | makeRSS_Y_Schedule/Y_Sche.py:126-130 | every link of a day block becomes a candidate carrying that block's date string |
| YSche.RaiseAt | makeRSS_Y_Schedule/Y_Sche.py:135 | the first event whose category tag is missing: every earlier one has its tag, and that one has none |
| YSche.RaiseAtIs | makeRSS_Y_Schedule/Y_Sche.py:135 | the position of the first raise is the only position with that characterisation |
| YSche.RaiseAtAppend | makeRSS_Y_Schedule/Y_Sche.py:120-135 | the first raise in p ++ q is p's if p raises, otherwise \|p\| plus q's |
| YSche.MonthCandsAppend | makeRSS_Y_Schedule/Y_Sche.py:120-130 | day blocks are scanned in page order: the candidates of a ++ b are those of a, then those of b |
| YSche.MonthCandsTake | makeRSS_Y_Schedule/Y_Sche.py:120-130 | the candidates of the first i + 1 day blocks are those of the first i, then block i's |
| YSche.MonthCandsSplit | makeRSS_Y_Schedule/Y_Sche.py:120-130 | a month's candidates are those before block i, those of block i (none when it has no date tag), then those after it |
| YSche.ScanEvents | makeRSS_Y_Schedule/Y_Sche.py:130-154 | the link loop yields the block's candidates up to the first missing category, and reports a raise exactly when one is missing |
| YSche.RaiseSplit | makeRSS_Y_Schedule/Y_Sche.py:120-154 | after a prefix without a raise, a raise in the middle part cuts the scan inside that part |
| YSche.MonthStep | makeRSS_Y_Schedule/Y_Sche.py:120-154 | scanning one more day block either raises inside it or extends the raise-free prefix by its candidates |
| YSche.ScanMonth | makeRSS_Y_Schedule/Y_Sche.py:120-154 | the day-block loop yields the month's candidates up to the first raise, skipping blocks without a date tag, and reports whether a raise occurred |
| YSche.PagesOpened | makeRSS_Y_Schedule/Y_Sche.py:102 | the walk opens at most one page per visited month |
| YSche.WalkMonthsFormattable | makeRSS_Y_Schedule/Y_Sche.py:75-98 | for a valid day the walk visits 3 or 4 months, each with a four-digit year |
| YSche.CrawlUnfold | makeRSS_Y_Schedule/Y_Sche.py:97-168 | one month of the walk: a failing `newPage()` ends it; otherwise the month's yield comes before the rest |
| YSche.CrawlStep | makeRSS_Y_Schedule/Y_Sche.py:139-152 | accepting one month's rows and then filtering the rest of the walk equals filtering the whole walk |
| YSche.WalkInvStep | makeRSS_Y_Schedule/Y_Sche.py:97-168 | after a month whose page opened, the rows so far plus that month's accepted rows, followed by the rest of the walk filtered against the new keys, are still the whole walk's result, with one more page opened |
| YSche.WalkInvEnd | makeRSS_Y_Schedule/Y_Sche.py:97-176 | when the months run out or `newPage()` fails, the rows and keys collected so far are the whole walk's, and so is the page count |
| YSche.VisitMonth | makeRSS_Y_Schedule/Y_Sche.py:102-163 | one opened month adds exactly the filtered candidates before its first raise: none for a timeout, another error, or a missing list container |
| YSche.WalkMonth | makeRSS_Y_Schedule/Y_Sche.py:102-163 | one opened month appends its accepted rows and moves the walk's invariant past that month |
| YSche.WalkAt | makeRSS_Y_Schedule/Y_Sche.py:97 | while the loop guard holds, the current month is the walk's next month and the walk goes on from the step after it |
| YSche.WalkOver | makeRSS_Y_Schedule/Y_Sche.py:97 | once the loop guard fails, every month of the walk has been visited |
| YSche.WalkLoop | makeRSS_Y_Schedule/Y_Sche.py:97-168 | the month loop accepts exactly `Sieve` of the walk's candidates, and closes every page it opens |
| YSche.Crawl | makeRSS_Y_Schedule/Y_Sche.py:75-176 | the crawl's new rows and keys are those of the filtered walk, or none if the browser did not launch; pages opened equal pages closed; the browser is closed exactly when it was launched |
| YSche.CrawlSkipsFailedMonth | makeRSS_Y_Schedule/Y_Sche.py:156-163 | a month that times out or fails contributes nothing, and the walk goes on with the next month |
| YSche.CrawlKeepsEarlier | makeRSS_Y_Schedule/Y_Sche.py:97-176 | the candidates of the first k months are a prefix of the crawl's candidates, whatever happens later |
| YSche.EarlierRowsKept | makeRSS_Y_Schedule/Y_Sche.py:150-176 | the rows accepted from earlier months open the crawl's accepted rows |
| YSche.MonthKeepsBeforeRaise | makeRSS_Y_Schedule/Y_Sche.py:130-161 | within a month, the events before the one that raises are kept |
| YSche.DateGate | makeRSS_Y_Schedule/Y_Sche.py:126-154 | an event passes the `strptime` gate exactly when its day tag is a `%d` field naming a day of the walked month |
| YSche.ReadLastNByDate | makeRSS_Y_Schedule/Y_Sche.py:41-53 | [] for a missing file, otherwise the last n rows sorted by date, descending and stably |
| YSche.WindowShape | makeRSS_Y_Schedule/Y_Sche.py:48-53 | the window holds min(300, \|ledger\|) rows, non-increasing by date, and is a permutation of the ledger's last rows |
| YSche.Run | makeRSS_Y_Schedule/Y_Sche.py:63-190 | with no new rows, nothing is appended and no XML is written; otherwise the rows are appended and the window is the date-sorted tail of the updated ledger; either way the ledger ends as `RunFile` |
| YSche.CrawlAcceptsFreshKeys | makeRSS_Y_Schedule/Y_Sche.py:139-152 | the crawl's rows have keys distinct from each other and from the ledger's |
| YSche.CrawlRerunAddsNothing | makeRSS_Y_Schedule/Y_Sche.py:142-151 | crawling the same pages again against the resulting keys accepts nothing |
| YSche.RunLedgerKeys | makeRSS_Y_Schedule/Y_Sche.py:19-39 | the keys `load_existing_keys` reads from the ledger after a run are exactly the key set the crawl ended with |
| YSche.RerunAddsNothing | makeRSS_Y_Schedule/Y_Sche.py:19-190 | a second run over the same pages, starting from the ledger the first run left, accepts nothing and leaves that ledger unchanged |
| YSche.RunKeepsKeysDistinct | makeRSS_Y_Schedule/Y_Sche.py:139-190 | a ledger whose rows have distinct keys still has after a run |
| Hatena.MigrateItem | makeRSS_HatenaBookmark/makeRSS_HatenaBookmark.py:40-46 | a migrated row takes the text of each of its four elements; a title or link element without text gives '', and so does a missing or text-less description or date element |
| Hatena.MigratedMembers | makeRSS_HatenaBookmark/makeRSS_HatenaBookmark.py:34-48 | a row is migrated exactly when some item with both a title and a link element gives it |
| Hatena.MigratedAppend | makeRSS_HatenaBookmark/makeRSS_HatenaBookmark.py:34-47 | migration keeps document order |
| Hatena.Migrate | makeRSS_HatenaBookmark/makeRSS_HatenaBookmark.py:22-53 | migration gives nothing when the CSV exists, the XML is missing, or it does not parse; otherwise the migrated items and exactly their links |
| Hatena.Requests | makeRSS_HatenaBookmark/makeRSS_HatenaBookmark.py:85-128 | the page loop makes at most its page budget of requests, and at least one |
| Hatena.FailedPageStops | makeRSS_HatenaBookmark/makeRSS_HatenaBookmark.py:97-99 | a non-200 page ends the loop after that request, contributing no entries |
| Hatena.LastPageStops | makeRSS_HatenaBookmark/makeRSS_HatenaBookmark.py:121-128 | a page without a next-page link is the last one read |
| Hatena.FetchNew | makeRSS_HatenaBookmark/makeRSS_HatenaBookmark.py:85-128 | the page loop accepts exactly the filtered entries of the pages it reads, in at most 5 requests |
| Hatena.Run | makeRSS_HatenaBookmark/makeRSS_HatenaBookmark.py:65-140 | load or migrate, then fetch, prepend and save: the file afterwards is `Saved` of new ++ prior, and the window is the first 300 of those rows |
| Hatena.NewEntriesFresh | makeRSS_HatenaBookmark/makeRSS_HatenaBookmark.py:108-118 | new entries have distinct links, and none equals a prior row's link |
| Hatena.SavedRows | makeRSS_HatenaBookmark/makeRSS_HatenaBookmark.py:133-136 | the saved ledger holds exactly new ++ prior, also when that is empty and nothing is written |
| Hatena.RunKeepsOld | makeRSS_HatenaBookmark/makeRSS_HatenaBookmark.py:133-140 | the saved ledger opens with the new entries and then holds every prior row in its old order; the window opens with the first min(300, \|new\|) new entries and, when all fit, continues with the first prior rows |
| Hatena.RunKeepsLinksDistinct | makeRSS_HatenaBookmark/makeRSS_HatenaBookmark.py:105-136 | when the rows the run starts from have distinct links, so has the saved ledger |
| Hatena.RerunAddsNothing | makeRSS_HatenaBookmark/makeRSS_HatenaBookmark.py:105-136 | a second run over the same pages finds nothing new and starts from the rows the first run saved |
| PRTimes.NoWordsNoMention | makeRSS_PRTIMES/makeRSS_PRTIMES.py:84 | an empty word list mentions nothing |
| PRTimes.MentionsOccurs | makeRSS_PRTIMES/makeRSS_PRTIMES.py:84 | for any word list, `any(word in title or word in description ...)` holds exactly when some word occurs at some offset in the title or in the description (both directions) |
| PRTimes.MentionsOne | makeRSS_PRTIMES/makeRSS_PRTIMES.py:84 | with one word, the test is that the word occurs in the title or in the description |
| PRTimes.ToRow | makeRSS_PRTIMES/makeRSS_PRTIMES.py:85-90 | the stored row's link is the item's link |
| PRTimes.SelectItem | makeRSS_PRTIMES/makeRSS_PRTIMES.py:62-92 | one item, through the gates in source order, keeps the loop's invariant: rows so far, then the rest filtered against the links so far, equal the whole filter |
| PRTimes.SelectNew | makeRSS_PRTIMES/makeRSS_PRTIMES.py:61-92 | the item loop, with its gates in source order, accepts exactly `Sieve` of the complete, mentioning items with unseen links |
| PRTimes.RunFeed | makeRSS_PRTIMES/makeRSS_PRTIMES.py:44-129 | the ledger afterwards is `Appended` with the new rows; no XML without new rows, otherwise the reversed tail of 300 rows |
| PRTimes.RunAll | makeRSS_PRTIMES/makeRSS_PRTIMES.py:131-146 | the feeds are processed in list order, each against its own ledger, and each ends as `RunFeed` describes |
| PRTimes.NewRowsFresh | makeRSS_PRTIMES/makeRSS_PRTIMES.py:72-92 | new rows have distinct links, none already in the ledger, and each mentions a word in its title or description |
| PRTimes.NewRowKeys | makeRSS_PRTIMES/makeRSS_PRTIMES.py:72-92 | the new rows' links are exactly the links of the accepted items |
| PRTimes.NoWordsSkips | makeRSS_PRTIMES/makeRSS_PRTIMES.py:84-99 | an empty word list leaves the ledger untouched and writes no XML |
| PRTimes.WindowNewestFirst | makeRSS_PRTIMES/makeRSS_PRTIMES.py:101-105 | a written window holds min(300, \|ledger\|) rows, opens with the newest min(300, \|new\|) new rows, the last first, and, when all fit, continues with the newest old rows |
| PRTimes.FeedKeepsLinksDistinct | makeRSS_PRTIMES/makeRSS_PRTIMES.py:66-97 | a ledger whose links are distinct keeps them distinct after the feed |
| PRTimes.RerunSkips | makeRSS_PRTIMES/makeRSS_PRTIMES.py:72-99 | running the feed again on the same items leaves the ledger untouched and writes no XML |
| NogizakaBlog.ToRow | makeRSS_NB/makeRSS_NogizakaBlog.py:87-94 | the row's link is the full link, and its title and date are the matched ones |
| NogizakaBlog.Candidates | makeRSS_NB/makeRSS_NogizakaBlog.py:78-85 | as many triples as the shortest match list, in positional order |
| NogizakaBlog.SelectNew | makeRSS_NB/makeRSS_NogizakaBlog.py:84-95 | the triple loop accepts exactly `Sieve` of the phrase-passing triples with unseen full links |
| NogizakaBlog.RunSource | makeRSS_NB/makeRSS_NogizakaBlog.py:59-124 | the ledger afterwards is `Appended` with the new rows, and the window is always the reversed tail of 300 rows |
| NogizakaBlog.RunAll | makeRSS_NB/makeRSS_NogizakaBlog.py:44-67 | sources are processed in list order, each with its own ledger and key set |
| NogizakaBlog.NewRowsFresh | makeRSS_NB/makeRSS_NogizakaBlog.py:86-95 | new rows have distinct links, none known, and titles containing some phrase unless the phrase list is empty |
| NogizakaBlog.NoPhrasesTakeAll | makeRSS_NB/makeRSS_NogizakaBlog.py:63-95 | with no phrases, every triple whose full link is unseen gives a new row with that link |
| NogizakaBlog.WindowWithoutNews | makeRSS_NB/makeRSS_NogizakaBlog.py:99-104 | with nothing new the ledger stays the same, and the window is still rendered from its reversed tail |
| NogizakaBlog.WindowNewestFirst | makeRSS_NB/makeRSS_NogizakaBlog.py:33-42 | the window holds min(300, \|ledger\|) rows, opens with the newest min(300, \|new\|) new rows, the last first, and, when all fit, continues with the newest old rows |
| NogizakaBlog.NewRowKeys | makeRSS_NB/makeRSS_NogizakaBlog.py:86-95 | the new rows' links are exactly the full links of the accepted triples |
| NogizakaBlog.SourceKeepsLinksDistinct | makeRSS_NB/makeRSS_NogizakaBlog.py:84-98 | a ledger whose links are distinct keeps them distinct after the source |
| NogizakaBlog.RerunAddsNothing | makeRSS_NB/makeRSS_NogizakaBlog.py:63-104 | running the source again on the same page appends nothing and renders the same window |
| HinataBlog.ToRow | makeRSS_HB/makeRSS_HinataBlog.py:72-79 | the row's link is the full link, its title the unescaped matched title, and its date the matched date |
| HinataBlog.Candidates | makeRSS_HB/makeRSS_HinataBlog.py:71 | as many triples as the shortest match list, in positional order |
| HinataBlog.SelectNew | makeRSS_HB/makeRSS_HinataBlog.py:70-80 | the triple loop accepts exactly `Sieve` of the triples with unseen full links |
| HinataBlog.RunSource | makeRSS_HB/makeRSS_HinataBlog.py:52-92 | the ledger afterwards is `Saved` of new ++ old, and the window is the first 300 of those rows |
| HinataBlog.RunAll | makeRSS_HB/makeRSS_HinataBlog.py:34-58 | sources are processed in list order, each with its own ledger |
| HinataBlog.NewRowsFresh | makeRSS_HB/makeRSS_HinataBlog.py:72-80 | new rows have distinct full links, none already in the ledger |
| HinataBlog.KeepsOld | makeRSS_HB/makeRSS_HinataBlog.py:85-92 | the saved ledger opens with the new rows and then holds every old row in its old order; the window opens with the first min(300, \|new\|) new rows and, when all fit, continues with the first old rows |
| HinataBlog.SourceKeepsLinksDistinct | makeRSS_HB/makeRSS_HinataBlog.py:72-89 | a ledger whose links are distinct keeps them distinct after the source |
| HinataBlog.NewRowKeys | makeRSS_HB/makeRSS_HinataBlog.py:72-80 | the new rows' links are exactly the accepted triples' full links |
| HinataBlog.RerunAddsNothing | makeRSS_HB/makeRSS_HinataBlog.py:73-85 | re-running on identical page content yields no new rows and the same rows |

## Left out

- HTTP, the browser and asyncio are not modelled. This covers `requests.get`, pyppeteer's `launch`,
  `goto`, `waitForFunction`, `content` and `newPage`. Their results are inputs instead:
  - a per-month `MonthOutcome` and a `launched` flag for Y_Sche;
  - a `fetch` function from URL to `Page` for Hatena;
  - the fetched item list, or the pattern matches, for the other scripts.
- Extraction is not modelled: BeautifulSoup lookups and the regular expressions are replaced by
  what they would return. The required-field gates and the `zip` truncation are kept.
- A schedule link without `href` is not modelled. In the code it raises `KeyError`, which ends that
  month like a missing category does.
- PRTimes.RunAll, NogizakaBlog.RunAll, HinataBlog.RunAll, Hatena.Run: a failing `requests.get`
  is not modelled. Its call has no `try`/`except` (`makeRSS_PRTIMES.py:55`,
  `makeRSS_NogizakaBlog.py:70`, `makeRSS_HinataBlog.py:62`, `makeRSS_HatenaBookmark.py:94`), so a
  connection error ends the script. Then Hatena saves nothing, not even the entries of the pages
  already read, and PRTIMES (`makeRSS_PRTIMES.py:145-146`), NB and HB skip every later feed or
  source. In the model every fetch yields a page.
- Ledger.Rows: a `Present(false, rows)` file with rows has its rows read as data. The code's
  `DictReader` would take the first line as the header and then raise `KeyError` on the missing
  column (`Y_Sche.py:24-27`, `makeRSS_PRTIMES.py:17-19`). Only a file written by other means has
  that shape: `WritesKeepHeader` and the ledgers' `Valid` show that the scripts' own writes keep a
  header over any rows.
- File I/O is not modelled: CSV quoting, the UTF-8 BOM, `codecs`, line terminators and the file
  names. A ledger is `Absent` or `Present(hasHeader, rows)`.
- The `.replace('.xml', '.csv')` naming of PRTIMES ledgers is not modelled.
- PRTimes.RunAll, NogizakaBlog.RunAll and HinataBlog.RunAll: each requires a distinct ledger object
  per source or feed. The configured file names all differ, so two entries sharing one file is not
  modelled.
- NB's `url_and_xml.get('include_phrase', [])` is not modelled: a `Source` always has a phrase
  list, and an empty one stands for a missing key.
- XML serialisation and pretty-printing are not modelled: ElementTree, minidom and `ET.indent`. The
  windows are the rows that would be serialised. The control-character strip and the blank-line
  strip are modelled on their own, on text and on lines, because the serialised text they are
  applied to is not modelled.
- `html.unescape` is a parameter (`HinataBlog`) or already applied to the input (`YSche` titles and
  links).
- `urlparse` and `parse_qs` are simplified: a link is a parsed `Url` with a path and an ordered list
  of query pairs. Percent-decoding, blank-value dropping and the `;` separator are not modelled.
- `datetime.today()` is a parameter.
- YSche.Crawl, YSche.Run, YSche.CrawlResult: require a year from 1001 to 9998.
  - Below that, `strftime('%Y')` pads differently between platforms.
  - Above that, the code raises `OverflowError` at year 9999.
  - Neither case is modelled.
- `strptime`'s `\d` also accepts non-ASCII decimal digits. The model accepts only ASCII digits.
- Calendar.Step: the correction at `Y_Sche.py:167-168` is not modelled, because the step always
  lands on a first of month (`Step`'s contract), so that branch cannot run.
- Hatena.MigrateItem: a description or date element without text gives `''`. In the code it gives
  `None`, which the CSV writer then writes as an empty field.
- `ET.parse` on a file that exists but is malformed is modelled, as `Malformed`. The kinds of
  parse error are not modelled.
- Logging is not modelled: every `print` and `traceback.print_exc`.
- The comment at `makeRSS_HatenaBookmark.py:139` speaks of 500 items. The code uses
  `MAX_XML_ITEMS = 300`, and the model follows the code.
