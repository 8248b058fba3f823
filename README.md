# beemeteo in Dafny

This project models the core of beemeteo, a service that keeps an hourly weather series
for each location in an HBase table and fills it from outside providers on demand.

- **The pipeline.** `Source.get_historical_data` reads the cached hours of a location from
  the provider's table. It finds the gaps in them and asks the provider for those gaps. It drops fetched
  hours later than the current time and writes the rest back. It returns the requested window,
  sorted by `ts`, with one row per `(latitude, longitude, ts)`.
- **The store helpers.**
  - `save_to_hbase` and the older `HBase.save` turn documents into row keys and `cf:col` cells.
  - `get_hbase_data_batch` scans a key range page by page. It stops at a row limit and
    resumes after the last key of each page.
- **The providers.** Each one turns gaps into requests:
  - CAMS: gap grouping, widening to whole days, a pool of registered mails, the SODA server
    and its mirror;
  - MeteoGalicia: a day loop with a shifted first day, a resolution fallback and a URL rule;
  - DarkSky: a day loop per gap, then sort and de-duplication;
  - AppleWeather: ten-day request windows, a retention start and the API datetime format;
  - the older DarkSky and CAMS classes: a day loop that downloads only the days with fewer
    than 24 cached rows.

**How the model represents things.**

- Instants are integer UTC epoch seconds.
- A location's zone is a fixed offset `off`, so that local time is UTC plus `off`.
- A Python datetime is `Naive(wall)` or `Aware(instant)`.
- A frame is `NoColumns` (pandas' `DataFrame()`) or a sequence of rows.
- The table is a `Store.Table` class whose `rows` field maps byte keys to cell maps.
  `Table.Send` applies a batch of puts.
- Every outside call is a function parameter: the HTTP GET, the CSV and JSON readers,
  `forecastio.load_forecast` and the provider behind `_get_historical_data_source`.
  An exception is the `Err` case of a `Result`.
- Loops in the source are methods with loops. Each one is proved equal to a function, and
  lemmas state the properties of that function.

The modules follow the source:

- `Historical`: `src/beemeteo/sources/__init__.py`;
- `Save`, `Store`, `Keys`, `Calendar`: `src/beemeteo/utils.py` and `beemeteo/hbase.py`;
- `Cams` and `Soda`: the CAMS provider and its SODA client;
- `MeteoGalicia`, `DarkSky`, `AppleWeather`: one provider each;
- `LegacyDays`, `LegacyDarkSky`, `LegacyCams`: the older `beemeteo/sources` classes;
- `Text`, `Utf8`, `Lex`, `Sorting`, `Records`, `Wrappers`, `Web`: shared helpers.

**Behaviour of the code worth noting.** The model follows the code in each of these:

- **The gaps are not sorted.** src/beemeteo/sources/__init__.py:76-85 appends the leading
  gap, then the trailing gap, then the interior gaps (`Historical.GapsOrder`).
- **A gap runs between cached hours.** For cached 10:00, 11:00 and 14:00 and a request from
  09:00 to 15:00, src/beemeteo/sources/__init__.py:76-85 gives `(09:00, 10:00)` and
  `(11:00, 14:00)` (`Historical.GapsExample`). There is no trailing gap, because 14:00 is
  within an hour of 15:00, and the interior gap starts at the cached 11:00.
- **An empty cache is not clamped to `now`.** src/beemeteo/sources/__init__.py:72-73 makes the
  single gap run to `date_to`, while a non-empty cache's trailing gap ends at
  `min(date_to, now)` (:78-79).
- **Either duplicate may survive.** src/beemeteo/sources/__init__.py:93-97 concatenates cached
  and fetched rows, sorts them by `ts` with pandas' default unstable sort and then calls
  `drop_duplicates`. The model proves only that one row per key remains.
- **Only DarkSky names a table.** `Source` reads and writes `self.hbase_table`
  (src/beemeteo/sources/__init__.py:90, :113), whose class default is `None` (:19). DarkSky
  sets it (src/beemeteo/sources/darksky/__init__.py:10). CAMS
  (src/beemeteo/sources/cams/__init__.py:18) and MeteoGalicia
  (src/beemeteo/sources/meteogalicia/__init__.py:14) set `hbase_table_historical` instead, so
  their cache read and `save_to_hbase` are handed the table name `None`.
  `Historical.GetHistoricalData` models a provider whose table is set.
- **The CAMS credential pool skips mails.**
  src/beemeteo/sources/cams/__init__.py:92-108 removes a spent mail from the list it is
  iterating over, so the mail after it is not tried (see Findings).

## Model

| member | source | states |
|---|---|---|
| Calendar.ToTz | src/beemeteo/utils.py:36-41 | an aware datetime keeps its instant; a naive one is read as local wall time, so its instant is the wall reading minus the offset |
| Calendar.DtToTsUtc | src/beemeteo/utils.py:44-48 | a naive datetime raises; an aware one gives its epoch seconds |
| Calendar.SeriesToTsUtc | src/beemeteo/utils.py:24-28 | a naive series raises; an aware one gives its instants unchanged |
| Calendar.LocalMidnight | src/beemeteo/sources/darksky/__init__.py:23-24 | local midnight of an instant's local date: at or before the instant, less than a day before, on the same local day, and a whole local day |
| Calendar.LocalEndOfDay | src/beemeteo/sources/cams/__init__.py:64 | the last second of the instant's local day: one day after local midnight, minus one second, on the same local day |
| Calendar.TimedeltaDays | src/beemeteo/sources/appleweather/appleweather.py:92 | `timedelta.days` is the floor of the difference in whole days |
| Calendar.DayRangeSpec | src/beemeteo/sources/meteogalicia/__init__.py:48 | a daily `date_range` holds `start + k` days for every `k` that does not pass `stop`, in order, and is empty when `start > stop` |
| Calendar.FromOrdinalOrdinal | src/beemeteo/sources/appleweather/appleweather.py:21-26 | the civil calendar round-trips: `fromordinal(toordinal(d)) == d` |
| Calendar.DateTimeStringPrefix | src/beemeteo/sources/cams/__init__.py:133-136 | the first ten characters of `"%Y-%m-%d %H:%M:%S"` are the `"%Y-%m-%d"` date |
| Calendar.CompactDateStringSpec | src/beemeteo/sources/meteogalicia/__init__.py:166-169 | `"%Y%m%d"` is the dashed date without its dashes, and starts with the `"%Y"` and `"%m"` fields |
| Keys.Format3 | src/beemeteo/sources/__init__.py:61-62 | the three-decimal text of a coordinate has no `~`, at least five characters, and a leading `-` exactly for negative coordinates |
| Keys.Format3Injective | src/beemeteo/sources/__init__.py:61-62 | distinct coordinates give distinct texts, so each location has its own key prefix |
| Keys.RowKeyOrder | src/beemeteo/sources/__init__.py:113-115 | within one location, byte order of `lat~lon~ts` keys equals numeric order of `ts` when both have the same number of digits |
| Keys.RowKeyLeadingDigit | src/beemeteo/sources/__init__.py:113-115 | within one location, a smaller leading digit of `ts` sorts first whatever the lengths |
| Keys.RowKeyOrderNeedsEqualWidth | src/beemeteo/sources/__init__.py:113-115 | with unequal digit counts the orders disagree: the key for 1000 sorts before the key for 999 |
| Keys.Successor | src/beemeteo/utils.py:129 | the resume key is strictly greater than the last key of the page |
| Keys.SuccessorBetween | src/beemeteo/utils.py:129 | every key strictly between a key and its successor has that key as a proper prefix |
| Keys.PrefixRangeSound | src/beemeteo/utils.py:99-101 | every key in `[prefix, successor(prefix))` starts with the prefix |
| Keys.PrefixRangeComplete | src/beemeteo/utils.py:99-101 | when the prefix's last byte is below 0xFF, every key that starts with the prefix is in that range |
| Keys.SuccessorAscii | src/beemeteo/utils.py:129 | for a last byte below 0x7F the code's successor and the intended one agree |
| Keys.SuccessorAsWrittenSkipsKeys | src/beemeteo/utils.py:129 | as written, the successor of `[0x80]` is `[0xC2, 0x81]`, and `[0x81]` lies between them without extending `[0x80]` |
| Keys.SuccessorAsWrittenGoesBack | src/beemeteo/utils.py:129 | as written, the successor of `[0xFF]` is `[0xC4, 0x80]`, which sorts before `[0xFF]` |
| Store.ApplyPut | src/beemeteo/utils.py:91 | a put sets each of its cells to its value, keeps the row's other cells and changes no other row; a put with no cells changes nothing |
| Store.EntriesOfSpec | src/beemeteo/utils.py:114-117 | a table's rows listed in key order are exactly its rows, each with its cells |
| Store.Table.Send | src/beemeteo/utils.py:92 | sending succeeds exactly when every put names a non-empty row; it then applies the puts in order and nothing else, and otherwise raises and changes nothing |
| Store.ScanSeqSpec | src/beemeteo/utils.py:114-117 | one `table.scan` returns at most `limit` consecutive rows, starting at the first key not below `row_start`, all below `row_stop` |
| Store.LowerBoundSpec | src/beemeteo/utils.py:114-117 | a scan starts at the first row whose key is not below `row_start`: every row before it is below, and that row is not |
| Store.RunSpec | src/beemeteo/utils.py:114-117 | a scan takes the longest leading run of rows below `row_stop`, and the row after the run is not below it |
| Store.SortedKeys | src/beemeteo/utils.py:114-117 | a table's keys in scan order: strictly increasing, each key once, and no other |
| Store.PagesProgress | src/beemeteo/utils.py:120-129 | a non-empty page moves the next scan's start strictly past every row of the page |
| Store.ResumeRange | src/beemeteo/utils.py:129 | on a table where no key is a prefix of another, the scan resumed after a page covers exactly the rest of the range |
| Store.ResumeSkipsExtension | src/beemeteo/utils.py:129 | resuming after key `[1]` starts at `[2]`, so a stored key `[1, 5]` is never scanned |
| Store.PrefixScanSound | src/beemeteo/utils.py:99-101 | every row of a `row_prefix` scan starts with the prefix |
| Store.PrefixScanComplete | src/beemeteo/utils.py:99-101 | when the prefix's last byte is below 0xFF, every stored row that starts with the prefix is in the prefix's range |
| Store.YieldedEmpty | src/beemeteo/utils.py:118-119 | an empty page ends the generator, which then yields `[]`, and every property of the result holds |
| Store.YieldedLast | src/beemeteo/utils.py:124-126 | the page that reaches the limit is the last one before `[]`, and the total is then exactly the limit |
| Store.YieldedNext | src/beemeteo/utils.py:127-129 | after any other page, the page limit becomes `min(batch_size, limit - count)` and the scan resumes after the page's last key with every property kept |
| Store.Paginate | src/beemeteo/utils.py:103-130 | the generator's loop yields the pages of the spec: each page non-empty and at most `batch_size` rows, in key order inside the bounds, at most `limit` rows in all, ending with `[]`; on a prefix-free table, exactly the first `limit` rows of the range, or all of them without a limit |
| Store.PagesFromFinal | src/beemeteo/utils.py:103-130 | the pages of every scan meet those properties |
| Store.GetDataBatch | src/beemeteo/utils.py:95-130 | fails exactly for a `batch_size` below 1 or a negative `limit`; otherwise yields the pages above, a non-empty `row_prefix` overriding both bounds |
| Save.PopFieldsSpec | src/beemeteo/utils.py:81 | each key part is `str` of its field when the field is present and not named earlier, else `""`; the document left has exactly the other fields, unchanged |
| Save.RowKeyParts | src/beemeteo/utils.py:81 | with distinct row fields, the key parts are `str` of each field, or `""` when it is absent |
| Save.PopRowFields | src/beemeteo/utils.py:81 | the popping loop gives the key parts and the remaining document of the spec |
| Save.DocCellsSpec | src/beemeteo/utils.py:82-90 | a cell `cf:c` is stored exactly when some family takes field `c` of the document |
| Save.FamilyCellsHas | src/beemeteo/utils.py:83-90 | a field a family takes is stored as `cf:c` with `str` of its value |
| Save.FamilyCellsOnly | src/beemeteo/utils.py:83-90 | every cell of a family is `cf:` followed by a field that the family takes |
| Save.GatherCells | src/beemeteo/utils.py:82-90 | the column-family loop fills exactly the cells of the spec |
| Save.EncodeCellsSpec | src/beemeteo/utils.py:91 | every cell is stored under its UTF-8 name with its UTF-8 value, nothing else is stored, and no cells give no stored cells |
| Save.SavedCells | src/beemeteo/utils.py:81-90 | row fields are popped before the cells are built, so none is ever stored as a cell; the cells are exactly those the families take from the rest |
| Save.AutoKeys | src/beemeteo/utils.py:74-79 | without row fields the `n`-th document goes to `uid~n`, and different documents go to different rows |
| Save.SaveMutations | src/beemeteo/utils.py:74-91 | one put per document |
| Save.CollectPuts | src/beemeteo/utils.py:74-91 | the document loop collects one put per document, in order, as the spec gives them |
| Save.SaveToHBase | src/beemeteo/utils.py:70-92 | the save succeeds exactly when every row key is non-empty, and the table then ends up with that batch of puts applied and nothing else; otherwise it raises and the table is unchanged |
| Save.SaveKeysGiven | src/beemeteo/utils.py:77-81 | every key is non-empty exactly when each document is `Keyed`: no row fields, two or more, or a single one the document has with non-empty text |
| Save.SaveSeriesRow | src/beemeteo/sources/__init__.py:90-92 | a series row saved with `[("info", "all")]` and row fields latitude, longitude, ts goes to `lat~lon~ts` with one `info:` cell per other column |
| Save.KeyColumnsRemoved | src/beemeteo/sources/__init__.py:90-92 | removing latitude, longitude and ts from a row's document leaves exactly its other columns |
| Save.PopSeriesRow | src/beemeteo/sources/__init__.py:90-92 | popping the key columns of a row's document gives `lat`, `lon` and `str(ts)` and the row's other columns |
| Save.SeriesCells | src/beemeteo/sources/__init__.py:90-92 | with `[("info", "all")]`, a document's cells are its columns, each under `info:` |
| Save.PerFamilyPuts | beemeteo/hbase.py:53-62 | the legacy save issues one put per column family for each document |
| Save.PutPerFamily | beemeteo/hbase.py:53-62 | the family loop issues those puts, each carrying the cells collected so far |
| Save.LegacyPuts | beemeteo/hbase.py:46-62 | a document has one legacy put per family |
| Save.CollectLegacyPuts | beemeteo/hbase.py:46-62 | the document loop collects every document's per-family puts, in order |
| Save.LegacySave | beemeteo/hbase.py:37-63 | the legacy save sends all of those puts in one batch, once, and changes nothing else; it raises and changes nothing when a put's row key is empty |
| Save.LegacyKeysGiven | beemeteo/hbase.py:47-62 | the legacy puts all name a row exactly when the mapping is empty (no put is issued) or each document is `Keyed` |
| Save.LegacyMutationsLength | beemeteo/hbase.py:46-62 | the legacy batch has one put per document and family |
| Save.LegacyAutoKeys | beemeteo/hbase.py:48-50 | without row fields every put of the `n`-th document goes to row `str(n)`, and different documents go to different rows |
| Save.PerFamilyPutsMerge | beemeteo/hbase.py:53-62 | one document's per-family puts leave the table as a single put with all its cells would |
| Save.PutTwice | beemeteo/hbase.py:62 | a put followed by a put to the same row holding at least the same cells leaves the table as the second alone |
| Save.LegacySameAsSinglePuts | beemeteo/hbase.py:53-62 | so the legacy batch leaves the table exactly as one put per document would |
| Historical.InteriorGapsSound | src/beemeteo/sources/__init__.py:80-85 | every interior gap is `(ts[i], ts[i+1])` for consecutive cached rows more than an hour apart |
| Historical.InteriorGapsComplete | src/beemeteo/sources/__init__.py:80-85 | every step of more than an hour between consecutive cached rows gives an interior gap |
| Historical.InteriorGapsBounds | src/beemeteo/sources/__init__.py:80-85 | both ends of an interior gap are cached hours, more than an hour apart |
| Historical.HourlyNoInteriorGap | src/beemeteo/sources/__init__.py:80-85 | rows at most an hour apart leave no interior gap |
| Historical.LeadingGap | src/beemeteo/sources/__init__.py:76-77 | with rows cached, the gap `(from, min ts)` is there exactly when `from` is before the earliest cached hour; it then comes first |
| Historical.TrailingGap | src/beemeteo/sources/__init__.py:78-79 | with rows cached, the gap `(max ts, min(to, now))` is there exactly when `min(to, now) - 1h` is after the latest cached hour; it never ends after `now` |
| Historical.GapsNonEmpty | src/beemeteo/sources/__init__.py:76-85 | with rows cached, every gap starts before it ends |
| Historical.GapsOrder | src/beemeteo/sources/__init__.py:71-85 | the gaps come as leading, trailing, then interior, so they are not sorted by start |
| Historical.GapsExample | src/beemeteo/sources/__init__.py:71-85 | cached 10:00, 11:00 and 14:00 with a request from 09:00 to 15:00 give exactly `(09:00, 10:00)` and `(11:00, 14:00)` |
| Historical.NoGaps | src/beemeteo/sources/__init__.py:71-85 | nothing is fetched exactly when rows are cached, the first at or before the start, the last within an hour of `min(to, now)`, with no step longer than an hour |
| Historical.CollectInterior | src/beemeteo/sources/__init__.py:80-85 | the loop over the steps appends exactly the interior gaps |
| Historical.FindGaps | src/beemeteo/sources/__init__.py:71-85 | the gap code gives the whole request as one gap when nothing is cached, else the leading, trailing and interior gaps |
| Historical.DecodeEntrySpec | src/beemeteo/sources/__init__.py:116-124 | a decoded row carries the queried location and the `ts` read from the third `~` field of its key, and none of the key columns among its cells |
| Historical.DecodeCells | src/beemeteo/sources/__init__.py:118-120 | the column loop decodes every cell name and value as UTF-8 and strips `info:`, and fails when one does not decode |
| Historical.DecodeRow | src/beemeteo/sources/__init__.py:116-124 | one scanned row becomes its decoded cells plus the location and the key's `ts` |
| Historical.DecodePage | src/beemeteo/sources/__init__.py:116-124 | the row loop of a page appends one decoded row per scanned row |
| Historical.DecodeFromSpec | src/beemeteo/sources/__init__.py:116-124 | decoding succeeds exactly when every row decodes, and then gives one row per scanned row, in scan order |
| Historical.CollectAllSpec | src/beemeteo/sources/__init__.py:116-127 | collecting decoded rows succeeds exactly when every row decodes, and keeps them in order after those collected so far |
| Historical.DecodedSpec | src/beemeteo/sources/__init__.py:125-127 | a read gives a frame without columns exactly when nothing was scanned or some row fails to decode; otherwise one row per scanned row |
| Historical.GetFromHBase | src/beemeteo/sources/__init__.py:101-127 | the read scans `lat~lon~ts_ini` to `lat~lon~ts_end` and returns the decoded rows, or a frame without columns on any failure |
| Historical.ReadWindow | src/beemeteo/sources/__init__.py:113-115 | within one location, with equal digit counts, a stored key is in the read's range exactly when `ts_ini <= ts < ts_end` |
| Historical.ReadScan | src/beemeteo/sources/__init__.py:113-115 | the rows a read scans are table rows, in key order, inside the bounds; on a prefix-free table they are all the rows inside the bounds |
| Historical.KeyTsRoundTrip | src/beemeteo/sources/__init__.py:123 | the `ts` read from a `lat~lon~ts` key is `ts` when the coordinates hold no `~` |
| Historical.ColumnsRoundTrip | src/beemeteo/sources/__init__.py:118-120 | the stored `info:` cells of a row decode back to its columns |
| Historical.StoredRowReadsBack | src/beemeteo/sources/__init__.py:116-124 | the stored form of a row, its key and its cells, decodes to the row |
| Historical.SavedRowReadsBack | src/beemeteo/sources/__init__.py:90-92 | a series row written by `save_to_hbase` reads back as the same row, for a location without `~` and column names without `info:` |
| Historical.CachedSpec | src/beemeteo/sources/__init__.py:65 | every cached row belongs to the requested location |
| Historical.WindowSpec | src/beemeteo/sources/__init__.py:94-97 | the filtered, sorted, de-duplicated window is ordered by `ts`, has one row per key, keeps only input rows between the bounds, and still has every key of an input row between the bounds |
| Historical.HistoricalError | src/beemeteo/sources/__init__.py:87-93 | a request fails exactly when there are gaps and the provider raises or returns a frame without columns; nothing is saved then, nor when there are no gaps |
| Historical.HistoricalSaved | src/beemeteo/sources/__init__.py:87-93 | what is saved is ordered by `ts` and is exactly the fetched rows up to `now`, so no hour later than the current time is written |
| Historical.HistoricalResult | src/beemeteo/sources/__init__.py:94-97 | a successful request returns rows ordered by `ts`, one per key, each cached or saved, all from `ts_ini` to `min(now, ts_end + 23h)`; no key of a cached or saved row in that window is missing |
| Historical.RespondWindow | src/beemeteo/sources/__init__.py:93-97 | the answer is the window of the cached rows followed by the saved rows |
| Historical.FetchAndSave | src/beemeteo/sources/__init__.py:87-97 | after the read, the provider is called only when there are gaps; the kept rows are saved and the window returned |
| Historical.GetHistoricalData | src/beemeteo/sources/__init__.py:37-99 | the whole request, with bounds in the location's zone and three-decimal coordinates, returns the spec's answer and saves exactly the spec's rows |
| Records.TsFromTime | src/beemeteo/sources/darksky/__init__.py:66-67 | `ts` is the provider's `time`, and the other fields are kept |
| Records.Concat | src/beemeteo/sources/darksky/__init__.py:29-30 | `pd.concat` puts the rows of the first frame before those of the second, and has columns when either frame has |
| Records.UpTo | src/beemeteo/sources/__init__.py:89 | the rows kept are exactly those with `ts <= now` |
| Records.Within | src/beemeteo/sources/__init__.py:94-96 | the rows kept are exactly those between the bounds |
| Records.WithinSorted | src/beemeteo/sources/__init__.py:94-96 | filtering keeps sorted rows sorted |
| Records.SortByTsSpec | src/beemeteo/sources/__init__.py:96 | `sort_values(by=["ts"])` orders the rows and is a permutation |
| Records.DedupSpec | src/beemeteo/sources/__init__.py:97 | after `drop_duplicates`, no key repeats, every row left is an input row, every input key is still present, and sorted rows stay sorted |
| Records.SortByTsMembers | src/beemeteo/sources/__init__.py:96 | sorting keeps the number of rows and exactly the same rows |
| Records.UniqueSortedIncreasing | src/beemeteo/sources/__init__.py:96-97 | for one location, unique keys and order by `ts` mean strictly increasing timestamps |
| Records.Stamp | src/beemeteo/sources/darksky/__init__.py:32-33 | every row takes the request's latitude and longitude, nothing else changes |
| Records.TidySpec | src/beemeteo/sources/darksky/__init__.py:31-34 | a provider's answer is sorted by `ts`, one row per key, all at the location, each a downloaded row, with every downloaded hour present |
| Records.StampSorted | src/beemeteo/sources/darksky/__init__.py:32-33 | stamping the location keeps the rows ordered by `ts` |
| Records.StampMembers | src/beemeteo/sources/darksky/__init__.py:32-33 | the stamped rows are exactly the input rows moved to the location |
| Records.TidyFrom | src/beemeteo/sources/darksky/__init__.py:31-34 | every finished row is an input row moved to the location |
| Cams.SortGapsSpec | src/beemeteo/sources/cams/__init__.py:38-40 | the gaps are sorted by start and are the same gaps |
| Cams.JoinAsWritten | src/beemeteo/sources/cams/__init__.py:43-44 | as written there is one `join` flag per gap, and every flag is `False` |
| Cams.JoinFlags | src/beemeteo/sources/cams/__init__.py:41-44 | as intended there is one flag per gap: join when the next gap starts less than a year after this one ends |
| Cams.GroupGaps | src/beemeteo/sources/cams/__init__.py:45-57 | the grouping loop opens a group at a gap's start and closes it at the first gap with `join` false, taking that gap's end |
| Cams.GroupsNoJoin | src/beemeteo/sources/cams/__init__.py:45-57 | with no flag set, every gap is a group of its own |
| Cams.GroupsAsWritten | src/beemeteo/sources/cams/__init__.py:38-57 | as written, the download periods are the sorted gaps one for one |
| Cams.GroupsJoinExample | src/beemeteo/sources/cams/__init__.py:41-57 | two gaps a day apart make two downloads as written and one as intended |
| Cams.GroupsAdjacent | src/beemeteo/sources/cams/__init__.py:45-57 | consecutive groups meet at a gap whose flag is `False`: one ends with it, the next starts with the gap after it |
| Cams.GroupsSeparated | src/beemeteo/sources/cams/__init__.py:41-57 | with the intended flags, each download period starts at least a year after the previous one ends |
| Cams.GroupsCover | src/beemeteo/sources/cams/__init__.py:45-57 | with the intended flags, gaps ordered by start and by end each lie inside one download period |
| Cams.Widen | src/beemeteo/sources/cams/__init__.py:63-64 | a period widens from local midnight of its start date to the last second of its end date and still contains the period |
| Cams.RemoveFirst | src/beemeteo/sources/cams/__init__.py:108 | `list.remove` takes out the first occurrence and nothing else |
| Cams.TryAllSpec | src/beemeteo/sources/cams/__init__.py:92-108 | as intended, there is data exactly when some mail answers; it is the first such mail's data, the failed mails before it are removed, and no answer empties the pool |
| Cams.TryAllSuffix | src/beemeteo/sources/cams/__init__.py:92-108 | the pool left is always a suffix of the pool, so mails are only removed |
| Cams.PoolAsWrittenSpec | src/beemeteo/sources/cams/__init__.py:92-108 | as written, with distinct mails, only the mails at positions 0, 2, 4, … are tried: an answer exactly when one of them answers, the first such one's, leaving the mails stepped over, that mail and those after it; with no answer only the odd positions are left |
| Cams.PoolAsWrittenFrom | src/beemeteo/sources/cams/__init__.py:92-108 | from the state after `j` failed turns, the as-written loop tries the mails at even positions from `2 * j` on |
| Cams.PoolAsWrittenAnswer | src/beemeteo/sources/cams/__init__.py:92-108 | as written, for any pool, an answer is some mail's answer and that mail is still in the pool left |
| Cams.TurnFails | src/beemeteo/sources/cams/__init__.py:92-108 | a failed turn removes the mail at `2 * j`, and the next turn tries the mail two places on |
| Cams.PoolSkipsNextMail | src/beemeteo/sources/cams/__init__.py:92-108 | with a spent mail `a` and a working mail `b`: as written `b` is never tried and nothing is downloaded; as intended `b`'s data is returned |
| Cams.CamsProvider.GetHistoricPeriodAsWritten | src/beemeteo/sources/cams/__init__.py:78-108 | as written (the as-written half of the Findings row for :92-108): the mail loop removes entries from the list while iterating over it, so the mail after a spent one is skipped |
| Cams.CamsProvider.GetHistoricPeriod | src/beemeteo/sources/cams/__init__.py:78-108 | as intended (the corrected half of the Findings row for :92-108): every registered mail is tried in order until one answers, and the spent ones are removed |
| Cams.CamsSourceSpec | src/beemeteo/sources/cams/__init__.py:34-76 | under either policy, the provider fails when there are no gaps; with gaps it fails exactly when no period download returned data, and otherwise its rows are ordered by `ts` with one row per key, all carry the location, each comes from some period's download, and every downloaded hour is among them |
| Cams.CamsSourceFinish | src/beemeteo/sources/cams/__init__.py:34-76 | with no gaps the provider fails with the length mismatch of the empty column assignment; with gaps its answer is the finishing steps applied to the per-period downloads |
| Cams.DownloadsShrink | src/beemeteo/sources/cams/__init__.py:59-67 | over all periods, under either policy, the mails left are a sub-multiset of the registered ones: mails are only removed |
| Cams.PeriodsAsWritten | src/beemeteo/sources/cams/__init__.py:38-57 | as written, the download periods are exactly the gaps sorted by start |
| Cams.PeriodsAsWrittenCover | src/beemeteo/sources/cams/__init__.py:38-64 | as written, every gap lies inside the widened window of some download period |
| Cams.PeriodsExample | src/beemeteo/sources/cams/__init__.py:38-57 | two gaps a day apart are two download periods as written and one as intended |
| Cams.GatheredSpec | src/beemeteo/sources/cams/__init__.py:59-67 | the concatenated downloads have columns exactly when some period returned data, and hold exactly the rows of those downloads |
| Cams.FinishSpec | src/beemeteo/sources/cams/__init__.py:67-76 | the finishing steps fail exactly when no period returned data; otherwise the rows are ordered by `ts`, one per key, at the location, each from some download, and every downloaded hour is kept |
| Cams.CamsProvider.GetPeriod | src/beemeteo/sources/cams/__init__.py:66 | one period download under the given policy: the rows of `Period` and the pool it leaves |
| Cams.CamsProvider.HistoricalSource | src/beemeteo/sources/cams/__init__.py:34-76 | under `AsWritten` the call composes the code's all-`False` join flags and the skipping mail loop, under `Intended` the corrected flags and mail loop; either way it gives `CamsSource`'s answer and leaves its pool |
| Cams.CamsProvider.GetPeriods | src/beemeteo/sources/cams/__init__.py:59-67 | the period loop downloads each widened period in turn, concatenates the frames as `Gathered` does, and leaves the pool `Downloads` gives |
| Cams.CamsProvider.constructor | src/beemeteo/sources/cams/__init__.py:21-26 | the registered mails are kept as given, and there must be at least one |
| Soda.DatePartSpec | src/beemeteo/sources/cams/__init__.py:133-136 | the date sent is the `YYYY-MM-DD` date of the datetime, and a datetime outside years 1 to 9999 raises |
| Soda.DataInputsSpec | src/beemeteo/sources/cams/__init__.py:127-140 | the user name sent has no `@`, and a name without `@` is sent unchanged; when no value holds a `;`, `DataInputs` splits at `;` into exactly the eight `name=value` fields, in order, with both dates as given |
| Soda.Pairs | src/beemeteo/sources/cams/__init__.py:144 | one `k=v` text per payload entry, in payload order |
| Soda.ParamsSplit | src/beemeteo/sources/cams/__init__.py:144 | joined with `&`, pairs without `&` split back into the same pairs |
| Soda.ParamsOfPayload | src/beemeteo/sources/cams/__init__.py:122-144 | the query string splits back into six payload pairs, `DataInputs` fifth |
| Soda.ParseRequestSpec | src/beemeteo/sources/cams/__init__.py:185 | only the text after the last `#` is read as CSV; an answer without `#` is read whole |
| Soda.RequestServerSpec | src/beemeteo/sources/cams/__init__.py:110-148 | an answer with status 200 is parsed; another status, a raising GET or a datetime out of range raises |
| Soda.FirstAnswerSpec | src/beemeteo/sources/cams/__init__.py:161-176 | there is an answer exactly when some server answers, and it comes from a server after which every earlier one raised |
| Soda.Request | src/beemeteo/sources/cams/__init__.py:150-176 | the server loop tries the main server, then the mirror, and returns the first answer that does not raise, or `None` |
| MeteoGalicia.UrlChoice | src/beemeteo/sources/meteogalicia/__init__.py:99-173 | a day at most 14 days back uses the operational files, and any older day the archive; each URL lies under exactly one of the two trees |
| MeteoGalicia.GhiRows | src/beemeteo/sources/meteogalicia/__init__.py:183-189 | each CSV line gives one row whose only column is `GHI`, from the irradiance column |
| MeteoGalicia.AttemptSpec | src/beemeteo/sources/meteogalicia/__init__.py:174-192 | one resolution's attempt that succeeds has rows, each holding only `GHI` |
| MeteoGalicia.DayDataSpec | src/beemeteo/sources/meteogalicia/__init__.py:81-195 | a day has data exactly when some resolution in order (4,2), (12,2), (12,1), (36,2), (36,1) has lines; it is the first such one's, never empty; otherwise an empty frame |
| MeteoGalicia.GetHistoricDataDay | src/beemeteo/sources/meteogalicia/__init__.py:71-195 | the resolution loop returns at the first resolution with data |
| MeteoGalicia.ForecastsSpec | src/beemeteo/sources/meteogalicia/__init__.py:23-27 | the forecast rows are exactly the day's rows from `now` on, each stamped with the location and `now` |
| MeteoGalicia.CollectForecastingSpec | src/beemeteo/sources/meteogalicia/__init__.py:20-28 | every forecast row is at the location, issued at `now`, for an hour not before `now`; every hour of today's download from `now` on is there |
| MeteoGalicia.LoopStartSpec | src/beemeteo/sources/meteogalicia/__init__.py:41-46 | the download starts a day early exactly in zones whose offset is above `-01:00` |
| MeteoGalicia.ConcatDaysSpec | src/beemeteo/sources/meteogalicia/__init__.py:48-51 | a period has columns exactly when some day has data, and it holds exactly the days' rows |
| MeteoGalicia.ConcatDaysFold | src/beemeteo/sources/meteogalicia/__init__.py:48-51 | concatenating days onto a frame appends exactly the days' rows, and has columns when the frame or some day has |
| MeteoGalicia.WindowSpec | src/beemeteo/sources/meteogalicia/__init__.py:52-58 | the window fails on a frame without columns; otherwise it is sorted and keeps exactly the rows from the start's midnight to 23:00 of the end's day |
| MeteoGalicia.GapPeriodSpec | src/beemeteo/sources/meteogalicia/__init__.py:32-58 | a gap fails exactly when none of its days has data; otherwise its rows are sorted and exactly the downloaded rows of the widened gap |
| MeteoGalicia.CollectGapsSpec | src/beemeteo/sources/meteogalicia/__init__.py:32-59 | the gap loop succeeds exactly when every gap does, and then holds every gap's rows |
| MeteoGalicia.MeteoGaliciaSourceSpec | src/beemeteo/sources/meteogalicia/__init__.py:30-69 | the provider answers exactly when there are gaps and each has a day with data; the answer is the gaps' rows, finished |
| MeteoGalicia.GetPeriod | src/beemeteo/sources/meteogalicia/__init__.py:48-58 | the day loop of one gap gives the spec's period |
| MeteoGalicia.GetHistoricalDataSource | src/beemeteo/sources/meteogalicia/__init__.py:30-69 | the gap loop around the day loop gives the spec's answer |
| DarkSky.DataDaySpec | src/beemeteo/sources/darksky/__init__.py:50-68 | a day succeeds exactly when the download does and has records; its rows are those records, with `ts` taken from `time` |
| DarkSky.GetDataDay | src/beemeteo/sources/darksky/__init__.py:41-68 | the append loop builds the day's rows as the spec gives them |
| DarkSky.GapDaysSpec | src/beemeteo/sources/darksky/__init__.py:23-26 | a gap downloads one day per local date from its start's date to its end's date, in order, each at local midnight |
| DarkSky.GapDaysCover | src/beemeteo/sources/darksky/__init__.py:23-26 | every hour of a gap has its local day downloaded |
| DarkSky.AllDaysCover | src/beemeteo/sources/darksky/__init__.py:19-30 | every hour of every gap has its local day among the downloads |
| DarkSky.DownloadSpec | src/beemeteo/sources/darksky/__init__.py:26-30 | the day loop succeeds exactly when every day does, and has columns when some day was downloaded |
| DarkSky.FinishSpec | src/beemeteo/sources/darksky/__init__.py:31-38 | the answer is sorted by `ts`, one row per key, each a downloaded row moved to the location, with every downloaded hour present |
| DarkSky.DownloadFrom | src/beemeteo/sources/darksky/__init__.py:26-30 | every row of the day loop's result that was not there before comes from one downloaded day |
| DarkSky.FinishFrom | src/beemeteo/sources/darksky/__init__.py:26-34 | every row of the answer is a row of one downloaded day, moved to the location |
| DarkSky.DarkSkySourceSpec | src/beemeteo/sources/darksky/__init__.py:16-39 | the provider answers exactly when some day is to be downloaded and every download has records; the answer is as above for the days of all gaps |
| DarkSky.GetPeriod | src/beemeteo/sources/darksky/__init__.py:26-29 | the day loop of one gap concatenates each day's rows, or raises with the first day that raises |
| DarkSky.GetHistoricalDataSource | src/beemeteo/sources/darksky/__init__.py:16-39 | the gap loop around the day loop gives the spec's answer |
| AppleWeather.ApiStringFields | src/beemeteo/sources/appleweather/appleweather.py:21-23 | `%Y-%m-%dT%H:%M:%SZ` is twenty characters, with each field at its fixed place |
| AppleWeather.ApiRoundTrip | src/beemeteo/sources/appleweather/appleweather.py:21-26 | `_api_to_datetime(_datetime_to_api(d)) == d` for every naive datetime of second precision |
| AppleWeather.ApiStringInjective | src/beemeteo/sources/appleweather/appleweather.py:21-23 | distinct datetimes have distinct API strings |
| AppleWeather.WindowsSpec | src/beemeteo/sources/appleweather/appleweather.py:92-109 | the windows run on from the cursor with no gaps; each lasts from one to ten days, all but the last exactly ten; there are none when less than a day remains; the last ends less than a day before the end |
| AppleWeather.WindowsFirst | src/beemeteo/sources/appleweather/appleweather.py:92-109 | there are no windows exactly when less than a day remains; otherwise the first starts at the cursor |
| AppleWeather.WindowsLast | src/beemeteo/sources/appleweather/appleweather.py:102-109 | the last window ends less than a day before the end, and not after it |
| AppleWeather.WindowsLengths | src/beemeteo/sources/appleweather/appleweather.py:92-109 | every window lasts from one to ten days |
| AppleWeather.WindowsContiguous | src/beemeteo/sources/appleweather/appleweather.py:92-100 | every window but the last lasts ten days and ends where the next one starts |
| AppleWeather.WindowsWholeDays | src/beemeteo/sources/appleweather/appleweather.py:90-109 | for a whole number `n` of days, the windows tile the span exactly and there are `ceil(n / 10)` of them |
| AppleWeather.CollectWindows | src/beemeteo/sources/appleweather/appleweather.py:92-109 | the request loop sends exactly the windows of the spec, in order, and stops at the first request that raises |
| AppleWeather.CollectSpec | src/beemeteo/sources/appleweather/appleweather.py:92-109 | the requests succeed exactly when every window's request does, and then hold each window's records in order |
| AppleWeather.RequestServerWindows | src/beemeteo/sources/appleweather/appleweather.py:71-90 | a start before 2021-08-01 raises `NotImplementedError`; the windows start at the cursor and end within the day before `day_to + 1 day`; `currentWeather` is one one-day request |
| AppleWeather.Requests | src/beemeteo/sources/appleweather/appleweather.py:51-116 | with the window request given, `_request_server` returns the spec's result |
| AppleWeather.RequestServer | src/beemeteo/sources/appleweather/appleweather.py:51-116 | `_request_server` sends the window requests to the Weather API for the location and service, and returns the spec's result |
| AppleWeather.WithoutSpec | src/beemeteo/sources/appleweather/appleweather.py:129 | after `del obj[k]` there is no `k` and every other entry is kept |
| AppleWeather.ParseRequestSpec | src/beemeteo/sources/appleweather/appleweather.py:119-134 | `currentWeather` gives the object without `name` and `metadata`, other services give the list of hours; each case fails exactly when its fields are missing; `StopIteration` exactly for an empty object, list or string, and any answer that is not an object fails |
| AppleWeather.ConvertFieldSpec | src/beemeteo/sources/appleweather/appleweather.py:112-113 | a `forecastStart` or `asOf` value written in the API format comes back as its datetime; other keys are kept as they are |
| AppleWeather.ConvertRecordSpec | src/beemeteo/sources/appleweather/appleweather.py:112-113 | converting a record keeps its keys in order and succeeds exactly when each field converts |
| AppleWeather.ConvertAllSpec | src/beemeteo/sources/appleweather/appleweather.py:110-113 | the record loop succeeds exactly when every record converts, and keeps them in order |
| AppleWeather.ConvertTimes | src/beemeteo/sources/appleweather/appleweather.py:110-113 | the `for d in data_list` loop converts the records as the spec does |
| LegacyDays.DaysSpec | beemeteo/sources/darksky/__init__.py:19-21 | the days are `date_from` plus each whole number of days that still ends by `date_to`, so `date_to`'s own day is never among them |
| LegacyDays.Needed | beemeteo/sources/darksky/__init__.py:26 | a day is to be downloaded exactly when fewer than 24 rows are cached for it |
| LegacyDays.FillNeeded | beemeteo/sources/darksky/__init__.py:22-34 | the loop downloads exactly the days with fewer than 24 cached rows, in order; the other days play no part |
| LegacyDays.GatherFrames | beemeteo/sources/darksky/__init__.py:30-34 | when every download and the held frame have columns, the merge gives a frame with the records of every downloaded day in day order, or `None` when nothing was downloaded |
| LegacyDays.GatherNone | beemeteo/sources/cams/__init__.py:31-35 | starting from `None`, the result stays `None` exactly when every download gave `None` |
| LegacyDays.GatherKeepsFrame | beemeteo/sources/darksky/__init__.py:30-34 | once there is a frame, merging never gives `None` again |
| LegacyDays.GetDataSpec | beemeteo/sources/darksky/__init__.py:15-35 | `None` when no day needs downloading; one needed day gives its own frame; with every download a frame with columns, the records of the needed days in day order; with two needed days or more, a frame without columns among them raises `MergeError` |
| LegacyDays.GatherMergeError | beemeteo/sources/darksky/__init__.py:30-34 | once a frame is held, a held frame without columns followed by a day, or a needed day's frame without columns, makes the merge raise `MergeError` |
| LegacyDays.GatherFromNoneMergeError | beemeteo/sources/darksky/__init__.py:18-34 | from `None`, two needed days or more, one of them without columns, raise `MergeError` |
| LegacyDays.GetData | beemeteo/sources/darksky/__init__.py:15-35 | the day loop reads the cache per day, downloads the incomplete days and merges them as the spec does |
| LegacyDarkSky.DataDaySpec | beemeteo/sources/darksky/__init__.py:37-62 | the download is asked for the instant of the day's local reading (`date_range` keeps `date_from`'s time of day); a day raises exactly when the download does; otherwise its frame has no columns exactly when there are no hourly records, and else holds them in order, each `time` as a UTC instant and its fields unchanged |
| LegacyDarkSky.GetDataDay | beemeteo/sources/darksky/__init__.py:47-62 | the append loop builds the day's frame as the spec gives it, without columns when there are no hourly records |
| LegacyDarkSky.GetData | beemeteo/sources/darksky/__init__.py:15-35 | the day loop with this provider's day download |
| LegacyDarkSky.GetDataSpec | beemeteo/sources/darksky/__init__.py:15-62 | when every needed download succeeds, the result is `None` exactly when no day needs one; when each needed day has hourly records, it is their localized records in day order; when two days or more are needed and one has no hourly records, it raises `MergeError` |
| LegacyDarkSky.GetDataFrames | beemeteo/sources/darksky/__init__.py:15-62 | when every needed download succeeds, each gives a frame and the result is `None` exactly when no day is needed |
| LegacyDarkSky.GetDataAllRecords | beemeteo/sources/darksky/__init__.py:15-62 | when each needed day has hourly records, the result is a frame of their localized records in day order |
| LegacyDarkSky.GetDataEmptyDay | beemeteo/sources/darksky/__init__.py:15-62 | two needed days or more, one with no hourly records, make the merge raise `MergeError` |
| LegacyCams.DataDaySpec | beemeteo/sources/cams/__init__.py:53-60 | only the first mail is used, no mail gives `None`, and a day has data exactly when the server or its mirror answers |
| LegacyCams.WindowOneDate | beemeteo/sources/cams/__init__.py:49-52 | a day's window `[day, day + 1 day - 1 s]` asks for one date: its two ends have the same `YYYY-MM-DD` |
| LegacyCams.GetDataDay | beemeteo/sources/cams/__init__.py:38-60 | the mail loop returns the first mail's answer, a parsed CSV frame with columns |
| LegacyCams.GetData | beemeteo/sources/cams/__init__.py:24-36 | the day loop with this provider's day download |
| LegacyCams.GetDataSpec | beemeteo/sources/cams/__init__.py:24-36 | the result is `None` exactly when every day with fewer than 24 cached rows got no answer; when each got one, a frame with their records in day order |
| Wrappers.FirstOkSpec | src/beemeteo/sources/cams/__init__.py:161-176 | the first candidate that does not fail is returned, and `None` when every candidate fails |

## Left out

- HTTP and store I/O are parameters. These include `requests.get`, `forecastio.load_forecast`,
  happybase connections and transport, `read_config`, and `config.json`. The model does not
  capture what the outside services return.
- Time zones are a fixed offset per location. TimezoneFinder, pytz and daylight saving are
  not modelled. `datetime.utcnow()` is the parameter `now`.
- Sub-second parts are dropped. `now` and the request bounds are whole epoch seconds, while
  `datetime.utcnow()` carries microseconds. So the gap tests at
  src/beemeteo/sources/__init__.py:78-79 can differ: with the latest cached hour
  3600.4 seconds before `now`, Python emits a trailing gap and the model does not.
- Floating point is left out. Coordinates are given in thousandths of a degree before
  `format(x, '.3f')`. Irradiance and other readings are opaque strings.
- pandas is modelled by what each call does to the rows. CSV and JSON parsing and
  `to_datetime` are parameters.
- Column order is not modelled. Rows are maps, so `set_index(key_cols)[sorted(...)]` (key
  columns first, then the rest sorted) has nothing to reorder.
- Which duplicate survives is not modelled. `sort_values` is not stable, so the model does
  not claim that cached rows are preferred.
- `Historical.GetHistoricalData` returns `ts` as instants. The final conversion back to local
  datetimes (src/beemeteo/sources/__init__.py:98) is left out.
- The warning logged for a request ending after `now` and all other logging are left out.
- `save_to_hbase`'s and `HBase.save`'s `batch_size` auto-send is left out: the model sends
  one batch. With more than `batch_size` puts and an empty row key, the chunks already sent
  (src/beemeteo/utils.py:73, beemeteo/hbase.py:45) stay written, while the model writes nothing.
  happybase counts a batch's size in cells, not in puts, and sends once the count reaches
  `batch_size`; the model has no such count.
- Save.LegacySave: cell versions are not modelled. `version=int(time.time())`
  (beemeteo/hbase.py:42) is evaluated once, at import, in seconds, and every put is stamped
  with it (:45). A stored cell with a later timestamp (one stamped by the server in
  milliseconds, as `save_to_hbase` leaves it, or by a process imported later) still hides the
  value written, and reads return the old one. The model overwrites: it assumes no stored cell
  in a written row is newer than `version`.
- `Keys.Successor` is modelled as the intended successor. For a last byte of 0xFF it appends
  a zero byte, and `Store.PrefixScanComplete` assumes a last byte below 0xFF. The code's own
  successor is `Keys.SuccessorAsWritten` (see Findings).
- Historical.ReadScan, Store.ResumeRange, Store.Paginate and Store.GetDataBatch: what a scan
  yields is stated only for tables where no key is a prefix of another. On other tables the scan may skip keys that extend a page's last key
  (`Store.ResumeSkipsExtension`).
- `Historical.KeyTsRoundTrip` assumes coordinates without `~`. `int()`'s tolerance of spaces
  and `+` in the key's third field is not modelled.
- `Source.save` (src/beemeteo/sources/__init__.py:129-143) is left out. It is dead code that
  uses an attribute that does not exist.
- Three AppleWeather parts are left out:
  - src/beemeteo/sources/appleweather/__init__.py, which is not valid Python;
  - `_get_forecasting_data`;
  - the import-time script of appleweather.py.
- The other providers' `get_forecasting_data` and `_collect_forecasting` are left out. Only
  MeteoGalicia's is modelled.
- Cams.CamsProvider.constructor: the `assert len(mails) > 0` is a precondition, so the model
  does not capture the `AssertionError`.
- Cams.GroupsCover requires the gaps to be sorted by end as well as by start. A gap nested
  inside an earlier one is not covered by this lemma.
- Datetimes outside the years 1 to 9999 are the `Err` case where the model formats a date.
  pandas' narrower `Timestamp` range is not modelled.
- MeteoGalicia.GhiRows assumes the CSV has no column already named `GHI`.
- MeteoGalicia.CollectForecastingSpec: `now` is an instant. `astimezone` is not modelled
  apart from the offset.
- Soda.ParamsOfPayload states the query string's shape. It assumes `DataInputs` holds no `&`,
  and the URL encoding that `requests` applies is not modelled.
- `strptime`'s tolerance of single-digit fields and `strftime`'s handling of years below 1000
  are not modelled. AppleWeather.ApiRoundTrip holds for strings that `_datetime_to_api` writes.
- AppleWeather.ParseRequestSpec: if `hours` is not a list, the model returns
  `Err("TypeError")`. Python's `data_list += …` (appleweather.py:100, :109) takes any
  iterable. An empty dict or string adds nothing, and the call succeeds. A non-empty one adds
  its keys or characters, and the later loop over the records fails. Anything else raises
  `TypeError` at once.
- AppleWeather.ParseRequest: a list answer whose first item is an integer is indexed by it in
  Python (appleweather.py:127-128), and may then go on. The model gives `TypeError` for every
  non-empty list or string answer. Apple's answers are objects.
- `datetime.fromisoformat` is left out.
- `DataFrame.from_records(data_list)` is returned as the list of converted records.
- A legacy DarkSky record without `time` is not modelled. Each record carries its time.
- `pd.merge(data, daily_data, how="outer")` in the legacy day loop is modelled in two cases.
  A frame without columns raises `MergeError`. Two frames with columns share `time`, so the
  merge is modelled as concatenation: the records of different days have different times, so
  no two rows merge. pandas also sorts an outer merge on its join keys, so concatenation
  equals it only when the days come in time order, as the day loop produces them.
- The interior-gap loop calls `Series.iteritems` (src/beemeteo/sources/__init__.py:82),
  which pandas 2.0 removed. The model follows the loop as it runs on older pandas.
- The legacy classes call `self._get_from_hbase` and `_to_tz`. beemeteo/sources/__init__.py
  defines neither of them (it holds only an abstract `get_data`). Nor does it define an
  `__init__`, so `super(...).__init__(config)` reaches `object.__init__` and raises
  `TypeError`. The module-level `from beemeteo.sources import _to_tz`
  (beemeteo/sources/cams/__init__.py:9) fails on import. The legacy members therefore model
  the methods in isolation.
  - The per-day cache count is therefore the parameter `cached`.
  - `_to_tz(day, timezone)` is modelled as localization, so the wall-clock reading is kept.
- LegacyCams.GetDataDay writes the mail loop as an `if`. `_request` never raises, so the loop
  body runs at most once.
- A legacy DarkSky day with no hourly records gives `DataFrame.from_dict([])`, a frame without
  columns (`LegacyDays.Columnless`). Merging it with another day raises `MergeError`.
- Records.Concat: missing columns are not filled. pandas' `concat` puts `NaN` in a column
  that one frame lacks, and `save_to_hbase` then writes it as the string `"nan"`
  (src/beemeteo/utils.py:85-86). Rows are maps in the model, so such a cell is absent instead.
  This affects Save.SeriesCells and Historical.HistoricalSaved for fetched frames with
  differing columns (src/beemeteo/sources/__init__.py:90-93, the CAMS period concatenation at
  src/beemeteo/sources/cams/__init__.py:67 and the DarkSky day loop).
- The model assumes Python 3.10 or later, where a `staticmethod` object defined at module level
  is callable. src/beemeteo/sources/appleweather/appleweather.py:118-119 defines one, and
  :100 and :109 call it.
- The `Lex`, `Utf8`, `Text` and `Sorting` helpers and the calendar arithmetic support the
  proofs. They model no source lines of their own.

## Findings

| source | as written | input that shows it | evidently intended | confidence | as-written member | corrected member |
|---|---|---|---|---|---|---|
| src/beemeteo/utils.py:129 | the resume key is `last[:-1] + chr(last[-1] + 1).encode("utf-8")`, which is two bytes once the last byte is 0x7F or more | last key `[0x80]` gives `[0xC2, 0x81]`, which skips the stored key `[0x81]`; last key `[0xFF]` gives `[0xC4, 0x80]`, which sorts before it | the last byte plus one, or for 0xFF the key followed by a zero byte, so the resume key is the next key after the page | not executed | Keys.SuccessorAsWrittenSkipsKeys | Keys.SuccessorBetween |
| src/beemeteo/sources/cams/__init__.py:43-44 | `isinstance(gaps_df.between_gaps, bool)` asks whether a whole column is a `bool`, which it never is, so every `join` flag is `False` | two gaps a day apart are downloaded as two periods | join gaps less than a year apart into one download period | not executed | Cams.GroupsJoinExample | Cams.GroupsSeparated |
| src/beemeteo/sources/cams/__init__.py:92-108 | `cams_registered_mails.remove(mail)` inside `for mail in cams_registered_mails` skips the mail after each removed one | mails `a` (spent) and `b` (working): `b` is never tried, nothing is downloaded and `b` is left | try each registered mail in order until one answers, removing the spent ones | not executed | Cams.PoolSkipsNextMail | Cams.TryAllSpec |
