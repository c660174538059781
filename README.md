# Sales warehouse ETL: SCD Type 2 and surrogate keys

This project models the transform and load core of a small sales data
warehouse ETL. The ETL reads CRM and ERP extracts and builds four tables:

- `dim_customer` and `dim_product`, kept as Slowly Changing Dimensions of
  Type 2;
- `dim_date`, one row per distinct raw date found in the sales;
- `fact_sales`, the sales with the surrogate keys of their dimension rows.

What the model covers:

- **Surrogate keys.** `generate_sk` continues the numeric sequence behind the
  existing keys (`CUST1`, `CUST2`, ...). It fails when a stored key does not
  parse.
- **SCD Type 2.** Each candidate row is merged with the current snapshot on
  its business key. `is_changed` decides whether the candidate is new, has
  changed or is unchanged. Superseded snapshot rows are closed: they get an
  end date and the current flag `N`. New and changed rows get new surrogate
  keys.
- **Customer and product transforms.**
  - Keys are cleaned and the sources are merged.
  - The customer side clamps a future create date to today and keeps the
    latest row per customer key.
  - The product side derives a category key and end dates from the next
    start date of the same product key.
- **Date and fact transforms.**
  - Raw dates are collected and turned into calendar rows.
  - Sales are left-merged with the dimensions on normalised keys.
  - The fact table is numbered `SALES1`, `SALES2`, ...
- **Loading.** The loaders filter rows against per-table watermarks kept in a
  tracker. They issue expiry updates for closed rows, append the rest, and
  advance the tracker.

**Data model.**

- Frames are sequences of datatype records.
- A left merge is `Frames.LeftJoin`. It yields one row per match, or one
  unmatched row, for each left row. A missing key (NaN or NaT) matches a
  missing key, as pandas does.
- Dates are `yyyymmdd` integers wrapped in `Option` (`None` is NaT).
- The run date `today` is a parameter.
- Where the source mutates a caller's frame, the model takes an `array` and
  states its new contents. This covers key cleaning in the customer
  transform, the expiry of the current dimension, and key normalisation in
  the fact transform.
- The loaders are methods of a `Loader.Warehouse` object. It holds the
  tracker map and the sequence of effects sent to the database (appends and
  expiry updates).

## Model

| member | source | states |
|---|---|---|
| Text.StripShape | sale_warehouse/etl/transform.py:24 | `str.strip` leaves a slice bracketed by whitespace whose ends are not whitespace |
| Text.Strip | sale_warehouse/etl/transform.py:24 | `str.strip` never lengthens its input and leaves neither leading nor trailing whitespace; StripShape and StripUnique give the exact result |
| Text.StripUnique | sale_warehouse/etl/transform.py:35-36 | whitespace padding around an unpadded string is exactly what `strip` removes |
| Text.StripIgnoresPadding | sale_warehouse/etl/transform.py:35-36 | adding whitespace around a value does not change its stripped form |
| Text.StripIdempotent | sale_warehouse/etl/transform.py:25 | stripping twice is stripping once |
| Text.StripSplits | sale_warehouse/etl/transform.py:24 | the input is the leading padding, the stripped value and the trailing padding, in order |
| Text.Upper | sale_warehouse/etl/transform.py:37-38 | `str.upper` keeps the length, leaves no lower-case letter, turns each lower-case letter into its capital (code point minus 32) and leaves every other character alone |
| Text.UpperConcat | sale_warehouse/etl/transform.py:37 | upper-casing distributes over concatenation |
| Text.StripUpperCommute | sale_warehouse/etl/transform.py:86 | stripping and upper-casing commute, so the normalisation in `is_changed` does not depend on their order |
| Text.LexTotal | sale_warehouse/etl/transform.py:166 | string order used by `sort_values` is total |
| Text.LexTrans | sale_warehouse/etl/transform.py:166 | string order is transitive |
| Text.LexAntisym | sale_warehouse/etl/transform.py:166 | string order is antisymmetric |
| Text.ZFill | sale_warehouse/etl/transform.py:354 | `zfill(width)` returns an input of at least width characters unchanged, and otherwise pads with zeros to width on the left, after a leading `+` or `-` sign when there is one |
| Text.Split | sale_warehouse/etl/transform.py:376 | `str.split` yields at least one piece, no piece holds the separator, and a string without the separator is a single piece |
| Text.JoinSplit | sale_warehouse/etl/transform.py:376 | joining the pieces of a split with the same separator gives back the input |
| Text.SplitAfterSegment | sale_warehouse/etl/transform.py:376 | splitting `a-rest` with `a` free of `-` gives `a` followed by the pieces of `rest` |
| Text.RemoveAllGone | sale_warehouse/etl/transform.py:23 | after `replace('-', '')` no hyphen is left |
| Text.RemoveAll | sale_warehouse/etl/transform.py:23 | `replace(pat, '')` never lengthens its input, only keeps characters of the input, and is the identity for an empty pattern; RemoveAllGone and RemoveLeadingPattern give the result on the ETL's inputs |
| Text.RemoveAllAbsent | sale_warehouse/etl/utils.py:41 | `replace(prefix, '')` leaves a string alone when the prefix's first character never occurs |
| Text.RemoveLeadingPattern | sale_warehouse/etl/utils.py:41 | removing the prefix from prefix + digits gives back the digits |
| Text.NatToString | sale_warehouse/etl/utils.py:50 | formatting a natural number yields decimal digits only |
| Text.NatToStringValue | sale_warehouse/etl/utils.py:50 | the digits formatted for n have the value n |
| Text.ParseIntToString | sale_warehouse/etl/utils.py:41 | `int(str(n))` gives back n for every integer n |
| Text.ParseInt | sale_warehouse/etl/utils.py:41 | `int(s)` succeeds exactly when the stripped input is digits after an optional sign, and is negative only after a `-`; ParseIntToString gives the round trip |
| Text.IntToStringInjective | sale_warehouse/etl/utils.py:50 | distinct numbers format to distinct strings |
| Text.NoSpaceStrip | sale_warehouse/etl/transform.py:370 | a string without whitespace is its own stripped form |
| Dates.ParseYmd | sale_warehouse/etl/transform.py:394 | `to_datetime(format='%Y%m%d', errors='coerce')` keeps a raw value that is a valid day inside pandas' Timestamp range, and makes anything else NaT |
| Dates.QuarterRange | sale_warehouse/etl/transform.py:332 | the quarter of a valid day is between 1 and 4 |
| Frames.MapInPlace | sale_warehouse/etl/transform.py:23 | assigning a transformed column in place leaves the mapped rows in the caller's frame |
| Frames.Matches | sale_warehouse/etl/transform.py:30 | the right rows a left row merges with are exactly the right rows with its key |
| Frames.JoinOne | sale_warehouse/etl/transform.py:30 | a left row yields one merged row per match, or one unmatched row |
| Frames.JoinOneMember | sale_warehouse/etl/transform.py:30 | a merged row of one left row carries a matching right row, or none when no right row matches |
| Frames.LeftJoinMember | sale_warehouse/etl/transform.py:30-31 | a row is in the left merge iff its left part is a left row and its right part is a match or is missing exactly when nothing matches |
| Frames.LeftJoinKeepsLeft | sale_warehouse/etl/transform.py:30-31 | no left row is dropped by a left merge |
| Frames.MatchesOfUniqueKeys | sale_warehouse/etl/transform.py:30 | against a right side with unique keys a row matches at most once |
| Frames.LeftJoinOneToOne | sale_warehouse/etl/transform.py:172-177 | with unique right keys the left merge keeps row count and order, pairing each row with its match or none |
| Frames.LeftJoinSingles | sale_warehouse/etl/transform.py:357-362 | when every left row matches at most once the merge is row-for-row |
| Frames.Insert | sale_warehouse/etl/transform.py:58 | one insertion step of the sort adds exactly that row to the frame's rows |
| Frames.SortBy | sale_warehouse/etl/transform.py:58 | `sort_values` permutes the rows |
| Frames.SortBySorted | sale_warehouse/etl/transform.py:166 | under a total preorder the result of `sort_values` is sorted |
| Frames.InsertSorted | sale_warehouse/etl/transform.py:166 | inserting into a sorted frame keeps it sorted |
| Frames.SortByUnique | sale_warehouse/etl/transform.py:58 | sorting keeps keys unique |
| Frames.InsertUnique | sale_warehouse/etl/transform.py:58 | inserting a row with a fresh key keeps keys unique |
| Frames.DedupLastKeys | sale_warehouse/etl/transform.py:58 | `drop_duplicates(keep='last')` keeps exactly the keys that occur |
| Frames.DedupLastUnique | sale_warehouse/etl/transform.py:58 | after `drop_duplicates` no key occurs twice |
| Frames.DedupLastIsLast | sale_warehouse/etl/transform.py:58 | every kept row is the last row with its key |
| Frames.MaxOf | sale_warehouse/etl/utils.py:41 | `max` is an element and bounds every element |
| KeyGen.MaxSuffix | sale_warehouse/etl/utils.py:41 | the maximum exists iff every key parsed; it bounds every suffix and is one of them; otherwise the first unparsable key is reported |
| KeyGen.LastSequence | sale_warehouse/etl/utils.py:40-43 | the last sequence number is 0 for no stored keys, the largest suffix otherwise, and an error naming a key that does not parse |
| KeyGen.GenerateSk | sale_warehouse/etl/utils.py:37-52 | fails exactly when the last sequence fails; otherwise numbers the rows in order from last + 1 with the prefix |
| KeyGen.FormatKeySuffix | sale_warehouse/etl/utils.py:50 | parsing a formatted key gives back its number |
| KeyGen.FormatKeyInjective | sale_warehouse/etl/utils.py:49-52 | distinct numbers give distinct keys |
| KeyGen.FormatKey | sale_warehouse/etl/utils.py:49-52 | with an empty prefix the key is the bare number; otherwise it is a text key starting with the prefix; FormatKeySuffix and FormatKeyInjective give its inverse |
| KeyGen.NumberedKeysDistinct | sale_warehouse/etl/utils.py:46-50 | consecutively numbered rows carry pairwise distinct keys |
| KeyGen.GeneratedKeysDistinct | sale_warehouse/etl/utils.py:46-52 | generated keys are pairwise distinct |
| KeyGen.GeneratedKeysAboveExisting | sale_warehouse/etl/utils.py:40-52 | every generated key parses, lies above every stored key and differs from all of them |
| KeyGen.LastSequenceIs | sale_warehouse/etl/utils.py:41 | a suffix that parses and bounds all others is the last sequence number |
| KeyGen.NextRunContinues | sale_warehouse/etl/utils.py:40-50 | after storing one run's keys, the next run succeeds and numbers above everything stored |
| ChangeDetect.IsChanged | sale_warehouse/etl/transform.py:75-100 | a changed row that has a match matched the current row, and a current match whose tracked columns are all the same value is unchanged; DetectChange computes it and ChangeNeedsADifference characterises it |
| ChangeDetect.DetectChange | sale_warehouse/etl/transform.py:75-100 | an unmatched row is changed; a match with a non-current row is not; otherwise changed iff some tracked column differs after strip/upper with two missing values equal |
| ChangeDetect.PaddingAndCaseIgnored | sale_warehouse/etl/transform.py:84-88 | whitespace padding and letter case never make a change |
| ChangeDetect.NullAgainstValue | sale_warehouse/etl/transform.py:96-99 | a missing value against a present one is a difference, in both orders |
| ChangeDetect.ChangeNeedsADifference | sale_warehouse/etl/transform.py:80-100 | for a current match, changed iff a column differs; all columns missing on both sides is unchanged |
| ChangeDetect.UpperIdempotent | sale_warehouse/etl/transform.py:86 | upper-casing twice is upper-casing once |
| ChangeDetect.NameExample | sale_warehouse/etl/transform.py:84-88 | a stored `"  john "` and a candidate `"JOHN"` are the same value |
| Scd.Stamp | sale_warehouse/etl/transform.py:62-64 | each candidate becomes an open version: effective today, no end date, flag Y |
| Scd.DetectAll | sale_warehouse/etl/transform.py:102-120 | applying `is_changed` over the merged frame yields the changed rows with their `new` flag and the keys of the snapshot rows to expire |
| Scd.SelectionStep | sale_warehouse/etl/transform.py:104-120 | the selection of changed rows and expiry keys proceeds one merged row at a time |
| Scd.ChangedRowsAppend | sale_warehouse/etl/transform.py:120 | selecting changed rows commutes with concatenation |
| Scd.ChangedRowsMember | sale_warehouse/etl/transform.py:113-120 | a row is output iff it comes from a changed merged row, new exactly when unmatched |
| Scd.ChangedRows | sale_warehouse/etl/transform.py:120 | selecting the changed rows never adds rows; ChangedRowsMember gives its contents |
| Scd.ExpiredKeysMember | sale_warehouse/etl/transform.py:104 | a key is expired iff a changed merged row matched a snapshot row with that key |
| Scd.ExpiredKeys | sale_warehouse/etl/transform.py:104 | there are never more expired keys than changed rows; ExpiredKeysMember gives its contents |
| Scd.Expire | sale_warehouse/etl/transform.py:106-109 | expired keys get end date today and flag N; every other row and column is unchanged |
| Scd.ExpireInPlace | sale_warehouse/etl/transform.py:106-109 | the loop over expired rows leaves exactly `Expire` of the snapshot in the caller's frame |
| Scd.AllNew | sale_warehouse/etl/transform.py:128-131 | the initial load marks every candidate new |
| Scd.ApplyScd | sale_warehouse/etl/transform.py:66-136 | expires the snapshot in place and returns the changed rows with generated keys, or every candidate when there is no snapshot, or the key error |
| Scd.OutputRowSound | sale_warehouse/etl/transform.py:112-124 | every output row is a candidate that is either unmatched (new) or supersedes a current snapshot row |
| Scd.OutputRowComplete | sale_warehouse/etl/transform.py:112-124 | every candidate that is unmatched or supersedes a current snapshot row is output |
| Scd.ScdOutputMember | sale_warehouse/etl/transform.py:66-131 | output membership as an iff: a candidate, new iff unmatched, and changed only against a current row whose columns differ |
| Scd.ExpiredKeySound | sale_warehouse/etl/transform.py:104 | every expired key belongs to a snapshot row some candidate supersedes |
| Scd.ExpiredKeyComplete | sale_warehouse/etl/transform.py:104-109 | every superseded snapshot row's key is expired |
| Scd.ExpiryTargets | sale_warehouse/etl/transform.py:104-109 | a snapshot row is expired iff some candidate supersedes a row with its surrogate key |
| Scd.MatchesOneCurrent | sale_warehouse/etl/transform.py:70-73 | with one current row per key, a candidate matches at most one current row |
| Scd.ChangedOfMatched | sale_warehouse/etl/transform.py:75-79 | among the matches of one candidate at most one is changed, and none when no match is current |
| Scd.ChangedOfOneCandidate | sale_warehouse/etl/transform.py:120 | each candidate appears at most once in the output |
| Scd.ChangedRowsOneCurrent | sale_warehouse/etl/transform.py:120 | with unique candidate keys the output holds at most one row per key |
| Scd.OneCurrentAfterExpire | sale_warehouse/etl/transform.py:106-109 | expiring keeps at most one current row per key |
| Scd.NoCurrentClash | sale_warehouse/etl/transform.py:104-120 | a row still current after expiry never shares its key with an output row |
| Scd.OneCurrentConcat | sale_warehouse/etl/load.py:62 | appending rows whose current keys are fresh keeps one current row per key |
| Scd.ScdExclusive | sale_warehouse/etl/transform.py:66-136 | the expired snapshot plus the stored new rows still have at most one current row per business key |
| Scd.EndDateIffExpiredKept | sale_warehouse/etl/transform.py:62-109 | the invariant "has an end date iff flag is N" survives an SCD run |
| CustomerDim.CleanKeys | sale_warehouse/etl/transform.py:23-25 | removes hyphens from location ids and strips CRM and ERP keys in the caller's frames |
| CustomerDim.CleanKeysSettle | sale_warehouse/etl/transform.py:23-25 | cleaned location ids hold no hyphen, and cleaning keys twice is cleaning once |
| CustomerDim.Standardize | sale_warehouse/etl/transform.py:35-49 | the dimension row keeps the CRM id, key and create date |
| CustomerDim.ClampCreateDate | sale_warehouse/etl/transform.py:54-56 | a create date after today becomes today; any other row is untouched; nothing else changes |
| CustomerDim.CreatedOrderTotal | sale_warehouse/etl/transform.py:58 | ordering by create date (NaT last) is a total preorder |
| CustomerDim.Tracked | sale_warehouse/etl/transform.py:67 | six tracked columns |
| CustomerDim.TransformDimCustomer | sale_warehouse/etl/transform.py:8-141 | cleans the caller's key columns, expires the snapshot in place and returns the SCD output of the candidates or the key error |
| CustomerDim.CandidatesStamped | sale_warehouse/etl/transform.py:54-64 | every candidate is an open version with no create date after today |
| CustomerDim.CandidatesUnique | sale_warehouse/etl/transform.py:58 | candidates carry unique customer keys |
| CustomerDim.OrderedKeepsKeys | sale_warehouse/etl/transform.py:30-58 | every CRM customer key survives the merges, the sort and the deduplication |
| CustomerDim.CandidateKeys | sale_warehouse/etl/transform.py:30-64 | a key is among the candidates iff it is a CRM key |
| CustomerDim.SourceKeyFromInfo | sale_warehouse/etl/transform.py:30-58 | every kept key comes from the CRM table |
| CustomerDim.CandidateIsLatest | sale_warehouse/etl/transform.py:58 | the rows are sorted by create date and each candidate is the last row with its key |
| CustomerDim.CustomerExclusive | sale_warehouse/etl/transform.py:8-141 | one current row per customer key survives a run |
| ProductDim.CatIdOfSegments | sale_warehouse/etl/transform.py:157-163 | the category key of `a-b-rest` is `a_b` |
| ProductDim.CatIdShortKeys | sale_warehouse/etl/transform.py:157-163 | keys with fewer than three parts give their parts joined by `_` |
| ProductDim.CatIdExample | sale_warehouse/etl/transform.py:157-163 | `CO-RF-FR-R92B-58` gives `CO_RF` |
| ProductDim.CatId | sale_warehouse/etl/transform.py:157-163 | a category key holds no hyphen, and a key without a hyphen is its own category key; CatIdOfSegments and CatIdShortKeys give the value |
| ProductDim.KeyThenStartTotal | sale_warehouse/etl/transform.py:166 | sorting by key then start date (NaT last) is a total preorder |
| ProductDim.NextStartIsFirst | sale_warehouse/etl/transform.py:167 | `shift(-1)` within a key group is the next row of that key |
| ProductDim.NextStartNone | sale_warehouse/etl/transform.py:167 | the last row of a group gets no end date |
| ProductDim.NextStart | sale_warehouse/etl/transform.py:167 | an end date found by `shift(-1)` is the start date of some later row with the same key; NextStartIsFirst and NextStartNone give the value |
| ProductDim.WithEndDates | sale_warehouse/etl/transform.py:167 | end dates are added row for row |
| ProductDim.EndNotBeforeStart | sale_warehouse/etl/transform.py:165-167 | once sorted, an end date is never before its start date, and the last version per key is open |
| ProductDim.SortedEndDate | sale_warehouse/etl/transform.py:167 | the same for any frame sorted by key then start date |
| ProductDim.FirstWithKey | sale_warehouse/etl/transform.py:167 | the next row of a key is the first with that key |
| ProductDim.Standardize | sale_warehouse/etl/transform.py:182-211 | the dimension row keeps id, key, start and derived end date |
| ProductDim.Tracked | sale_warehouse/etl/transform.py:227-236 | eight tracked columns |
| ProductDim.TransformDimProduct | sale_warehouse/etl/transform.py:143-323 | expires the snapshot in place and returns the SCD output of the product candidates or the key error |
| ProductDim.CandidatesRowForRow | sale_warehouse/etl/transform.py:165-220 | with unique category ids there is one open candidate per sorted product row, carrying its id, key, start and end date |
| ProductDim.CandidatesUnique | sale_warehouse/etl/transform.py:172-220 | unique product ids stay unique |
| ProductDim.SameIdsUnique | sale_warehouse/etl/transform.py:238-245 | candidates with the ids of a uniquely keyed frame are uniquely keyed |
| ProductDim.InitialLoadKeepsEveryVersion | sale_warehouse/etl/transform.py:311-314 | an initial load outputs every version, so two rows of one product key are both new and current |
| ProductDim.ProductExclusive | sale_warehouse/etl/transform.py:143-323 | one current row per product id survives a run |
| DateDim.RawDates | sale_warehouse/etl/transform.py:326 | the order, ship and due columns are concatenated in that order |
| DateDim.Present | sale_warehouse/etl/transform.py:326 | `dropna` keeps exactly the present values |
| DateDim.Distinct | sale_warehouse/etl/transform.py:326 | `unique` keeps each value once |
| DateDim.CalendarRow | sale_warehouse/etl/transform.py:328-333 | a valid raw yyyymmdd gives full date raw, day raw mod 100, month the middle two digits, quarter (month + 2) div 3 and year raw div 10000; an invalid one gives NaT in every column |
| DateDim.DimDate | sale_warehouse/etl/transform.py:325-338 | one row per distinct raw date; the i-th is keyed `DATE<i+1>` and holds the calendar row of the i-th distinct date |
| DateDim.DistinctDatesCover | sale_warehouse/etl/transform.py:326 | a raw date is listed iff some sale has it as order, ship or due date |
| DateDim.FullDatesDistinct | sale_warehouse/etl/transform.py:326-328 | two date rows never share a valid full date |
| DateDim.DateKeysDistinct | sale_warehouse/etl/transform.py:335 | date keys are pairwise distinct |
| DateDim.TwoDistinctDays | sale_warehouse/etl/transform.py:325-338 | a sale ordered and shipped on 20240101 and due 20240105 gives `DATE1` and `DATE2` |
| FactSales.NormalizeKeys | sale_warehouse/etl/transform.py:349-376 | strips the caller's customer ids, adds the `AW` prefix to all unless all have it, strips dimension customer keys and drops the first two parts of product keys |
| FactSales.CustomerIdsStartWithAW | sale_warehouse/etl/transform.py:353-354 | afterwards every customer id starts with `AW`, only that column changes, a column that is all `AW` already is left as it is, and when padding applies each is `AW` + `zfill(8)` |
| FactSales.CustomerIds | sale_warehouse/etl/transform.py:353-354 | the prefixing step keeps the row count, leaves every customer id starting with `AW` and changes no other column; CustomerIdsStartWithAW gives the value in both branches |
| FactSales.PrefixAWExample | sale_warehouse/etl/transform.py:354 | id `1` becomes `AW00000001` |
| FactSales.PrefixAWDoubles | sale_warehouse/etl/transform.py:353-354 | when one id lacks the prefix, an id that had it is prefixed again: `AW11000` becomes `AW0AW11000` |
| FactSales.ShortKeyOfSegments | sale_warehouse/etl/transform.py:376 | a product key `a-b-rest` is shortened to `rest` |
| FactSales.ShortKeyExample | sale_warehouse/etl/transform.py:376-379 | `CO-RF-FR-R92B-58` becomes `FR-R92B-58` |
| FactSales.ShortKey | sale_warehouse/etl/transform.py:376 | a product key without a hyphen shortens to the empty string; ShortKeyOfSegments gives the value |
| FactSales.SkFor | sale_warehouse/etl/transform.py:357-362 | the looked-up key is missing iff no dimension row has the key, and otherwise belongs to such a row |
| FactSales.SkForUnique | sale_warehouse/etl/transform.py:357-362 | with unique dimension keys the lookup finds the row's own surrogate key |
| FactSales.LookupRowForRow | sale_warehouse/etl/transform.py:357-362 | with unique dimension keys a lookup merge is row for row |
| FactSales.KeyFacts | sale_warehouse/etl/transform.py:432 | fact rows are keyed `SALES1`, `SALES2`, ... in order |
| FactSales.TransformFactSales | sale_warehouse/etl/transform.py:340-435 | normalises the caller's key columns and returns the fact table built from the normalised frames |
| FactSales.WithDimsRowForRow | sale_warehouse/etl/transform.py:357-388 | with unique customer and product keys each sale gets the keys of its customer and its stripped product key |
| FactSales.WithDatesRowForRow | sale_warehouse/etl/transform.py:393-411 | with unique full dates each sale gets the date keys of its parsed dates |
| FactSales.OneFactPerSale | sale_warehouse/etl/transform.py:340-435 | with unique dimension keys there is exactly one fact per sale, in order, with the expected surrogate keys |
| FactSales.CurrentCustomersUnique | sale_warehouse/main.py:63-67 | the current customer rows, with their keys stripped, have unique keys, so the customer lookup is one-to-one |
| FactSales.ProductVersionsDuplicateFacts | sale_warehouse/etl/transform.py:376-388 | two current product versions under the same shortened key give one sale two facts |
| FactSales.ValidDays | sale_warehouse/etl/transform.py:399 | keeps exactly the date rows with a valid full date |
| FactSales.ValidDaysKeepsDistinct | sale_warehouse/etl/transform.py:399-411 | without NaT rows the full dates of the date dimension are unique |
| FactSales.ValidDaysUnique | sale_warehouse/etl/transform.py:325-338 | the valid rows of the date dimension have unique full dates |
| FactSales.OneFactPerSaleValidDates | sale_warehouse/etl/transform.py:399-432 | merging dates only against valid date rows gives exactly one fact per sale, in order, whose date keys are present iff the raw date is a real day |
| FactSales.ValidDayFound | sale_warehouse/etl/transform.py:393-411 | a sale's raw date finds a valid date row iff it parses as a real day |
| FactSales.NaTDatesDuplicateFacts | sale_warehouse/etl/transform.py:399-411 | a sale with two invalid raw dates gives more facts than sales |
| FactSales.Lookup | sale_warehouse/etl/transform.py:357-362 | a left merge never loses a sale: there are at least as many rows as before; LookupRowForRow gives it row for row under unique keys and LookupDoubles shows a duplicate key doubling a sale |
| Loader.Filter | sale_warehouse/etl/load.py:29-33 | a boolean filter keeps exactly the rows that satisfy it |
| Loader.FilterIdempotent | sale_warehouse/etl/load.py:29-33 | filtering twice is filtering once |
| Loader.DimKept | sale_warehouse/etl/load.py:29-33 | keeps every changed row and the new rows effective after the watermark |
| Loader.DatesKept | sale_warehouse/etl/load.py:155 | keeps the date rows after the watermark; NaT rows never pass |
| Loader.FactsKept | sale_warehouse/etl/load.py:168-173 | without a watermark keeps every fact, otherwise those created after it |
| Loader.MaxDay | sale_warehouse/etl/load.py:69 | the maximum date of a frame is one of its dates and bounds all of them |
| Loader.ExpiryUpdatesExact | sale_warehouse/etl/load.py:43-56 | one update per row with an end date, each setting that row's end date and flag N |
| Loader.ExpiryUpdates | sale_warehouse/etl/load.py:43-56 | at most one update per snapshot row, each an end-date update of the given table; ExpiryUpdatesExact gives its contents |
| Loader.Warehouse.constructor | sale_warehouse/etl/load.py:11 | starts from the saved tracker with no effects |
| Loader.Warehouse.IssueExpiries | sale_warehouse/etl/load.py:41-57 | the loop over expired rows appends their updates in order and leaves the tracker alone |
| Loader.Warehouse.LoadDimCustomer | sale_warehouse/etl/load.py:16-70 | expires, always appends the kept rows (possibly none), and moves the watermark to their latest effective date when some were kept |
| Loader.Warehouse.LoadDimProduct | sale_warehouse/etl/load.py:75-148 | expires, then appends and moves the watermark only when rows were kept |
| Loader.Warehouse.LoadDimDate | sale_warehouse/etl/load.py:152-162 | appends the new date rows and moves the watermark to their latest full date |
| Loader.Warehouse.LoadFactSales | sale_warehouse/etl/load.py:167-181 | appends the new facts and moves the watermark to their latest created date |
| Loader.DimRerunKeepsNoNew | sale_warehouse/etl/load.py:29-69 | re-running with the advanced watermark keeps no new row but every changed row |
| Loader.DatesRerunKeepsNothing | sale_warehouse/etl/load.py:155-158 | re-running the date load with the advanced watermark loads nothing |
| Loader.FactsRerunKeepsNothing | sale_warehouse/etl/load.py:173-177 | re-running the fact load with the advanced watermark loads nothing |
| Loader.NextMark | sale_warehouse/etl/load.py:68-69 | with nothing loaded the watermark stays; otherwise it is the latest loaded date, attained by some loaded row; DateMarkAdvances and DimMarkCanRecede use it |
| Loader.DateMarkAdvances | sale_warehouse/etl/load.py:155-158 | the date watermark never moves back, and moves forward when rows load |
| Loader.DimMarkCanRecede | sale_warehouse/etl/load.py:68-69 | the watermark is the latest effective date of the loaded rows even when that is before the old watermark, since changed rows pass the filter regardless of date |
| Loader.StampedOutputDated | sale_warehouse/etl/load.py:69 | every row the SCD step outputs has an effective date, so the loaders' requirement holds for it |

## Left out

- Text.Strip, Text.Upper: only ASCII whitespace and ASCII letters are modelled; Python's Unicode whitespace and case mapping are not.
- Text.ParseInt: surrounding ASCII whitespace and a `+` or `-` sign are modelled; Python's `int()` also accepts underscores between digits and non-ASCII digits and whitespace, which are not.
- Frames.SortBy: a stable insertion sort; pandas' default sort is not stable, so the row kept by `drop_duplicates(keep='last')` among equal create dates may differ.
- `astype(str)` on a missing key gives the text `nan`. The model takes keys as present strings and does not model this.
- ChangeDetect.DetectChange: cells are missing/string/integer/day; the float coercion of numbers (transform.py lines 269-271) and the datetime parsing of date columns (lines 91-93, 274-276) are applied by the caller's choice of `Cell`, not modelled separately.
- Dates.ParseYmd: accepts exactly the `yyyymmdd` integers that denote a real day from 1677-09-22 to 2262-04-11, the whole days inside pandas' nanosecond Timestamp range; pandas' handling of other raw types is not modelled.
- `month_name` of the date dimension is not modelled; it is a locale-dependent label.
- Where the product transform writes a `cat_id` column into the caller's frame, the model computes it on values. The caller's frame does not keep it.
- The time of day in `pd.to_datetime("today").normalize()` is reduced to a `today` parameter.
- Loader.Warehouse.LoadDimCustomer: requires every row to carry an effective date, because `strftime` on a missing maximum raises; `Loader.StampedOutputDated` shows the SCD output always meets it.
- Loader.Warehouse.LoadDimProduct: same requirement and reason as for LoadDimCustomer.
- SQL statements, the engine and transactions are reduced to a sequence of effects. Database failures, and the partial updates they leave, are not modelled.
- The tracker file and its reading and saving are reduced to a map held by the warehouse; dates are `yyyymmdd` integers rather than `%Y-%m-%d` strings.
- The extract step, `get_dim_customer_current` and `get_dim_product_current` are not part of this model; their results are parameters.
- The configuration module is not part of this model.
- Logging and `print` are left out; they have no effect on the tables.
- The order in which `run_etl` calls the steps is not modelled as one operation. Its one precondition that matters, that the fact transform sees only current dimension rows, is `FactSales.CurrentCustomersUnique`.

## Findings

| source | as written | input that shows it | evidently intended | confidence | as-written member | corrected member |
|---|---|---|---|---|---|---|
| sale_warehouse/etl/transform.py:399-411 | raw dates that are not valid `yyyymmdd` become NaT rows of `dim_date`; the date merges match NaT against NaT, so a sale with an invalid date joins every NaT row | one sale with raw order date 0 and ship and due date 1: two NaT date rows, so the order-date merge alone gives two facts for one sale | one fact per sale, with a missing date key exactly for an invalid date (proved as `FactSales.OneFactPerSaleValidDates`) | medium; not executed | FactSales.NaTDatesDuplicateFacts | FactSales.FactTableValidDates |
