# Fintech ETL pipeline: transform, key resolution and merchant seeding

This project models the core of the batch ETL job in `etl/main_pipeline.py`. The job turns operational customer and transaction rows, plus merchant documents, into a star-schema warehouse: `dim_customer`, `dim_merchant`, `dim_date` and `fact_transactions`. Three parts are modelled:

- **`transform`**: the data-quality filter (only positive amounts survive, and the number removed is reported), PII hashing of last name and e-mail, merchant de-duplication, the generated calendar dimension and the staged fact rows.
- **The surrogate-key resolution in `load`**: the two inner merges against the `customer_key ↔ customer_id` and `merchant_key ↔ merchant_name` lookups, then the five-column selection.
- **The seed-if-empty rule of `extract`** for the merchant collection.

Modules:

- `Calendar`: the proleptic Gregorian calendar on day numbers counted from 1970-01-01. It covers `pd.date_range(freq='D')`, `.dt.date`, `dayofweek` (Monday = 0), `%A`, `%B` and the `%Y%m%d` integer date key. Every day number maps to one valid date and back, consecutive day numbers are consecutive dates, and date keys decode back to their dates and increase with the day.
- `Tables`: the row types of the source tables and of the warehouse tables.
- `Wrappers`: a `Result` type for the one error path of `transform`.
- `Transformer`: the `transform` stage, with one function per table and lemmas about each.
- `Loader`: the two inner merges and the column selection of `load`.
- `Extractor`: the merchant collection as a class whose `documents` field the seeding method updates.
- `Pipeline`: properties of the stages run in sequence.

Representation choices:

- Timestamps are `datetime64[ns]` values: integer nanoseconds since 1970-01-01 UTC. `.dt.date` is floor division by the number of nanoseconds in a day, which is also correct before 1970.
- Amounts are integers. Only their sign matters to the code.
- `hash_pii` (SHA-256 hex digest) is a function-valued parameter `hash: string -> string`. The model therefore relies only on it being a function: equal inputs give equal digests.
- The warehouse lookups `customer_keys` and `merchant_keys` are inputs to `Loader.ResolveKeys`, because the warehouse assigns the surrogate keys.

Where the intended warehouse design and the code differ, the model follows the code:

- **Merchant de-duplication.** A star schema keyed by merchant name wants one `dim_merchant` row per `merchant_name`. The code calls `drop_duplicates()` on the `(merchant_name, category)` pair (line 85). Two documents with the same name but different categories therefore both stay (`Transformer.DedupIsOnThePair`). At load time, each fact naming that merchant then matches two lookup rows and is loaded twice (`Loader.RepeatedMerchantNameDuplicatesFacts`).
- **Unresolved foreign keys.** A fact whose customer or merchant has no surrogate key breaks referential integrity and should be rejected. The code uses inner merges (lines 145-146), which drop such rows silently. `Loader.ResolveKeysSound` and `Loader.ResolveKeysMembers` state exactly which rows survive, and `Loader.ResolveKeysCount` gives the row count.
- **An empty filtered transaction set.** `date_range` gets `NaT` bounds and raises, so the stage aborts before any load. It is modelled as `Err(EmptyDateRange)`.

## Model

| member | source | states |
|---|---|---|
| Calendar.FromDays | etl/main_pipeline.py:95-98 | the date of any day number is a valid Gregorian date whose day number is that number (the range may extend before 1970) |
| Calendar.FromDaysToDays | etl/main_pipeline.py:95-98 | the date → day number → date round trip is the identity on valid dates |
| Calendar.ToDaysInjective | etl/main_pipeline.py:95-98 | distinct valid dates have distinct day numbers |
| Calendar.ToDays | etl/main_pipeline.py:95-98 | the day number of a valid date lies within the days of its own year |
| Calendar.NextDay | etl/main_pipeline.py:95 | the next calendar day, rolling over month and year ends and leap days, is valid and has the next day number |
| Calendar.PrevDay | etl/main_pipeline.py:95 | the previous calendar day is valid and has the previous day number |
| Calendar.FromDaysNext | etl/main_pipeline.py:95 | daily frequency: day number n+1 is the calendar day after day number n |
| Calendar.YearStartClosedForm | etl/main_pipeline.py:95-98 | a year starts 365 days per year after 1970, plus one per Gregorian leap year (the 4/100/400 rule) in between |
| Calendar.DateKey | etl/main_pipeline.py:97 | the `%Y%m%d` key of a valid date has the year in its leading digits and a month-day part between 0101 and 1231 |
| Calendar.DateKeyRoundTrip | etl/main_pipeline.py:97 | the `%Y%m%d` integer key of a valid date decodes back to that same year, month and day |
| Calendar.DateKeyNext | etl/main_pipeline.py:97 | the key of the next day is larger than the key of a date |
| Calendar.DayKeyNext | etl/main_pipeline.py:97 | the key of day n+1 is larger than the key of day n |
| Calendar.DayKeyIncreasing | etl/main_pipeline.py:97 | date keys grow strictly with the day number, so sorting by key sorts by date |
| Calendar.Weekday | etl/main_pipeline.py:99 | `dayofweek` lies in 0..6 |
| Calendar.WeekdayNext | etl/main_pipeline.py:99 | the weekday advances by one, modulo 7, from one day to the next |
| Calendar.DayNamesDistinct | etl/main_pipeline.py:100 | the seven `%A` weekday names are pairwise distinct |
| Calendar.MonthNamesDistinct | etl/main_pipeline.py:102 | the twelve `%B` month names are pairwise distinct |
| Calendar.EpochIsThursday | etl/main_pipeline.py:99-100 | day 0 is 1970-01-01 and its `%A` name is Thursday |
| Calendar.KnownDates | etl/main_pipeline.py:95-100 | 2024-01-01 is day 19723 and a Monday; 2000-02-29 is a date and 1900-02-29 is not |
| Calendar.DayOf | etl/main_pipeline.py:90-92 | `.dt.date` of a timestamp is the day whose 24-hour window contains it |
| Calendar.DayOfWindow | etl/main_pipeline.py:92 | a timestamp truncates to day n if and only if it lies in day n's window |
| Transformer.KeepPositive | etl/main_pipeline.py:74 | the filter never adds rows |
| Transformer.KeepPositiveMembers | etl/main_pipeline.py:74 | a row survives the filter if and only if it is an input row with amount > 0 |
| Transformer.KeepPositiveOrder | etl/main_pipeline.py:74 | the surviving rows keep their input order (they form a subsequence of the input) |
| Transformer.RemovedCount | etl/main_pipeline.py:73-75 | the logged number of removed rows equals the number of rows with amount ≤ 0 |
| Transformer.DimCustomer | etl/main_pipeline.py:78-82 | `dim_customer` has exactly one row per customer |
| Transformer.DimCustomerRows | etl/main_pipeline.py:78-82 | row i keeps customer i's id and first name and carries the hashes of its last name and e-mail |
| Transformer.HashDeterministic | etl/main_pipeline.py:78-79 | customers with equal last names (e-mails) get equal hashes |
| Transformer.DimCustomerHidesPii | etl/main_pipeline.py:78-82 | customer tables that differ only in plaintext values with equal hashes give the same `dim_customer`: no plaintext last name or e-mail reaches it |
| Transformer.DropDuplicates | etl/main_pipeline.py:85 | `dim_merchant` has no repeated (name, category) pair and holds exactly the input's pairs |
| Transformer.DropDuplicatesKeepsFirst | etl/main_pipeline.py:85 | the kept rows appear in the order of their first occurrence in the input |
| Transformer.DropDuplicatesOfDistinct | etl/main_pipeline.py:85 | an input without repeats is returned unchanged |
| Transformer.DedupIsOnThePair | etl/main_pipeline.py:85 | same-name merchants with different categories both stay; exact repeats collapse |
| Transformer.MinOf | etl/main_pipeline.py:95 | the start of the range is an attained lower bound of the fact days |
| Transformer.MaxOf | etl/main_pipeline.py:95 | the end of the range is an attained upper bound of the fact days |
| Transformer.FactDays | etl/main_pipeline.py:92 | there is one day per fact, and each fact's timestamp lies in the 24-hour window of its day |
| Transformer.DateRow | etl/main_pipeline.py:96-104 | a calendar row's date is valid and its day number is the given one |
| Transformer.DateRowAttributes | etl/main_pipeline.py:96-104 | a row's key decodes to its date; its `dayofweek` is the weekday of day n; its day and month names, month and year are those of that date |
| Transformer.DateRange | etl/main_pipeline.py:95-104 | `dim_date` for [lo, hi] has hi-lo+1 rows, and row i is day lo+i |
| Transformer.DateRangeCoversOnce | etl/main_pipeline.py:95-104 | a day has a row if and only if it lies in [lo, hi], and no two rows share a day (no gaps, no duplicates) |
| Transformer.DateRowNext | etl/main_pipeline.py:95-99 | the rows of days n and n+1 hold consecutive calendar dates and consecutive weekdays |
| Transformer.DateRowKeysIncrease | etl/main_pipeline.py:97 | the row of a later day has a larger `date_key` |
| Transformer.DateRangeConsecutive | etl/main_pipeline.py:95-99 | each row's date is the day after the previous row's date, and its weekday advances by one modulo 7 |
| Transformer.DateRangeKeysIncrease | etl/main_pipeline.py:95-97 | date keys increase strictly down the calendar, so they are unique |
| Transformer.StageFact | etl/main_pipeline.py:90-109 | a staged fact keeps the transaction's id, customer, merchant, amount and timestamp; its `date_only` is the day whose window holds the timestamp, and its `date_key` is that day's key |
| Transformer.StageFacts | etl/main_pipeline.py:107-109 | there is one staged fact per surviving transaction |
| Transformer.SameDaySameKey | etl/main_pipeline.py:90-109 | two transactions on the same day get the same `date_only` and `date_key`, whatever their time of day |
| Transformer.StageFactsOrder | etl/main_pipeline.py:107 | staging preserves a subsequence relation |
| Transformer.Transform | etl/main_pipeline.py:68-112 | the stage fails if and only if no transaction has a positive amount |
| Transformer.StagedFactsArePositive | etl/main_pipeline.py:74-109 | a transaction is staged if and only if its amount is positive, and every staged fact is positive |
| Transformer.TransformFilters | etl/main_pipeline.py:73-109 | removed + staged = input rows; exactly the positive rows are staged, in input order |
| Transformer.CalendarSpansFacts | etl/main_pipeline.py:95 | the calendar is gap-free and starts at the earliest fact day and ends at the latest; both ends are days of some fact |
| Transformer.TransformCalendar | etl/main_pipeline.py:95-104 | a successful stage's `dim_date` is non-empty, consecutive and spans exactly the fact days |
| Transformer.FactDatesInCalendar | etl/main_pipeline.py:95-109 | every staged fact's `date_key` is the key of the calendar row of its own day |
| Transformer.TransformFactDatesClosed | etl/main_pipeline.py:95-109 | every fact of a successful stage references an existing `dim_date` row |
| Loader.CustomerMatches | etl/main_pipeline.py:145 | a fact pairs with at most as many rows as the lookup has, each carrying the fact's `customer_id` |
| Loader.MergeCustomers | etl/main_pipeline.py:145 | every row of the customer merge is a staged fact with a key from a lookup row carrying its `customer_id` |
| Loader.CustomerMatchesMembers | etl/main_pipeline.py:145 | a fact pairs with exactly the lookup rows carrying its `customer_id` |
| Loader.MergeCustomersMembers | etl/main_pipeline.py:145 | the customer merge holds exactly the (fact, key) pairs whose ids agree |
| Loader.MerchantMatches | etl/main_pipeline.py:146 | a row pairs with at most as many rows as the lookup has, each carrying the row's merchant name, and its fact and customer key are kept |
| Loader.MergeMerchants | etl/main_pipeline.py:146 | every row of the merchant merge is a row of the customer merge with a key from a lookup row carrying its merchant name |
| Loader.MerchantMatchesMembers | etl/main_pipeline.py:146 | a row pairs with exactly the lookup rows carrying its merchant name |
| Loader.MergeMerchantsMembers | etl/main_pipeline.py:146 | the merchant merge holds exactly the (row, key) pairs whose names agree |
| Loader.ResolveKeys | etl/main_pipeline.py:144-149 | the final table has one row per row of the second merge |
| Loader.ResolveKeysMembers | etl/main_pipeline.py:144-149 | every fact whose customer and merchant both resolve is loaded with each matching pair of surrogate keys |
| Loader.ResolveKeysSound | etl/main_pipeline.py:144-149 | every loaded row is a staged fact with surrogate keys taken from lookup rows that match its natural keys |
| Loader.CustomerMatchesCount | etl/main_pipeline.py:145 | with unique customer ids, a fact matches one lookup row if its id occurs and none otherwise |
| Loader.MerchantMatchesCount | etl/main_pipeline.py:146 | with unique merchant names, a row matches one lookup row if its name occurs and none otherwise |
| Loader.MergeCustomersCount | etl/main_pipeline.py:145 | with unique ids, the customer merge never grows the table, and keeps its size when every id resolves |
| Loader.MergeMerchantsCount | etl/main_pipeline.py:146 | with unique names, the merchant merge never grows the table, and keeps its size when every name resolves |
| Loader.ResolveKeysCount | etl/main_pipeline.py:140-149 | with unique natural keys in both lookups, at most one row per fact is loaded, and exactly one when every fact resolves |
| Loader.RepeatedMerchantNameDuplicatesFacts | etl/main_pipeline.py:141-146 | a merchant name repeated in the lookup loads each of its facts twice |
| Extractor.Seeded | etl/main_pipeline.py:50-57 | after the seeding rule the collection is never empty; an empty collection becomes exactly the three reference merchants, and a non-empty one is left as it was |
| Extractor.SeededIdempotent | etl/main_pipeline.py:50-57 | applying the seeding rule twice is the same as applying it once |
| Extractor.MerchantCollection.CountDocuments | etl/main_pipeline.py:50 | `count_documents({})` is the number of documents held |
| Extractor.MerchantCollection.InsertMany | etl/main_pipeline.py:57 | `insert_many` appends the documents in order and changes nothing else |
| Extractor.MerchantCollection.Find | etl/main_pipeline.py:59 | `find({})` returns every document in collection order |
| Extractor.ExtractMerchants | etl/main_pipeline.py:50-59 | an empty collection gains exactly the three reference merchants; a non-empty one is left unchanged; the result is the collection's contents |
| Pipeline.LoadedFactsReferenceDimensions | etl/main_pipeline.py:95-149 | every loaded fact has a `date_key` of a `dim_date` row, surrogate keys from the lookups and a positive amount |
| Pipeline.SeedMerchantsDimension | etl/main_pipeline.py:52-56 | the three reference merchants have distinct names, and `dim_merchant` keeps all three |
| Pipeline.ScenarioKeysResolve | etl/main_pipeline.py:140-149 | any facts that name one of the three customers and one of the three reference merchants resolve one row each, so none is dropped |
| Pipeline.ScenarioFactsLoad | etl/main_pipeline.py:140-149 | with lookups for the three customers and the three reference merchants, the four staged scenario facts all resolve and four rows are loaded |
| Pipeline.GapDayScenario | etl/main_pipeline.py:68-149 | five transactions, one negative and the others on days 0, 1, 3 and 3: one row removed, four facts, four calendar rows including the empty day 2, and all four facts loaded |

## Left out

- Connection handling is not modelled: engine and client construction, SQL reads and writes, the DDL script, and the two commit boundaries (lines 14-31, 43-44, 120-133, 138-155). These are I/O. The two `to_sql` loads and their commits cannot be expressed over values.
- `hash_pii` is not modelled as SHA-256. It is a parameter, so the model cannot state that a digest differs from its plaintext. `Transformer.DimCustomerHidesPii` states the information-flow property instead.
- Parsing by `pd.to_datetime` is not modelled. Transactions carry timestamps that are already nanoseconds since the epoch. Unparseable and null dates (`NaT`) are not modelled.
- Years are unbounded. The `datetime64[ns]` range (years 1677-2262) and the four-digit `%Y` width are not modelled. The `%Y%m%d` key is `year*10000 + month*100 + day` for every year.
- Amounts are integers. Floating-point amounts and their rounding are not modelled, since only the sign test `amount > 0` depends on them.
- Transformer.RemovedCount: amounts are never missing here. In the source a null or NaN amount also fails `amount > 0` (line 74), so it is dropped and counted among the removed rows (line 75) although it is not non-positive.
- Calendar.DayOf: `.dt.date` (line 92) on a timezone-aware column gives the local calendar date. Floor division of UTC nanoseconds matches it only for naive or UTC timestamps, which is what the model assumes.
- Transformer.DimCustomer: `hash_pii` hashes `str(data)` (line 36), so a missing value `None` and the string `"None"` get the same digest. Values are always strings here.
- Logging, environment variables, timing and the top-level orchestration (lines 11-12, 163-182) are not modelled.
- Transformer.Transform: the stage's error is `EmptyDateRange` only. Any exception from a missing column is not modelled. Neither is the `KeyError` when the merchant collection yields no `merchant_name`/`category` fields.
- Loader.ResolveKeys: the row order is the one pandas documents for inner merges (left keys in order, then matching right rows in lookup order). The loaded table is a set of rows, so only the membership and count lemmas matter.
- Extractor.ExtractMerchants: count-then-insert is not atomic in the source. The model assumes no concurrent writer between `count_documents` and `insert_many`.
- Extractor.MerchantCollection.Find: the projection that drops `_id` is not modelled. Documents are the `(merchant_name, category)` records themselves.
- The streaming producer and consumer and the dashboard are outside this model.
