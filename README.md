# Image resizer: a verified model of its core

This project models the core of the image-resizing HTTP service
`dux/image-resizer-golang` in Dafny and proves properties of the model. The
service fetches a source image, resizes or crops it, re-encodes it, and caches
the results in SQLite. It also keeps per-day referer statistics. The model
covers:

- **Resize request decisions** (`app/handlers/resize.go`):
  - reading the crop, width and height directives from the query, and the cache key they give;
  - the integer cache discriminator derived from that key by a 64-bit hash loop;
  - the placeholder SVG;
  - the geometry of the transform, with exact rationals for the crop scale;
  - the choice of output encoder;
  - the repair of a missing slash after the scheme;
  - the cache-bypass and write-back rules, tied to what the cache read then returns.
- **Image cache store**, in both generations (`app/database/db.go`, `database/db.go`):
  - a `Database` class over the `image_cache` rows;
  - `INSERT OR REPLACE` writes and `SELECT` reads;
  - the current generation's three-attempt retry loop, with an attempt-outcome oracle and counted pauses;
  - the oldest-half eviction, transactional in the current generation and two separate statements in the older one;
  - one tick of the cleanup service;
  - the `MAX_DB_SIZE` setting.
- **Referer tracker**, in both generations (`app/database/referer_db.go`, `database/referer_db.go`):
  - base-domain extraction;
  - the per-(domain, day) counter, as the current upsert and as the older update-then-insert;
  - the disabled flag and its toggle;
  - the date-range listing and the per-domain aggregation, as the SQL defines them;
  - the row-scanning loop that collects results.
- **Log buffer** (`app/handlers/logs.go`): a FIFO of at most `maxSize` non-empty lines, as a class.
- **Configuration rules** (`app/handlers/config.go`): the `MAX_AGE` setting and the toggle-domain request checks.
- **Image description** (`app/models/image.go`): the properties map, including a Unix `filepath.Base`; the aspect ratio and the orientation predicates.

Go library behaviour the core depends on is written out in `go_strings.dfy`:

- `strings.Contains`, `HasPrefix`, `TrimPrefix`, `TrimRight`, `Split`, `Index` and the first `Replace`;
- `strconv.Atoi`, accepting an optional sign and decimal digits within the int64 range;
- `strconv.Itoa`.

Go's 64-bit wrap-around is written out in the hash loop. Go's truncating division and float-to-int conversion are written out in the crop geometry.

Everything the program gets from outside becomes a parameter and is never computed:

- the clock (a `clock` field advanced by `Tick`) and the day;
- the database file size;
- the outcome of `url.Parse`;
- the outcome of each SQL statement: an attempt oracle, or per-step fault records;
- whether body reading and JSON decoding succeeded;
- whether the WebP encoder succeeded.

SQL statements are modelled by what they do to the rows. `INSERT OR REPLACE` deletes the row with the same key and appends a new row with a fresh id and timestamp. Because rows are kept in timestamp order, `DELETE ... ORDER BY created_at LIMIT k` drops a prefix. `BETWEEN` and `ORDER BY` on the TEXT dates use SQLite's BINARY collation, and `GROUP BY` with `SUM` and `MAX` becomes a function over the rows.

Some members model both generations, because the older code does the same thing:

- `RefererTable.BaseDomain` is the older `ExtractBaseDomain` (`database/referer_db.go`, lines 65-99) when the sentinel is "unknown" instead of "hidden".
- `RefererDb.GetRefererStats` and `RefererQueries.StatsQuerySpec` describe the older `GetRefererStats` too (lines 139-167). It has the same query, scan loop and messages.
- `ImageCache.MaxDatabaseSizeMB` is also the older `MAX_DB_SIZE` parse (`database/db.go`, lines 20-35). That parse falls back to 1000, although its log text says 100MB.

## Model

| member | source | states |
|---|---|---|
| ResizeHandler.Dimension | app/handlers/resize.go:95-98 | a dimension is an Atoi value that is positive (and within int64) |
| ResizeHandler.PairValue | app/handlers/resize.go:89-106 | a "WxH" value succeeds iff it splits on 'x' into exactly two parts that are both dimensions, and then yields the two Atoi values; a wrong number of parts gives the format error |
| ResizeHandler.CropValue | app/handlers/resize.go:88-115 | a crop value with 'x' succeeds iff both parts are dimensions and gives their values; a single value S succeeds iff S is a dimension and gives (S, S) |
| ResizeHandler.WidthValue | app/handlers/resize.go:131-161 | an empty width gives (0, 0); a width with 'x' succeeds iff both parts are dimensions and gives their values; a bare width W succeeds iff W is a dimension and gives (W, 0) |
| ResizeHandler.ReadCropValue | app/handlers/resize.go:85-115 | the step-by-step crop parse computes exactly the crop meaning, errors included |
| ResizeHandler.ReadWidthValue | app/handlers/resize.go:131-161 | the step-by-step width parse computes exactly the width meaning, errors included |
| ResizeHandler.ParseResizeParams | app/handlers/resize.go:77-184 | the field-by-field parse computes exactly the meaning of the directives, and every result it returns is well formed |
| ResizeHandler.ReadSizeDirectives | app/handlers/resize.go:121-183 | without a crop value, the width-then-height reading computes exactly the meaning of the two values, and its results are well formed |
| ResizeHandler.Parse | app/handlers/resize.go:77-184 | every successful parse is well formed (the canonical key of its dimensions and mode, a crop with both dimensions positive), and it is a crop exactly when c or crop is non-empty |
| ResizeHandler.SizeParams | app/handlers/resize.go:121-183 | without a crop the parse succeeds iff the width value succeeds and the height value is empty or a dimension; the width is the width value's, the height the height value's when given, else the "WxH" height |
| ResizeHandler.CropTakesPrecedence | app/handlers/resize.go:81-119 | a non-empty c/crop decides the parse on its own regardless of w/h; a successful parse is a crop; a single dimension S gives exactly (S, S, crop, "c_SxS") |
| ResizeHandler.ParseWithoutCrop | app/handlers/resize.go:121-183 | no directive gives (0, 0, ""); a bare width gives "w_N" and height 0; a separate height overrides the height of w=WxH with key "w_WxH"; height alone gives "h_N" with width 0 |
| ResizeHandler.ParseRejects | app/handlers/resize.go:89-169 | a c or w value with 'x' that does not split into two parts, a c or w value whose first or second part is not a positive number, and a non-numeric or non-positive bare crop, width or height all fail |
| ResizeHandler.RejectsNonNumericWidth | test/resize_test.go:171-175 | w=abc is rejected |
| ResizeHandler.RejectsNonNumericHeight | test/resize_test.go:177-181 | h=xyz is rejected |
| ResizeHandler.RejectsThreePartCrop | test/resize_test.go:183-187 | c=100x200x300 is rejected with the crop-format error |
| ResizeHandler.ThreePartCropRejected | app/handlers/resize.go:89-93 | any crop value with three 'x'-separated parts is a format error |
| ResizeHandler.RejectsZeroWidth | test/resize_test.go:189-193 | w=0 is rejected |
| ResizeHandler.RejectsNegativeHeight | test/resize_test.go:195-199 | h=-100 is rejected |
| ResizeHandler.PairQueryRoundTrip | app/handlers/resize.go:85-151 | for positive W and H, c=WxH parses back to the crop (W, H, "c_WxH") and w=WxH to (W, H, "w_WxH") |
| ResizeHandler.SeparateQueryRoundTrip | app/handlers/resize.go:121-180 | for positive W and H, w=W&h=H, w=W and h=H parse back to their dimensions with keys "w_WxH", "w_W" and "h_H" |
| ResizeHandler.CanonicalKeyInjective | app/handlers/resize.go:117-180 | two well-formed requests with the same cache key are the same request |
| ResizeHandler.KeyHash | app/handlers/resize.go:326-331 | the low 31 bits of the key's polynomial hash are below 2^31 |
| ResizeHandler.WrapKeepsLowBits | app/handlers/resize.go:326-331 | reducing modulo 2^64 (int64 wrap-around) keeps the bits that hash & 0x7FFFFFFF keeps |
| ResizeHandler.HashStep | app/handlers/resize.go:327-329 | one wrapped loop step, seen through the low 31 bits, is the step on the low bits |
| ResizeHandler.CacheWidth | app/handlers/resize.go:321-332 | the 64-bit hash loop yields the discriminator: the width when there is no height and no crop, else the hash of the key folded into 100000 + (0..99999) |
| ResizeHandler.Discriminator | app/handlers/resize.go:321-332 | a request with a height or a crop is cached under a column in 100000..199999; any other under its width |
| ResizeHandler.DiscriminatorOfParsed | app/handlers/resize.go:321-332 | for a parsed request the discriminator is its width without height or crop, otherwise in 100000..199999, and it is 0 exactly when nothing is requested |
| ResizeHandler.BareWidthSharesHashedRow | app/handlers/resize.go:321-332 | the ranges overlap: w=102938 and h=1 are different requests with the same discriminator, so they share a cache row |
| ResizeHandler.SvgDocumentMarkers | app/handlers/resize.go:198-203 | every placeholder document contains "<svg" and "Image not available" |
| ResizeHandler.GenerateErrorSvg | app/handlers/resize.go:187-206 | no dimension gives 400x300, one zero dimension copies the other, otherwise the size is kept; the body contains "<svg" and "Image not available" |
| ResizeHandler.FillScale | app/handlers/resize.go:228-235 | the fill scale is at least both target/original ratios and equals one of them |
| ResizeHandler.ScaleCovers | app/handlers/resize.go:228-239 | scaling by at least target/orig gives at least the target after truncation, exactly the target at the ratio itself |
| ResizeHandler.CropOfCovering | app/handlers/resize.go:245-255 | when the scaled image covers the target, the offsets need no clamping: half the horizontal overflow, 30% of the vertical one, truncated |
| ResizeHandler.CropGeometry | app/handlers/resize.go:210-257 | a crop scales to cover the target in both directions and match it in one; the offsets are non-negative; the crop rectangle is exactly W x H inside the scaled image |
| ResizeHandler.CropExample | app/handlers/resize.go:214-257 | a 400x300 image cropped to 100x100 is scaled to 133x100 and cropped at (16, 0) |
| ResizeHandler.ResizeImage | app/handlers/resize.go:209-278 | no dimensions leaves the image unchanged; a crop gives a fill-and-crop to exactly the target; otherwise both dimensions give Fit, a width alone a resize to that width, a height alone a resize to that height |
| ResizeHandler.ChooseEncoding | app/handlers/resize.go:466-500 | GIF stays GIF; otherwise WebP when its encode succeeds, else PNG for PNG input and JPEG at the same quality for all others; the MIME type matches the format |
| ResizeHandler.WebPQuality | app/handlers/resize.go:32-47 | QUALITY in 10..100 is used as given; anything else, or unset, gives 90 |
| ResizeHandler.RepairScheme | app/handlers/resize.go:296-302 | a URL starting "https:/" or "http:/" without the second slash gets it; other URLs are unchanged; the result never lacks the slash |
| ResizeHandler.RepairIdempotent | app/handlers/resize.go:296-302 | repairing a repaired URL changes nothing |
| ResizeHandler.SkipCache | app/handlers/resize.go:335-341 | the cache is bypassed iff Cache-Control contains "no-cache" or "no-store", or Pragma is "no-cache" |
| ResizeHandler.WriteBackTargetsResizedRow | app/handlers/resize.go:502-509 | a parsed request is written back iff its discriminator is positive, so never over the original's width-0 row |
| ResizeHandler.CacheStep | app/handlers/resize.go:343-357 | the cached bytes are served, with X-Cache HIT, iff the client did not ask for fresh content and the read gave data; otherwise the fetch says BYPASS iff fresh content was asked for, MISS otherwise, and writes back iff a dimension was requested |
| ResizeHandler.BypassSkipsOnlyTheRead | app/handlers/resize.go:334-357 | whatever the cache holds, a bypassed request takes the path of a miss: it says BYPASS instead of MISS and is written back exactly as a miss is |
| ResizeHandler.NoDimensionsReadsOriginal | app/handlers/resize.go:321-349 | a request without dimensions has discriminator 0, so its cache read returns the original_data column |
| ResizeHandler.WriteBackServesNextRequest | app/handlers/resize.go:502-509 | after the write-back, the same request reads the encoded output, its MIME type and format, and is served from cache |
| ResizeHandler.OriginalWriteFeedsOnlyPlainRequests | app/handlers/resize.go:450-455 | after the original is written at width 0, requests without dimensions read it, and requests with dimensions read what they read before |
| Retry.FirstRun | app/database/db.go:135-143 | the attempt that runs is the first of three that does not fail; there is none iff all three fail |
| Retry.Attempt | app/database/db.go:133-143 | the loop stops at the first attempt that runs, keeps the last error after three failures, and makes 1 to 3 attempts with one pause fewer than attempts |
| ImageTable.Without | app/database/db.go:155-159 | the replace step removes exactly the rows with the key |
| ImageTable.Find | app/database/db.go:117-122 | the lookup returns a row with the key, and none only when no row has it |
| ImageTable.InsertOrReplace | app/database/db.go:155-174 | the new row, with exactly the supplied columns, is the newest row; the other rows are the old ones without the key |
| ImageTable.Select | app/database/db.go:112-147 | no row iff no row has the key; otherwise the content type, format and the original_data column for width 0, resized_data for any other width, of a row with the key |
| ImageTable.InsertOrReplaceKeepsInvariant | app/database/db.go:87-98 | INSERT OR REPLACE keeps UNIQUE(url, width), increasing ids and timestamp order |
| ImageTable.InsertOrReplaceThenFind | app/database/db.go:155-174 | after the write the key holds exactly the new row, every supplied column, a fresh id and created_at, and every other key is unchanged |
| ImageTable.ReadAfterWrite | app/database/db.go:112-195 | a width-0 read after a write returns the original data, any other width the resized data; other keys read as before |
| ImageTable.MissingKeyReadsNoRow | app/database/db.go:145-147 | a key with no row reads as no row, not as an error |
| ImageTable.EvictOldest | app/database/db.go:223-243 | the oldest-first prefix of max(1, n/2) rows is deleted, so the remainder is a proper suffix of a non-empty table |
| ImageTable.EvictOldestSpec | app/database/db.go:223-243 | an empty table is unchanged; otherwise exactly max(1, n/2) rows go, none younger than a kept row; kept rows are untouched and the invariant holds |
| ImageTable.Database.constructor | app/database/db.go:86-110 | a new table is empty and valid |
| ImageTable.Database.Tick | app/database/db.go:96 | time moves forward and the rows stay as they were |
| ImageTable.Database.Upsert | app/database/db.go:155-174 | the table becomes the INSERT OR REPLACE of the old one at the current time with the next id, and stays valid |
| ImageTable.Database.DeleteOldest | app/database/db.go:234-243 | the table becomes its oldest-half eviction and stays valid |
| ImageCache.MaxDatabaseSizeMB | app/database/db.go:23-38 | MAX_DB_SIZE is taken as any integer, even a negative one; otherwise 1000 |
| ImageCache.GetCachedImage | app/database/db.go:112-153 | with an attempt that runs, the read of the key, or (nil, "", "") with no error for a missing row; after three failures, nothing and the wrapped last error; never more than 3 attempts or 2 pauses |
| ImageCache.CacheImage | app/database/db.go:155-174 | with an attempt that runs, the INSERT OR REPLACE with all columns; after three failures, an unchanged table and the wrapped last error |
| ImageCache.CacheOriginalImage | app/database/db.go:176-195 | with an attempt that runs, the INSERT OR REPLACE at width 0 with resized_data NULL; after three failures, an unchanged table and the wrapped last error |
| ImageCache.CleanupAtomic | app/database/db.go:207-256 | every failure before commit leaves the table unchanged; success evicts the oldest half, changing the table iff it was non-empty |
| ImageCache.Cleanup | app/database/db.go:207-256 | the cleanup leaves either the table or its oldest-half eviction; a failure to begin or to count leaves the table and reports an error |
| ImageCache.DeleteOldestImages | app/database/db.go:208-267 | the transaction's step-by-step effect is exactly the cleanup's table and error, and the table stays valid |
| ImageCache.OverLimitExact | app/database/db.go:285-289 | size / 2^20 > limit in reals iff size > limit * 2^20 in integers |
| ImageCache.CleanupTick | app/database/db.go:278-302 | a failed size read skips the tick; the cleanup runs iff the size is over the limit, with the cleanup's effect |
| LegacyImageCache.GetCachedImage | database/db.go:87-117 | one attempt: the read of the key, (nil, "", "") for a missing row, or the unwrapped error |
| LegacyImageCache.CacheImage | database/db.go:119-131 | one INSERT OR REPLACE with all columns, or an unchanged table and the wrapped error |
| LegacyImageCache.CacheOriginalImage | database/db.go:133-145 | one INSERT OR REPLACE at width 0 with resized_data NULL, or an unchanged table and the wrapped error |
| LegacyImageCache.DeleteStandsWithoutTransaction | database/db.go:158-198 | without a transaction a RowsAffected failure reports an error after the rows are gone, where the transactional cleanup keeps them; all other outcomes agree |
| LegacyImageCache.Cleanup | database/db.go:158-198 | the cleanup leaves either the table or its oldest-half eviction, and once the count and the DELETE have succeeded the oldest half is gone whatever follows |
| LegacyImageCache.DeleteOldestImages | database/db.go:158-198 | the count and the delete run as separate statements, and the effect is exactly the two-statement cleanup's table and error |
| LegacyImageCache.CleanupTick | database/db.go:209-221 | a failed size read skips the tick; the two-statement cleanup runs iff the size is over the limit |
| RefererTable.BaseDomain | app/database/referer_db.go:88-122 | "direct" for an empty referer; for a parsed host, the host without one leading "www." cut before its first ':'; "hidden" for an empty host, or for an unparsable referer without enough segments |
| RefererTable.UnparsableRefererSegment | app/database/referer_db.go:94-102 | an unparsable "a/b/c..." gives its third segment without a leading "www." (port kept); "a/b" gives the sentinel |
| RefererTable.EmptyDomainFromBarePort | app/database/referer_db.go:104-121 | a host made only of "www." and a port gives the empty domain |
| RefererTable.Track | app/database/referer_db.go:124-135 | the upsert adds one row, enabled with count 1, exactly when the (domain, day) has none, and never changes a domain, day or flag of an existing row |
| RefererTable.TrackSpec | app/database/referer_db.go:130-135 | tracking creates (domain, day) at 1 or adds exactly 1 to it; no other row changes; uniqueness of (domain, day) is kept |
| RefererTable.TrackLeavesOtherCounts | app/database/referer_db.go:130-135 | the counter of every other (domain, day) is unchanged |
| RefererTable.AnyDisabled | app/database/referer_db.go:200 | MAX(is_disabled) over a domain's rows is true iff some row of the domain is disabled |
| RefererTable.DisabledRows | app/database/referer_db.go:230-241 | the COUNT of the domain's disabled rows is at most the number of rows, and positive exactly when some row of the domain is disabled |
| RefererTable.Toggle | app/database/referer_db.go:245-258 | the toggle keeps the number of rows and changes the flag of a row exactly when the row belongs to the domain |
| RefererTable.ToggleSpec | app/database/referer_db.go:245-258 | the toggle flips the flag of every row of the domain and of no other; domains, days and counts stay; toggling twice restores the table |
| RefererTable.MixedFlagsStayMixed | app/database/referer_db.go:247-251 | once a domain has rows of both flags, a toggle keeps both flags, so the domain stays disabled |
| RefererTable.ToggleCannotReenable | app/database/referer_db.go:66-73 | a domain disabled yesterday and requested today stays disabled after the next toggle, because today's row starts enabled |
| RefererTable.ToggleStatus | app/database/referer_db.go:244-258 | the corrected toggle keeps other domains' rows and gives every row of the domain one and the same flag |
| RefererTable.ToggleStatusFlips | app/database/referer_db.go:244-258 | the corrected toggle flips the domain's status whenever it has rows and leaves other rows unchanged |
| RefererTable.ToggleStatusReenables | app/database/referer_db.go:244-258 | with the corrected toggle, the domain of the scenario above is enabled again |
| RefererTable.IncrementDay | database/referer_db.go:107-111 | the UPDATE adds one to the count of exactly the matching rows |
| RefererTable.IncrementDayKeepsInvariant | database/referer_db.go:107-116 | the UPDATE keeps uniqueness of (domain, day) and changes nothing when no row matches |
| RefererTable.MatchCountZero | database/referer_db.go:118-124 | zero rows affected iff the table has no row for (domain, day) |
| RefererTable.UpdateThenInsertIsTrack | database/referer_db.go:106-133 | run on its own, update-then-insert has the same effect as the upsert |
| RefererQueries.TextLessIrreflexive | app/database/referer_db.go:157-158 | the BINARY text order is irreflexive |
| RefererQueries.TextLessTransitive | app/database/referer_db.go:157-158 | the BINARY text order is transitive |
| RefererQueries.TextLessTotal | app/database/referer_db.go:157-158 | any two distinct dates are ordered one way or the other |
| RefererQueries.DateOrderExample | app/database/referer_db.go:127 | YYYY-MM-DD dates compare as the days they name ("2024-01-31" before "2024-02-01") |
| RefererQueries.InRange | app/database/referer_db.go:155-157 | exactly the rows with start <= date <= end, projected to (domain, date, count) |
| RefererQueries.RankStats | app/database/referer_db.go:158 | the ORDER BY keeps the number of entries |
| RefererQueries.RankStatsSpec | app/database/referer_db.go:158 | the listing sort is a permutation ordered by date descending, then count descending |
| RefererQueries.StatsQuery | app/database/referer_db.go:153-181 | the listing has one entry per row in the window, so never more than the table |
| RefererQueries.StatsQuerySpec | app/database/referer_db.go:153-181 | the listing holds exactly the rows in the window, each as often, date descending then count descending |
| RefererQueries.DomainsOf | app/database/referer_db.go:202 | GROUP BY: every domain of the table once, and no other |
| RefererQueries.SortByTotal | app/database/referer_db.go:203 | the ORDER BY total keeps the number of entries |
| RefererQueries.SortByTotalSpec | app/database/referer_db.go:203 | the sort by total is a permutation, non-increasing in total, keeping distinct domains distinct |
| RefererQueries.AggregateQuery | app/database/referer_db.go:198-204 | the aggregation has one entry per distinct domain of the table |
| RefererQueries.AggregateQuerySpec | app/database/referer_db.go:198-226 | one entry per domain of the table and none for any other; total = sum of the domain's counts; disabled = some row disabled; ordered by total, non-increasing |
| RowScan.CollectRows | app/database/referer_db.go:161-180 | the records are the result set in order, or none with the query, scan or iteration error wrapped in its message |
| RefererDb.Store.constructor | app/database/referer_db.go:64-85 | a new table is empty and valid |
| RefererDb.Store.Upsert | app/database/referer_db.go:130-140 | the in-place upsert is the tracking function, and keeps the invariant |
| RefererDb.Store.Increment | database/referer_db.go:107-121 | the UPDATE increments the matching rows and reports how many there were |
| RefererDb.Store.Insert | database/referer_db.go:124-132 | the INSERT appends (domain, day, 1) |
| RefererDb.Store.Flip | app/database/referer_db.go:247-253 | the UPDATE negates the flag of the domain's rows |
| RefererDb.TrackReferer | app/database/referer_db.go:125-150 | with an attempt that runs, the table is tracked for the "hidden"-sentinel base domain and today; after three failures it is unchanged and the error wrapped; 1 to 3 attempts, one pause fewer |
| RefererDb.IsDomainDisabled | app/database/referer_db.go:229-242 | true iff some row of the domain is disabled (false for a domain without rows); a failed query gives false and the wrapped error |
| RefererDb.ToggleDomainStatus | app/database/referer_db.go:245-258 | the toggle as written: negates every row of the domain; a failure leaves the table and wraps the error |
| RefererDb.GetRefererStats | app/database/referer_db.go:153-181 | without a read failure, the rows in the window, date then count descending; any failure gives no records and its wrapped error |
| RefererDb.GetAggregatedRefererStats | app/database/referer_db.go:198-226 | without a read failure, one entry per domain with its sum and any-disabled flag, by total descending; any failure gives no records and its wrapped error |
| LegacyRefererDb.TrackReferer | database/referer_db.go:102-136 | with no failure the counter is created at 1 or grows by one, as with the upsert; a failed UPDATE changes nothing and skips the insert; a later failure keeps the UPDATE's effect |
| Logs.Lines | app/handlers/logs.go:52 | the lines have no newline and join back to the message without its trailing newlines |
| Logs.NonEmpty | app/handlers/logs.go:53-54 | only non-empty lines are kept, each one a line of the message |
| Logs.LastN | app/handlers/logs.go:55-59 | the last min(|s|, n) elements of s |
| Logs.LastNAppend | app/handlers/logs.go:55-59 | dropping the oldest before an append equals dropping after it |
| Logs.NonEmptyLinesAreSingleLines | app/handlers/logs.go:52-54 | every stored line is non-empty and holds no newline |
| Logs.BlankMessageAddsNothing | app/handlers/logs.go:52-61 | a message of newlines only adds no line |
| Logs.LogBuffer.constructor | app/handlers/logs.go:22-25 | a new buffer is empty with the given positive capacity |
| Logs.LogBuffer.Add | app/handlers/logs.go:47-62 | the buffer becomes the last maxSize lines of the old ones followed by the message's non-empty lines; never above maxSize; unchanged when the message has no non-empty line |
| Logs.LogBuffer.GetAll | app/handlers/logs.go:65-72 | returns the contents, at most maxSize non-empty lines, and changes nothing |
| Config.MaxAge | app/handlers/config.go:20-35 | a non-negative integer MAX_AGE is used; unset, non-integer or negative gives 86400 |
| Config.ToggleRejection | app/handlers/config.go:181-224 | checks in order and reply with the first failure: non-POST (405), body read, JSON, empty domain, "direct"/"hidden"; all pass iff the request has a usable domain |
| Config.ToggleDomainHandler | app/handlers/config.go:181-240 | a rejected request leaves the table; an accepted one toggles once and succeeds iff the toggle reports no error, with its message otherwise |
| ImageModel.Base | app/models/image.go:51 | filepath.Base is never empty and holds no '/' unless it is "/" |
| ImageModel.BaseOfJoinedPath | app/models/image.go:51 | the file name of "dir/name" is name |
| ImageModel.Properties | app/models/image.go:44-53 | the map has exactly the six keys source, width, height, format, fileSize and filename |
| ImageModel.PropertyValues | app/models/image.go:44-53 | source, width, height, format and fileSize are the image's fields unchanged, and filename is the base name of the source |
| ImageModel.AspectRatio | app/models/image.go:55-60 | 0 for a zero height, otherwise width / height exactly |
| ImageModel.ExactlyOneOrientation | app/models/image.go:62-72 | every image is exactly one of landscape, portrait, square |
| ImageModel.LandscapeRatio | app/models/image.go:55-72 | with a positive height: landscape iff ratio > 1, square iff ratio = 1 |
| GoStrings.Atoi | app/handlers/resize.go:95 | strconv.Atoi succeeds exactly on an optional sign and one or more decimal digits whose signed value lies in the int64 range, the most negative one included, and then returns that value: the digits' value, negated after a '-' |
| GoStrings.AtoiExamples | app/handlers/resize.go:154-160 | numerals that Itoa never prints still parse to their value: "007" is 7 (so w=007 is keyed "w_7"), "+5" is 5 and "-0" is 0 |
| GoStrings.AtoiMinInt64 | app/handlers/resize.go:95-98 | the most negative int64 is accepted, although its magnitude is not an int64 |
| GoStrings.Itoa | app/handlers/resize.go:117 | the printed numeral of a non-negative value is all digits; printing an int64 and parsing it back gives the value (AtoiItoa) |
| GoStrings.Split | app/handlers/resize.go:90 | strings.Split gives at least one piece, exactly one iff the separator does not occur, no piece holds the separator, and joining the pieces gives back the string |
| GoStrings.Contains | app/handlers/resize.go:338 | strings.Contains holds iff the substring occurs at some position |
| GoStrings.TrimRight | app/handlers/logs.go:52 | the result is a prefix that does not end in the cut character, and only that character was cut |
| GoStrings.TrimPrefix | app/database/referer_db.go:114 | with the prefix present the string is the prefix followed by the result; otherwise the string is unchanged |
| GoStrings.IndexOf | app/database/referer_db.go:117 | none iff the character does not occur; otherwise the position of its first occurrence |
| GoStrings.ReplaceFirst | app/handlers/resize.go:298 | a string starting with the pattern has that first occurrence replaced |

## Left out

- Network fetch, `url.QueryUnescape`, `url.Parse` internals, response writing and headers: these are I/O or foreign parsers, so their outcomes are parameters.
- Image decode, encode, resize and crop pixel work: these are codec library calls. Images are their dimensions, WebP success is a boolean, and the encoder is named rather than run.
- Goroutines are left out. These are the fire-and-forget referer and cache writes, the background VACUUM and the ticker loop. One cleanup tick is a step, and each write is a separate call.
- Mutex locking in the log buffer, the WebSocket clients, `broadcastLog` and `LogWriter`: these are concurrency and I/O.
- `time.Sleep`, `time.Now`, `os.Stat`, database open, pragmas and table creation: these are the clock and the file system. Time, day and size are inputs, and pauses are counted.
- The handler's 403 for a disabled referer domain (`app/handlers/resize.go:360-368`) is HTTP plumbing around `RefererDb.IsDomainDisabled` and is not modelled separately.
- The SVG pass-through path (`handleSVG`) is response plumbing and is left out.
- ResizeHandler.ResizeImage: requires positive original dimensions in the crop branch. Go's float division by a zero dimension gives an infinite scale and an undefined int conversion.
- ResizeHandler.ResizeImage: the crop scale is an exact rational. float64 rounding (for example x/y*y just below y, giving one pixel less) is not modelled.
- ResizeHandler.CacheStep: covers the successful fetch. When the fetch, status check or body read fails, the placeholder SVG is sent with X-Cache MISS even for a bypassed request, and nothing is written back; those paths are response plumbing.
- RefererDb.Store.Insert: requires that the day has no row yet, as the older tracker guarantees by inserting only when the UPDATE matched nothing. The UNIQUE violation a concurrent insert would raise is not modelled.
- RefererQueries.TotalCount: an unbounded sum. SQLite's integer overflow of `SUM` is not modelled.
- RefererQueries.RankStats and RefererQueries.SortByTotal: SQL leaves the order of equal keys open. The model picks one, and the proved properties hold for any order of equal keys.
- ImageTable.EvictOldest: rows with equal `created_at` are evicted in table order, one choice among those SQLite may make.
- The legacy tracker's table has no `is_disabled` column. Its rows carry the flag at its default, false.
- Readable-size and percentage formatting in the configuration pages: floating-point presentation.

## Findings

| source | as written | input that shows it | evidently intended | confidence | as-written member | corrected member |
|---|---|---|---|---|---|---|
| app/database/referer_db.go:245-258 | the toggle negates `is_disabled` on each row of the domain independently, while rows tracked later start enabled (line 71) and a domain counts as disabled when any row is | track d on day 1, toggle d, track d on day 2, toggle d: the day-1 row is back to enabled but the day-2 row is now disabled, so `IsDomainDisabled(d)` is still true and no later toggle enables d | toggling flips the domain's status: every row of the domain takes the negation of its current status | medium, not executed | RefererTable.ToggleCannotReenable | RefererTable.ToggleStatusFlips |

`RefererDb.ToggleDomainStatus` models the statement as written. `RefererTable.ToggleStatus` is the corrected toggle. `ToggleStatusFlips` and `ToggleStatusReenables` prove the intended behaviour for it.
