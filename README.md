# twittercleaner, modelled in Dafny

twittercleaner deletes a user's tweets. It runs in two modes.

- **Timeline mode.** `main` starts a round at once, and another at every
  tick of an hourly `time.Tick`. Each round is two goroutines joined by an
  unbuffered channel.
  - `deleteOldTweetsFromTimeline` pages backwards through the user's timeline.
    The first request has no `max_id`. Every later request carries `max_id`
    set to one below the smallest id seen so far, which the walker keeps in
    `lasttweet`. The model keeps `max_id` as the int64 whose decimal text
    `strconv.FormatInt` writes, since that text reads back as the same number
    (`GoStrconv.RoundTrip`).
  - The walker sends on the channel the id of every tweet whose `CreatedAt`
    is strictly before now minus MaxAge hours.
  - The pass stops at the first empty page, or at the first non-empty page
    that comes with an error.
  - `blindDeleter` deletes every id it receives and logs any delete error.
- **Archive mode.** `deleteOldTweetsFromArchive` opens a Twitter archive.
  For every file named `tweets.csv`, it skips the header record. For every
  other record, it makes one delete call for the id that `strconv.ParseInt`
  reads from the record's first field. Age plays no part in this mode.
- **Configuration.** The configuration holds four credentials and MaxAge.
  With `-writeconfig` it is built from the command-line flags alone.
  Otherwise it is read from a JSON file, and every flag whose value is
  non-empty (non-zero for MaxAge) overrides the stored field. So the
  `-maxage` default of 48 overrides even when not given, and a credential
  flag given as empty does not.

The model has one module per concern:

- `GoTypes`: Go's `int64` and its wrap-around, plus `Option`.
- `GoStrconv`: `strconv.ParseInt(s, 10, 64)` and `strconv.FormatInt(x, 10)`.
  It follows Go's digit loop, including its range and syntax errors.
- `AgeFilter`: the age test, with Go's `time.Duration` arithmetic. The
  negation and the multiplication by `time.Hour` wrap around in int64, as in
  Go.
- `Timeline`: the walker.
  - `Step` is one iteration of the outer loop, as a function on the state of
    a pass (`Pass`).
  - `Run` is that function iterated.
  - The imperative `DeleteOldTweetsFromTimeline` keeps the source's two
    nested loops and is proved equal to `Run`.
  - Invariants of `Step` are proved once and lifted to every `Run`.
- `Deleter`: `blindDeleter` over the sequence of ids sent on the channel.
- `Archive`: the file loop and the record loop, including the two run-time
  panics. `records[1:]` panics on an empty `tweets.csv`, and `record[0]`
  panics on a record with no field. Go's `csv.Reader.ReadAll` skips empty
  lines and never returns a record with no field, so the second panic
  cannot come from a real `tweets.csv`; the model keeps it because the
  record loop itself does not rule it out.
- `Config`: `-writeconfig` and the flag overrides.
- `Scheduler`: one hourly round, with the walker's output handed to the
  deleter.

Everything outside the program is a parameter of the model:

- The Twitter client is `fetch(n, maxId)`, the page returned by the n-th
  timeline request, and `fails(i, id)`, whether the i-th delete call fails.
- `time.Now()` is `clock(k)`, its reading while the k-th tweet is tested.
- `time.Parse` is `parseTime`.
- The zip and CSV readers are given as the file names and records they
  return.

Four behaviours of the code are easy to misread. The model follows the
code in each:

- **Unparsable `CreatedAt`.** The error is only logged. `ts` is then Go's
  zero Time, which lies before any realistic cutoff, so the tweet is deleted
  rather than kept (`AgeFilter.UnparsableTimestampExpired`).
- **Malformed archive id.** The record is not skipped. The delete call is
  made with whatever `ParseInt` returned:
  - 0 for a syntax error (`Archive.MalformedIdDeletesZero`);
  - the clamped `math.MaxInt64` or `math.MinInt64` for an out-of-range
    numeral (`Archive.OutOfRangeIdDeletesBound`).
- **The `-maxage` default.** `-maxage` defaults to 48, which is non-zero, so
  a stored MaxAge is replaced by 48 unless the command line passes
  `-maxage=0` (`Config.DefaultMaxAgeOverridesStored`).
- **Very large MaxAge.** A MaxAge above 2,562,047 hours wraps the duration
  round, which can put the cutoff in the future
  (`AgeFilter.AgeOffsetIsWrappedProduct`, `AgeFilter.HugeMaxAgeWraps`).

## Model

| member | source | states |
|---|---|---|
| GoTypes.Wrap64 | twittercleaner.go:61-66 | the int64 result agrees with the exact value modulo 2^64 and is the value itself whenever it fits, as Go's int64 arithmetic in `lasttweet-1` and the duration product |
| GoStrconv.ParseInt | twittercleaner.go:96 | a syntax error yields 0, and a range error yields `math.MinInt64` for a field starting with `-` and `math.MaxInt64` otherwise |
| GoStrconv.ParseIntOutOfRange | twittercleaner.go:96 | a numeral whose value lies outside int64 gives a range error with the value clamped to the bound on its side |
| GoStrconv.ParseIntSucceedsIff | twittercleaner.go:96 | the id parse succeeds exactly on optionally signed decimal numerals whose value lies in int64, and then yields that value |
| GoStrconv.NonNumeralReadsAsZero | twittercleaner.go:96-99 | a first field that is not a numeral, with at most 19 digits after its sign before the first non-digit, is read as id 0 together with a syntax error |
| GoStrconv.LeadingDigits | twittercleaner.go:96 | the count of digits that open a string: they are all digits, and the character after them is not |
| GoTypes.Wrap64Unique | twittercleaner.go:61-66 | an int64 result of Go's wrapping arithmetic is unique: two int64 values that agree modulo 2^64 are equal |
| GoStrconv.FormatInt | twittercleaner.go:61 | the `max_id` text is an optional minus sign followed by decimal digits |
| GoStrconv.FormatUintValue | twittercleaner.go:61 | the digits written denote the number written |
| GoStrconv.RoundTrip | twittercleaner.go:61 | the `max_id` text read back by `ParseInt` is the int64 that was written, with no error |
| GoStrconv.DigitLoopExact | twittercleaner.go:96 | the digit loop yields the exact value of a digit string when it fits in 64 bits, and it reports success only then |
| GoStrconv.DigitLoopNoSyntaxError | twittercleaner.go:96 | on a string of digits the digit loop can only succeed or overflow |
| GoStrconv.DigitLoopStopsAtNonDigit | twittercleaner.go:96 | the digit loop reports a syntax error with value 0 at the first non-digit it reaches before overflowing |
| GoStrconv.DecValueBound | twittercleaner.go:96 | a string of k digits denotes a number below 10^k |
| AgeFilter.AgeOffset | twittercleaner.go:66 | for every MaxAge whose duration fits in int64, the offset is exactly minus MaxAge hours |
| AgeFilter.Cutoff | twittercleaner.go:66 | for a MaxAge that does not wrap, the cutoff is exactly now minus MaxAge hours |
| AgeFilter.Expired | twittercleaner.go:66 | `ts.Before(cutoff)`; characterised by `AgeFilter.ExpiredIff` and `AgeFilter.ExpiredAntitone` |
| AgeFilter.AgeOffsetIsWrappedProduct | twittercleaner.go:66 | for every MaxAge, the offset is minus MaxAge hours wrapped once into int64: Go's wrap of the negation then of the product equals one wrap of the exact product |
| AgeFilter.ExpiredIff | twittercleaner.go:66 | for a MaxAge that does not wrap, a tweet is old exactly when its timestamp is strictly more than MaxAge hours before now; a tweet exactly MaxAge hours old is kept |
| AgeFilter.ExpiredAntitone | twittercleaner.go:66 | for MaxAges whose duration does not wrap, a larger MaxAge never makes more tweets old (a wrapping one can: `AgeFilter.HugeMaxAgeWraps`) |
| AgeFilter.HugeMaxAgeWraps | twittercleaner.go:66 | MaxAge 2,562,048 wraps the offset to about +292 years, so every tweet up to that far after now counts as old |
| AgeFilter.UnparsableTimestampExpired | twittercleaner.go:62-66 | a tweet whose date does not parse is compared as the zero Time (`TimestampOrZero`), so it is old whenever the cutoff lies after the zero Time |
| Timeline.MaxIdBelow | twittercleaner.go:61 | the `max_id` value is Go's int64 `lasttweet-1`: the exact difference wrapped into int64 (`Wrap64`), so one below except at `math.MinInt64` |
| Timeline.Watermark | twittercleaner.go:57-59 | the running minimum of `lasttweet`; characterised by `Timeline.WatermarkIsMin`, `WatermarkAppend` and `WatermarkNeverIncreases` |
| Timeline.ExpiredIds | twittercleaner.go:62-68 | the ids sent for a run of tweets; characterised by `Timeline.ExpiredIdsMembership`, `ExpiredIdsSubsequence`, `ExpiredIdsAppend` and `ExpiredIdsDescending` |
| Timeline.Step | twittercleaner.go:48-69 | one iteration of the outer loop; characterised by `Timeline.ConsistentStep`, `PagesFetchedStep`, `EmitsStep`, `RequestsStep`, `StepDescends` and `DescendingStep` |
| Timeline.Run | twittercleaner.go:47-70 | the outer loop iterated `fuel` times; characterised by the `Timeline.Run…` lemmas below and proved equal to the imperative walker |
| Timeline.Ids | twittercleaner.go:56-67 | the ids of a page, in page order |
| Timeline.DeleteOldTweetsFromTimeline | twittercleaner.go:39-72 | the imperative walker with its two nested loops makes the same requests, processes the same pages and sends the same ids as `Run`, for every client, clock and parser |
| Timeline.OuterIteration | twittercleaner.go:48-69 | one iteration of the outer loop yields the state `Step` defines: it stops on an empty page, stops on a non-empty page with an error, and otherwise processes the page |
| Timeline.ProcessPage | twittercleaner.go:56-69 | the inner loop over a page sends the ids of exactly its old tweets in page order, leaves `lasttweet` at the page's watermark and sets `max_id` to one below it |
| Timeline.StaysEnded | twittercleaner.go:49-55 | once the loop has broken out, no further request or emission happens |
| Timeline.FlattenSnoc | twittercleaner.go:56 | the tweets processed after one more page are the earlier ones followed by that page |
| Timeline.FlattenMembers | twittercleaner.go:56 | a tweet was processed exactly when it is on some processed page |
| Timeline.WatermarkAppend | twittercleaner.go:57-59 | lowering the watermark over two pages in turn equals lowering it over both at once |
| Timeline.WatermarkIsMin | twittercleaner.go:57-59 | the watermark is at most its start and every id seen, and it equals its start or one of those ids |
| Timeline.WatermarkNeverIncreases | twittercleaner.go:57-59 | more tweets never raise the watermark |
| Timeline.ExpiredIdsAppend | twittercleaner.go:56-68 | the ids sent for two runs of tweets are those sent for each, with the tweet count carried on |
| Timeline.ExpiredIdsMembership | twittercleaner.go:62-68 | an id is sent for a run of tweets exactly when a tweet with that id fails the age test at its turn |
| Timeline.ExpiredIdsSubsequence | twittercleaner.go:56-68 | the ids sent are the page's ids in order with the young tweets left out, so there are no more of them than tweets |
| Timeline.ConsistentStep | twittercleaner.go:46-61 | each outer iteration keeps the tweet count, `lasttweet` as the watermark of everything processed, and `max_id` as one below it |
| Timeline.RunConsistent | twittercleaner.go:46-61 | at every point of a pass, `lasttweet` and `max_id` agree with the tweets processed so far |
| Timeline.PagesFetchedStep | twittercleaner.go:48-56 | each outer iteration keeps every processed page equal to the non-empty, error-free page its request returned, and records why the pass ended |
| Timeline.RunPagesFetched | twittercleaner.go:48-56 | a pass processes exactly the pages its requests returned, and it ends on an empty page or on a non-empty page with an error, whose tweets are not processed |
| Timeline.EmitsStep | twittercleaner.go:56-68 | each outer iteration keeps the ids sent equal to those of the old tweets among all tweets processed, in order |
| Timeline.RunEmitsExpired | twittercleaner.go:56-68 | a pass sends exactly the ids of the old tweets it processed, in processing order |
| Timeline.RequestsStep | twittercleaner.go:44-61 | each outer iteration keeps every request after the first carrying `max_id` equal to one below the watermark of the pages before it |
| Timeline.RunRequests | twittercleaner.go:44-61 | the first request has no `max_id`, and each later one has one below the smallest id on all earlier pages |
| Timeline.EmptyFirstPage | twittercleaner.go:48-51 | an empty first page ends the pass after one request without `max_id` and sends nothing |
| Timeline.RunEmitsSubsequence | twittercleaner.go:56-68 | the ids a pass sends are the processed ids in order with the young ones left out |
| Timeline.RunEmitsOldTweets | twittercleaner.go:56-68 | an id is sent exactly when a processed tweet with that id fails the age test at its turn |
| Timeline.MaxIdBelowSeen | twittercleaner.go:57-61 | when no id is `math.MinInt64`, the `max_id` sent lies strictly below every id seen |
| Timeline.ProcessedAboveMin | twittercleaner.go:48-56 | a pass processes no tweet with id `math.MinInt64` when the client returns none |
| Timeline.RequestBelowSeen | twittercleaner.go:57-61 | when the client never returns `math.MinInt64`, every request after the first carries a `max_id` strictly below every id processed before it |
| Timeline.PagesDescend | twittercleaner.go:48-61 | with a client that honours `max_id` and never returns `math.MinInt64`, every id on a page lies strictly below every id on each earlier page, so no page repeats a tweet of an earlier page; repeats within one page are not excluded |
| Timeline.DescendingAppend | twittercleaner.go:56-61 | two runs of tweets in decreasing id order, the second wholly below the first, make one such run |
| Timeline.DescendingStep | twittercleaner.go:48-61 | with a client that honours `max_id` and lists pages newest first, each outer iteration keeps all processed tweets in strictly decreasing id order |
| Timeline.RunAboveMin | twittercleaner.go:47-61 | with a client that honours `max_id` and never returns `math.MinInt64`, `lasttweet` stays above `math.MinInt64` while the pass goes on after a page |
| Timeline.RunDescendingStep | twittercleaner.go:47-61 | with a client that honours `max_id`, never returns `math.MinInt64` and lists each page newest first, the iteration after any point of a pass keeps the processed tweets in strictly decreasing id order |
| Timeline.RunProcessesDescending | twittercleaner.go:47-61 | with a client that honours `max_id`, never returns `math.MinInt64` and lists pages newest first, a pass processes tweets in strictly decreasing id order |
| Timeline.ExpiredIdsDescending | twittercleaner.go:62-68 | the ids sent for tweets in strictly decreasing id order strictly decrease |
| Timeline.NoIdSentTwice | twittercleaner.go:47-68 | with a client that honours `max_id`, never returns `math.MinInt64` and lists each page newest first, the ids a pass sends strictly decrease, so no id is sent twice |
| Timeline.RunRequestCount | twittercleaner.go:47-55 | each outer iteration makes exactly one page request while the pass runs, and none after it ended |
| Timeline.StepDescends | twittercleaner.go:48-61 | with a client that honours `max_id` and never returns `math.MinInt64`, each outer iteration that does not end the pass strictly lowers `lasttweet` and keeps it above `math.MinInt64` |
| Timeline.RunDescends | twittercleaner.go:46-61 | with a client that honours `max_id` and never returns `math.MinInt64`, after n iterations that have not ended the pass, `lasttweet` is at most `math.MaxInt64` minus n-1 |
| Timeline.PassTerminates | twittercleaner.go:47-70 | with a client that honours `max_id` and never returns `math.MinInt64`, every pass ends within 2^64 page requests |
| Timeline.RunLasttweetIsMin | twittercleaner.go:46-59 | `lasttweet` is the smallest id processed so far, or `math.MaxInt64` when none is smaller |
| Timeline.LasttweetNeverIncreases | twittercleaner.go:46-59 | `lasttweet` never goes up during a pass |
| Deleter.BlindDeleter | twittercleaner.go:26-37 | one delete call per id received, in order, and the ids logged are exactly those whose call failed |
| Deleter.FailedDeletes | twittercleaner.go:31-35 | the ids `blindDeleter` logs; characterised by `Deleter.FailedDeletesMembership`, `FailedDeletesSubsequence` and `FailedDeletesAppend` |
| Deleter.FailedDeletesMembership | twittercleaner.go:31-35 | an id is logged exactly when one of its delete calls failed |
| Deleter.FailedDeletesSubsequence | twittercleaner.go:31-35 | the failed ids are logged in the order received, never more of them than ids |
| Deleter.FailedDeletesAppend | twittercleaner.go:31-35 | the ids received can be split anywhere, with the call count carried on |
| Archive.RecordStep | twittercleaner.go:96-103 | one iteration of the record loop; characterised by `Archive.RecordLogContents`, `RecordStepDeleteLog`, `RecordStepParseLog` and `RecordLogFilters` |
| Archive.DeleteRecords | twittercleaner.go:95-104 | the record loop; characterised by `Archive.DeleteRecordsAttempts`, `DeleteRecordsPanicsIff`, `DeleteErrorsInOrder` and `ParseErrorsInOrder` |
| Archive.DeleteFile | twittercleaner.go:95 | the record loop over `records[1:]`, panicking on an empty file; characterised by `Archive.HeaderIgnored` and `EmptyTweetsCsvPanics` |
| Archive.DeleteArchive | twittercleaner.go:84-107 | the file loop; characterised by `Archive.OtherFilesIgnored`, `OtherFilesAppended`, `FirstTweetsCsv`, `EmptyTweetsCsvPanics` and `SingleTweetsCsv` |
| Archive.DeleteErrors | twittercleaner.go:100-103 | the ids of the delete-error lines of a log, in order; used by `Archive.DeleteErrorsInOrder` |
| Archive.ParseErrors | twittercleaner.go:96-99 | the parse-error lines of a log, in order; used by `Archive.ParseErrorsInOrder` |
| Archive.BadIds | twittercleaner.go:96-99 | the parse-error line each record should log, in record order; used by `Archive.ParseErrorsInOrder` |
| Archive.RecordLogContents | twittercleaner.go:96-103 | one record logs at most a parse error for its own field and a delete error for the id it used |
| Archive.DeleteOldTweetsFromArchive | twittercleaner.go:74-108 | the imperative file and record loops make the same delete calls, log the same lines and panic in the same place as `DeleteArchive` |
| Archive.DeleteRecordsLoop | twittercleaner.go:95-104 | the imperative record loop equals `DeleteRecords` |
| Archive.DeleteRecord | twittercleaner.go:96-103 | one record is parsed, deleted and logged as `RecordStep` says, and a record with no field panics |
| Archive.DeleteRecordsSnoc | twittercleaner.go:95-104 | the record loop over one more record is one more step |
| Archive.DeleteRecordsStopsAtPanic | twittercleaner.go:95-96 | after a panic, later records change nothing |
| Archive.ArchiveStopsAtPanic | twittercleaner.go:84-107 | after a panic, later files change nothing |
| Archive.DeleteRecordsAttempts | twittercleaner.go:95-100 | one delete call per record, in order, with the parsed id, until the first record with no field, where it panics |
| Archive.DeleteRecordsPanicsIff | twittercleaner.go:95-96 | the record loop panics exactly when some record has no field |
| Archive.MalformedIdDeletesZero | twittercleaner.go:96-100 | a record whose first field is not a numeral, with at most 19 digits after its sign before the first non-digit, still gets a delete call, for id 0 |
| Archive.OutOfRangeIdDeletesBound | twittercleaner.go:96-100 | a record whose first field is a numeral outside int64 still gets a delete call, for `math.MaxInt64` or `math.MinInt64` by the numeral's sign |
| Archive.NumeralIdDeleted | twittercleaner.go:96-100 | a record whose first field is an int64 numeral gets a delete call for that id |
| Archive.RecordStepDeleteLog | twittercleaner.go:100-103 | each record keeps the delete errors logged in step with the failed calls |
| Archive.DeleteFailuresLogged | twittercleaner.go:100-103 | a delete error is logged for an id exactly when one of its calls failed |
| Archive.LogFiltersAppend | twittercleaner.go:96-103 | the delete-error and parse-error lines of two log stretches are those of each, in turn |
| Archive.RecordLogFilters | twittercleaner.go:96-103 | one record logs exactly one delete-error line when its call failed and exactly one parse-error line, with its field and error, when its field did not parse |
| Archive.DeleteErrorsInOrder | twittercleaner.go:95-104 | the delete-error lines of the record loop are the failed calls' ids, one per failed call, in call order, as `blindDeleter` would log them |
| Archive.RecordStepParseLog | twittercleaner.go:96-99 | each record keeps the parse errors logged in step with the fields read |
| Archive.ParseFailuresLogged | twittercleaner.go:96-99 | a parse error is logged for a field exactly when a record that got its delete call has that field first and it fails to parse with that error |
| Archive.ParseErrorsStep | twittercleaner.go:95-99 | one record keeps the parse-error lines equal to those the records that got their delete call should log, in record order |
| Archive.LineFilters | twittercleaner.go:96-103 | a single log line passes exactly the filter for its own kind |
| Archive.ParseErrorsInOrder | twittercleaner.go:95-99 | the parse-error lines of the record loop are one line per processed record whose field does not parse, with that field and error, in record order |
| Archive.HeaderIgnored | twittercleaner.go:95 | the header record of `tweets.csv` never affects what happens |
| Archive.EmptyTweetsCsvPanics | twittercleaner.go:84-95 | an empty first `tweets.csv`, after any files with other names and before anything, panics before any delete call |
| Archive.OtherFilesIgnored | twittercleaner.go:84-85 | an archive without a `tweets.csv` makes no delete call, logs nothing and does not panic |
| Archive.OtherFilesAppended | twittercleaner.go:84-85 | files with other names appended to an archive change nothing |
| Archive.FirstTweetsCsv | twittercleaner.go:84-95 | up to its first `tweets.csv`, an archive's run is that file's record loop alone |
| Archive.SingleTweetsCsv | twittercleaner.go:84-104 | an archive whose only `tweets.csv`, among any files with other names, has records that all have a field gets one delete call per record after the header, in order, with the parsed id, and does not panic |
| Config.FromFlags | twittercleaner.go:124-130 | the `-writeconfig` configuration; characterised by `Config.MergeAllFlags` and `WrittenConfigReadsBack` |
| Config.Merge | twittercleaner.go:155-169 | the flag overrides; characterised by `Config.MergeFieldwise`, `MergeIdempotent`, `MergeNoFlags` and `MergeCompose` |
| Config.OverrideFromFlags | twittercleaner.go:155-169 | the override block yields `Merge`: each field takes its flag's value when that value is non-empty or non-zero |
| Config.LoadConfiguration | twittercleaner.go:123-169 | with `-writeconfig` the configuration is the flags alone, otherwise the decoded file with the flags laid over it |
| Config.MergeFieldwise | twittercleaner.go:155-169 | each field becomes the flag's value exactly when the flag is set or both values agree, and keeps the stored value when the flag is unset |
| Config.MergeIdempotent | twittercleaner.go:155-169 | applying the same flags twice changes nothing more |
| Config.MergeNoFlags | twittercleaner.go:155-169 | unset flags leave the stored configuration unchanged |
| Config.MergeAllFlags | twittercleaner.go:124-130 | flags that are all set replace the stored configuration, as `-writeconfig` would |
| Config.DefaultMaxAgeOverridesStored | twittercleaner.go:114-119 | with the defaults of a command line that sets no flag (`DefaultFlags`: empty credentials, MaxAge 48), the default 48 replaces the stored MaxAge while the stored credentials stay |
| Config.WrittenConfigReadsBack | twittercleaner.go:124-169 | a file written with `-writeconfig`, read back with the same flags, gives the configuration written |
| Config.MergeCompose | twittercleaner.go:155-169 | merging two sets of flags in turn equals merging once with the later flags laid over the earlier ones |
| Scheduler.TimelineRound | twittercleaner.go:177-181 | the deleter of a round makes exactly the delete calls for the ids the walker sent, in order |
| Scheduler.RoundDeletesExactlyOldTweets | twittercleaner.go:177-181 | for a MaxAge that does not wrap, a round tries to delete an id exactly when a fetched tweet with that id was strictly more than MaxAge hours old at its turn, counting an unparsable date as the zero Time |
| Scheduler.RoundDeletesOnlyFetchedTweets | twittercleaner.go:177-181 | a round only deletes ids of tweets on pages the client returned |

## Left out

- The Twitter client is not modelled. Timeline requests and delete calls are
  the parameters `fetch` and `fails`. The `count=200` request parameter is
  not modelled, because only the client reads it.
- `time.Now()` and `time.Parse` with the Twitter date layout are parameters
  (`clock`, `parseTime`). Go's `time.Time` is an exact nanosecond count from
  the zero Time, so its internal wall and monotonic representation is not
  modelled.
- `zip.OpenReader`, `f.Open`, `csv.Reader.ReadAll`, JSON encoding and
  decoding, and reading and writing the config file are left out. So are the
  `log.Fatal` exits on their errors. The model starts from the file names
  and records they return, and from the decoded configuration.
- Flag parsing is left out. The flags are given as values, and their
  defaults are `Config.DefaultFlags`.
- The `-config` path and the `-archive` path are not modelled. Neither is the
  choice between the two modes, because it only selects which modelled
  operation runs.
- Timeline.DeleteOldTweetsFromTimeline: the walker loops until a page ends
  the pass. The model makes at most `fuel` requests. `Timeline.PassTerminates`
  shows that 2^64 requests suffice when the client honours `max_id` and never
  returns `math.MinInt64`. Without those assumptions the source may loop
  forever, and the model does not capture that.
- Goroutines and the unbuffered channel are not modelled as concurrency. A
  round runs the walker's pass to the end, then hands its ids, in order, to
  the deleter. So the interleaving of sends and deletes is not modelled, and
  the clock readings are independent of deletes. For the same reason, the
  hourly `time.Tick` loop is not modelled: rounds overlapping when one
  outlasts the hour, and a deleter goroutine that never exits because the
  channel is never closed.
- The log output of the timeline walker is not modelled: a failed
  `time.Parse` and a page error. Only the decision each one leads to is.
  The deleter and archive logs are modelled.
- Archive: the `parse` parameter of the archive specification functions is
  `GoStrconv.ParseInt` wherever the model is about the program. The generic
  lemmas hold for any parser.
- GoStrconv.NonNumeralReadsAsZero is limited to fields with at most 19
  digits after the sign before the first non-digit. A longer run of digits
  can overflow Go's digit loop before it reaches the bad character. The
  field then reads as a clamped value with a range error, and `ParseInt`'s
  own contract covers that case.
- Archive.MalformedIdDeletesZero carries the same limit, for the same reason:
  such a record gets its delete call for the clamped value instead of 0.
- Timeline.PagesDescend, Timeline.RunProcessesDescending and
  Timeline.NoIdSentTwice rest on assumptions about the client: it honours
  `max_id` (`HonoursMaxId`), never returns `math.MinInt64` (`NoMinId`) and,
  for the last two, lists each page newest first (`NewestFirst`). A client
  that returns one tweet twice on a page makes the walker send its id twice.
- GoStrconv models only base 10, 64-bit `ParseInt` and base-10 `FormatInt`,
  which are the only forms the program uses. As in Go, an underscore in a
  base-10 numeral is a syntax error.
