/** `deleteOldTweetsFromArchive`: for every file of the archive named
    `tweets.csv`, skip the header record and make one delete call per record
    after it, for the id that `strconv.ParseInt` reads from the record's first
    field, whether or not that parse failed. Nothing here looks at the age of a
    tweet: every tweet listed in the archive is deleted.

    Opening the zip file and reading the CSV are outside the model: a file is
    given by its name and the records `csv.Reader.ReadAll` returned for it.
    The delete outcome is a parameter: `fails(i, id)` says whether the i-th
    delete call of the run, made for `id`, returns an error. */
module Archive {
  import opened GoTypes
  import opened GoStrconv
  import opened Deleter

  const TweetsCsv: string := "tweets.csv"

  /** A file of the archive and the CSV records read from it. */
  datatype ZipFile = ZipFile(name: string, records: seq<seq<string>>)

  /** A line written with `log.Println`: the error of a failed id parse (the
      field and the kind of error), or the error of a failed delete call. */
  datatype LogLine = ParseFailed(field: string, err: NumError) | DeleteFailed(id: int64)

  /** What a run did: its delete calls in order, its log, and whether it ended
      in a run-time panic (which stops the program). */
  datatype Outcome = Outcome(attempts: seq<int64>, log: seq<LogLine>, panicked: bool)

  /** The log lines of one record: the parse error, if any, then the delete
      error, if any. */
  function RecordLog(field: string, parsed: Parsed, failed: bool): seq<LogLine>
  {
    (if parsed.err.Some? then [ParseFailed(field, parsed.err.value)] else [])
    + (if failed then [DeleteFailed(parsed.value)] else [])
  }

  /** A record logs at most one parse error, for its own field, and at most
      one delete error, for the id it read. */
  lemma RecordLogContents(field: string, parsed: Parsed, failed: bool)
    ensures |RecordLog(field, parsed, failed)| <= 2
    ensures forall f, e :: ParseFailed(f, e) in RecordLog(field, parsed, failed) <==> f == field && parsed.err == Some(e)
    ensures forall x :: DeleteFailed(x) in RecordLog(field, parsed, failed) <==> failed && x == parsed.value
  {
  }

  /** One iteration of the loop over `records[1:]`, the next delete call
      being the n-th of the run, with ids read by `parse`
      (`strconv.ParseInt(field, 10, 64)`, which is `ParseInt`; the lemmas that
      do not depend on how ids are read hold for any `parse`): a record with
      no field makes `record[0]` panic; otherwise its id is parsed, a parse
      error logged, the delete call made whatever the parse gave, and a
      delete error logged. A run that has panicked stays as it is. The
      records `csv.Reader.ReadAll` returns always have a field, so the
      `record[0]` panic is not reachable from a real `tweets.csv`. */
  function RecordStep(o: Outcome, record: seq<string>, parse: string -> Parsed, fails: (nat, int64) -> bool, n: nat): Outcome
  {
    if o.panicked then o
    else if record == [] then o.(panicked := true)
    else
      var parsed := parse(record[0]);
      Outcome(o.attempts + [parsed.value],
              o.log + RecordLog(record[0], parsed, fails(n + |o.attempts|, parsed.value)),
              false)
  }

  /** The loop over `records[1:]`, given here as `body`, when its first
      delete call is the n-th of the run. */
  function DeleteRecords(body: seq<seq<string>>, parse: string -> Parsed, fails: (nat, int64) -> bool, n: nat): Outcome
  {
    if body == [] then Outcome([], [], false)
    else RecordStep(DeleteRecords(body[..|body| - 1], parse, fails, n), body[|body| - 1], parse, fails, n)
  }

  /** One `tweets.csv` file: `records[1:]` panics when the file holds no
      record at all; otherwise the header is skipped. */
  function DeleteFile(records: seq<seq<string>>, parse: string -> Parsed, fails: (nat, int64) -> bool, n: nat): Outcome
  {
    if records == [] then Outcome([], [], true) else DeleteRecords(records[1..], parse, fails, n)
  }

  /** The loop over the files of the archive, stopped by a panic. */
  function DeleteArchive(files: seq<ZipFile>, parse: string -> Parsed, fails: (nat, int64) -> bool): Outcome
  {
    if files == [] then Outcome([], [], false)
    else
      var o := DeleteArchive(files[..|files| - 1], parse, fails);
      var f := files[|files| - 1];
      if o.panicked || f.name != TweetsCsv then o
      else
        var d := DeleteFile(f.records, parse, fails, |o.attempts|);
        Outcome(o.attempts + d.attempts, o.log + d.log, d.panicked)
  }

  /** `deleteOldTweetsFromArchive` on the files of an opened archive. */
  method DeleteOldTweetsFromArchive(files: seq<ZipFile>, fails: (nat, int64) -> bool) returns (o: Outcome)
    ensures o == DeleteArchive(files, ParseInt, fails)
  {
    var attempts: seq<int64> := [];
    var log: seq<LogLine> := [];
    var i := 0;
    while i < |files|
      invariant 0 <= i <= |files|
      invariant Outcome(attempts, log, false) == DeleteArchive(files[..i], ParseInt, fails)
    {
      var f := files[i];
      assert files[..i + 1][..i] == files[..i];
      if f.name == TweetsCsv {
        if |f.records| == 0 {
          o := Outcome(attempts, log, true);
          assert files[..i + 1] == files[..i] + [f];
          ArchiveStopsAtPanic(files, i + 1, ParseInt, fails);
          return;
        }
        var fileAttempts, fileLog, panicked := DeleteRecordsLoop(f.records[1..], fails, |attempts|);
        attempts, log := attempts + fileAttempts, log + fileLog;
        if panicked {
          o := Outcome(attempts, log, true);
          ArchiveStopsAtPanic(files, i + 1, ParseInt, fails);
          return;
        }
      }
      i := i + 1;
    }
    assert files[..i] == files;
    o := Outcome(attempts, log, false);
  }

  /** The inner `for` loop over the records after the header. */
  method DeleteRecordsLoop(body: seq<seq<string>>, fails: (nat, int64) -> bool, n: nat)
    returns (attempts: seq<int64>, log: seq<LogLine>, panicked: bool)
    ensures Outcome(attempts, log, panicked) == DeleteRecords(body, ParseInt, fails, n)
  {
    attempts, log, panicked := [], [], false;
    var i := 0;
    while i < |body|
      invariant 0 <= i <= |body|
      invariant !panicked
      invariant Outcome(attempts, log, panicked) == DeleteRecords(body[..i], ParseInt, fails, n)
    {
      attempts, log, panicked := DeleteRecord(body[i], fails, n, attempts, log);
      DeleteRecordsSnoc(body, i, ParseInt, fails, n);
      i := i + 1;
      if panicked {
        DeleteRecordsStopsAtPanic(body, i, ParseInt, fails, n);
        return;
      }
    }
    assert body[..i] == body;
  }

  /** The body of the inner loop, on one record. */
  method DeleteRecord(record: seq<string>, fails: (nat, int64) -> bool, n: nat, attempts0: seq<int64>, log0: seq<LogLine>)
    returns (attempts: seq<int64>, log: seq<LogLine>, panicked: bool)
    ensures Outcome(attempts, log, panicked) == RecordStep(Outcome(attempts0, log0, false), record, ParseInt, fails, n)
  {
    attempts, log := attempts0, log0;
    if |record| == 0 {
      panicked := true;
      return;
    }
    panicked := false;
    var parsed := ParseInt(record[0]);
    var id := parsed.value;
    if parsed.err.Some? {
      log := log + [ParseFailed(record[0], parsed.err.value)];
    }
    if fails(n + |attempts|, id) {
      log := log + [DeleteFailed(id)];
    }
    attempts := attempts + [id];
  }

  lemma DeleteRecordsSnoc(body: seq<seq<string>>, i: nat, parse: string -> Parsed, fails: (nat, int64) -> bool, n: nat)
    requires i < |body|
    ensures DeleteRecords(body[..i + 1], parse, fails, n) ==
            RecordStep(DeleteRecords(body[..i], parse, fails, n), body[i], parse, fails, n)
  {
    assert body[..i + 1][..i] == body[..i];
  }

  /** Once the record loop has panicked, later records change nothing. */
  lemma {:induction false} DeleteRecordsStopsAtPanic(body: seq<seq<string>>, i: nat, parse: string -> Parsed, fails: (nat, int64) -> bool, n: nat)
    requires i <= |body| && DeleteRecords(body[..i], parse, fails, n).panicked
    ensures DeleteRecords(body, parse, fails, n) == DeleteRecords(body[..i], parse, fails, n)
    decreases |body|
  {
    if i < |body| {
      assert body[..|body| - 1][..i] == body[..i];
      DeleteRecordsStopsAtPanic(body[..|body| - 1], i, parse, fails, n);
    } else {
      assert body[..i] == body;
    }
  }

  /** Once the file loop has panicked, later files change nothing. */
  lemma {:induction false} ArchiveStopsAtPanic(files: seq<ZipFile>, i: nat, parse: string -> Parsed, fails: (nat, int64) -> bool)
    requires i <= |files| && DeleteArchive(files[..i], parse, fails).panicked
    ensures DeleteArchive(files, parse, fails) == DeleteArchive(files[..i], parse, fails)
    decreases |files|
  {
    if i < |files| {
      assert files[..|files| - 1][..i] == files[..i];
      ArchiveStopsAtPanic(files[..|files| - 1], i, parse, fails);
    } else {
      assert files[..i] == files;
    }
  }

  /** The record loop makes one delete call per record, in order, for the id
      `parse` reads from its first field, until the first record with no
      field, where it panics. */
  lemma {:induction false} DeleteRecordsAttempts(body: seq<seq<string>>, parse: string -> Parsed, fails: (nat, int64) -> bool, n: nat)
    ensures var o := DeleteRecords(body, parse, fails, n);
      && |o.attempts| <= |body|
      && (forall i :: 0 <= i < |o.attempts| ==> body[i] != [] && o.attempts[i] == parse(body[i][0]).value)
      && (o.panicked ==> |o.attempts| < |body| && body[|o.attempts|] == [])
      && (!o.panicked ==> |o.attempts| == |body|)
    decreases |body|
  {
    if body != [] {
      var init := body[..|body| - 1];
      DeleteRecordsAttempts(init, parse, fails, n);
      assert forall i :: 0 <= i < |init| ==> init[i] == body[i];
    }
  }

  /** The record loop panics exactly when some record has no field. */
  lemma DeleteRecordsPanicsIff(body: seq<seq<string>>, parse: string -> Parsed, fails: (nat, int64) -> bool, n: nat)
    ensures DeleteRecords(body, parse, fails, n).panicked <==> exists i :: 0 <= i < |body| && body[i] == []
  {
    var o := DeleteRecords(body, parse, fails, n);
    DeleteRecordsAttempts(body, parse, fails, n);
    if o.panicked {
      assert body[|o.attempts|] == [];
    } else {
      assert forall i :: 0 <= i < |body| ==> body[i] != [];
    }
  }

  /** A record whose first field is not a decimal numeral (and has at most 19
      digits after its sign before the first non-digit, so that no overflow is
      reported first) still gets its delete call, for the id 0. */
  lemma MalformedIdDeletesZero(body: seq<seq<string>>, fails: (nat, int64) -> bool, n: nat, i: nat)
    requires i < |body| && i < |DeleteRecords(body, ParseInt, fails, n).attempts|
    requires body[i] != [] && !IsNumeral(body[i][0]) && LeadingDigits(Unsigned(body[i][0])) <= 19
    ensures DeleteRecords(body, ParseInt, fails, n).attempts[i] == 0
  {
    DeleteRecordsAttempts(body, ParseInt, fails, n);
    NonNumeralReadsAsZero(body[i][0]);
  }

  /** A record whose first field is the decimal numeral of an int64 gets its
      delete call for exactly that id. */
  lemma NumeralIdDeleted(body: seq<seq<string>>, fails: (nat, int64) -> bool, n: nat, i: nat)
    requires i < |body| && i < |DeleteRecords(body, ParseInt, fails, n).attempts|
    requires body[i] != [] && IsNumeral(body[i][0])
    requires MinInt64 <= NumeralValue(body[i][0]) <= MaxInt64
    ensures DeleteRecords(body, ParseInt, fails, n).attempts[i] == NumeralValue(body[i][0])
  {
    DeleteRecordsAttempts(body, ParseInt, fails, n);
    ParseIntSucceedsIff(body[i][0]);
  }

  /** A record whose first field is a numeral outside int64 still gets its
      delete call, for the bound of int64 on the numeral's side. */
  lemma OutOfRangeIdDeletesBound(body: seq<seq<string>>, fails: (nat, int64) -> bool, n: nat, i: nat)
    requires i < |body| && i < |DeleteRecords(body, ParseInt, fails, n).attempts|
    requires body[i] != [] && IsNumeral(body[i][0])
    requires !(MinInt64 <= NumeralValue(body[i][0]) <= MaxInt64)
    ensures DeleteRecords(body, ParseInt, fails, n).attempts[i] ==
            if NumeralValue(body[i][0]) > MaxInt64 then MaxInt64 else MinInt64
  {
    DeleteRecordsAttempts(body, ParseInt, fails, n);
    ParseIntOutOfRange(body[i][0]);
  }

  /** One record keeps the delete errors logged in step with the failed calls. */
  lemma RecordStepDeleteLog(o: Outcome, record: seq<string>, parse: string -> Parsed, fails: (nat, int64) -> bool,
                            n: nat, x: int64)
    requires DeleteFailed(x) in o.log <==> exists i :: 0 <= i < |o.attempts| && o.attempts[i] == x && fails(n + i, x)
    ensures var r := RecordStep(o, record, parse, fails, n);
      DeleteFailed(x) in r.log <==> exists i :: 0 <= i < |r.attempts| && r.attempts[i] == x && fails(n + i, x)
  {
    if !o.panicked && record != [] {
      var r := RecordStep(o, record, parse, fails, n);
      var parsed := parse(record[0]);
      RecordLogContents(record[0], parsed, fails(n + |o.attempts|, parsed.value));
      assert r.attempts == o.attempts + [parsed.value];
      assert forall i :: 0 <= i < |o.attempts| ==> r.attempts[i] == o.attempts[i];
      if DeleteFailed(x) in r.log && DeleteFailed(x) !in o.log {
        assert r.attempts[|o.attempts|] == x;
      }
    }
  }

  /** A delete failure is logged for an id exactly when one of its delete
      calls failed. */
  lemma {:induction false} DeleteFailuresLogged(body: seq<seq<string>>, parse: string -> Parsed, fails: (nat, int64) -> bool, n: nat, x: int64)
    ensures DeleteFailed(x) in DeleteRecords(body, parse, fails, n).log <==>
      exists i :: 0 <= i < |DeleteRecords(body, parse, fails, n).attempts| &&
        DeleteRecords(body, parse, fails, n).attempts[i] == x && fails(n + i, x)
    decreases |body|
  {
    if body != [] {
      var init := body[..|body| - 1];
      DeleteFailuresLogged(init, parse, fails, n, x);
      RecordStepDeleteLog(DeleteRecords(init, parse, fails, n), body[|body| - 1], parse, fails, n, x);
    }
  }

  /** One record keeps the parse errors logged in step with the fields read. */
  lemma RecordStepParseLog(o: Outcome, body: seq<seq<string>>, parse: string -> Parsed, fails: (nat, int64) -> bool,
                           n: nat, f: string, e: NumError)
    requires body != [] && |o.attempts| < |body| && (!o.panicked ==> |o.attempts| == |body| - 1)
    requires forall i :: 0 <= i < |o.attempts| ==> body[i] != []
    requires ParseFailed(f, e) in o.log <==>
      exists i :: 0 <= i < |o.attempts| && body[i] != [] && body[i][0] == f && parse(f).err == Some(e)
    ensures var r := RecordStep(o, body[|body| - 1], parse, fails, n);
      ParseFailed(f, e) in r.log <==>
        exists i :: 0 <= i < |r.attempts| && i < |body| && body[i] != [] && body[i][0] == f && parse(f).err == Some(e)
  {
    var record := body[|body| - 1];
    if !o.panicked && record != [] {
      var r := RecordStep(o, record, parse, fails, n);
      var parsed := parse(record[0]);
      RecordLogContents(record[0], parsed, fails(n + |o.attempts|, parsed.value));
      assert r.log == o.log + RecordLog(record[0], parsed, fails(n + |o.attempts|, parsed.value));
      assert |r.attempts| == |body|;
      if ParseFailed(f, e) in r.log && ParseFailed(f, e) !in o.log {
        assert body[|o.attempts|][0] == f && parse(f).err == Some(e);
      }
    }
  }

  /** A parse failure is logged for a field exactly when the first field of
      some record that got its delete call fails to parse with that error. */
  lemma {:induction false} ParseFailuresLogged(body: seq<seq<string>>, parse: string -> Parsed, fails: (nat, int64) -> bool, n: nat,
                                               f: string, e: NumError)
    ensures ParseFailed(f, e) in DeleteRecords(body, parse, fails, n).log <==>
      exists i :: 0 <= i < |DeleteRecords(body, parse, fails, n).attempts| && i < |body| && body[i] != [] &&
        body[i][0] == f && parse(f).err == Some(e)
    decreases |body|
  {
    if body != [] {
      var init := body[..|body| - 1];
      var o := DeleteRecords(init, parse, fails, n);
      ParseFailuresLogged(init, parse, fails, n, f, e);
      DeleteRecordsAttempts(init, parse, fails, n);
      assert forall i :: 0 <= i < |init| ==> init[i] == body[i];
      RecordStepParseLog(o, body, parse, fails, n, f, e);
    }
  }

  /** The ids of the delete-error lines of `log`, in order. */
  function DeleteErrors(log: seq<LogLine>): seq<int64>
  {
    if log == [] then []
    else DeleteErrors(log[..|log| - 1]) + (if log[|log| - 1].DeleteFailed? then [log[|log| - 1].id] else [])
  }

  /** The parse-error lines of `log`, in order. */
  function ParseErrors(log: seq<LogLine>): seq<LogLine>
  {
    if log == [] then []
    else ParseErrors(log[..|log| - 1]) + (if log[|log| - 1].ParseFailed? then [log[|log| - 1]] else [])
  }

  /** The parse-error line each of `records` should log, in order: one per
      record whose first field does not parse. */
  function BadIds(records: seq<seq<string>>, parse: string -> Parsed): seq<LogLine>
  {
    if records == [] then []
    else
      var r := records[|records| - 1];
      BadIds(records[..|records| - 1], parse)
      + (if r != [] && parse(r[0]).err.Some? then [ParseFailed(r[0], parse(r[0]).err.value)] else [])
  }

  /** Filtering a log for either kind of line splits over concatenation. */
  lemma {:induction false} LogFiltersAppend(a: seq<LogLine>, b: seq<LogLine>)
    ensures DeleteErrors(a + b) == DeleteErrors(a) + DeleteErrors(b)
    ensures ParseErrors(a + b) == ParseErrors(a) + ParseErrors(b)
    decreases |b|
  {
    if b == [] {
      assert a + b == a;
    } else {
      assert (a + b)[..|a + b| - 1] == a + b[..|b| - 1];
      assert (a + b)[|a + b| - 1] == b[|b| - 1];
      LogFiltersAppend(a, b[..|b| - 1]);
    }
  }

  /** The lines of one record, filtered: its failed delete call's id, and
      its parse error. */
  lemma RecordLogFilters(field: string, parsed: Parsed, failed: bool)
    ensures DeleteErrors(RecordLog(field, parsed, failed)) == if failed then [parsed.value] else []
    ensures ParseErrors(RecordLog(field, parsed, failed)) ==
            if parsed.err.Some? then [ParseFailed(field, parsed.err.value)] else []
  {
    var pl := if parsed.err.Some? then [ParseFailed(field, parsed.err.value)] else [];
    var dl := if failed then [DeleteFailed(parsed.value)] else [];
    assert RecordLog(field, parsed, failed) == pl + dl;
    LogFiltersAppend(pl, dl);
    if parsed.err.Some? {
      LineFilters(ParseFailed(field, parsed.err.value));
    }
    if failed {
      LineFilters(DeleteFailed(parsed.value));
    }
  }

  /** A single line passes exactly the filter for its own kind. */
  lemma LineFilters(l: LogLine)
    ensures DeleteErrors([l]) == if l.DeleteFailed? then [l.id] else []
    ensures ParseErrors([l]) == if l.ParseFailed? then [l] else []
  {
    assert [l][..0] == [];
  }

  /** The delete-error lines of the record loop are the failed calls' ids,
      one line per failed call, in call order: exactly what `blindDeleter`
      logs for the same calls. */
  lemma {:induction false} DeleteErrorsInOrder(body: seq<seq<string>>, parse: string -> Parsed, fails: (nat, int64) -> bool, n: nat)
    ensures DeleteErrors(DeleteRecords(body, parse, fails, n).log) ==
            FailedDeletes(DeleteRecords(body, parse, fails, n).attempts, fails, n)
    decreases |body|
  {
    if body != [] {
      var init := body[..|body| - 1];
      var o := DeleteRecords(init, parse, fails, n);
      DeleteErrorsInOrder(init, parse, fails, n);
      var record := body[|body| - 1];
      if !o.panicked && record != [] {
        var parsed := parse(record[0]);
        var failed := fails(n + |o.attempts|, parsed.value);
        var lines := RecordLog(record[0], parsed, failed);
        var r := DeleteRecords(body, parse, fails, n);
        assert r.log == o.log + lines;
        assert r.attempts == o.attempts + [parsed.value];
        LogFiltersAppend(o.log, lines);
        RecordLogFilters(record[0], parsed, failed);
        assert r.attempts[..|r.attempts| - 1] == o.attempts;
      }
    }
  }

  /** One record keeps the parse-error lines equal to those the records
      that got their delete call should log, in record order. */
  lemma ParseErrorsStep(o: Outcome, body: seq<seq<string>>, parse: string -> Parsed, fails: (nat, int64) -> bool, n: nat)
    requires body != [] && |o.attempts| < |body| && (!o.panicked ==> |o.attempts| == |body| - 1)
    requires ParseErrors(o.log) == BadIds(body[..|o.attempts|], parse)
    ensures var r := RecordStep(o, body[|body| - 1], parse, fails, n);
      |r.attempts| <= |body| && ParseErrors(r.log) == BadIds(body[..|r.attempts|], parse)
  {
    var record := body[|body| - 1];
    if !o.panicked && record != [] {
      var parsed := parse(record[0]);
      var failed := fails(n + |o.attempts|, parsed.value);
      var lines := RecordLog(record[0], parsed, failed);
      var r := RecordStep(o, record, parse, fails, n);
      assert r.log == o.log + lines;
      assert body[..|r.attempts|] == body;
      assert body[..|body| - 1] == body[..|o.attempts|];
      LogFiltersAppend(o.log, lines);
      RecordLogFilters(record[0], parsed, failed);
    }
  }

  /** The parse-error lines of the record loop are one line per record that
      got its delete call and whose first field does not parse, in record
      order: with N records of valid ids and M of invalid ones, M lines. */
  lemma {:induction false} ParseErrorsInOrder(body: seq<seq<string>>, parse: string -> Parsed, fails: (nat, int64) -> bool, n: nat)
    ensures |DeleteRecords(body, parse, fails, n).attempts| <= |body|
    ensures ParseErrors(DeleteRecords(body, parse, fails, n).log) ==
            BadIds(body[..|DeleteRecords(body, parse, fails, n).attempts|], parse)
    decreases |body|
  {
    if body != [] {
      var init := body[..|body| - 1];
      var o := DeleteRecords(init, parse, fails, n);
      ParseErrorsInOrder(init, parse, fails, n);
      DeleteRecordsAttempts(init, parse, fails, n);
      assert init[..|o.attempts|] == body[..|o.attempts|];
      ParseErrorsStep(o, body, parse, fails, n);
    }
  }

  /** The header record is never used: it may hold anything. */
  lemma HeaderIgnored(h1: seq<string>, h2: seq<string>, body: seq<seq<string>>, parse: string -> Parsed, fails: (nat, int64) -> bool, n: nat)
    ensures DeleteFile([h1] + body, parse, fails, n) == DeleteFile([h2] + body, parse, fails, n)
  {
    assert ([h1] + body)[1..] == body;
    assert ([h2] + body)[1..] == body;
  }

  /** Files with another name are skipped: an archive without `tweets.csv`
      makes no delete call. */
  lemma {:induction false} OtherFilesIgnored(files: seq<ZipFile>, parse: string -> Parsed, fails: (nat, int64) -> bool)
    requires forall i :: 0 <= i < |files| ==> files[i].name != TweetsCsv
    ensures DeleteArchive(files, parse, fails) == Outcome([], [], false)
    decreases |files|
  {
    if files != [] {
      OtherFilesIgnored(files[..|files| - 1], parse, fails);
    }
  }

  /** Files with another name appended to an archive change nothing. */
  lemma {:induction false} OtherFilesAppended(files: seq<ZipFile>, post: seq<ZipFile>, parse: string -> Parsed,
                                              fails: (nat, int64) -> bool)
    requires forall i :: 0 <= i < |post| ==> post[i].name != TweetsCsv
    ensures DeleteArchive(files + post, parse, fails) == DeleteArchive(files, parse, fails)
    decreases |post|
  {
    if post == [] {
      assert files + post == files;
    } else {
      var init := post[..|post| - 1];
      assert (files + post)[..|files + post| - 1] == files + init;
      assert (files + post)[|files + post| - 1] == post[|post| - 1];
      OtherFilesAppended(files, init, parse, fails);
    }
  }

  /** An archive whose files before its `tweets.csv` have other names: up to
      and including that file, the run is that one file's run. */
  lemma FirstTweetsCsv(pre: seq<ZipFile>, records: seq<seq<string>>, parse: string -> Parsed, fails: (nat, int64) -> bool)
    requires forall i :: 0 <= i < |pre| ==> pre[i].name != TweetsCsv
    ensures DeleteArchive(pre + [ZipFile(TweetsCsv, records)], parse, fails) == DeleteFile(records, parse, fails, 0)
  {
    var files := pre + [ZipFile(TweetsCsv, records)];
    assert files[..|files| - 1] == pre;
    OtherFilesIgnored(pre, parse, fails);
    var d := DeleteFile(records, parse, fails, 0);
    assert [] + d.attempts == d.attempts && [] + d.log == d.log;
  }

  /** An empty `tweets.csv` makes `records[1:]` panic before any delete call,
      wherever it lies among files with other names, and whatever follows. */
  lemma EmptyTweetsCsvPanics(pre: seq<ZipFile>, post: seq<ZipFile>, parse: string -> Parsed, fails: (nat, int64) -> bool)
    requires forall i :: 0 <= i < |pre| ==> pre[i].name != TweetsCsv
    ensures DeleteArchive(pre + [ZipFile(TweetsCsv, [])] + post, parse, fails) == Outcome([], [], true)
  {
    var files := pre + [ZipFile(TweetsCsv, [])];
    FirstTweetsCsv(pre, [], parse, fails);
    assert (files + post)[..|files|] == files;
    ArchiveStopsAtPanic(files + post, |files|, parse, fails);
  }

  /** An archive whose only `tweets.csv`, among any number of files with
      other names, holds a header and records that all have a first field
      deletes one tweet per record, in order. */
  lemma SingleTweetsCsv(pre: seq<ZipFile>, header: seq<string>, body: seq<seq<string>>, post: seq<ZipFile>,
                        fails: (nat, int64) -> bool)
    requires forall i :: 0 <= i < |pre| ==> pre[i].name != TweetsCsv
    requires forall i :: 0 <= i < |post| ==> post[i].name != TweetsCsv
    requires forall i :: 0 <= i < |body| ==> body[i] != []
    ensures var o := DeleteArchive(pre + [ZipFile(TweetsCsv, [header] + body)] + post, ParseInt, fails);
      !o.panicked && |o.attempts| == |body| &&
      forall i :: 0 <= i < |body| ==> o.attempts[i] == ParseInt(body[i][0]).value
  {
    var files := pre + [ZipFile(TweetsCsv, [header] + body)];
    FirstTweetsCsv(pre, [header] + body, ParseInt, fails);
    OtherFilesAppended(files, post, ParseInt, fails);
    assert ([header] + body)[1..] == body;
    DeleteRecordsAttempts(body, ParseInt, fails, 0);
    DeleteRecordsPanicsIff(body, ParseInt, fails, 0);
  }
}
