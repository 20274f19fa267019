/**
 * `main` after the settings check: for every day of the range, fetch that
 * one day, optionally turn it into a table, optionally wrap it into a
 * single-entry archive, and upload it under a key made from the base file
 * name and the day. The first failing fetch or upload ends the run.
 *
 * The network is not modelled: `fetch` stands for `get_mixpanel_log`
 * (`None` is an error it raises), `store` for the S3 write in
 * `upload_to_s3` (`false` is an error it re-raises), and `stamp` for the
 * local-time formatting of the `time` column. The table stage fails, too,
 * when an event's `time` cannot be converted.
 */
module Pipeline {
  import opened Text
  import opened Dates
  import opened Destination
  import opened Tabular

  /** What travels from stage to stage. */
  datatype Payload =
    | Events(events: seq<Event>)            // the parsed day, uploaded as its text
    | Csv(rows: seq<seq<string>>)           // the table `write_to_csv` produced
    | Zip(entry: string, content: Payload)  // a single-entry archive

  /** One object written to the store. */
  datatype Upload = Upload(bucket: string, key: string, payload: Payload)

  /** One export request; the exporter always asks for a single day. */
  datatype Query = Query(from: Date, until: Date)

  /** Everything a day's work depends on, fixed for the run. */
  datatype Job = Job(fileName: string, bucket: string, path: string, csv: bool, compress: bool)

  /** What a run did: the requests sent, the uploads attempted, and whether an
      error ended it early. */
  datatype Report = Report(queries: seq<Query>, uploads: seq<Upload>, aborted: bool)

  // ---------------------------------------------------------------------
  // Artifact names
  // ---------------------------------------------------------------------

  /** The file name of a day's artifact: `<base>_<date>` with `.csv` or
      `.log`, then `.zip` when compressed. */
  function ArtifactName(base: string, date: string, csv: bool, compress: bool): string
  {
    base + "_" + date + (if csv then ".csv" else ".log") + (if compress then ".zip" else "")
  }

  /** Two different days never share an artifact name, so no day's upload
      overwrites another's. */
  lemma DistinctDayNames(base: string, a: Date, b: Date, csv: bool, compress: bool)
    requires Valid(a) && Valid(b) && FourDigit(a) && FourDigit(b)
    requires a != b
    ensures ArtifactName(base, Format(a), csv, compress) != ArtifactName(base, Format(b), csv, compress)
  {
    FormatOrder(a, b);
    var n := |base| + 1;
    var x, y := ArtifactName(base, Format(a), csv, compress), ArtifactName(base, Format(b), csv, compress);
    assert |Format(a)| == 10 && |Format(b)| == 10;
    assert x[n..n + 10] == Format(a);
    assert y[n..n + 10] == Format(b);
  }

  // ---------------------------------------------------------------------
  // One day
  // ---------------------------------------------------------------------

  /** The day's events get through the stages: without `CSV` there is
      nothing to fail, with it every `time` must convert. */
  predicate Writable(job: Job, events: seq<Event>)
  {
    !job.csv || Tabulable(events)
  }

  /** The upload a day produces once its events are fetched and written. */
  function DayUpload(job: Job, d: Date, events: seq<Event>, stamp: Option<Value> -> string): Upload
  {
    var inner := if job.csv then Csv(Table(events, stamp)) else Events(events);
    var payload := if job.compress then Zip(ArtifactName(job.fileName, Format(d), job.csv, false), inner)
                   else inner;
    Upload(job.bucket, ObjectKey(job.path, ArtifactName(job.fileName, Format(d), job.csv, job.compress)), payload)
  }

  /** The object key is the folder, a slash and the artifact name; a
      compressed payload is one archive entry named as the artifact before
      `.zip` was added, holding the uncompressed payload. */
  lemma DayUploadShape(job: Job, d: Date, events: seq<Event>, stamp: Option<Value> -> string)
    ensures var u := DayUpload(job, d, events, stamp);
            var name := ArtifactName(job.fileName, Format(d), job.csv, job.compress);
            var inner := if job.csv then Csv(Table(events, stamp)) else Events(events);
            u.bucket == job.bucket && u.key == job.path + "/" + name &&
            (job.compress ==> u.payload == Zip(u.payload.entry, inner) && u.payload.entry + ".zip" == name) &&
            (!job.compress ==> u.payload == inner && !u.payload.Zip?)
  {
  }

  /** The body of the driver loop for one day, with its names assigned in the
      order the source assigns them. */
  method ExportDay(job: Job, d: Date, fetch: Query -> Option<seq<Event>>, stamp: Option<Value> -> string)
    returns (upload: Option<Upload>)
    ensures upload.None? <==> fetch(Query(d, d)).None? || !Writable(job, fetch(Query(d, d)).value)
    ensures upload.Some? ==> upload == Some(DayUpload(job, d, fetch(Query(d, d)).value, stamp))
  {
    var date := Format(d);
    var name := job.fileName + "_" + date + ".log";
    var fetched := fetch(Query(d, d));
    if fetched.None? {
      return None;
    }
    var payload := Events(fetched.value);
    if job.csv {
      name := job.fileName + "_" + date + ".csv";
      var table := WriteTable(fetched.value, stamp);
      if table.None? {
        return None;
      }
      payload := Csv(table.value);
    }
    assert name == ArtifactName(job.fileName, date, job.csv, false);
    if job.compress {
      payload := Zip(name, payload);
      name := name + ".zip";
    }
    upload := Some(Upload(job.bucket, ObjectKey(job.path, name), payload));
    assert name == ArtifactName(job.fileName, date, job.csv, job.compress);
  }

  // ---------------------------------------------------------------------
  // The driver loop
  // ---------------------------------------------------------------------

  /** One more day on a run that has not failed yet. */
  function Visit(prev: Report, job: Job, d: Date, fetch: Query -> Option<seq<Event>>,
                 store: Upload -> bool, stamp: Option<Value> -> string): Report
  {
    var q := Query(d, d);
    match fetch(q)
    case None => Report(prev.queries + [q], prev.uploads, true)
    case Some(events) =>
      if !Writable(job, events) then Report(prev.queries + [q], prev.uploads, true)
      else
        var u := DayUpload(job, d, events, stamp);
        Report(prev.queries + [q], prev.uploads + [u], !store(u))
  }

  /** The reference for the loop: the days in order, stopping at the first
      failure. */
  function Run(job: Job, days: seq<Date>, fetch: Query -> Option<seq<Event>>,
               store: Upload -> bool, stamp: Option<Value> -> string): Report
    decreases |days|
  {
    if days == [] then Report([], [], false)
    else
      var prev := Run(job, days[..|days| - 1], fetch, store, stamp);
      if prev.aborted then prev else Visit(prev, job, days[|days| - 1], fetch, store, stamp)
  }

  lemma RunExtend(job: Job, days: seq<Date>, d: Date, fetch: Query -> Option<seq<Event>>,
                  store: Upload -> bool, stamp: Option<Value> -> string)
    requires !Run(job, days, fetch, store, stamp).aborted
    ensures Run(job, days + [d], fetch, store, stamp) == Visit(Run(job, days, fetch, store, stamp), job, d, fetch, store, stamp)
  {
    assert (days + [d])[..|days|] == days;
  }

  /** Once a run has failed, later days change nothing. */
  lemma {:induction false} RunAbortSticky(job: Job, done: seq<Date>, rest: seq<Date>,
                                          fetch: Query -> Option<seq<Event>>,
                                          store: Upload -> bool, stamp: Option<Value> -> string)
    requires Run(job, done, fetch, store, stamp).aborted
    ensures Run(job, done + rest, fetch, store, stamp) == Run(job, done, fetch, store, stamp)
    decreases |rest|
  {
    if rest == [] {
      assert done + rest == done;
    } else {
      var rest' := rest[..|rest| - 1];
      RunAbortSticky(job, done, rest', fetch, store, stamp);
      assert (done + rest)[..|done + rest| - 1] == done + rest';
    }
  }

  /** The i-th request of the report asks for the i-th day, and for that day
      only; a report of a run that did not fail asked for every day. */
  predicate AskedInOrder(r: Report, days: seq<Date>)
  {
    |r.queries| <= |days| &&
    (forall i :: 0 <= i < |r.queries| ==> r.queries[i] == Query(days[i], days[i])) &&
    (!r.aborted ==> |r.queries| == |days|)
  }

  /** The i-th upload of the report is the artifact of the i-th day, built
      from what was fetched for it; at most the last request has no upload,
      and only in a failed run. */
  predicate UploadedInOrder(r: Report, job: Job, days: seq<Date>, fetch: Query -> Option<seq<Event>>,
                            stamp: Option<Value> -> string)
  {
    |r.uploads| <= |r.queries| <= |r.uploads| + 1 &&
    (!r.aborted ==> |r.uploads| == |r.queries|) &&
    (forall i :: 0 <= i < |r.uploads| ==>
       i < |days| && fetch(Query(days[i], days[i])).Some? &&
       Writable(job, fetch(Query(days[i], days[i])).value) &&
       r.uploads[i] == DayUpload(job, days[i], fetch(Query(days[i], days[i])).value, stamp))
  }

  /** The i-th request asks for the i-th day, and for that day only; a run
      that did not fail asked for every day. */
  lemma {:induction false} RunQueries(job: Job, days: seq<Date>, fetch: Query -> Option<seq<Event>>,
                                      store: Upload -> bool, stamp: Option<Value> -> string)
    ensures AskedInOrder(Run(job, days, fetch, store, stamp), days)
    decreases |days|
  {
    if days != [] {
      var days', d := days[..|days| - 1], days[|days| - 1];
      RunQueries(job, days', fetch, store, stamp);
      var prev := Run(job, days', fetch, store, stamp);
      assert forall i :: 0 <= i < |days'| ==> days[i] == days'[i];
      if !prev.aborted {
        var r := Visit(prev, job, d, fetch, store, stamp);
        assert Run(job, days, fetch, store, stamp) == r;
        assert r.queries == prev.queries + [Query(d, d)];
      } else {
        assert Run(job, days, fetch, store, stamp) == prev;
      }
    }
  }

  /** The i-th upload is the artifact of the i-th day, built from what was
      fetched for it; at most the last request has no upload. */
  lemma {:induction false} RunUploads(job: Job, days: seq<Date>, fetch: Query -> Option<seq<Event>>,
                                      store: Upload -> bool, stamp: Option<Value> -> string)
    ensures UploadedInOrder(Run(job, days, fetch, store, stamp), job, days, fetch, stamp)
    decreases |days|
  {
    if days != [] {
      var days', d := days[..|days| - 1], days[|days| - 1];
      RunUploads(job, days', fetch, store, stamp);
      RunQueries(job, days', fetch, store, stamp);
      var prev := Run(job, days', fetch, store, stamp);
      if !prev.aborted {
        var r := Visit(prev, job, d, fetch, store, stamp);
        assert Run(job, days, fetch, store, stamp) == r;
        assert |prev.uploads| == |days'|;
        forall i | 0 <= i < |r.uploads|
          ensures i < |days| && fetch(Query(days[i], days[i])).Some? &&
                  Writable(job, fetch(Query(days[i], days[i])).value) &&
                  r.uploads[i] == DayUpload(job, days[i], fetch(Query(days[i], days[i])).value, stamp)
        {
          if i < |prev.uploads| {
            assert r.uploads[i] == prev.uploads[i] && days[i] == days'[i];
          } else {
            assert i == |days'| && days[i] == d;
          }
        }
      } else {
        assert Run(job, days, fetch, store, stamp) == prev;
        assert forall i :: 0 <= i < |days'| ==> days[i] == days'[i];
      }
    }
  }

  /** Every upload of the report succeeded, except a last one that ended the
      run. */
  predicate StoredBeforeEnd(r: Report, store: Upload -> bool)
  {
    forall i :: 0 <= i < |r.uploads| && (i < |r.uploads| - 1 || !r.aborted) ==> store(r.uploads[i])
  }

  /** A failed report ends with the request whose fetch or table failed, or
      with the upload that failed. */
  predicate EndsAtFailure(r: Report, job: Job, fetch: Query -> Option<seq<Event>>, store: Upload -> bool)
  {
    r.aborted ==>
      |r.queries| >= 1 &&
      (|r.uploads| < |r.queries| ==>
         var q := r.queries[|r.queries| - 1];
         fetch(q).None? || !Writable(job, fetch(q).value)) &&
      (|r.uploads| == |r.queries| ==> !store(r.uploads[|r.uploads| - 1]))
  }

  /** Every upload but a failed last one succeeded. */
  lemma {:induction false} RunStored(job: Job, days: seq<Date>, fetch: Query -> Option<seq<Event>>,
                                     store: Upload -> bool, stamp: Option<Value> -> string)
    ensures StoredBeforeEnd(Run(job, days, fetch, store, stamp), store)
    decreases |days|
  {
    if days != [] {
      var days', d := days[..|days| - 1], days[|days| - 1];
      RunStored(job, days', fetch, store, stamp);
      var prev := Run(job, days', fetch, store, stamp);
      if !prev.aborted {
        var r := Visit(prev, job, d, fetch, store, stamp);
        assert Run(job, days, fetch, store, stamp) == r;
        var q := Query(d, d);
        if fetch(q).Some? && Writable(job, fetch(q).value) {
          var u := DayUpload(job, d, fetch(q).value, stamp);
          assert r.uploads == prev.uploads + [u] && r.aborted == !store(u);
          forall i | 0 <= i < |r.uploads| && (i < |r.uploads| - 1 || !r.aborted)
            ensures store(r.uploads[i])
          {
            if i < |prev.uploads| {
              assert r.uploads[i] == prev.uploads[i];
            }
          }
        } else {
          assert r.uploads == prev.uploads;
        }
      }
    }
  }

  /** A failed run ends with the request whose fetch or table failed, or with
      the upload that failed. */
  lemma {:induction false} RunFailure(job: Job, days: seq<Date>, fetch: Query -> Option<seq<Event>>,
                                      store: Upload -> bool, stamp: Option<Value> -> string)
    ensures EndsAtFailure(Run(job, days, fetch, store, stamp), job, fetch, store)
    decreases |days|
  {
    if days != [] {
      var days', d := days[..|days| - 1], days[|days| - 1];
      RunFailure(job, days', fetch, store, stamp);
      RunUploads(job, days', fetch, store, stamp);
      var prev := Run(job, days', fetch, store, stamp);
      if !prev.aborted {
        var r := Visit(prev, job, d, fetch, store, stamp);
        assert Run(job, days, fetch, store, stamp) == r;
        var q := Query(d, d);
        assert r.queries == prev.queries + [q] && r.queries[|r.queries| - 1] == q;
        assert |prev.uploads| == |prev.queries|;
        if fetch(q).Some? && Writable(job, fetch(q).value) {
          var u := DayUpload(job, d, fetch(q).value, stamp);
          assert r.uploads == prev.uploads + [u] && r.aborted == !store(u);
          assert |r.uploads| == |r.queries| && r.uploads[|r.uploads| - 1] == u;
        } else {
          assert r.uploads == prev.uploads && |r.uploads| < |r.queries|;
        }
      }
    }
  }

  /** When every fetch, every table and every upload succeeds, the run
      covers every day. */
  lemma {:induction false} RunSucceeds(job: Job, days: seq<Date>, fetch: Query -> Option<seq<Event>>,
                                       store: Upload -> bool, stamp: Option<Value> -> string)
    requires forall i :: 0 <= i < |days| ==>
               fetch(Query(days[i], days[i])).Some? &&
               Writable(job, fetch(Query(days[i], days[i])).value) &&
               store(DayUpload(job, days[i], fetch(Query(days[i], days[i])).value, stamp))
    ensures !Run(job, days, fetch, store, stamp).aborted
    ensures |Run(job, days, fetch, store, stamp).uploads| == |days|
    decreases |days|
  {
    if days != [] {
      var days' := days[..|days| - 1];
      RunSucceeds(job, days', fetch, store, stamp);
      RunUploads(job, days', fetch, store, stamp);
    }
  }

  /** `while temp_date <= to_date`: every day from `from` to `until`, one
      export each, stopping at the first failure. */
  method ExportRange(job: Job, from: Date, until: Date, fetch: Query -> Option<seq<Event>>,
                     store: Upload -> bool, stamp: Option<Value> -> string)
    returns (report: Report)
    requires Valid(from) && Valid(until)
    ensures report == Run(job, DaysFrom(from, until), fetch, store, stamp)
  {
    var day := from;
    ghost var visited: seq<Date> := [];
    report := Report([], [], false);
    while Le(day, until)
      invariant Valid(day)
      invariant visited + DaysFrom(day, until) == DaysFrom(from, until)
      invariant report == Run(job, visited, fetch, store, stamp) && !report.aborted
      decreases |DaysFrom(day, until)|
    {
      var upload := ExportDay(job, day, fetch, stamp);
      ghost var next := Visit(report, job, day, fetch, store, stamp);
      RunExtend(job, visited, day, fetch, store, stamp);
      if upload.None? {
        report := Report(report.queries + [Query(day, day)], report.uploads, true);
        assert report == next;
        DaysFromAppend(visited, day, until);
        RunAbortSticky(job, visited + [day], DaysFrom(Next(day), until), fetch, store, stamp);
        return;
      }
      report := Report(report.queries + [Query(day, day)], report.uploads + [upload.value], !store(upload.value));
      assert report == next;
      if report.aborted {
        DaysFromAppend(visited, day, until);
        RunAbortSticky(job, visited + [day], DaysFrom(Next(day), until), fetch, store, stamp);
        return;
      }
      DaysFromAppend(visited, day, until);
      visited := visited + [day];
      day := Next(day);
    }
    assert visited == DaysFrom(from, until);
  }

  // ---------------------------------------------------------------------
  // The whole run
  // ---------------------------------------------------------------------

  /** The run's settings: `FILE_NAME` and `DESTINATION_PATH` (empty when
      unset), the two dates, and the raw `CSV` and `COMPRESS` variables
      (`None` when unset). */
  datatype Settings = Settings(fileName: string, destination: string, from: Date, until: Date,
                               csv: Option<string>, compress: Option<string>)

  /** The job a valid configuration leads to. A flag is on as soon as its
      variable is set, whatever its text: `CSV=false` still asks for a table. */
  function JobOf(s: Settings, bucket: string, path: string): Job
  {
    Job(s.fileName, bucket, path, s.csv.Some?, s.compress.Some?)
  }

  /** `main`: check the settings, then run the range. The exit status is 1 for
      a settings error (before any request) and for a run ended by an error,
      0 otherwise. */
  method Export(s: Settings, fetch: Query -> Option<seq<Event>>, store: Upload -> bool,
                stamp: Option<Value> -> string)
    returns (status: int, report: Report)
    requires Valid(s.from) && Valid(s.until)
    ensures !Configure(s.fileName, s.destination).Ready? ==> status == 1 && report == Report([], [], false)
    ensures Configure(s.fileName, s.destination).Ready? ==>
              var c := Configure(s.fileName, s.destination);
              report == Run(JobOf(s, c.bucket, c.path), DaysFrom(s.from, s.until), fetch, store, stamp) &&
              status == (if report.aborted then 1 else 0)
  {
    var setup := Configure(s.fileName, s.destination);
    if !setup.Ready? {
      return 1, Report([], [], false);
    }
    report := ExportRange(JobOf(s, setup.bucket, setup.path), s.from, s.until, fetch, store, stamp);
    status := if report.aborted then 1 else 0;
  }

  /** A key ends with a given extension. */
  predicate EndsWith(key: string, ext: string)
  {
    |ext| <= |key| && key[|key| - |ext|..] == ext
  }

  /** What the two stages make of an upload: a table or the parsed events,
      inside a single-entry archive or not, with the extension to match. */
  predicate Staged(u: Upload, csv: bool, compress: bool)
  {
    var inner := if u.payload.Zip? then u.payload.content else u.payload;
    u.payload.Zip? == compress && inner.Csv? == csv && inner.Events? == !csv &&
    EndsWith(u.key, (if csv then ".csv" else ".log") + (if compress then ".zip" else ""))
  }

  lemma DayUploadStaged(job: Job, d: Date, events: seq<Event>, stamp: Option<Value> -> string)
    ensures Staged(DayUpload(job, d, events, stamp), job.csv, job.compress)
  {
    var e1 := if job.csv then ".csv" else ".log";
    var e2 := if job.compress then ".zip" else "";
    KeyEndsWith(job.path, job.fileName + "_" + Format(d), e1, e2);
  }

  /** The key of an artifact ends with the artifact's extensions. */
  lemma KeyEndsWith(path: string, stem: string, e1: string, e2: string)
    ensures EndsWith(ObjectKey(path, stem + e1 + e2), e1 + e2)
  {
    var key := ObjectKey(path, stem + e1 + e2);
    assert key == (path + "/" + stem) + (e1 + e2);
  }

  /** `if ENV['CSV']` and `if ENV['COMPRESS']` test only whether the variable
      is set: whatever its text, even `false`, every upload of the run is a
      table (with `.csv`) when `CSV` is set and the parsed events (with
      `.log`) otherwise, and an archive (with `.zip`) exactly when `COMPRESS`
      is set. */
  lemma SetFlagsApply(s: Settings, fetch: Query -> Option<seq<Event>>, store: Upload -> bool,
                      stamp: Option<Value> -> string)
    requires Valid(s.from) && Valid(s.until)
    requires Configure(s.fileName, s.destination).Ready?
    ensures var c := Configure(s.fileName, s.destination);
            var r := Run(JobOf(s, c.bucket, c.path), DaysFrom(s.from, s.until), fetch, store, stamp);
            forall i :: 0 <= i < |r.uploads| ==> Staged(r.uploads[i], s.csv != None, s.compress != None)
  {
    var c := Configure(s.fileName, s.destination);
    var job := JobOf(s, c.bucket, c.path);
    var days := DaysFrom(s.from, s.until);
    RunUploads(job, days, fetch, store, stamp);
    RunQueries(job, days, fetch, store, stamp);
    var r := Run(job, days, fetch, store, stamp);
    assert |r.uploads| <= |days|;
    forall i | 0 <= i < |r.uploads|
      ensures Staged(r.uploads[i], s.csv != None, s.compress != None)
    {
      var d := days[i];
      DayUploadStaged(job, d, fetch(Query(d, d)).value, stamp);
    }
  }

  /** With `CSV` set, a day whose event carries `"time": true` stops the run
      in the table stage: the day was requested, nothing is uploaded, and the
      run ends with an error. */
  lemma BooleanTimeFails(s: Settings, fetch: Query -> Option<seq<Event>>, store: Upload -> bool,
                         stamp: Option<Value> -> string)
    requires Valid(s.from) && s.until == s.from && s.csv != None
    requires Configure(s.fileName, s.destination).Ready?
    requires fetch(Query(s.from, s.from)) == Some([Event("e", [("time", Bool(true))])])
    ensures var c := Configure(s.fileName, s.destination);
            var r := Run(JobOf(s, c.bucket, c.path), DaysFrom(s.from, s.until), fetch, store, stamp);
            r.aborted && r.uploads == [] && r.queries == [Query(s.from, s.from)]
  {
    var c := Configure(s.fileName, s.destination);
    var job := JobOf(s, c.bucket, c.path);
    SingleDay(s.from);
    var e := Event("e", [("time", Bool(true))]);
    assert Lookup(e.props, "time") == Some(Bool(true));
    assert job.csv && !TimeConvertible([e][0]);
    assert [s.from][..0] == [];
  }

  /** The usage example with dates: `mixpanel`, `devbuck/tmp`, 2015-09-15 to
      2015-09-16 and `COMPRESS=true` only, every request and upload
      succeeding: two archives of the parsed events in bucket `devbuck`, one
      per day, named by the day. */
  lemma TwoDayExample(s: Settings, fetch: Query -> Option<seq<Event>>, store: Upload -> bool,
                      stamp: Option<Value> -> string)
    requires s == Settings("mixpanel", "devbuck/tmp", Date(2015, 9, 15), Date(2015, 9, 16),
                          None, Some("true"))
    requires forall q :: fetch(q).Some?
    requires forall u :: store(u)
    ensures Configure(s.fileName, s.destination) == Ready("devbuck", "tmp")
    ensures var r := Run(JobOf(s, "devbuck", "tmp"), DaysFrom(s.from, s.until), fetch, store, stamp);
            !r.aborted && |r.uploads| == 2 &&
            r.uploads[0].bucket == "devbuck" && r.uploads[0].key == "tmp/mixpanel_2015-09-15.log.zip" &&
            r.uploads[1].bucket == "devbuck" && r.uploads[1].key == "tmp/mixpanel_2015-09-16.log.zip"
  {
    ConfigureExample();
    var a, b := s.from, s.until;
    assert Next(a) == b;
    var job := JobOf(s, "devbuck", "tmp");
    TwoDays(job, a, b, fetch, store, stamp);
    FormatExample(a, "2015-09-15");
    FormatExample(b, "2015-09-16");
    KeyExample(a, "2015-09-15");
    KeyExample(b, "2015-09-16");
    KeyLiterals();
  }

  lemma KeyLiterals()
    ensures "tmp/mixpanel_" + "2015-09-15" + ".log.zip" == "tmp/mixpanel_2015-09-15.log.zip"
    ensures "tmp/mixpanel_" + "2015-09-16" + ".log.zip" == "tmp/mixpanel_2015-09-16.log.zip"
  {
  }

  /** A two-day range without a table stage where everything succeeds
      uploads the two days in order. */
  lemma TwoDays(job: Job, a: Date, b: Date, fetch: Query -> Option<seq<Event>>, store: Upload -> bool,
                stamp: Option<Value> -> string)
    requires Valid(a) && Next(a) == b && !job.csv
    requires forall q :: fetch(q).Some?
    requires forall u :: store(u)
    ensures var r := Run(job, DaysFrom(a, b), fetch, store, stamp);
            !r.aborted && |r.uploads| == 2 &&
            r.uploads[0] == DayUpload(job, a, fetch(Query(a, a)).value, stamp) &&
            r.uploads[1] == DayUpload(job, b, fetch(Query(b, b)).value, stamp) &&
            r.uploads[0].bucket == job.bucket && r.uploads[1].bucket == job.bucket &&
            r.uploads[0].key == ObjectKey(job.path, ArtifactName(job.fileName, Format(a), job.csv, job.compress)) &&
            r.uploads[1].key == ObjectKey(job.path, ArtifactName(job.fileName, Format(b), job.csv, job.compress))
  {
    SingleDay(b);
    DaysFromStep(a, b);
    var days := DaysFrom(a, b);
    assert days == [a, b];
    RunSucceeds(job, days, fetch, store, stamp);
    RunUploads(job, days, fetch, store, stamp);
  }

  lemma ConfigureExample()
    ensures Configure("mixpanel", "devbuck/tmp") == Ready("devbuck", "tmp")
  {
    ConfigureInverse("mixpanel", "devbuck", "tmp");
    assert "devbuck" + "/" + "tmp" == "devbuck/tmp";
  }

  lemma KeyText(date: string, key: string)
    requires key == "tmp/mixpanel_" + date + ".log.zip"
    ensures ObjectKey("tmp", ArtifactName("mixpanel", date, false, true)) == key
  {
    assert "tmp" + "/" + "mixpanel" + "_" == "tmp/mixpanel_";
    assert ".log" + ".zip" == ".log.zip";
  }

  lemma KeyExample(d: Date, text: string)
    requires Format(d) == text
    ensures ObjectKey("tmp", ArtifactName("mixpanel", Format(d), false, true)) == "tmp/mixpanel_" + text + ".log.zip"
  {
    KeyText(Format(d), "tmp/mixpanel_" + text + ".log.zip");
  }

  lemma YearExample()
    ensures Digits(2015, 4) == "2015"
  {
    assert DigitChar(2) == '2' && DigitChar(0) == '0' && DigitChar(1) == '1' && DigitChar(5) == '5';
    assert Digits(2, 1) == Digits(0, 0) + [DigitChar(2)] == "2";
    assert Digits(20, 2) == Digits(2, 1) + [DigitChar(0)] == "20";
    assert Digits(201, 3) == Digits(20, 2) + [DigitChar(1)] == "201";
    assert Digits(2015, 4) == Digits(201, 3) + [DigitChar(5)];
  }

  lemma DayExample()
    ensures Digits(9, 2) == "09" && Digits(15, 2) == "15" && Digits(16, 2) == "16"
  {
    assert DigitChar(0) == '0' && DigitChar(1) == '1' && DigitChar(9) == '9';
    assert DigitChar(5) == '5' && DigitChar(6) == '6';
    assert Digits(0, 1) == Digits(0, 0) + [DigitChar(0)] == "0";
    assert Digits(1, 1) == Digits(0, 0) + [DigitChar(1)] == "1";
    assert Digits(9, 2) == Digits(0, 1) + [DigitChar(9)];
    assert Digits(15, 2) == Digits(1, 1) + [DigitChar(5)];
    assert Digits(16, 2) == Digits(1, 1) + [DigitChar(6)];
  }

  lemma MonthExample(d: Date)
    requires d.year == 2015 && d.month == 9
    ensures Format(d) == "2015-09-" + Digits(d.day, 2)
  {
    YearExample();
    DayExample();
    assert YearText(2015) == "2015";
    assert "2015" + "-" + "09" + "-" == "2015-09-";
  }

  lemma FormatExample(d: Date, text: string)
    requires (d == Date(2015, 9, 15) && text == "2015-09-15") || (d == Date(2015, 9, 16) && text == "2015-09-16")
    ensures Format(d) == text
  {
    MonthExample(d);
    DayExample();
    if d.day == 15 {
      assert "2015-09-" + "15" == "2015-09-15";
    } else {
      assert "2015-09-" + "16" == "2015-09-16";
    }
  }
}
