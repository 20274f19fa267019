# mixpanel_to_s3 in Dafny

A model of `mixpanel_to_s3.rb`, a script that copies Mixpanel's raw event
export into Amazon S3 one day at a time. For every day from `FROM_DATE` to
`TO_DATE` it does four things:

- It sends a signed export request for that single day.
- It repairs the line-per-event response body into one JSON array.
- It optionally turns the events into a CSV table (`CSV`).
- It optionally wraps the result into a single-entry zip archive (`COMPRESS`).

It then uploads the artifact to `<bucket>/<folder>/<FILE_NAME>_<day>.<ext>`.
Before any of that, `main` checks that `FILE_NAME` and `DESTINATION_PATH` are
set, and splits `DESTINATION_PATH` into the bucket and the folder.

The model has six modules:

- `Text` (`text.dfy`): the Ruby string operations the script relies on.
  These are `split('/')` (trailing empty fields dropped), `join`, `gsub` of
  one character, the `[0..-3]` slice, byte-wise `<=`, and zero-padded
  decimal text. `join`, `gsub` and the slice are generic over the element
  type, so they serve both text and bytes.
- `Dates` (`dates.dfy`): Gregorian dates and `Date#+ 1`. It also holds
  `DaysFrom`, the reference list of the days the loop visits, and the
  `%Y-%m-%d` text with its order.
- `Destination` (`destination.dfy`): the settings check and the destination
  split at the start of `main`, and the object key of `upload_to_s3`.
- `Tabular` (`table.dfy`): `write_to_csv`. It builds the header (every
  property name once, first-seen order), then one row per event. It fails
  on an event whose `time` value has no `to_i`.
- `Request` (`request.dfy`): the strings of `get_mixpanel_log`. These are
  the query string, the text whose MD5 digest signs it, the request address,
  and the repair of the response body. The body is a sequence of bytes,
  because `Net::HTTP` returns it as a binary string.
- `Pipeline` (`pipeline.dfy`): one day's work, the driver loop and `main`.

The network is passed in as functions:

- `fetch` stands for `get_mixpanel_log`. `None` means it raised.
- `store` stands for the S3 write. `false` means it raised.
- `stamp` stands for the whole conversion of the `time` column, `Time.at(value.to_i).strftime(...)`. It receives the raw looked-up value, so it covers both `to_i` and the local-time formatting.

`Run` is the reference for the loop: it visits the days of `DaysFrom` in
order and stops at the first failure. `ExportRange` is the loop itself,
written as a `while` loop, and is proved equal to `Run`.

## Model

| member | source | states |
|---|---|---|
| Destination.Configure | mixpanel_to_s3.rb:83-100 | The usage text (exit 1) is chosen exactly when `FILE_NAME` or `DESTINATION_PATH` is empty. The destination hint (exit 1) is chosen exactly when both are set and `split('/')` gives fewer than two parts. Otherwise the bucket is the first part and holds no `/`, and the folder splits back on `/` into the remaining parts. |
| Destination.ReadyLocation | mixpanel_to_s3.rb:93-100 | For an accepted destination, bucket + `/` + folder is the destination with its trailing slashes removed. |
| Destination.ConfigureInverse | mixpanel_to_s3.rb:93-100 | A bucket without `/` and a non-empty folder not ending in `/` are recovered exactly from `bucket/folder`. |
| Destination.BucketOnlyRefused | mixpanel_to_s3.rb:93-97 | A destination naming only a bucket, with any number of trailing slashes, gets the destination hint. |
| Dates.Next | mixpanel_to_s3.rb:130 | The next day is a valid date strictly after the given one. |
| Dates.DaysFrom | mixpanel_to_s3.rb:111-131 | The visited days are empty exactly when `from` is after `to`. Otherwise they start at `from`, end at `to`, lie between the bounds, and each is the day after the one before. |
| Dates.DaysFromIncreasing | mixpanel_to_s3.rb:111-131 | The visited days are strictly increasing, so no day is exported twice. |
| Dates.DaysFromComplete | mixpanel_to_s3.rb:111-131 | Every valid day between the bounds is visited. |
| Dates.FormatOrder | mixpanel_to_s3.rb:113 | For four-digit years, comparing the `YYYY-MM-DD` texts byte-wise is the same as comparing the dates, and equal texts mean equal dates. |
| Dates.StringGuardAgrees | mixpanel_to_s3.rb:113 | For four-digit years, the source's string guard `temp_date <= to_date` is the date comparison. |
| Dates.StringGuardOverrun | mixpanel_to_s3.rb:113-130 | After 9999-12-31 the next day is 10000-01-01. Its text still compares `<=` to `9999-12-31`, although the date is later. |
| Dates.StringGuardOverrunEnds | mixpanel_to_s3.rb:113-130 | Against `9999-12-31`, the day 99989-12-31 still passes the string guard. Its successor 99990-01-01 fails it, because `0` sorts after `-`. |
| Dates.StringGuardSkipsRange | mixpanel_to_s3.rb:113 | From 2015-01-01 to 10000-01-01 the range is not empty, yet the string guard already fails on the first day, because `2` sorts after `1`: the loop never runs. |
| Request.ParamsText | mixpanel_to_s3.rb:50 | The query string is `api_key=K&expire=E&from_date=F&to_date=T`, with the four pairs in that order. |
| Request.SignatureInputSpec | mixpanel_to_s3.rb:52 | With no `&` in the values, the signed text is the four `name=value` pairs run together in order, followed by the secret. |
| Request.QueryFields | mixpanel_to_s3.rb:50-54 | With no `&` in the values, the query with `&sig=` appended splits on `&` into exactly the four pairs and `sig=<digest>`. |
| Request.UrlQuery | mixpanel_to_s3.rb:54 | With no `&` in the values, the address is the export endpoint, `?`, and a query that splits on `&` into the five parameters. |
| Request.RepairLines | mixpanel_to_s3.rb:59 | A body of newline-terminated byte lines becomes the bytes of `[`, the lines joined by `, `, then `]`. An empty body becomes `[]`. |
| Request.RepairUnterminated | mixpanel_to_s3.rb:59 | When the body's last line has no newline and at least two bytes, that line loses its last two bytes, even where they are part of a multi-byte character. This holds after any number of terminated lines, none included. |
| Request.RepairOneByteLast | mixpanel_to_s3.rb:59 | When the unterminated last line is a single byte, it vanishes and the `,` before it stays, so the text ends in `,]`. A body of that one byte alone becomes `[]`. |
| Tabular.Lookup | mixpanel_to_s3.rb:39 | A property lookup finds nothing exactly when the event has no such name. What it finds is stored under that name. |
| Tabular.Uniq | mixpanel_to_s3.rb:35 | `uniq` keeps exactly the elements of its input, each once. |
| Tabular.UniqOrder | mixpanel_to_s3.rb:35 | `uniq` keeps the elements in the order of their first occurrence. |
| Tabular.HeaderSpec | mixpanel_to_s3.rb:35 | The header holds exactly the property names of the day's events, each once, in first-seen order across the events in order. |
| Tabular.RowShape | mixpanel_to_s3.rb:38-39 | A row has one field per column plus the event name first. Its `time` field is the formatter's text for the event's `time` value. |
| Tabular.RowMissing | mixpanel_to_s3.rb:39 | A column other than `time` that the event lacks is empty. |
| Tabular.RowPresent | mixpanel_to_s3.rb:39 | A column other than `time` that the event has shows that value's text. |
| Tabular.TimeColumnPresent | mixpanel_to_s3.rb:35-39 | An event whose `time` value has no `to_i` has a `time` property, so `time` is a column and building its row reaches the conversion. |
| Tabular.WriteTable | mixpanel_to_s3.rb:34-41 | Writing fails exactly when some event's `time` is `true` or `false`, which have no `to_i`. Otherwise the table is the header row `event` + header, then one row per event in order. |
| Pipeline.DistinctDayNames | mixpanel_to_s3.rb:114-125 | Two different days (four-digit years) never share an artifact name, so no upload overwrites another day's. |
| Pipeline.DayUploadShape | mixpanel_to_s3.rb:114-128 | A day's upload goes to the configured bucket, under the object key of line 19: folder + `/` + the artifact name. A compressed payload is one archive entry, named as the artifact without `.zip`, holding the uncompressed payload. |
| Pipeline.ExportDay | mixpanel_to_s3.rb:114-128 | A day yields no upload exactly when its fetch fails, or when `CSV` is set and the table cannot be written. Otherwise it yields the day's upload, named and wrapped as `DayUpload` describes. |
| Pipeline.RunAbortSticky | mixpanel_to_s3.rb:116-128 | After a failure, later days add no request and no upload. |
| Pipeline.RunQueries | mixpanel_to_s3.rb:113-116 | The i-th request asks for exactly the i-th day. A run that did not fail asked once for every day. |
| Pipeline.RunUploads | mixpanel_to_s3.rb:113-128 | The i-th upload is the i-th day's artifact, built from what was fetched for that day. Only a failed run can have one request more than uploads. |
| Pipeline.RunStored | mixpanel_to_s3.rb:22-25 | Every upload succeeded, except possibly a last one that ended the run. |
| Pipeline.RunFailure | mixpanel_to_s3.rb:113-128 | A failed run ends either with the request whose fetch or table failed, or with the upload that failed. |
| Pipeline.RunSucceeds | mixpanel_to_s3.rb:111-131 | When every fetch, every table and every upload succeeds, the run does not fail and uploads once per day. |
| Pipeline.ExportRange | mixpanel_to_s3.rb:111-131 | The `while` loop does exactly what `Run` does over `DaysFrom(from, to)`. |
| Pipeline.SetFlagsApply | mixpanel_to_s3.rb:117-126 | Whatever the text of `CSV` and `COMPRESS`, even `false`, every upload of the run is a table with a `.csv` extension exactly when `CSV` is set, and otherwise the parsed events with `.log`. It is a single-entry archive ending in `.zip` exactly when `COMPRESS` is set. |
| Pipeline.BooleanTimeFails | mixpanel_to_s3.rb:39 | With `CSV` set, one day whose event has `"time": true` is requested, nothing is uploaded, and the run ends with an error, so `main` exits with status 1. |
| Pipeline.Export | mixpanel_to_s3.rb:77-131 | A refused configuration exits 1 before any request. Otherwise the run is `Run` over the configured bucket and folder, with exit status 1 exactly when it failed. |
| Pipeline.TwoDayExample | mixpanel_to_s3.rb:89 | The values of the usage example with dates, taken as environment variables: `mixpanel`, `devbuck/tmp`, 2015-09-15 to 2015-09-16, `COMPRESS=true` and no `CSV`, with every request and upload succeeding. This uploads `tmp/mixpanel_2015-09-15.log.zip` and `tmp/mixpanel_2015-09-16.log.zip` into `devbuck`. |

## Left out

- HTTP, S3, MD5 and zip: the request, the digest, the upload and the archive bytes are not modelled. `fetch` and `store` stand for the first and the upload, and the digest is an opaque `sig` string. The archive is a `Zip(entry, content)` value.
- JSON parsing (line 60) is left out. `fetch` returns the parsed events directly. The repair of the body before parsing is modelled (`Repair`).
- CSV quoting and the `/tmp` staging file (lines 34, 44, 120) are left out. The table is modelled as rows of fields.
- `Tabular.Show`: floating-point, array and object property values are left out. Only strings, integers, booleans and `null` are modelled. An array or object `time` value, which would also make `to_i` raise, is not modelled either.
- Tabular.WriteTable: every event is taken to have a `properties` object. An element of the response without one makes line 35 raise when `CSV` is set, and the run ends with status 1; that failure is not modelled.
- Tabular.Lookup: an event's property names are taken as distinct. A JSON object that repeats a name, where the parser keeps the last value, is not modelled.
- Pipeline.TwoDayExample: the usage line passes its settings as command-line arguments, but `main` reads only the environment (lines 78-81, 117, 123). The lemma takes those values as environment variables, as a `.env` file would set them; the arguments themselves are ignored and not modelled.
- The uploaded text of an unconverted day is Ruby's `inspect` form of the parsed array. The model keeps the events as a value instead.
- The clock is not modelled:
  - the default `FROM_DATE` and `TO_DATE` (lines 102-109). `one_day` is 1 and `Time.now - one_day` subtracts one second, so the default is the current date. It is the day before only in the first second after midnight;
  - `expire` (line 50), which is taken as an input;
  - the local time zone of the `time` column, which is the `stamp` parameter.
- Parsing `FROM_DATE` and `TO_DATE`: the dates are taken as valid calendar dates. The source sends the raw `FROM_DATE` text for the first day and compares raw texts. A date not written as `YYYY-MM-DD` is not modelled. Five-digit years are modelled, since `%Y` prints them after 9999; the two guard effects they cause are under "## Findings".
- `Dates.Next`: uses the proleptic Gregorian calendar. Ruby's `Date` switches to the Julian calendar before 1582-10-15, which the model does not follow.
- `Dotenv.load`, reading the environment, and every `puts` are left out.
- Two places where the code and the usual description of the script differ. The model follows the code in both:
  - A missing `time` property is passed to the formatter as well (`Time.at(nil.to_i)` gives the epoch), so the model does not force it to be empty.
  - A destination such as `devbuck/` is refused, because `split` drops trailing empty fields. A destination such as `/x` is accepted, with an empty bucket name.

## Findings

| source | as written | input that shows it | evidently intended | confidence | as-written member | corrected member |
|---|---|---|---|---|---|---|
| mixpanel_to_s3.rb:113 | The loop guard compares the `%Y-%m-%d` texts byte-wise. After 9999-12-31, `%Y` prints five digits, and `"10000-01-01" <= "9999-12-31"` holds. So the loop goes on past `TO_DATE`, through 99989-12-31. It stops at 99990-01-01, whose fifth character `0` sorts after `-`. | `TO_DATE=9999-12-31` with `FROM_DATE` on or before it | The loop stops after `TO_DATE` | not executed | Dates.StringGuardOverrun | Pipeline.ExportRange |
| mixpanel_to_s3.rb:113 | The same byte-wise guard skips a whole range whose `TO_DATE` has a five-digit year and whose `FROM_DATE` has four digits starting above `1`: `"2015-01-01" <= "10000-01-01"` fails at the first byte, so no day is exported and the exit status is 0. | `FROM_DATE=2015-01-01 TO_DATE=10000-01-01` | Every day from `FROM_DATE` to `TO_DATE` is exported | not executed | Dates.StringGuardSkipsRange | Pipeline.ExportRange |
