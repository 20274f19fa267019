/**
 * The start of `main`: the required settings are checked and
 * `DESTINATION_PATH` is split into the bucket and the folder inside it; and
 * the object key that `upload_to_s3` writes under that folder.
 */
module Destination {
  import opened Text

  /** What the settings check decides: print the usage text and exit 1, print
      the destination hint and exit 1, or go on with a bucket and a folder. */
  datatype Setup = Usage | NoFolder | Ready(bucket: string, path: string)

  function Configure(fileName: string, destination: string): (r: Setup)
    ensures r.Usage? <==> fileName == "" || destination == ""
    ensures r.NoFolder? <==> fileName != "" && destination != "" && |Split(destination, '/')| < 2
    ensures r.Ready? ==> '/' !in r.bucket
    ensures r.Ready? ==> r.bucket == Split(destination, '/')[0] && Fields(r.path, '/') == Split(destination, '/')[1..]
  {
    if fileName == "" || destination == "" then Usage
    else
      var parts := Split(destination, '/');
      if |parts| < 2 then NoFolder
      else
        FieldsPlain(destination, '/');
        JoinFields(parts[1..], '/');
        Ready(parts[0], Join(parts[1..], "/"))
  }

  /** `"#{destination_path}/#{file_name}"`. */
  function ObjectKey(path: string, fileName: string): string
  {
    path + "/" + fileName
  }

  /** Bucket, slash and folder spell the destination with its trailing
      slashes removed. */
  lemma ReadyLocation(fileName: string, destination: string)
    requires Configure(fileName, destination).Ready?
    ensures var r := Configure(fileName, destination);
            r.bucket + "/" + r.path == TrimEnd(destination, '/')
  {
    var r := Configure(fileName, destination);
    var f := Fields(destination, '/');
    var p := Split(destination, '/');
    var n := |f| - |p|;
    assert f == p + seq(n, _ => "");
    FieldsJoin(destination, '/');
    JoinAppendEmpties(p, n, '/');
    assert Join(p, "/") == p[0] + "/" + Join(p[1..], "/");
    JoinEndsWithLast(p, "/");
    FieldsPlain(destination, '/');
    var j := Join(p, "/");
    var lastPart := p[|p| - 1];
    assert lastPart != "" && '/' !in lastPart;
    assert j[|j| - 1] == lastPart[|lastPart| - 1];
    TrimEndOfSuffix(j, '/', n);
  }

  /** Any bucket without a slash and any folder that is not empty and does not
      end in a slash are recovered from `bucket/folder`. */
  lemma ConfigureInverse(fileName: string, bucket: string, path: string)
    requires fileName != ""
    requires '/' !in bucket
    requires path != "" && path[|path| - 1] != '/'
    ensures Configure(fileName, bucket + "/" + path) == Ready(bucket, path)
  {
    var d := bucket + "/" + path;
    FieldsAround(bucket, path, '/');
    FieldsOfPlain(bucket, '/');
    var f := Fields(d, '/');
    assert f == [bucket] + Fields(path, '/');
    LastFieldEmpty(path, '/');
    assert Split(d, '/') == f;
    assert f[1..] == Fields(path, '/');
    FieldsJoin(path, '/');
  }

  /** A destination that names only a bucket, even with a trailing slash, is
      refused. */
  lemma BucketOnlyRefused(fileName: string, bucket: string, n: nat)
    requires fileName != "" && bucket != ""
    requires '/' !in bucket
    ensures Configure(fileName, bucket + Repeat('/', n)) == NoFolder
  {
    var d := bucket + Repeat('/', n);
    FieldsOfPlain(bucket, '/');
    SlashRun(bucket, n);
    var f := Fields(d, '/');
    assert f == [bucket] + seq(n, _ => "");
    var p := Split(d, '/');
    assert f[0] == bucket != "";
    assert |p| >= 1 && p[0] == bucket;
  }

  lemma {:induction false} SlashRun(bucket: string, n: nat)
    requires '/' !in bucket
    ensures Fields(bucket + Repeat('/', n), '/') == [bucket] + seq(n, _ => "")
    decreases n
  {
    if n == 0 {
      assert bucket + Repeat('/', 0) == bucket;
      FieldsOfPlain(bucket, '/');
    } else {
      SlashRun(bucket, n - 1);
      var rest := Repeat('/', n - 1);
      assert bucket + Repeat('/', n) == (bucket + rest) + ['/'] + "";
      FieldsAround(bucket + rest, "", '/');
      assert Fields("", '/') == [""];
      assert [bucket] + seq(n - 1, _ => "") + [""] == [bucket] + seq(n, _ => "");
    }
  }
}
