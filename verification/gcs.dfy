/** `gcp/gcs/util.go` (`GcsPath`, `ToURI`, `Parse`) and `gcp/gcs/paths.go`
    (`Dir`, `Base`). `Parse` applies `gs://([^/]+)/{0,1}(.*)` with Go's
    leftmost-first, unanchored search: the match starts at the first
    "gs://" followed by a character other than '/'; the bucket is the
    longest run without '/' from there (a newline included); one '/' is
    skipped if present; the path is the longest run without a newline. */
module Gcs {
  import opened Wrappers
  import GoPath

  datatype GcsPath = GcsPath(bucket: string, path: string)

  const Scheme: string := "gs://"
  const Pattern: string := "gs://([^/]+)/{0,1}(.*)"

  /** `ToURI`: the scheme and bucket, then "/" and the path unless the path is
      empty. */
  function ToURI(p: GcsPath): (r: string)
    ensures |r| >= 5 + |p.bucket| && r[..5] == Scheme && r[5..5 + |p.bucket|] == p.bucket
    ensures p.path == "" <==> |r| == 5 + |p.bucket|
  {
    if p.path != "" then Scheme + p.bucket + "/" + p.path else Scheme + p.bucket
  }

  /** The regex can start matching at `k`. */
  predicate MatchesAt(s: string, k: int)
  {
    0 <= k && k + 5 < |s| && s[k..k + 5] == Scheme && s[k + 5] != '/'
  }

  /** The leftmost start of a match at or after `from`. */
  function FirstMatch(s: string, from: nat): (r: Option<nat>)
    ensures r.None? ==> forall k :: from <= k ==> !MatchesAt(s, k)
    ensures r.Some? ==> from <= r.value && MatchesAt(s, r.value)
    ensures r.Some? ==> forall k :: from <= k < r.value ==> !MatchesAt(s, k)
    decreases |s| - from
  {
    if from + 5 >= |s| then None
    else if MatchesAt(s, from) then Some(from)
    else FirstMatch(s, from + 1)
  }

  /** The end of the longest run from `i` without `stop`. */
  function RunEnd(s: string, i: nat, stop: char): (j: nat)
    requires i <= |s|
    ensures i <= j <= |s|
    ensures forall k :: i <= k < j ==> s[k] != stop
    ensures j < |s| ==> s[j] == stop
    decreases |s| - i
  {
    if i == |s| || s[i] == stop then i else RunEnd(s, i + 1, stop)
  }

  /** The run end is the first `stop` at or after `i`. */
  lemma RunEndAt(s: string, i: nat, stop: char, j: nat)
    requires i <= j <= |s|
    requires forall k :: i <= k < j ==> s[k] != stop
    requires j < |s| ==> s[j] == stop
    ensures RunEnd(s, i, stop) == j
  {
  }

  /** `Parse`: the two groups of the leftmost match, or an error quoting the
      input and the pattern. */
  function Parse(s: string): (r: Result<GcsPath, string>)
    ensures r.Err? <==> forall k :: !MatchesAt(s, k)
    ensures r.Err? ==> r.error == "Path " + s + "; doesn't match regex " + Pattern
    ensures r.Ok? ==> r.value.bucket != "" && '/' !in r.value.bucket && '\n' !in r.value.path
    ensures r.Ok? ==> exists k :: LeftmostMatch(s, k) && GroupsAt(s, k, r.value)
  {
    match FirstMatch(s, 0)
    case None => Err("Path " + s + "; doesn't match regex " + Pattern)
    case Some(k) => Ok(GroupsFrom(s, k))
  }

  /** The two groups of the match starting at `k`. */
  function GroupsFrom(s: string, k: nat): (p: GcsPath)
    requires MatchesAt(s, k)
    ensures GroupsAt(s, k, p)
    ensures p.bucket != ""
  {
    var b := k + 5;
    var e := RunEnd(s, b, '/');
    var p := if e < |s| then e + 1 else e;
    var q := RunEnd(s, p, '\n');
    RunSlice(s, b, '/');
    RunSlice(s, p, '\n');
    GcsPath(s[b..e], s[p..q])
  }

  /** The run from `i` occurs in `s` at `i`, holds no `stop`, and ends where
      `RunEnd` says. */
  lemma RunSlice(s: string, i: nat, stop: char)
    requires i <= |s|
    ensures OccursAt(s, i, s[i..RunEnd(s, i, stop)])
    ensures stop !in s[i..RunEnd(s, i, stop)]
    ensures i + |s[i..RunEnd(s, i, stop)]| == RunEnd(s, i, stop)
  {
    var j := RunEnd(s, i, stop);
    assert forall c :: c in s[i..j] ==> c != stop;
  }

  /** A match starts at `k` and at no earlier index. */
  predicate LeftmostMatch(s: string, k: int)
  {
    MatchesAt(s, k) && forall j :: 0 <= j < k ==> !MatchesAt(s, j)
  }

  /** The regex's two groups for a match at `k`: the bucket is the longest
      run without '/' right after "gs://", one '/' after it is consumed when
      present, and the path is the longest run without a newline after
      that. */
  predicate GroupsAt(s: string, k: int, p: GcsPath)
  {
    var e := k + 5 + |p.bucket|;
    var q := if e < |s| then e + 1 else e;
    && OccursAt(s, k + 5, p.bucket) && '/' !in p.bucket
    && (e == |s| || s[e] == '/')
    && OccursAt(s, q, p.path) && '\n' !in p.path
    && (q + |p.path| == |s| || s[q + |p.path|] == '\n')
  }

  /** What a well-formed `GcsPath` is: a bucket that is not empty and has no
      slash, and a path without a newline. */
  predicate Printable(p: GcsPath)
  {
    p.bucket != "" && '/' !in p.bucket && '\n' !in p.path
  }

  /** Printing then parsing gives back the bucket and the path. */
  lemma ParseToURI(p: GcsPath)
    requires Printable(p)
    ensures Parse(ToURI(p)) == Ok(p)
  {
    var s := ToURI(p);
    var e := 5 + |p.bucket|;
    assert s[5] == p.bucket[0];
    assert MatchesAt(s, 0);
    assert FirstMatch(s, 0) == Some(0);
    forall k | 5 <= k < e ensures s[k] != '/' {
      assert s[k] == p.bucket[k - 5];
    }
    RunEndAt(s, 5, '/', e);
    if p.path == "" {
      assert |s| == e;
      RunEndAt(s, e, '\n', e);
      assert s[5..e] == p.bucket && s[e..e] == "";
    } else {
      assert s[e] == '/';
      forall k | e + 1 <= k < |s| ensures s[k] != '\n' {
        assert s[k] == p.path[k - e - 1];
      }
      RunEndAt(s, e + 1, '\n', |s|);
      assert s[e + 1..|s|] == p.path;
      assert s[5..e] == p.bucket;
    }
  }

  /** `w` occurs in `m` at index `i`. */
  predicate OccursAt(m: string, i: int, w: string)
  {
    0 <= i && i + |w| <= |m| && m[i..i + |w|] == w
  }

  /** Parsing is the identity on what it returns: the printed form of a parse
      result parses to the same result. */
  lemma ParseNormalizes(s: string)
    requires Parse(s).Ok?
    ensures Parse(ToURI(Parse(s).value)) == Parse(s)
  {
    ParseToURI(Parse(s).value);
  }

  /** The error names the mismatch. */
  lemma ParseErrorSaysNoMatch(s: string)
    requires Parse(s).Err?
    ensures exists i :: OccursAt(Parse(s).error, i, "doesn't match")
  {
    var m := Parse(s).error;
    var head := "Path " + s + "; ";
    var tail := "doesn't match regex " + Pattern;
    assert m == head + tail;
    assert m[|head|..|head| + 13] == tail[..13];
    assert OccursAt(m, |head|, "doesn't match");
  }

  /** `paths.go` `Dir`: for a gs URI, the same bucket with `path.Dir` of the
      object path; otherwise `path.Dir` of the whole string. */
  function Dir(uri: string): (r: string)
    ensures Parse(uri).Err? ==> r == GoPath.Dir(uri)
    ensures Parse(uri).Ok? ==> |r| >= 5 && r[..5] == Scheme
  {
    match Parse(uri)
    case Err(_) => GoPath.Dir(uri)
    case Ok(p) => ToURI(GcsPath(p.bucket, GoPath.Dir(p.path)))
  }

  /** `paths.go` `Base`: `path.Base` of the object path for a gs URI, of the
      whole string otherwise. */
  function Base(uri: string): (r: string)
    ensures r != ""
    ensures Parse(uri).Err? ==> r == GoPath.Base(uri)
  {
    match Parse(uri)
    case Err(_) => GoPath.Base(uri)
    case Ok(p) => GoPath.Base(p.path)
  }

  /** `Dir` of a gs URI is a gs URI on the same bucket whose path is
      `path.Dir` of the original path. */
  lemma DirKeepsBucket(uri: string)
    requires Parse(uri).Ok?
    ensures Parse(Dir(uri)) == Ok(GcsPath(Parse(uri).value.bucket, GoPath.Dir(Parse(uri).value.path)))
  {
    var p := Parse(uri).value;
    GoPath.DirChars(p.path, '\n');
    ParseToURI(GcsPath(p.bucket, GoPath.Dir(p.path)));
  }

  /** For a clean object path with a folder, `Dir` and `Base` split the
      printed URI at its last slash. */
  lemma DirJoinBase(uri: string)
    requires Parse(uri).Ok?
    requires GoPath.IsCleanRelative(Parse(uri).value.path)
    requires GoPath.LastSlash(Parse(uri).value.path) > 0
    ensures Dir(uri) + "/" + Base(uri) == ToURI(Parse(uri).value)
  {
    var p := Parse(uri).value;
    GoPath.DirBaseSplit(p.path);
    UriAtLastSlash(p.bucket, GoPath.Dir(p.path), GoPath.Base(p.path));
  }

  /** An object at the top of a bucket has "." as its folder, so `Dir`
      gives the bucket URI followed by "/.", not the bare bucket URI. */
  lemma DirOfTopLevelObject(bucket: string, name: string)
    requires Printable(GcsPath(bucket, name))
    requires name != "" && '/' !in name
    ensures Dir(ToURI(GcsPath(bucket, name))) == Scheme + bucket + "/."
  {
    ParseToURI(GcsPath(bucket, name));
  }

  /** `Base` of a printed gs path is `path.Base` of its object path. */
  lemma BaseOfURI(p: GcsPath)
    requires Printable(p)
    ensures Base(ToURI(p)) == GoPath.Base(p.path)
  {
    ParseToURI(p);
  }

  /** An object at the top of a bucket is its own base name. */
  lemma BaseOfTopLevelObject(bucket: string, name: string)
    requires Printable(GcsPath(bucket, name))
    requires name != "" && '/' !in name
    ensures Base(ToURI(GcsPath(bucket, name))) == name
  {
    BaseOfURI(GcsPath(bucket, name));
    GoPath.BaseOfElement(name);
  }

  /** A bare bucket URI has the empty object path, whose base is ".". */
  lemma BaseOfBucket(bucket: string)
    requires bucket != "" && '/' !in bucket
    ensures Base(Scheme + bucket) == "."
  {
    BaseOfURI(GcsPath(bucket, ""));
  }

  lemma UriAtLastSlash(bucket: string, d: string, b: string)
    requires d != ""
    ensures ToURI(GcsPath(bucket, d)) + "/" + b == ToURI(GcsPath(bucket, d + "/" + b))
  {
  }

  /** A single trailing slash after the bucket leaves the path empty. */
  lemma ParseTrailingSlash(bucket: string)
    requires Printable(GcsPath(bucket, ""))
    ensures Parse(Scheme + bucket + "/") == Ok(GcsPath(bucket, ""))
  {
    var s := Scheme + bucket + "/";
    var e := 5 + |bucket|;
    assert s[5] == bucket[0];
    assert s[0..5] == Scheme;
    assert MatchesAt(s, 0);
    forall k | 5 <= k < e ensures s[k] != '/' {
      assert s[k] == bucket[k - 5];
    }
    assert s[e] == '/' && |s| == e + 1;
    RunEndAt(s, 5, '/', e);
    RunEndAt(s, e + 1, '\n', e + 1);
    assert FirstMatch(s, 0) == Some(0);
    assert s[5..e] == bucket && s[e + 1..e + 1] == "";
  }

  /** A string without the letter `g` cannot hold the scheme. */
  lemma ParseWithoutScheme(s: string)
    requires 'g' !in s
    ensures Parse(s).Err?
  {
    forall k | 0 <= k && k + 5 < |s| ensures !MatchesAt(s, k) {
      assert s[k] != 'g';
      assert s[k..k + 5][0] != Scheme[0];
    }
  }

  /** The cases of `util_test.go`: a bucket with an object path. */
  lemma ParseObjectExample(s: string)
    requires s == Scheme + "bucket" + "/" + "folder1/file.csv"
    ensures Parse(s) == Ok(GcsPath("bucket", "folder1/file.csv"))
  {
    var p := GcsPath("bucket", "folder1/file.csv");
    assert Printable(p);
    ParseToURI(p);
    assert ToURI(p) == s;
  }

  /** A bare bucket, with and without the trailing slash. */
  lemma ParseBucketExamples(s: string, t: string)
    requires s == Scheme + "bucket" && t == Scheme + "bucket" + "/"
    ensures Parse(s) == Ok(GcsPath("bucket", ""))
    ensures Parse(t) == Ok(GcsPath("bucket", ""))
  {
    var p := GcsPath("bucket", "");
    assert Printable(p);
    ParseToURI(p);
    assert ToURI(p) == s;
    ParseTrailingSlash("bucket");
  }

  /** A local path does not parse. */
  lemma ParseLocalExample(s: string)
    requires s == "/some/path"
    ensures Parse(s).Err?
  {
    ParseWithoutScheme(s);
  }

  /** The cases of `paths_test.go`: `Dir` and `Base` of a gs URI work on the
      object path and keep the bucket. */
  lemma DirBaseObjectExample(uri: string)
    requires uri == Scheme + "bucket" + "/" + "dirA" + "/" + "dirB"
    ensures Dir(uri) == Scheme + "bucket" + "/" + "dirA"
    ensures Base(uri) == "dirB"
  {
    var p := GcsPath("bucket", "dirA" + "/" + "dirB");
    assert Printable(p);
    ParseToURI(p);
    assert ToURI(p) == uri;
    GoPath.PlainIsClean("dirA");
    GoPath.DirBaseAppend("dirA", "dirB");
    assert ToURI(GcsPath("bucket", "dirA")) == Scheme + "bucket" + "/" + "dirA";
  }

  /** A local path falls back on `path.Dir` and `path.Base`. */
  lemma DirBaseLocalExample(uri: string)
    requires uri == "/" + "bucket" + "/" + "dirA" + "/" + "dirB"
    ensures Dir(uri) == "/" + "bucket" + "/" + "dirA"
    ensures Base(uri) == "dirB"
  {
    ParseWithoutScheme(uri);
    GoPath.PlainIsClean("bucket");
    GoPath.AppendRooted("/" + "bucket", "dirA");
    GoPath.DirBaseAppend("/" + "bucket" + "/" + "dirA", "dirB");
  }
}
