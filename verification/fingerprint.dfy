/** `ContentHash` of `util/files.go`: the fingerprint the resync loop uses to
    notice that a spec file changed. The names are sorted, then every file's
    bytes are streamed into one SHA-256 (FIPS PUB 180-4) state, with nothing
    between files. The digest itself is a parameter of the model. */
module Fingerprint {
  import opened Wrappers
  import opened Sorting

  newtype byte = b: int | 0 <= b < 256

  /** A SHA-256 digest is 32 bytes long. */
  type Digest = d: seq<byte> | |d| == 32 witness seq(32, i => 0)

  /** The hash function, left uninterpreted. */
  type Sha256 = seq<byte> -> Digest

  /** The files a name can be opened and read from; an absent name is one
      whose `os.Open` or `io.Copy` fails. */
  type FileSystem = map<string, seq<byte>>

  /** `sorted` is the caller's slice after the in-place sort, `sum` the
      returned bytes, and `failed` the file whose read failed, if any. */
  datatype HashResult = HashResult(sorted: seq<string>, sum: seq<byte>, failed: Option<string>)

  predicate AllReadable(fs: FileSystem, names: seq<string>)
  {
    forall i :: 0 <= i < |names| ==> names[i] in fs
  }

  /** The bytes the hash sees: the contents of `names`, in order, back to back. */
  function Stream(fs: FileSystem, names: seq<string>): (r: seq<byte>)
    requires AllReadable(fs, names)
  {
    if |names| == 0 then []
    else Stream(fs, names[..|names| - 1]) + fs[names[|names| - 1]]
  }

  /** The number of names read before the loop stops: the first unreadable
      one, or all of them. */
  function ReadablePrefix(fs: FileSystem, names: seq<string>): (n: nat)
    ensures n <= |names|
    ensures AllReadable(fs, names[..n])
    ensures n < |names| ==> names[n] !in fs
  {
    if |names| == 0 then 0
    else if names[0] !in fs then 0
    else
      var k := ReadablePrefix(fs, names[1..]);
      assert names[..k + 1] == [names[0]] + names[1..][..k];
      k + 1
  }

  /** `ContentHash`: the sum of the sorted files' concatenated contents, or
      an empty slice and an error naming the first file, in sorted order,
      that cannot be read. */
  function ContentHash(fs: FileSystem, files: seq<string>, sha: Sha256): (r: HashResult)
    ensures SortedBy(r.sorted, Identity) && multiset(r.sorted) == multiset(files)
    ensures r.failed.None? <==> AllReadable(fs, files)
    ensures r.failed.None? ==> AllReadable(fs, r.sorted) && r.sum == sha(Stream(fs, r.sorted))
    ensures r.failed.Some? ==> r.sum == [] && r.failed.value in files && r.failed.value !in fs
    ensures r.failed.Some? ==>
      exists n :: 0 <= n < |r.sorted| && AllReadable(fs, r.sorted[..n]) && r.failed == Some(r.sorted[n])
  {
    var sorted := SortStrings(files);
    var n := ReadablePrefix(fs, sorted);
    MultisetReadable(fs, files, sorted);
    if n < |sorted| then
      assert sorted[n] in multiset(files);
      HashResult(sorted, [], Some(sorted[n]))
    else
      assert sorted[..n] == sorted;
      HashResult(sorted, sha(Stream(fs, sorted)), None)
  }

  /** Readability depends only on which names are listed, not their order. */
  lemma MultisetReadable(fs: FileSystem, a: seq<string>, b: seq<string>)
    requires multiset(a) == multiset(b)
    ensures AllReadable(fs, a) <==> AllReadable(fs, b)
  {
    forall i | 0 <= i < |a| ensures a[i] in multiset(b) {
      assert a[i] in multiset(a);
    }
    forall i | 0 <= i < |b| ensures b[i] in multiset(a) {
      assert b[i] in multiset(b);
    }
  }

  /** The same files listed in any order give the same fingerprint. */
  lemma ContentHashPermutationInvariant(fs: FileSystem, a: seq<string>, b: seq<string>, sha: Sha256)
    requires multiset(a) == multiset(b)
    ensures ContentHash(fs, a, sha) == ContentHash(fs, b, sha)
  {
    SortedPermutationsEqual(SortStrings(a), SortStrings(b), Identity);
  }

  /** No files: the digest of the empty stream, and no error. */
  lemma ContentHashEmpty(fs: FileSystem, sha: Sha256)
    ensures ContentHash(fs, [], sha) == HashResult([], sha([]), None)
  {
  }

  /** Reading two lists in turn streams their concatenation: no name, length
      or separator marks where one file ends. */
  lemma {:induction false} StreamAppend(fs: FileSystem, a: seq<string>, b: seq<string>)
    requires AllReadable(fs, a) && AllReadable(fs, b)
    ensures AllReadable(fs, a + b)
    ensures Stream(fs, a + b) == Stream(fs, a) + Stream(fs, b)
  {
    if |b| > 0 {
      var n := |b| - 1;
      assert (a + b)[..|a + b| - 1] == a + b[..n];
      StreamAppend(fs, a, b[..n]);
    } else {
      assert a + b == a;
    }
  }

  /** Moving bytes from the end of one file to the start of the next leaves
      the fingerprint unchanged. */
  lemma BoundariesInvisible(fs1: FileSystem, fs2: FileSystem, x: string, y: string, sha: Sha256)
    requires Strings.Less(x, y)
    requires x in fs1 && y in fs1 && x in fs2 && y in fs2
    requires fs1[x] + fs1[y] == fs2[x] + fs2[y]
    ensures ContentHash(fs1, [x, y], sha).sum == ContentHash(fs2, [x, y], sha).sum
  {
    SortPair(x, y);
    StreamPair(fs1, x, y);
    StreamPair(fs2, x, y);
    assert AllReadable(fs1, [x, y]) && AllReadable(fs2, [x, y]);
  }

  /** Two names already in order sort to themselves. */
  lemma SortPair(x: string, y: string)
    requires Strings.Less(x, y)
    ensures SortStrings([x, y]) == [x, y]
  {
    assert Strings.LessEq(Identity(x), Identity(y));
    assert SortedBy([x, y], Identity);
    SortedPermutationsEqual(SortStrings([x, y]), [x, y], Identity);
  }

  /** Reading two files streams one after the other. */
  lemma StreamPair(fs: FileSystem, x: string, y: string)
    requires x in fs && y in fs
    ensures Stream(fs, [x, y]) == fs[x] + fs[y]
  {
    assert [x, y][..1] == [x] && [x][..0] == [];
    assert Stream(fs, [x]) == fs[x];
  }

  /** Reading a list streams what comes before position `i`, then file
      `names[i]`, then what comes after. */
  lemma StreamSplit(fs: FileSystem, names: seq<string>, i: nat)
    requires AllReadable(fs, names) && i < |names|
    ensures AllReadable(fs, names[..i]) && AllReadable(fs, names[i + 1..])
    ensures Stream(fs, names) == Stream(fs, names[..i]) + fs[names[i]] + Stream(fs, names[i + 1..])
  {
    var pre, post := names[..i], names[i + 1..];
    assert names == pre + [names[i]] + post;
    assert AllReadable(fs, pre + [names[i]]) by {
      assert pre + [names[i]] == names[..i + 1];
    }
    StreamAppend(fs, pre + [names[i]], post);
    StreamAppend(fs, pre, [names[i]]);
    assert [names[i]][..0] == [];
  }

  /** Two file systems that differ in the contents of one listed file, at the
      same length, stream different bytes into the hash. */
  lemma ChangeDetected(fs1: FileSystem, fs2: FileSystem, files: seq<string>, f: string)
    requires AllReadable(fs1, files) && AllReadable(fs2, files)
    requires f in files
    requires forall g :: g in files && g != f ==> fs1[g] == fs2[g]
    requires |fs1[f]| == |fs2[f]| && fs1[f] != fs2[f]
    ensures Stream(fs1, files) != Stream(fs2, files)
  {
    var i := FirstIndex(files, f);
    StreamSplit(fs1, files, i);
    StreamSplit(fs2, files, i);
    var pre := files[..i];
    forall j | 0 <= j < |pre| ensures fs1[pre[j]] == fs2[pre[j]] {
      assert pre[j] == files[j];
    }
    StreamSame(fs1, fs2, pre);
    var a := Stream(fs1, pre);
    var s1 := a + fs1[f] + Stream(fs1, files[i + 1..]);
    var s2 := a + fs2[f] + Stream(fs2, files[i + 1..]);
    assert s1[|a|..|a| + |fs1[f]|] == fs1[f];
    assert s2[|a|..|a| + |fs2[f]|] == fs2[f];
  }

  function FirstIndex(s: seq<string>, x: string): (i: nat)
    requires x in s
    ensures i < |s| && s[i] == x && forall j :: 0 <= j < i ==> s[j] != x
  {
    if s[0] == x then 0 else FirstIndex(s[1..], x) + 1
  }

  /** Files with equal contents stream equal bytes. */
  lemma {:induction false} StreamSame(fs1: FileSystem, fs2: FileSystem, names: seq<string>)
    requires AllReadable(fs1, names) && AllReadable(fs2, names)
    requires forall i :: 0 <= i < |names| ==> fs1[names[i]] == fs2[names[i]]
    ensures Stream(fs1, names) == Stream(fs2, names)
  {
    if |names| > 0 {
      StreamSame(fs1, fs2, names[..|names| - 1]);
    }
  }

  /** A changed file changes what is hashed, whatever order the files are
      listed in. */
  lemma ContentHashSeesChange(fs1: FileSystem, fs2: FileSystem, files: seq<string>, f: string, sha: Sha256)
    requires AllReadable(fs1, files) && AllReadable(fs2, files)
    requires f in files
    requires forall g :: g in files && g != f ==> fs1[g] == fs2[g]
    requires |fs1[f]| == |fs2[f]| && fs1[f] != fs2[f]
    ensures ContentHash(fs1, files, sha).failed.None? && ContentHash(fs2, files, sha).failed.None?
    ensures ContentHash(fs1, files, sha).sum == sha(Stream(fs1, SortStrings(files)))
    ensures ContentHash(fs2, files, sha).sum == sha(Stream(fs2, SortStrings(files)))
    ensures Stream(fs1, SortStrings(files)) != Stream(fs2, SortStrings(files))
  {
    var sorted := SortStrings(files);
    assert f in multiset(files);
    forall g | g in sorted ensures g in files {
      assert g in multiset(sorted);
    }
    MultisetReadable(fs1, files, sorted);
    MultisetReadable(fs2, files, sorted);
    assert f in sorted by {
      assert f in multiset(sorted);
    }
    ChangeDetected(fs1, fs2, sorted, f);
  }
}
