/** The two functions of Go's `path` package that `gcs/paths.go` falls back
    on: `path.Base` and `path.Dir` (which is `path.Clean` of everything up to
    and including the last slash). `Clean` is modelled element by element:
    the path is split at every slash, empty and "." elements are dropped, and
    ".." removes the element before it where there is one. */
module GoPath {
  import opened Strings

  /** The index of the last '/', or -1. */
  function LastSlash(s: string): (i: int)
    ensures -1 <= i < |s|
    ensures i >= 0 ==> s[i] == '/'
    ensures forall k :: i < k < |s| ==> s[k] != '/'
  {
    if |s| == 0 then -1
    else if s[|s| - 1] == '/' then |s| - 1
    else LastSlash(s[..|s| - 1])
  }

  predicate AllSlashes(s: string)
  {
    forall k :: 0 <= k < |s| ==> s[k] == '/'
  }

  /** `s` without its trailing slashes. */
  function TrimTrailingSlashes(s: string): (r: string)
    ensures r <= s
    ensures |r| > 0 ==> r[|r| - 1] != '/'
    ensures AllSlashes(s[|r|..])
  {
    if |s| > 0 && s[|s| - 1] == '/' then TrimTrailingSlashes(s[..|s| - 1]) else s
  }

  /** `e` is the last element of `p`, starting at index `k`: it follows the
      start or a slash, and only slashes follow it. */
  predicate LastElementAt(p: string, k: int, e: string)
  {
    0 <= k && k + |e| <= |p| && p[k..k + |e|] == e && (k == 0 || p[k - 1] == '/') &&
    AllSlashes(p[k + |e|..])
  }

  /** `path.Base`: the last element after trailing slashes are removed; "."
      for the empty path and "/" for a path of slashes only (see
      `BaseIsLastElement`). */
  function Base(p: string): (r: string)
    ensures r != ""
  {
    if p == "" then "."
    else
      var t := TrimTrailingSlashes(p);
      var e := t[LastSlash(t) + 1..];
      if e == "" then "/" else e
  }

  /** A single element without a slash is its own base name. */
  lemma BaseOfElement(e: string)
    requires e != "" && '/' !in e
    ensures Base(e) == e
  {
    assert e[|e| - 1] != '/';
    assert TrimTrailingSlashes(e) == e;
    LastSlashNone(e);
  }

  /** A string without '/' has no last slash. */
  lemma LastSlashNone(s: string)
    requires '/' !in s
    ensures LastSlash(s) == -1
  {
  }

  lemma BaseIsLastElement(p: string)
    ensures p == "" ==> Base(p) == "."
    ensures Base(p) == "/" <==> p != "" && AllSlashes(p)
    ensures Base(p) != "/" ==> '/' !in Base(p)
    ensures p != "" && Base(p) != "/" ==> exists k :: LastElementAt(p, k, Base(p))
  {
    if p != "" {
      var t := TrimTrailingSlashes(p);
      var k := LastSlash(t) + 1;
      var e := t[k..];
      assert forall j :: 0 <= j < |e| ==> e[j] == t[k + j];
      if e == "" {
        assert t == "";
        assert p[|t|..] == p;
      } else {
        assert t == p[..|t|];
        assert p[k..k + |e|] == e;
        assert p[k + |e|..] == p[|t|..];
        assert LastElementAt(p, k, e);
        assert p[|t| - 1] != '/';
      }
    }
  }

  /** The elements between slashes, in order; "" yields one empty element. */
  function Split(s: string): (parts: seq<string>)
    ensures |parts| >= 1
    ensures forall i :: 0 <= i < |parts| ==> '/' !in parts[i]
    decreases |s|
  {
    var i := IndexOf(s, '/');
    if i == |s| then [s] else [s[..i]] + Split(s[i + 1..])
  }

  /** The elements joined with single slashes. */
  function Join(parts: seq<string>): string
  {
    if |parts| == 0 then ""
    else if |parts| == 1 then parts[0]
    else parts[0] + "/" + Join(parts[1..])
  }

  lemma {:induction false} JoinSplit(s: string)
    ensures Join(Split(s)) == s
    decreases |s|
  {
    var i := IndexOf(s, '/');
    if i < |s| {
      JoinSplit(s[i + 1..]);
      assert s == s[..i] + "/" + s[i + 1..];
    }
  }

  lemma {:induction false} SplitJoin(parts: seq<string>)
    requires |parts| >= 1
    requires forall i :: 0 <= i < |parts| ==> '/' !in parts[i]
    ensures Split(Join(parts)) == parts
  {
    if |parts| == 1 {
      assert IndexOf(parts[0], '/') == |parts[0]|;
    } else {
      var s := Join(parts);
      assert s == parts[0] + "/" + Join(parts[1..]);
      assert IndexOf(s, '/') == |parts[0]| by {
        assert s[|parts[0]|] == '/';
        forall k | 0 <= k < |parts[0]| ensures s[k] != '/' {
          assert s[k] == parts[0][k];
        }
      }
      assert s[..|parts[0]|] == parts[0];
      assert s[|parts[0]| + 1..] == Join(parts[1..]);
      SplitJoin(parts[1..]);
    }
  }

  /** Splitting at the last slash: the elements of the part before it, then
      the part after it. */
  lemma {:induction false} SplitAtLastSlash(s: string, i: nat)
    requires i < |s| && s[i] == '/'
    requires forall k :: i < k < |s| ==> s[k] != '/'
    ensures Split(s) == Split(s[..i]) + [s[i + 1..]]
    decreases |s|
  {
    var j := IndexOf(s, '/');
    assert j <= i;
    if j == i {
      SplitFirst(s, j);
      SplitNoSlash(s[i + 1..]);
      SplitNoSlash(s[..i]);
    } else {
      SplitAtLastSlash(s[j + 1..], i - j - 1);
      SplitAfterFirst(s, i, j);
    }
  }

  /** The step of `SplitAtLastSlash` past the first slash. */
  lemma SplitAfterFirst(s: string, i: nat, j: nat)
    requires j < i < |s| && j == IndexOf(s, '/')
    requires Split(s[j + 1..]) == Split(s[j + 1..][..i - j - 1]) + [s[j + 1..][i - j..]]
    ensures Split(s) == Split(s[..i]) + [s[i + 1..]]
  {
    SplitFirst(s, j);
    assert s[j + 1..][i - j..] == s[i + 1..];
    SplitPrefix(s, i, j);
  }

  /** The first element of `s[..i]` ends where the first element of `s`
      does, when the first slash comes before `i`. */
  lemma SplitPrefix(s: string, i: nat, j: nat)
    requires j < i <= |s| && j == IndexOf(s, '/')
    ensures Split(s[..i]) == [s[..j]] + Split(s[j + 1..][..i - j - 1])
  {
    var pre := s[..i];
    IndexOfAt(pre, '/', j);
    SplitFirst(pre, j);
    assert pre[..j] == s[..j];
    assert pre[j + 1..] == s[j + 1..i] == s[j + 1..][..i - j - 1];
  }

  /** Splitting at the first slash. */
  lemma SplitFirst(t: string, j: nat)
    requires j < |t| && j == IndexOf(t, '/')
    ensures Split(t) == [t[..j]] + Split(t[j + 1..])
  {
  }

  /** A string without a slash is one element. */
  lemma SplitNoSlash(s: string)
    requires forall k :: 0 <= k < |s| ==> s[k] != '/'
    ensures Split(s) == [s]
  {
  }

  lemma IndexOfAt(s: string, c: char, j: nat)
    requires j < |s| && s[j] == c
    requires forall k :: 0 <= k < j ==> s[k] != c
    ensures IndexOf(s, c) == j
  {
  }

  /** One element of `Clean`'s loop. In a path that is not rooted, ".." that
      cannot remove a real element is kept; in a rooted one it is dropped. */
  function CleanStep(st: seq<string>, e: string, rooted: bool): seq<string>
  {
    if e == "" || e == "." then st
    else if e == ".." then
      if |st| > 0 && st[|st| - 1] != ".." then st[..|st| - 1]
      else if rooted then st
      else st + [".."]
    else st + [e]
  }

  /** `Clean`'s loop over the elements, from stack `st`. */
  function CleanFold(st: seq<string>, parts: seq<string>, rooted: bool): (r: seq<string>)
    requires forall i :: 0 <= i < |st| ==> st[i] != "" && '/' !in st[i]
    requires forall i :: 0 <= i < |parts| ==> '/' !in parts[i]
    ensures forall i :: 0 <= i < |r| ==> r[i] != "" && '/' !in r[i]
    decreases |parts|
  {
    if |parts| == 0 then st
    else
      var prev := CleanFold(st, parts[..|parts| - 1], rooted);
      CleanStep(prev, parts[|parts| - 1], rooted)
  }

  /** `path.Clean`: "." for the empty path; "/" prefixed when rooted; the
      elements left by the loop joined with single slashes, "." if none. */
  function Clean(p: string): (r: string)
    ensures r != ""
    ensures (p != "" && p[0] == '/') <==> r[0] == '/'
  {
    if p == "" then "."
    else
      var rooted := p[0] == '/';
      var elems := CleanFold([], Split(p), rooted);
      var body := Join(elems);
      if rooted then "/" + body
      else if body == "" then "."
      else
        assert body[0] != '/' by {
          JoinFirst(elems);
        }
        body
  }

  /** A join of non-empty slash-free elements starts with the first one. */
  lemma JoinFirst(parts: seq<string>)
    requires |parts| > 0 && parts[0] != "" && '/' !in parts[0]
    ensures Join(parts) != "" && Join(parts)[0] == parts[0][0]
  {
  }

  /** `path.Dir`: everything up to the last slash, cleaned. */
  function Dir(p: string): (r: string)
    ensures r != ""
    ensures '/' !in p ==> r == "."
    ensures p != "" && p[0] == '/' ==> r[0] == '/'
  {
    var i := LastSlash(p);
    assert i >= 0 ==> p[..i + 1][0] == p[0];
    Clean(p[..i + 1])
  }

  /** An element that `Clean` keeps as it is. */
  predicate PlainElement(e: string)
  {
    e != "" && e != "." && e != ".."
  }

  /** A relative path already in clean form: plain elements between single
      slashes, no leading or trailing slash. */
  predicate IsCleanRelative(p: string)
  {
    forall i :: 0 <= i < |Split(p)| ==> PlainElement(Split(p)[i])
  }

  /** A rooted path in clean form, other than "/" itself. */
  predicate IsCleanRooted(p: string)
  {
    |p| > 1 && p[0] == '/' && IsCleanRelative(p[1..])
  }

  lemma {:induction false} CleanFoldAppend(st: seq<string>, a: seq<string>, b: seq<string>, rooted: bool)
    requires forall i :: 0 <= i < |st| ==> st[i] != "" && '/' !in st[i]
    requires forall i :: 0 <= i < |a| ==> '/' !in a[i]
    requires forall i :: 0 <= i < |b| ==> '/' !in b[i]
    ensures CleanFold(st, a + b, rooted) == CleanFold(CleanFold(st, a, rooted), b, rooted)
    decreases |b|
  {
    if |b| == 0 {
      assert a + b == a;
    } else {
      var n := |b| - 1;
      assert (a + b)[..|a + b| - 1] == a + b[..n];
      CleanFoldAppend(st, a, b[..n], rooted);
    }
  }

  /** Plain elements are pushed unchanged. */
  lemma {:induction false} CleanFoldPlain(st: seq<string>, parts: seq<string>, rooted: bool)
    requires forall i :: 0 <= i < |st| ==> st[i] != "" && '/' !in st[i]
    requires forall i :: 0 <= i < |parts| ==> '/' !in parts[i] && PlainElement(parts[i])
    ensures CleanFold(st, parts, rooted) == st + parts
    decreases |parts|
  {
    if |parts| > 0 {
      var n := |parts| - 1;
      CleanFoldPlain(st, parts[..n], rooted);
      assert st + parts[..n] + [parts[n]] == st + parts;
    }
  }

  /** A leading slash contributes an empty first element. */
  lemma SplitLeadingSlash(p: string)
    requires p != "" && p[0] == '/'
    ensures Split(p) == [""] + Split(p[1..])
  {
    assert p[..0] == "";
  }

  /** A trailing slash contributes an empty last element. */
  lemma SplitTrailingSlash(p: string)
    requires p != "" && p[|p| - 1] == '/'
    ensures Split(p) == Split(p[..|p| - 1]) + [""]
  {
    SplitAtLastSlash(p, |p| - 1);
    assert p[|p|..] == "";
  }

  /** Where an empty element comes from: the empty path, a leading slash
      and a trailing slash. */
  lemma EmptyElements(p: string)
    ensures p == "" || p[0] == '/' ==> Split(p)[0] == ""
    ensures p != "" && p[|p| - 1] == '/' ==> Split(p)[|Split(p)| - 1] == ""
  {
    if p != "" && p[0] == '/' {
      SplitLeadingSlash(p);
    }
    if p != "" && p[|p| - 1] == '/' {
      SplitTrailingSlash(p);
    }
  }

  /** A clean relative path is not empty and neither starts nor ends with a
      slash. */
  lemma CleanRelativeEnds(p: string)
    requires IsCleanRelative(p)
    ensures p != "" && p[0] != '/' && p[|p| - 1] != '/'
  {
    EmptyElements(p);
  }

  /** Dropping a trailing empty element changes nothing. */
  lemma CleanFoldTrailingEmpty(parts: seq<string>, rooted: bool)
    requires forall i :: 0 <= i < |parts| ==> '/' !in parts[i]
    ensures CleanFold([], parts + [""], rooted) == CleanFold([], parts, rooted)
  {
    assert (parts + [""])[..|parts|] == parts;
  }

  /** `Clean` leaves a clean relative path alone. */
  lemma CleanRelativeFixed(p: string)
    requires IsCleanRelative(p)
    ensures Clean(p) == p && Clean(p + "/") == p
  {
    CleanRelativeEnds(p);
    var parts := Split(p);
    assert CleanFold([], parts, false) == parts by {
      CleanFoldPlain([], parts, false);
    }
    JoinSplit(p);
    CleanTrailingSlash(p);
  }

  /** One trailing slash does not change what `Clean` gives. */
  lemma CleanTrailingSlash(p: string)
    requires p != ""
    ensures Clean(p + "/") == Clean(p)
  {
    var q := p + "/";
    assert q[..|q| - 1] == p;
    SplitTrailingSlash(q);
    CleanFoldTrailingEmpty(Split(p), p[0] == '/');
  }

  /** `Clean` leaves a clean rooted path alone. */
  lemma CleanRootedFixed(p: string)
    requires IsCleanRooted(p)
    ensures Clean(p) == p && Clean(p + "/") == p
  {
    var rest := p[1..];
    CleanRootedElements(p);
    JoinSplit(rest);
    assert p == "/" + rest;
    CleanTrailingSlash(p);
  }

  /** The loop keeps every element after the leading slash. */
  lemma CleanRootedElements(p: string)
    requires IsCleanRooted(p)
    ensures CleanFold([], Split(p), true) == Split(p[1..])
  {
    var parts := Split(p[1..]);
    SplitLeadingSlash(p);
    CleanFoldAppend([], [""], parts, true);
    assert CleanFold([], [""], true) == [] by {
      assert [""][..0] == [];
    }
    CleanFoldPlain([], parts, true);
  }

  /** On a clean path the pair (`Dir`, `Base`) splits at the last slash, and
      joining them back gives the path. */
  lemma DirBaseSplit(p: string)
    requires IsCleanRelative(p) || IsCleanRooted(p)
    ensures LastSlash(p) > 0 ==> Dir(p) == p[..LastSlash(p)] && Base(p) == p[LastSlash(p) + 1..]
    ensures LastSlash(p) > 0 ==> Dir(p) + "/" + Base(p) == p
    ensures LastSlash(p) == 0 ==> Dir(p) == "/" && Base(p) == p[1..]
    ensures LastSlash(p) < 0 ==> Dir(p) == "." && Base(p) == p
  {
    var i := LastSlash(p);
    CleanBaseWhole(p);
    if i > 0 {
      DirInner(p, i);
      JoinAtSlash(p, i);
    } else if i == 0 {
      DirRoot(p);
    } else {
      DirNoSlash(p);
    }
  }

  lemma DirNoSlash(p: string)
    requires LastSlash(p) < 0
    ensures Dir(p) == "."
  {
    assert '/' !in p by {
      forall k | 0 <= k < |p| ensures p[k] != '/' {
      }
    }
  }

  lemma JoinAtSlash(p: string, i: nat)
    requires i < |p| && p[i] == '/'
    ensures p[..i] + "/" + p[i + 1..] == p
  {
  }

  /** A clean path has no trailing slash, so `Base` takes what follows the
      last slash. */
  lemma CleanBaseWhole(p: string)
    requires IsCleanRelative(p) || IsCleanRooted(p)
    ensures Base(p) == p[LastSlash(p) + 1..]
  {
    assert p != "" && p[|p| - 1] != '/' by {
      if IsCleanRelative(p) {
        CleanRelativeEnds(p);
      } else {
        CleanRelativeEnds(p[1..]);
      }
    }
    assert TrimTrailingSlashes(p) == p;
  }

  lemma DirInner(p: string, i: nat)
    requires IsCleanRelative(p) || IsCleanRooted(p)
    requires 0 < i < |p| && i == LastSlash(p)
    ensures Dir(p) == p[..i]
  {
    DirOfCleanPrefix(p, i);
  }

  lemma TakeThroughSlash(p: string, i: nat)
    requires i < |p| && p[i] == '/'
    ensures p[..i + 1] == p[..i] + "/"
  {
  }

  lemma DirRoot(p: string)
    requires LastSlash(p) == 0
    ensures Dir(p) == "/"
  {
    assert p[..1] == "/";
    assert Dir(p) == Clean("/");
    assert Split("/") == ["", ""] by {
      EmptyElements("/");
      assert "/"[1..] == "";
    }
    assert CleanFold([], ["", ""], true) == [] by {
      assert ["", ""][..1] == [""];
      assert [""][..0] == [];
    }
  }

  /** The part of a clean path before its last slash is clean. */
  lemma DirOfCleanPrefix(p: string, i: nat)
    requires IsCleanRelative(p) || IsCleanRooted(p)
    requires 0 < i < |p| && i == LastSlash(p)
    ensures Clean(p[..i + 1]) == p[..i]
  {
    TakeThroughSlash(p, i);
    if IsCleanRelative(p) {
      CleanRelativePrefix(p, i);
      CleanRelativeFixed(p[..i]);
    } else {
      RootedPrefix(p, i);
      CleanRootedFixed(p[..i]);
    }
  }

  lemma RootedPrefix(p: string, i: nat)
    requires IsCleanRooted(p)
    requires 0 < i < |p| && i == LastSlash(p)
    ensures IsCleanRooted(p[..i])
  {
    var rest := p[1..];
    assert rest[i - 1] == '/';
    CleanRelativePrefix(rest, i - 1);
    assert rest[..i - 1] == p[..i][1..];
    if i == 1 {
      EmptyElements(rest);
    }
  }

  /** Elements before the last slash of a clean relative path are plain. */
  lemma CleanRelativePrefix(p: string, i: nat)
    requires IsCleanRelative(p)
    requires i < |p| && p[i] == '/' && forall k :: i < k < |p| ==> p[k] != '/'
    ensures IsCleanRelative(p[..i])
  {
    SplitAtLastSlash(p, i);
    forall k | 0 <= k < |Split(p[..i])| ensures PlainElement(Split(p[..i])[k]) {
      assert Split(p)[k] == Split(p[..i])[k];
    }
  }

  /** Every character of an element comes from the string split. */
  lemma {:induction false} SplitChars(s: string, c: char)
    requires c !in s
    ensures forall i :: 0 <= i < |Split(s)| ==> c !in Split(s)[i]
    decreases |s|
  {
    var i := IndexOf(s, '/');
    if i < |s| {
      SplitChars(s[i + 1..], c);
      assert c !in s[..i];
    }
  }

  /** `Clean`'s loop adds no character except through "..". */
  lemma {:induction false} CleanFoldChars(st: seq<string>, parts: seq<string>, rooted: bool, c: char)
    requires forall i :: 0 <= i < |st| ==> st[i] != "" && '/' !in st[i] && c !in st[i]
    requires forall i :: 0 <= i < |parts| ==> '/' !in parts[i] && c !in parts[i]
    requires c != '.'
    ensures forall i :: 0 <= i < |CleanFold(st, parts, rooted)| ==> c !in CleanFold(st, parts, rooted)[i]
    decreases |parts|
  {
    if |parts| > 0 {
      var n := |parts| - 1;
      CleanFoldChars(st, parts[..n], rooted, c);
      var prev := CleanFold(st, parts[..n], rooted);
      var r := CleanStep(prev, parts[n], rooted);
      forall i | 0 <= i < |r| ensures c !in r[i] {
        if i < |prev| {
          assert r[i] == prev[i];
        }
      }
    }
  }

  lemma {:induction false} JoinChars(parts: seq<string>, c: char)
    requires c != '/'
    requires forall i :: 0 <= i < |parts| ==> c !in parts[i]
    ensures c !in Join(parts)
  {
    if |parts| > 1 {
      JoinChars(parts[1..], c);
    }
  }

  /** `Clean` adds only slashes and dots. */
  lemma CleanChars(p: string, c: char)
    requires c !in p && c != '/' && c != '.'
    ensures c !in Clean(p)
  {
    if p != "" {
      SplitChars(p, c);
      CleanFoldChars([], Split(p), p[0] == '/', c);
      JoinChars(CleanFold([], Split(p), p[0] == '/'), c);
    }
  }

  /** `Dir` adds only slashes and dots. */
  lemma DirChars(p: string, c: char)
    requires c !in p && c != '/' && c != '.'
    ensures c !in Dir(p)
  {
    var i := LastSlash(p);
    assert c !in p[..i + 1];
    CleanChars(p[..i + 1], c);
  }

  /** The last slash is the one after which no slash follows. */
  lemma {:induction false} LastSlashAt(s: string, i: nat)
    requires i < |s| && s[i] == '/'
    requires forall k :: i < k < |s| ==> s[k] != '/'
    ensures LastSlash(s) == i
    decreases |s|
  {
    if i < |s| - 1 {
      LastSlashAt(s[..|s| - 1], i);
    }
  }

  /** A single plain element is a clean path, relative or rooted. */
  lemma PlainIsClean(e: string)
    requires PlainElement(e) && '/' !in e
    ensures IsCleanRelative(e) && IsCleanRooted("/" + e)
  {
    SplitNoSlash(e);
    assert ("/" + e)[1..] == e;
  }

  /** Appending "/" and a slash-free element adds one element at the end. */
  lemma SplitAppend(a: string, b: string)
    requires '/' !in b
    ensures LastSlash(a + "/" + b) == |a|
    ensures Split(a + "/" + b) == Split(a) + [b]
  {
    var p := a + "/" + b;
    SlashBeforeLast(a, b);
    LastSlashAt(p, |a|);
    SplitAtLastSlash(p, |a|);
    assert p[..|a|] == a;
    assert p[|a| + 1..] == b;
  }

  lemma SlashBeforeLast(a: string, b: string)
    requires '/' !in b
    ensures (a + "/" + b)[|a|] == '/'
    ensures forall k :: |a| < k < |a + "/" + b| ==> (a + "/" + b)[k] != '/'
  {
    var p := a + "/" + b;
    forall k | |a| < k < |p| ensures p[k] != '/' {
      assert p[k] == b[k - |a| - 1];
    }
  }

  /** Appending a plain element to a clean relative path keeps it clean. */
  lemma AppendRelative(a: string, b: string)
    requires IsCleanRelative(a)
    requires PlainElement(b) && '/' !in b
    ensures IsCleanRelative(a + "/" + b)
  {
    SplitAppend(a, b);
    var ps := Split(a) + [b];
    forall i | 0 <= i < |ps| ensures PlainElement(ps[i]) {
      if i < |Split(a)| {
        assert ps[i] == Split(a)[i];
      }
    }
  }

  /** Appending a plain element to a clean rooted path keeps it clean. */
  lemma AppendRooted(a: string, b: string)
    requires IsCleanRooted(a)
    requires PlainElement(b) && '/' !in b
    ensures IsCleanRooted(a + "/" + b)
  {
    assert (a + "/" + b)[1..] == a[1..] + "/" + b;
    AppendRelative(a[1..], b);
  }

  /** `Dir` and `Base` take a clean path apart at its last slash. */
  lemma DirBaseAppend(a: string, b: string)
    requires IsCleanRelative(a) || IsCleanRooted(a)
    requires PlainElement(b) && '/' !in b
    ensures Dir(a + "/" + b) == a && Base(a + "/" + b) == b
  {
    var p := a + "/" + b;
    SplitAppend(a, b);
    if IsCleanRelative(a) {
      CleanRelativeEnds(a);
      AppendRelative(a, b);
    } else {
      AppendRooted(a, b);
    }
    DirBaseSplit(p);
    assert p[..|a|] == a && p[|a| + 1..] == b;
  }
}
