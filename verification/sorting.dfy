/** Sorting by a string key, standing in for Go's `sort.Slice` with a
    `less(i, j)` that compares one string field. The model sorts with a
    stable insertion sort; Go's sort is not stable, so the model picks one of
    the orders Go may produce when two elements share a key. */
module Sorting {
  import opened Strings

  predicate SortedBy<T>(s: seq<T>, key: T -> string)
  {
    forall i, j :: 0 <= i < j < |s| ==> LessEq(key(s[i]), key(s[j]))
  }

  /** Sorted with no two elements sharing a key. */
  predicate StrictlySortedBy<T>(s: seq<T>, key: T -> string)
  {
    forall i, j :: 0 <= i < j < |s| ==> Less(key(s[i]), key(s[j]))
  }

  /** Places `x` before the first element whose key is not smaller. */
  function InsertBy<T>(x: T, s: seq<T>, key: T -> string): (r: seq<T>)
    requires SortedBy(s, key)
    ensures SortedBy(r, key)
    ensures multiset(r) == multiset(s) + multiset{x}
  {
    if |s| == 0 then [x]
    else if LessEq(key(x), key(s[0])) then
      forall j | 0 <= j < |s| ensures LessEq(key(x), key(s[j])) {
        if j > 0 {
          LessEqTransitive(key(x), key(s[0]), key(s[j]));
        }
      }
      ConsSorted(x, s, key);
      [x] + s
    else
      var rest := InsertBy(x, s[1..], key);
      LessEqTotal(key(x), key(s[0]));
      forall j | 0 <= j < |rest| ensures LessEq(key(s[0]), key(rest[j])) {
        assert rest[j] in multiset(rest);
        if rest[j] != x {
          assert rest[j] in multiset(s[1..]);
          var k :| 0 <= k < |s[1..]| && s[1..][k] == rest[j];
          assert s[k + 1] == rest[j];
        }
      }
      ConsSorted(s[0], rest, key);
      assert s == [s[0]] + s[1..];
      [s[0]] + rest
  }

  /** A head at or below every key of a sorted tail keeps it sorted. */
  lemma ConsSorted<T>(h: T, rest: seq<T>, key: T -> string)
    requires SortedBy(rest, key)
    requires forall j :: 0 <= j < |rest| ==> LessEq(key(h), key(rest[j]))
    ensures SortedBy([h] + rest, key)
  {
    forall i, j | 0 <= i < j < |[h] + rest| ensures LessEq(key(([h] + rest)[i]), key(([h] + rest)[j])) {
      assert ([h] + rest)[j] == rest[j - 1];
      if i > 0 {
        assert ([h] + rest)[i] == rest[i - 1];
      }
    }
  }

  /** The elements of `s` in ascending key order. */
  function SortBy<T>(s: seq<T>, key: T -> string): (r: seq<T>)
    ensures SortedBy(r, key)
    ensures multiset(r) == multiset(s)
  {
    if |s| == 0 then []
    else
      assert s == [s[0]] + s[1..];
      InsertBy(s[0], SortBy(s[1..], key), key)
  }

  function Identity(s: string): string { s }

  /** Go's `sort.Slice` over a `[]string` with `files[i] < files[j]`. */
  function SortStrings(s: seq<string>): (r: seq<string>)
    ensures SortedBy(r, Identity)
    ensures multiset(r) == multiset(s)
  {
    SortBy(s, Identity)
  }

  /** Two key-sorted sequences holding the same multiset are equal when equal
      keys imply equal elements: sorting's output does not depend on the
      input's order. */
  lemma {:induction false} SortedPermutationsEqual<T>(a: seq<T>, b: seq<T>, key: T -> string)
    requires SortedBy(a, key) && SortedBy(b, key)
    requires multiset(a) == multiset(b)
    requires forall x, y :: x in a && y in a && key(x) == key(y) ==> x == y
    ensures a == b
  {
    assert |a| == |multiset(a)| == |multiset(b)| == |b|;
    if |a| > 0 {
      SortedHeadsEqual(a, b, key);
      SameTails(a, b);
      SortedTail(a, key);
      SortedTail(b, key);
      assert forall x :: x in a[1..] ==> x in a;
      SortedPermutationsEqual(a[1..], b[1..], key);
      assert a == [a[0]] + a[1..] && b == [b[0]] + b[1..];
    }
  }

  lemma SortedTail<T>(a: seq<T>, key: T -> string)
    requires |a| > 0 && SortedBy(a, key)
    ensures SortedBy(a[1..], key)
  {
  }

  /** Permutations with the same head have permuted tails. */
  lemma SameTails<T>(a: seq<T>, b: seq<T>)
    requires |a| > 0 && |b| > 0 && a[0] == b[0]
    requires multiset(a) == multiset(b)
    ensures multiset(a[1..]) == multiset(b[1..])
  {
    assert a == [a[0]] + a[1..] && b == [b[0]] + b[1..];
    assert multiset(a[1..]) == multiset(a) - multiset{a[0]};
    assert multiset(b[1..]) == multiset(b) - multiset{b[0]};
  }

  lemma SortedHeadsEqual<T>(a: seq<T>, b: seq<T>, key: T -> string)
    requires |a| > 0 && |b| > 0
    requires SortedBy(a, key) && SortedBy(b, key)
    requires multiset(a) == multiset(b)
    requires forall x, y :: x in a && y in a && key(x) == key(y) ==> x == y
    ensures a[0] == b[0]
  {
    assert a[0] in multiset(b) && b[0] in multiset(a);
    var i :| 0 <= i < |b| && b[i] == a[0];
    var j :| 0 <= j < |a| && a[j] == b[0];
    assert LessEq(key(b[0]), key(b[i]));
    assert LessEq(key(a[0]), key(a[j]));
    LessEqAntisymmetric(key(a[0]), key(b[0]));
  }

  /** Two strictly key-sorted sequences with the same elements are equal. */
  lemma {:induction false} StrictlySortedSameElementsEqual<T>(a: seq<T>, b: seq<T>, key: T -> string)
    requires StrictlySortedBy(a, key) && StrictlySortedBy(b, key)
    requires forall x :: x in a <==> x in b
    ensures a == b
  {
    assert |a| == 0 ==> |b| == 0 by {
      if |b| > 0 {
        assert b[0] in b;
      }
    }
    if |a| == 0 {
    } else {
      assert a[0] in a;
      assert |b| > 0;
      var i :| 0 <= i < |b| && b[i] == a[0];
      assert b[0] in b;
      var j :| 0 <= j < |a| && a[j] == b[0];
      if i > 0 && j > 0 {
        LessTrichotomy(key(a[0]), key(b[0]));
        assert false;
      }
      if i == 0 { assert a[0] == b[0]; } else { assert a[0] == b[0]; }
      forall x ensures x in a[1..] <==> x in b[1..] {
        if x in a[1..] {
          var k :| 1 <= k < |a| && a[k] == x;
          assert x != a[0] by { LessIrreflexive(key(a[0])); }
          assert x in b;
        }
        if x in b[1..] {
          var k :| 1 <= k < |b| && b[k] == x;
          assert x != b[0] by { LessIrreflexive(key(b[0])); }
          assert x in a;
        }
      }
      StrictlySortedSameElementsEqual(a[1..], b[1..], key);
      assert a == [a[0]] + a[1..] && b == [b[0]] + b[1..];
    }
  }


  /** No two elements share a key. */
  predicate DistinctKeys<T>(s: seq<T>, key: T -> string)
  {
    forall i, j :: 0 <= i < j < |s| ==> key(s[i]) != key(s[j])
  }

  /** A head below every key of a strictly sorted tail keeps it strictly
      sorted. */
  lemma ConsStrict<T>(h: T, rest: seq<T>, key: T -> string)
    requires StrictlySortedBy(rest, key)
    requires forall j :: 0 <= j < |rest| ==> Less(key(h), key(rest[j]))
    ensures StrictlySortedBy([h] + rest, key)
  {
    forall i, j | 0 <= i < j < |[h] + rest| ensures Less(key(([h] + rest)[i]), key(([h] + rest)[j])) {
      assert ([h] + rest)[j] == rest[j - 1];
      if i > 0 {
        assert ([h] + rest)[i] == rest[i - 1];
      }
    }
  }

  lemma {:induction false} InsertStrict<T>(x: T, s: seq<T>, key: T -> string)
    requires StrictlySortedBy(s, key)
    requires forall i :: 0 <= i < |s| ==> key(s[i]) != key(x)
    ensures StrictlySortedBy(InsertBy(x, s, key), key)
  {
    if |s| > 0 {
      if LessEq(key(x), key(s[0])) {
        forall j | 0 < j < |s| ensures Less(key(x), key(s[j])) {
          LessTransitive(key(x), key(s[0]), key(s[j]));
        }
      } else {
        InsertStrict(x, s[1..], key);
        var rest := InsertBy(x, s[1..], key);
        LessTrichotomy(key(x), key(s[0]));
        forall j | 0 <= j < |rest| ensures Less(key(s[0]), key(rest[j])) {
          assert rest[j] in multiset(rest);
          if rest[j] != x {
            assert rest[j] in multiset(s[1..]);
            var k :| 0 <= k < |s[1..]| && s[1..][k] == rest[j];
            assert s[k + 1] == rest[j];
          }
        }
        ConsStrict(s[0], rest, key);
      }
    }
  }

  /** Sorting a sequence whose keys are distinct gives a strictly sorted one. */
  lemma {:induction false} SortDistinctIsStrict<T>(s: seq<T>, key: T -> string)
    requires DistinctKeys(s, key)
    ensures StrictlySortedBy(SortBy(s, key), key)
  {
    if |s| > 0 {
      var rest := SortBy(s[1..], key);
      SortDistinctIsStrict(s[1..], key);
      forall i | 0 <= i < |rest| ensures key(rest[i]) != key(s[0]) {
        assert rest[i] in multiset(s[1..]);
        var k :| 0 <= k < |s[1..]| && s[1..][k] == rest[i];
        assert s[k + 1] == rest[i];
      }
      InsertStrict(s[0], rest, key);
    }
  }

  /** A strictly sorted sequence has distinct keys. */
  lemma StrictIsDistinct<T>(s: seq<T>, key: T -> string)
    requires StrictlySortedBy(s, key)
    ensures DistinctKeys(s, key)
  {
    forall i, j | 0 <= i < j < |s| ensures key(s[i]) != key(s[j]) {
      LessIrreflexive(key(s[i]));
    }
  }
}
