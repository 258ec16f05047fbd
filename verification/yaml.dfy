/** A parsed YAML document as Python sees it after `yaml.load`, and the few
    Python operations the org-config checks apply to it: `d.get(k)`, `d[k]`,
    `d.items()`, truthiness, iteration and the `in` operator. A mapping is
    kept as its entries in document order; like the dict PyYAML builds, a key
    listed twice takes its last value and keeps its first position. */
module Yaml {
  import opened Wrappers

  datatype Value =
    | Null
    | Bool(b: bool)
    | Int(i: int)
    | Str(s: string)
    | List(items: seq<Value>)
    | Map(entries: seq<(string, Value)>)

  /** The Python exceptions these operations can raise. */
  datatype PyError = AttributeError | TypeError | KeyError(key: string)

  /** The keys of a mapping. */
  function KeySet(entries: seq<(string, Value)>): set<string>
  {
    set i | 0 <= i < |entries| :: entries[i].0
  }

  /** The keys in first-occurrence order, each once: the dict's key order. */
  function Keys(entries: seq<(string, Value)>): (r: seq<string>)
    ensures forall k :: k in r <==> k in KeySet(entries)
    ensures forall i, j :: 0 <= i < j < |r| ==> r[i] != r[j]
  {
    if |entries| == 0 then []
    else
      var k := entries[0].0;
      var rest := Keys(entries[1..]);
      assert KeySet(entries) == {k} + KeySet(entries[1..]) by {
        forall x | x in KeySet(entries) ensures x in {k} + KeySet(entries[1..]) {
          var i :| 0 <= i < |entries| && entries[i].0 == x;
          if i > 0 {
            assert entries[1..][i - 1].0 == x;
          }
        }
        forall x | x in KeySet(entries[1..]) ensures x in KeySet(entries) {
          var i :| 0 <= i < |entries[1..]| && entries[1..][i].0 == x;
          assert entries[i + 1].0 == x;
        }
      }
      [k] + Without(rest, k)
  }

  /** `s` with every `x` removed. */
  function Without(s: seq<string>, x: string): (r: seq<string>)
    ensures forall y :: y in r <==> y in s && y != x
    ensures (forall i, j :: 0 <= i < j < |s| ==> s[i] != s[j]) ==> forall i, j :: 0 <= i < j < |r| ==> r[i] != r[j]
  {
    if |s| == 0 then []
    else if s[0] == x then Without(s[1..], x)
    else
      assert forall y :: y in s <==> y == s[0] || y in s[1..];
      assert (forall i, j :: 0 <= i < j < |s| ==> s[i] != s[j]) ==> s[0] !in s[1..] by {
        if s[0] in s[1..] {
          var j :| 0 <= j < |s[1..]| && s[1..][j] == s[0];
          assert s[j + 1] == s[0];
        }
      }
      [s[0]] + Without(s[1..], x)
  }

  /** The value bound to `k`: the last entry with that key. */
  function Lookup(entries: seq<(string, Value)>, k: string): (r: Option<Value>)
    ensures r.Some? <==> k in KeySet(entries)
    ensures r.Some? ==> (k, r.value) in entries
  {
    if |entries| == 0 then None
    else
      var last := entries[|entries| - 1];
      var init := entries[..|entries| - 1];
      assert KeySet(entries) == KeySet(init) + {last.0} by {
        forall x | x in KeySet(entries) ensures x in KeySet(init) + {last.0} {
          var i :| 0 <= i < |entries| && entries[i].0 == x;
          if i < |init| {
            assert init[i].0 == x;
          }
        }
      }
      if last.0 == k then Some(last.1) else Lookup(init, k)
  }

  /** `d.items()` of a mapping, in the dict's order. */
  function Items(entries: seq<(string, Value)>): (r: seq<(string, Value)>)
    ensures |r| == |Keys(entries)|
    ensures forall i :: 0 <= i < |r| ==> r[i].0 == Keys(entries)[i] && Lookup(entries, r[i].0) == Some(r[i].1)
  {
    var ks := Keys(entries);
    seq(|ks|, i requires 0 <= i < |ks| => (ks[i], Lookup(entries, ks[i]).value))
  }

  /** Python truthiness: None, False, 0 and empty strings, lists and
      mappings are false. */
  predicate Truthy(v: Value)
  {
    match v
    case Null => false
    case Bool(b) => b
    case Int(i) => i != 0
    case Str(s) => s != ""
    case List(items) => items != []
    case Map(entries) => entries != []
  }

  /** What `for x in v` visits: list items, one-character strings, or the
      keys of a mapping; anything else is not iterable. */
  function Elements(v: Value): (r: Result<seq<Value>, PyError>)
    ensures r.Err? <==> !(v.List? || v.Str? || v.Map?)
    ensures r.Err? ==> r.error == TypeError
    ensures v.List? ==> r == Ok(v.items)
    ensures v.Str? ==> r.Ok? && |r.value| == |v.s| && forall i :: 0 <= i < |v.s| ==> r.value[i] == Str([v.s[i]])
    ensures v.Map? ==> r.Ok? && |r.value| == |Keys(v.entries)| && forall i :: 0 <= i < |r.value| ==> r.value[i] == Str(Keys(v.entries)[i])
  {
    match v
    case List(items) => Ok(items)
    case Str(s) => Ok(seq(|s|, i requires 0 <= i < |s| => Str([s[i]])))
    case Map(entries) =>
      var ks := Keys(entries);
      Ok(seq(|ks|, i requires 0 <= i < |ks| => Str(ks[i])))
    case _ => Err(TypeError)
  }

  /** `v.get(k)`: the bound value or None; only a mapping has `get`. */
  function Get(v: Value, k: string): (r: Result<Value, PyError>)
    ensures !v.Map? <==> r == Err(AttributeError)
    ensures v.Map? && k !in KeySet(v.entries) ==> r == Ok(Null)
    ensures v.Map? && k in KeySet(v.entries) ==> r.Ok? && (k, r.value) in v.entries
  {
    if !v.Map? then Err(AttributeError)
    else match Lookup(v.entries, k)
      case None => Ok(Null)
      case Some(x) => Ok(x)
  }

  /** `v[k]` with a string key: a missing key raises KeyError; a list, a
      string, None or a number cannot be indexed by a string. */
  function Subscript(v: Value, k: string): (r: Result<Value, PyError>)
    ensures !v.Map? <==> r == Err(TypeError)
    ensures v.Map? && k !in KeySet(v.entries) ==> r == Err(KeyError(k))
    ensures v.Map? && k in KeySet(v.entries) ==> r.Ok? && (k, r.value) in v.entries
  {
    if !v.Map? then Err(TypeError)
    else match Lookup(v.entries, k)
      case None => Err(KeyError(k))
      case Some(x) => Ok(x)
  }

  /** `v.items()`: only a mapping has it. */
  function ItemsOf(v: Value): (r: Result<seq<(string, Value)>, PyError>)
    ensures !v.Map? <==> r == Err(AttributeError)
    ensures v.Map? ==> r == Ok(Items(v.entries))
  {
    if v.Map? then Ok(Items(v.entries)) else Err(AttributeError)
  }

  /** The number a bool or an int stands for in a comparison. */
  function Number(v: Value): int
    requires v.Bool? || v.Int?
  {
    if v.Bool? then (if v.b then 1 else 0) else v.i
  }

  /** The index of the binding `Lookup` finds: the last entry with key `k`. */
  function LastIndex(entries: seq<(string, Value)>, k: string): (i: nat)
    requires k in KeySet(entries)
    ensures i < |entries| && entries[i].0 == k
    ensures Lookup(entries, k) == Some(entries[i].1)
  {
    var last := |entries| - 1;
    if entries[last].0 == k then last
    else
      assert k in KeySet(entries[..last]) by {
        var j :| 0 <= j < |entries| && entries[j].0 == k;
        assert entries[..last][j].0 == k;
      }
      LastIndex(entries[..last], k)
  }

  /** Python `==` on these values: `True == 1` and `False == 0`; lists
      element by element; mappings as dicts, so by their key sets and by
      `==` on the value each key is bound to, whatever the entry order. */
  predicate Same(a: Value, b: Value)
  {
    if (a.Bool? || a.Int?) && (b.Bool? || b.Int?) then Number(a) == Number(b)
    else match (a, b)
      case (Null, Null) => true
      case (Str(x), Str(y)) => x == y
      case (List(xs), List(ys)) => |xs| == |ys| && forall i :: 0 <= i < |xs| ==> Same(xs[i], ys[i])
      case (Map(xs), Map(ys)) =>
        KeySet(xs) == KeySet(ys) &&
        forall k :: k in KeySet(xs) ==> Same(xs[LastIndex(xs, k)].1, ys[LastIndex(ys, k)].1)
      case _ => false
  }

  /** Mappings compare as dicts: the order of the entries does not matter,
      and a key's value compares by `==`, so `True` equals `1`. */
  lemma SameMapExamples()
    ensures Same(Map([("a", Int(1)), ("b", Int(2))]), Map([("b", Int(2)), ("a", Int(1))]))
    ensures Same(Map([("a", Bool(true))]), Map([("a", Int(1))]))
    ensures !Same(Map([("a", Int(1))]), Map([("a", Int(1)), ("b", Int(2))]))
  {
    var xs, ys := [("a", Int(1)), ("b", Int(2))], [("b", Int(2)), ("a", Int(1))];
    KeySetPair("a", Int(1), "b", Int(2));
    KeySetPair("b", Int(2), "a", Int(1));
    assert LastIndex(xs, "a") == 0 && LastIndex(ys, "a") == 1;
    assert LastIndex(xs, "b") == 1 && LastIndex(ys, "b") == 0;
    KeySetSingle("a", Bool(true));
    KeySetSingle("a", Int(1));
    assert LastIndex([("a", Bool(true))], "a") == 0;
    assert LastIndex([("a", Int(1))], "a") == 0;
  }

  lemma KeySetSingle(k: string, v: Value)
    ensures KeySet([(k, v)]) == {k}
  {
    assert [(k, v)][0].0 == k;
  }

  lemma KeySetPair(k1: string, v1: Value, k2: string, v2: Value)
    ensures KeySet([(k1, v1), (k2, v2)]) == {k1, k2}
  {
    var e := [(k1, v1), (k2, v2)];
    assert e[0].0 == k1 && e[1].0 == k2;
  }

  /** `w` occurs in `s` at index `i`. */
  predicate OccursAt(s: string, i: int, w: string)
  {
    0 <= i && i + |w| <= |s| && s[i..i + |w|] == w
  }

  /** `w in s` for strings: `w` is a substring of `s`. */
  predicate Substring(w: string, s: string)
  {
    exists i | 0 <= i <= |s| :: OccursAt(s, i, w)
  }

  /** `x in v`: list membership by `==`, key membership for a mapping (a
      list or mapping is unhashable there), substring search for a string
      (which needs a string on the left); None and numbers are not
      containers. */
  function Contains(v: Value, x: Value): (r: Result<bool, PyError>)
    ensures v.List? ==> r == Ok(exists i :: 0 <= i < |v.items| && Same(x, v.items[i]))
    ensures v.Map? ==> (r.Err? <==> x.List? || x.Map?)
    ensures v.Map? && !(x.List? || x.Map?) ==> r == Ok(x.Str? && x.s in KeySet(v.entries))
    ensures v.Str? ==> (r.Err? <==> !x.Str?)
    ensures v.Str? && x.Str? ==> r == Ok(Substring(x.s, v.s))
    ensures v.Null? || v.Bool? || v.Int? ==> r == Err(TypeError)
    ensures r.Err? ==> r.error == TypeError
  {
    match v
    case List(items) => Ok(exists i :: 0 <= i < |items| && Same(x, items[i]))
    case Map(entries) =>
      if x.List? || x.Map? then Err(TypeError)
      else Ok(x.Str? && x.s in KeySet(entries))
    case Str(s) => if x.Str? then Ok(Substring(x.s, s)) else Err(TypeError)
    case _ => Err(TypeError)
  }

  /** A list of strings as a YAML sequence. */
  function StrList(names: seq<string>): (r: Value)
    ensures r.List? && |r.items| == |names|
    ensures forall i :: 0 <= i < |names| ==> r.items[i] == Str(names[i])
  {
    List(seq(|names|, i requires 0 <= i < |names| => Str(names[i])))
  }

  /** Between strings, `==` is plain equality. */
  lemma SameStr(s: string, b: Value)
    ensures Same(Str(s), b) <==> b == Str(s)
  {
  }

  /** A string is in a list exactly when the list holds that string. */
  lemma ContainsStr(items: seq<Value>, s: string)
    ensures Contains(List(items), Str(s)) == Ok(Str(s) in items)
  {
    if Str(s) in items {
      var i :| 0 <= i < |items| && items[i] == Str(s);
      assert Same(Str(s), items[i]);
    }
  }

  /** Searching a list of strings for a string is plain membership. */
  lemma ContainsName(names: seq<string>, s: string)
    ensures Contains(StrList(names), Str(s)) == Ok(s in names)
  {
    ContainsStr(StrList(names).items, s);
    if s in names {
      var i :| 0 <= i < |names| && names[i] == s;
      assert StrList(names).items[i] == Str(s);
    }
  }

  /** A binding appended under another key leaves every lookup of `k` as
      it was. */
  lemma LookupAppend(entries: seq<(string, Value)>, k: string, extra: (string, Value))
    requires extra.0 != k
    ensures Lookup(entries + [extra], k) == Lookup(entries, k)
    ensures k in KeySet(entries + [extra]) <==> k in KeySet(entries)
  {
    assert (entries + [extra])[..|entries|] == entries;
  }

  /** A later binding of a key wins over an earlier one. */
  lemma LookupLastWins(entries: seq<(string, Value)>, k: string, v: Value)
    ensures Lookup(entries + [(k, v)], k) == Some(v)
  {
  }
}
