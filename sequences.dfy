/** The `Array.prototype` methods the pages use, and the subsequence functions that specify the loops. */
module Sequences {
  import opened Wrappers

  /** `Array.prototype.some`. */
  function Any<T>(s: seq<T>, p: T -> bool): (r: bool)
    ensures r <==> exists i :: 0 <= i < |s| && p(s[i])
  {
    if s == [] then false
    else if p(s[0]) then true
    else
      var r := Any(s[1..], p);
      assert (exists i :: 0 <= i < |s| && p(s[i])) ==> r by {
        if exists i :: 0 <= i < |s| && p(s[i]) {
          var i :| 0 <= i < |s| && p(s[i]);
          assert s[1..][i - 1] == s[i];
        }
      }
      r
  }

  /** `Array.prototype.every`. */
  function All<T>(s: seq<T>, p: T -> bool): (r: bool)
    ensures r <==> forall i :: 0 <= i < |s| ==> p(s[i])
  {
    if s == [] then true
    else if !p(s[0]) then false
    else
      var r := All(s[1..], p);
      assert r ==> forall i :: 0 <= i < |s| ==> p(s[i]) by {
        if r {
          forall i | 0 <= i < |s| ensures p(s[i]) {
            if i > 0 { assert s[1..][i - 1] == s[i]; }
          }
        }
      }
      r
  }

  /** `Array.prototype.findIndex`: the first index whose element satisfies `p`, or -1. */
  function FindIndex<T>(s: seq<T>, p: T -> bool): (r: int)
    ensures -1 <= r < |s|
    ensures r == -1 <==> forall i :: 0 <= i < |s| ==> !p(s[i])
    ensures r != -1 ==> p(s[r]) && forall j :: 0 <= j < r ==> !p(s[j])
  {
    if s == [] then -1
    else if p(s[0]) then 0
    else
      var k := FindIndex(s[1..], p);
      assert k == -1 ==> forall i :: 0 <= i < |s| ==> !p(s[i]) by {
        if k == -1 {
          forall i | 0 < i < |s| ensures !p(s[i]) { assert s[1..][i - 1] == s[i]; }
        }
      }
      assert k != -1 ==> forall j :: 0 < j < k + 1 ==> !p(s[j]) by {
        if k != -1 {
          forall j | 0 < j < k + 1 ensures !p(s[j]) { assert s[1..][j - 1] == s[j]; }
        }
      }
      if k == -1 then -1 else k + 1
  }

  predicate Distinct<T(==)>(s: seq<T>) {
    forall i, j :: 0 <= i < j < |s| ==> s[i] != s[j]
  }

  /** The elements of `s` in the order of their first occurrence, each once. */
  function Dedup<T(==)>(s: seq<T>): (r: seq<T>)
    ensures Distinct(r)
    ensures forall x | x in s :: x in r
    ensures forall x | x in r :: x in s
  {
    if s == [] then []
    else
      var d := Dedup(s[..|s| - 1]);
      assert s == s[..|s| - 1] + [s[|s| - 1]];
      if s[|s| - 1] in d then d else d + [s[|s| - 1]]
  }

  /** Deduplicating a sequence without repetitions leaves it unchanged. */
  lemma {:induction false} DedupOfDistinct<T>(s: seq<T>)
    requires Distinct(s)
    ensures Dedup(s) == s
  {
    if s != [] {
      var p := s[..|s| - 1];
      assert Distinct(p);
      DedupOfDistinct(p);
      assert s[|s| - 1] !in p;
      assert s == p + [s[|s| - 1]];
    }
  }

  /** Deduplicating one element more: it is appended exactly when it is new. */
  lemma DedupSnoc<T>(s: seq<T>, x: T)
    ensures Dedup(s + [x]) == if x in s then Dedup(s) else Dedup(s) + [x]
  {
    assert (s + [x])[..|s + [x]| - 1] == s;
  }

  /** A sequence without repetitions has as many elements as the set of its elements. */
  lemma {:induction false} DistinctCardinality<T>(s: seq<T>)
    requires Distinct(s)
    ensures |set x | x in s| == |s|
  {
    if s != [] {
      var p := s[..|s| - 1];
      assert Distinct(p);
      DistinctCardinality(p);
      assert s == p + [s[|s| - 1]];
      assert (set x | x in s) == (set x | x in p) + {s[|s| - 1]};
      assert s[|s| - 1] !in (set x | x in p);
    }
  }

  /** The keys of a list of key/value pairs, in order. */
  function Keys<V>(pairs: seq<(string, V)>): (r: seq<string>)
    ensures |r| == |pairs|
    ensures forall i :: 0 <= i < |pairs| ==> r[i] == pairs[i].0
  {
    seq(|pairs|, i requires 0 <= i < |pairs| => pairs[i].0)
  }

  /** The last position at which `k` is the key of `pairs`: the write that wins when the pairs are set in turn. */
  function LastKeyIndex<V>(pairs: seq<(string, V)>, k: string): (r: Option<nat>)
    ensures r.None? <==> k !in Keys(pairs)
    ensures r.Some? ==> r.value < |pairs| && pairs[r.value].0 == k
                        && forall j :: r.value < j < |pairs| ==> pairs[j].0 != k
  {
    if pairs == [] then None
    else if pairs[|pairs| - 1].0 == k then Some(|pairs| - 1)
    else
      var p := pairs[..|pairs| - 1];
      assert Keys(pairs) == Keys(p) + [pairs[|pairs| - 1].0];
      LastKeyIndex(p, k)
  }

  /** The keys that `key` assigns to `items`, in item order; items without a key contribute nothing. */
  function PresentKeys<T>(items: seq<T>, key: T -> Option<string>): (r: seq<string>)
    ensures forall k :: k in r <==> exists i :: 0 <= i < |items| && key(items[i]) == Some(k)
  {
    if items == [] then []
    else
      var p := items[..|items| - 1];
      var last := items[|items| - 1];
      var r := PresentKeys(p, key) + (if key(last).Some? then [key(last).value] else []);
      assert forall k :: (exists i :: 0 <= i < |items| && key(items[i]) == Some(k)) ==> k in r by {
        forall k | exists i :: 0 <= i < |items| && key(items[i]) == Some(k) ensures k in r {
          var i :| 0 <= i < |items| && key(items[i]) == Some(k);
          if i < |items| - 1 { assert p[i] == items[i]; }
        }
      }
      r
  }

  /** The items whose key is `k`, in item order: the subsequence `k`'s bucket must hold. */
  function Bucket<T(==)>(items: seq<T>, key: T -> Option<string>, k: string): (r: seq<T>)
    ensures forall x :: x in r ==> x in items && key(x) == Some(k)
    ensures forall x | x in items && key(x) == Some(k) :: multiset(r)[x] == multiset(items)[x]
  {
    if items == [] then []
    else
      var p := items[..|items| - 1];
      var last := items[|items| - 1];
      assert items == p + [last];
      Bucket(p, key, k) + (if key(last) == Some(k) then [last] else [])
  }

  /** A bucket holds items only for a key some item has. */
  lemma BucketKeyPresent<T>(items: seq<T>, key: T -> Option<string>, k: string)
    ensures Bucket(items, key, k) != [] ==> k in PresentKeys(items, key)
  {
    var b := Bucket(items, key, k);
    if b != [] {
      var x := b[0];
      assert x in items;
      var i :| 0 <= i < |items| && items[i] == x;
      assert key(items[i]) == Some(k);
    }
  }

  /** A prefix one element longer. */
  lemma PrefixSnoc<T>(s: seq<T>, i: nat)
    requires i < |s|
    ensures s[..i + 1] == s[..i] + [s[i]]
  {
  }

  /** The key list of one pair more. */
  lemma KeysSnoc<V>(pairs: seq<(string, V)>, p: (string, V))
    ensures Keys(pairs + [p]) == Keys(pairs) + [p.0]
  {
  }

  /** Setting one pair more: its key now wins, every other key keeps its last position. */
  lemma LastKeyIndexSnoc<V>(pairs: seq<(string, V)>, p: (string, V), k: string)
    ensures LastKeyIndex(pairs + [p], k) == if p.0 == k then Some(|pairs|) else LastKeyIndex(pairs, k)
  {
    assert (pairs + [p])[..|pairs|] == pairs;
  }

  /** The keys of one item more. */
  lemma PresentKeysSnoc<T>(items: seq<T>, x: T, key: T -> Option<string>)
    ensures PresentKeys(items + [x], key)
            == PresentKeys(items, key) + (if key(x).Some? then [key(x).value] else [])
  {
    assert (items + [x])[..|items|] == items;
  }

  /** The bucket of one item more. */
  lemma BucketSnoc<T>(items: seq<T>, x: T, key: T -> Option<string>, k: string)
    ensures Bucket(items + [x], key, k) == Bucket(items, key, k) + (if key(x) == Some(k) then [x] else [])
  {
    assert (items + [x])[..|items|] == items;
  }

  /** `Array.prototype.filter`: the elements that satisfy `p`, in order. */
  function Filter<T>(s: seq<T>, p: T -> bool): (r: seq<T>)
    ensures |r| <= |s|
    ensures forall x | x in r :: x in s && p(x)
    ensures forall x | x in s && p(x) :: multiset(r)[x] == multiset(s)[x]
  {
    if s == [] then []
    else
      assert s == [s[0]] + s[1..];
      (if p(s[0]) then [s[0]] else []) + Filter(s[1..], p)
  }

  /** Concatenation is associative. */
  lemma AppendIndexLeft<T>(a: seq<T>, b: seq<T>, j: nat)
    requires j < |a|
    ensures j < |a + b| && (a + b)[j] == a[j]
  {
  }

  lemma AppendIndexRight<T>(a: seq<T>, b: seq<T>, k: nat)
    requires k < |b|
    ensures |a| + k < |a + b| && (a + b)[|a| + k] == b[k]
  {
  }

  lemma AppendAssoc<T>(a: seq<T>, b: seq<T>, c: seq<T>)
    ensures a + (b + c) == (a + b) + c
  {
  }

  /** Two sequences of which one is empty can be swapped. */
  lemma SwapEmpty<T>(a: seq<T>, b: seq<T>, c: seq<T>)
    requires a == [] || b == []
    ensures a + (b + c) == b + (a + c)
  {
    if a == [] {
      assert a + (b + c) == b + c;
      assert a + c == c;
    } else {
      assert b + c == c;
      assert b + (a + c) == a + c;
    }
  }

  /** Filtering one element in front. */
  lemma FilterCons<T>(x: T, s: seq<T>, p: T -> bool)
    ensures Filter([x] + s, p) == (if p(x) then [x] else []) + Filter(s, p)
  {
    assert ([x] + s)[0] == x && ([x] + s)[1..] == s;
  }

  /** Filtering distributes over concatenation. */
  lemma {:induction false} FilterAppend<T>(a: seq<T>, b: seq<T>, p: T -> bool)
    ensures Filter(a + b, p) == Filter(a, p) + Filter(b, p)
  {
    if a == [] {
      assert a + b == b;
    } else {
      var h := if p(a[0]) then [a[0]] else [];
      assert a == [a[0]] + a[1..];
      assert a + b == [a[0]] + (a[1..] + b);
      FilterCons(a[0], a[1..] + b, p);
      FilterAppend(a[1..], b, p);
      FilterCons(a[0], a[1..], p);
      AppendAssoc(h, Filter(a[1..], p), Filter(b, p));
    }
  }

  /** Filtering keeps a sequence whose elements all pass. */
  lemma {:induction false} FilterAllPass<T>(s: seq<T>, p: T -> bool)
    requires forall i :: 0 <= i < |s| ==> p(s[i])
    ensures Filter(s, p) == s
  {
    if s != [] {
      FilterAllPass(s[1..], p);
    }
  }

  /** Filtering empties a sequence whose elements all fail. */
  lemma {:induction false} FilterNonePass<T>(s: seq<T>, p: T -> bool)
    requires forall i :: 0 <= i < |s| ==> !p(s[i])
    ensures Filter(s, p) == []
  {
    if s != [] {
      FilterNonePass(s[1..], p);
    }
  }

  /** Deduplicating a deduplicated prefix changes nothing. */
  lemma {:induction false} DedupAppend<T>(a: seq<T>, b: seq<T>)
    ensures Dedup(Dedup(a) + b) == Dedup(a + b)
  {
    if b == [] {
      assert Dedup(a) + b == Dedup(a) && a + b == a;
      DedupOfDistinct(Dedup(a));
    } else {
      var b' := b[..|b| - 1];
      var x := b[|b| - 1];
      DedupAppend(a, b');
      assert b == b' + [x];
      AppendAssoc(Dedup(a), b', [x]);
      AppendAssoc(a, b', [x]);
      DedupSnoc(Dedup(a) + b', x);
      DedupSnoc(a + b', x);
    }
  }

  /** How many elements of `s` satisfy `p`. */
  function CountIf<T>(s: seq<T>, p: T -> bool): nat {
    if s == [] then 0 else CountIf(s[..|s| - 1], p) + (if p(s[|s| - 1]) then 1 else 0)
  }

  /** The elements of one element more that satisfy `p`. */
  lemma SatisfyingSnoc<T>(q: seq<T>, x: T, p: T -> bool)
    ensures (set y | y in q + [x] && p(y)) == (set y | y in q && p(y)) + (if p(x) then {x} else {})
  {
  }

  /** Counting along a sequence without repetitions counts the set of elements that satisfy `p`. */
  lemma {:induction false} CountIfIsSetSize<T>(s: seq<T>, p: T -> bool)
    requires Distinct(s)
    ensures CountIf(s, p) == |set x | x in s && p(x)|
  {
    if s != [] {
      var q := s[..|s| - 1];
      var last := s[|s| - 1];
      assert Distinct(q);
      CountIfIsSetSize(q, p);
      assert s == q + [last];
      SatisfyingSnoc(q, last, p);
      assert last !in (set x | x in q && p(x));
    }
  }

  /** The elements of `S` that satisfy `p`. */
  ghost function SetIf<T>(S: set<T>, p: T -> bool): set<T> {
    set x | x in S && p(x)
  }

  /** The same count, taken over a set that holds exactly the elements of `s`. */
  lemma CountIfOverSet<T>(s: seq<T>, S: set<T>, p: T -> bool)
    requires Distinct(s)
    requires forall x | x in s :: x in S
    requires forall x | x in S :: x in s
    ensures CountIf(s, p) == |SetIf(S, p)|
  {
    CountIfIsSetSize(s, p);
    assert (set x | x in s && p(x)) == SetIf(S, p);
  }
}
