/** Vocabulary shared by every stage of the news pipeline model: optional
    values and results standing for Python's `None` and exceptions, the
    aggregator URL prefix, and the order-preserving sequence operations the
    stages are built from (filtering, keep-first de-duplication, zipping keys
    with values into a dictionary). */
module Common {

  /** A value or Python's `None`. */
  datatype Option<+T> = None | Some(value: T)

  /** A value, or the exception raised instead of it. */
  datatype Result<+R, +E> = Ok(value: R) | Err(error: E)

  type Url = string

  /** Links of the news aggregator keep this prefix until their redirect completes. */
  const AggregatorPrefix: string := "https://news.google.com"

  /** Python's `str.startswith`. */
  predicate StartsWith(s: string, prefix: string) {
    |prefix| <= |s| && s[..|prefix|] == prefix
  }

  predicate IsAggregator(u: Url) {
    StartsWith(u, AggregatorPrefix)
  }

  /** `[f(x) for x in s]`. */
  function MapSeq<T, U>(s: seq<T>, f: T -> U): (r: seq<U>)
    ensures |r| == |s|
    ensures forall i :: 0 <= i < |s| ==> r[i] == f(s[i])
  {
    seq(|s|, i requires 0 <= i < |s| => f(s[i]))
  }

  lemma MapSeqSnoc<T, U>(s: seq<T>, x: T, f: T -> U)
    ensures MapSeq(s + [x], f) == MapSeq(s, f) + [f(x)]
  {
  }

  /** `[x for x in s if p(x)]`: the elements satisfying `p`, in their original order. */
  function Filter<T(!new)>(s: seq<T>, p: T -> bool): (r: seq<T>)
    ensures |r| <= |s|
    ensures forall x :: x in r ==> x in s && p(x)
    ensures forall x :: x in s && p(x) ==> x in r
  {
    if |s| == 0 then []
    else
      var last := s[|s| - 1];
      assert s == s[..|s| - 1] + [last];
      Filter(s[..|s| - 1], p) + (if p(last) then [last] else [])
  }

  /** `a` can be obtained from `b` by deleting elements: same order, nothing new. */
  ghost predicate IsSubsequence<T>(a: seq<T>, b: seq<T>)
    decreases |b|
  {
    if |a| == 0 then true
    else if |b| == 0 then false
    else
      (a[|a| - 1] == b[|b| - 1] && IsSubsequence(a[..|a| - 1], b[..|b| - 1]))
      || IsSubsequence(a, b[..|b| - 1])
  }

  lemma {:induction false} FilterConcat<T(!new)>(a: seq<T>, b: seq<T>, p: T -> bool)
    ensures Filter(a + b, p) == Filter(a, p) + Filter(b, p)
    decreases |b|
  {
    if |b| == 0 {
      assert a + b == a;
    } else {
      var last := b[|b| - 1];
      var b' := b[..|b| - 1];
      assert (a + b)[..|a + b| - 1] == a + b';
      FilterConcat(a, b', p);
    }
  }

  /** Filtering keeps every copy of an element it accepts and no copy of one
      it rejects. */
  lemma {:induction false} FilterCounts<T(!new)>(s: seq<T>, p: T -> bool)
    ensures forall x :: multiset(Filter(s, p))[x] == if p(x) then multiset(s)[x] else 0
    decreases |s|
  {
    if |s| > 0 {
      var s', last := s[..|s| - 1], s[|s| - 1];
      FilterCounts(s', p);
      assert s == s' + [last];
      assert multiset(s) == multiset(s') + multiset{last};
      assert multiset(Filter(s, p)) == multiset(Filter(s', p)) + multiset(if p(last) then [last] else []);
    }
  }

  lemma FilterPrefixStep<T(!new)>(s: seq<T>, i: int, p: T -> bool)
    requires 0 <= i < |s|
    ensures Filter(s[..i + 1], p) == Filter(s[..i], p) + (if p(s[i]) then [s[i]] else [])
  {
    assert s[..i + 1][..i] == s[..i];
  }

  lemma FilterSnoc<T(!new)>(s: seq<T>, x: T, p: T -> bool)
    ensures Filter(s + [x], p) == Filter(s, p) + (if p(x) then [x] else [])
  {
    assert (s + [x])[..|s|] == s;
  }

  lemma FilterSingleton<T(!new)>(x: T, p: T -> bool)
    ensures Filter([x], p) == if p(x) then [x] else []
  {
    assert [x][..0] == [];
  }

  lemma {:induction false} FilterKeepsAll<T(!new)>(s: seq<T>, p: T -> bool)
    requires forall i :: 0 <= i < |s| ==> p(s[i])
    ensures Filter(s, p) == s
    decreases |s|
  {
    if |s| > 0 {
      var s', x := s[..|s| - 1], s[|s| - 1];
      assert s == s' + [x];
      FilterKeepsAll(s', p);
      FilterSnoc(s', x, p);
    }
  }

  lemma {:induction false} FilterKeepsNone<T(!new)>(s: seq<T>, p: T -> bool)
    requires forall i :: 0 <= i < |s| ==> !p(s[i])
    ensures Filter(s, p) == []
    decreases |s|
  {
    if |s| > 0 {
      FilterKeepsNone(s[..|s| - 1], p);
    }
  }

  /** An element failing the test makes the filtered sequence strictly shorter. */
  lemma {:induction false} FilterShrinks<T(!new)>(s: seq<T>, p: T -> bool, k: int)
    requires 0 <= k < |s| && !p(s[k])
    ensures |Filter(s, p)| < |s|
    decreases |s|
  {
    if k < |s| - 1 {
      FilterShrinks(s[..|s| - 1], p, k);
    }
  }

  /** Filtering only deletes: the result is a subsequence of its input. */
  lemma {:induction false} FilterIsSubsequence<T(!new)>(s: seq<T>, p: T -> bool)
    ensures IsSubsequence(Filter(s, p), s)
    decreases |s|
  {
    if |s| > 0 {
      var s' := s[..|s| - 1];
      FilterIsSubsequence(s', p);
      var f' := Filter(s', p);
      if p(s[|s| - 1]) {
        var f := Filter(s, p);
        assert f == f' + [s[|s| - 1]];
        assert f[..|f| - 1] == f';
      } else {
        assert Filter(s, p) == f';
        SubsequenceOfPrefix(f', s);
      }
    }
  }

  /** Dropping one element at the end of `b` keeps every subsequence of its prefix a subsequence. */
  lemma SubsequenceOfPrefix<T>(a: seq<T>, b: seq<T>)
    requires |b| > 0
    requires IsSubsequence(a, b[..|b| - 1])
    ensures IsSubsequence(a, b)
  {
  }

  /** Appending the same element to both sides keeps a subsequence a subsequence. */
  lemma SubsequenceSnoc<T>(a: seq<T>, b: seq<T>, x: T)
    requires IsSubsequence(a, b)
    ensures IsSubsequence(a + [x], b + [x])
  {
    assert (a + [x])[..|a|] == a;
    assert (b + [x])[..|b|] == b;
  }

  lemma {:induction false} SubsequenceTransitive<T>(a: seq<T>, b: seq<T>, c: seq<T>)
    requires IsSubsequence(a, b) && IsSubsequence(b, c)
    ensures IsSubsequence(a, c)
    decreases |c|
  {
    if |a| > 0 && |c| > 0 {
      var c' := c[..|c| - 1];
      if |b| > 0 && b[|b| - 1] == c[|c| - 1] && IsSubsequence(b[..|b| - 1], c') {
        if a[|a| - 1] == b[|b| - 1] && IsSubsequence(a[..|a| - 1], b[..|b| - 1]) {
          SubsequenceTransitive(a[..|a| - 1], b[..|b| - 1], c');
        } else {
          SubsequenceTransitive(a, b[..|b| - 1], c');
        }
      } else {
        SubsequenceTransitive(a, b, c');
      }
    }
  }

  /** Mapping keeps the order of a subsequence. */
  lemma {:induction false} MapSeqKeepsSubsequence<T, U>(a: seq<T>, b: seq<T>, f: T -> U)
    requires IsSubsequence(a, b)
    ensures IsSubsequence(MapSeq(a, f), MapSeq(b, f))
    decreases |b|
  {
    if |a| > 0 {
      var a', b' := a[..|a| - 1], b[..|b| - 1];
      assert MapSeq(a, f)[..|a| - 1] == MapSeq(a', f);
      assert MapSeq(b, f)[..|b| - 1] == MapSeq(b', f);
      if a[|a| - 1] == b[|b| - 1] && IsSubsequence(a', b') {
        MapSeqKeepsSubsequence(a', b', f);
      } else {
        MapSeqKeepsSubsequence(a, b', f);
      }
    }
  }

  /** Every element of a subsequence occurs in the sequence it was taken from. */
  lemma {:induction false} SubsequenceElements<T>(a: seq<T>, b: seq<T>)
    requires IsSubsequence(a, b)
    ensures |a| <= |b|
    ensures forall x :: x in a ==> x in b
    decreases |b|
  {
    if |a| > 0 {
      var b' := b[..|b| - 1];
      if a[|a| - 1] == b[|b| - 1] && IsSubsequence(a[..|a| - 1], b') {
        SubsequenceElements(a[..|a| - 1], b');
        assert a == a[..|a| - 1] + [a[|a| - 1]];
        assert b == b' + [b[|b| - 1]];
      } else {
        SubsequenceElements(a, b');
        assert b == b' + [b[|b| - 1]];
      }
    }
  }

  /** The keys a sequence carries. */
  function KeysOf<T(==), K>(s: seq<T>, key: T -> K): set<K> {
    set x | x in s :: key(x)
  }

  lemma KeysOfSnoc<T, K>(s: seq<T>, x: T, key: T -> K)
    ensures KeysOf(s + [x], key) == KeysOf(s, key) + {key(x)}
  {
    assert forall y :: y in s + [x] <==> y in s || y == x;
  }

  /** A sequence with pairwise distinct keys has as many keys as elements. */
  lemma {:induction false} DistinctKeysCount<T, K>(s: seq<T>, key: T -> K)
    requires forall i, j :: 0 <= i < j < |s| ==> key(s[i]) != key(s[j])
    ensures |KeysOf(s, key)| == |s|
    decreases |s|
  {
    if |s| > 0 {
      var s', x := s[..|s| - 1], s[|s| - 1];
      assert s == s' + [x];
      DistinctKeysCount(s', key);
      KeysOfSnoc(s', x, key);
      forall y | y in s' ensures key(y) != key(x) {
        var i :| 0 <= i < |s'| && s'[i] == y;
        assert s[i] == y;
      }
    }
  }

  /** Position `i` holds the first element of `s` with its key. */
  ghost predicate IsFirstOfKey<T, K>(s: seq<T>, key: T -> K, i: int)
    requires 0 <= i < |s|
  {
    forall k :: 0 <= k < i ==> key(s[k]) != key(s[i])
  }

  /** `r` keeps one element of each key of `s`, in the order of `s`. */
  ghost predicate Dedups<T, K>(r: seq<T>, s: seq<T>, key: T -> K) {
    KeysOf(r, key) == KeysOf(s, key) &&
    (forall i, j :: 0 <= i < j < |r| ==> key(r[i]) != key(r[j])) &&
    IsSubsequence(r, s)
  }

  /** Keep-first de-duplication on a key (`drop_duplicates(subset=…)` and the
      dashboard's seen-set loops): every key survives once, order is kept. */
  function DropDuplicatesBy<T(==), K(==)>(s: seq<T>, key: T -> K): (r: seq<T>)
    ensures KeysOf(r, key) == KeysOf(s, key)
    ensures forall i, j :: 0 <= i < j < |r| ==> key(r[i]) != key(r[j])
    ensures IsSubsequence(r, s)
  {
    if |s| == 0 then []
    else
      var s' := s[..|s| - 1];
      var x := s[|s| - 1];
      assert s == s' + [x];
      var r' := DropDuplicatesBy(s', key);
      assert Dedups(r', s', key);
      if key(x) in KeysOf(r', key) then
        DedupsSkip(r', s', x, key);
        r'
      else
        DedupsKeep(r', s', x, key);
        r' + [x]
  }

  /** An element whose key was already seen is dropped. */
  lemma DedupsSkip<T, K>(r: seq<T>, s: seq<T>, x: T, key: T -> K)
    requires Dedups(r, s, key) && key(x) in KeysOf(r, key)
    ensures Dedups(r, s + [x], key)
  {
    KeysOfSnoc(s, x, key);
    assert (s + [x])[..|s|] == s;
    SubsequenceOfPrefix(r, s + [x]);
  }

  /** An element with a new key is kept. */
  lemma DedupsKeep<T, K>(r: seq<T>, s: seq<T>, x: T, key: T -> K)
    requires Dedups(r, s, key) && key(x) !in KeysOf(r, key)
    ensures Dedups(r + [x], s + [x], key)
  {
    KeysOfSnoc(s, x, key);
    UniqueKeysSnoc(r, x, key);
    SubsequenceSnoc(r, s, x);
  }

  /** Appending an element with a new key keeps the keys distinct. */
  lemma UniqueKeysSnoc<T, K>(r: seq<T>, x: T, key: T -> K)
    requires forall i, j :: 0 <= i < j < |r| ==> key(r[i]) != key(r[j])
    requires key(x) !in KeysOf(r, key)
    ensures forall i, j :: 0 <= i < j < |r + [x]| ==> key((r + [x])[i]) != key((r + [x])[j])
    ensures KeysOf(r + [x], key) == KeysOf(r, key) + {key(x)}
  {
    KeysOfSnoc(r, x, key);
    forall i | 0 <= i < |r| ensures key(r[i]) != key(x) {
      assert r[i] in r;
    }
  }

  lemma DropDuplicatesSnoc<T, K>(s: seq<T>, x: T, key: T -> K)
    ensures DropDuplicatesBy(s + [x], key) ==
      if key(x) in KeysOf(s, key) then DropDuplicatesBy(s, key) else DropDuplicatesBy(s, key) + [x]
  {
    assert (s + [x])[..|s|] == s;
  }

  /** Of two elements sharing a key only the first survives. */
  lemma DropDuplicatesOfPair<T, K>(a: T, b: T, key: T -> K)
    requires key(a) == key(b)
    ensures DropDuplicatesBy([a, b], key) == [a]
  {
    assert [a, b][..1] == [a];
    assert [a][..0] == [];
    assert KeysOf([a], key) == {key(a)};
  }

  /** The survivors of de-duplication are exactly the first occurrences of each key. */
  lemma {:induction false} DropDuplicatesKeepsFirst<T, K>(s: seq<T>, key: T -> K)
    ensures forall x :: x in DropDuplicatesBy(s, key) <==>
      exists i :: 0 <= i < |s| && s[i] == x && IsFirstOfKey(s, key, i)
    decreases |s|
  {
    if |s| > 0 {
      var s', x := s[..|s| - 1], s[|s| - 1];
      assert s == s' + [x];
      DropDuplicatesKeepsFirst(s', key);
      DropDuplicatesSnoc(s', x, key);
      if key(x) in KeysOf(s', key) {
        KeepsFirstSkip(s', x, key);
      } else {
        KeepsFirstKeep(s', x, key);
      }
    }
  }

  /** Appending an element leaves the first-occurrence status of earlier positions alone. */
  lemma FirstOfKeySnoc<T, K>(s: seq<T>, x: T, key: T -> K)
    ensures forall i :: 0 <= i < |s| ==> (IsFirstOfKey(s + [x], key, i) <==> IsFirstOfKey(s, key, i))
  {
    assert forall i :: 0 <= i < |s| ==> (s + [x])[i] == s[i];
  }

  /** An appended element whose key was already seen is not a first occurrence. */
  lemma KeepsFirstSkip<T, K>(s: seq<T>, x: T, key: T -> K)
    requires key(x) in KeysOf(s, key)
    requires forall z :: z in DropDuplicatesBy(s, key) <==>
      exists i :: 0 <= i < |s| && s[i] == z && IsFirstOfKey(s, key, i)
    ensures forall z :: z in DropDuplicatesBy(s, key) <==>
      exists i :: 0 <= i < |s + [x]| && (s + [x])[i] == z && IsFirstOfKey(s + [x], key, i)
  {
    var t := s + [x];
    FirstOfKeySnoc(s, x, key);
    var y :| y in s && key(y) == key(x);
    var k :| 0 <= k < |s| && s[k] == y;
    assert t[k] == y;
    assert !IsFirstOfKey(t, key, |s|);
    forall z ensures z in DropDuplicatesBy(s, key) <==>
      exists i :: 0 <= i < |t| && t[i] == z && IsFirstOfKey(t, key, i)
    {
      if z in DropDuplicatesBy(s, key) {
        var i :| 0 <= i < |s| && s[i] == z && IsFirstOfKey(s, key, i);
        assert t[i] == z;
      }
      if exists i :: 0 <= i < |t| && t[i] == z && IsFirstOfKey(t, key, i) {
        var i :| 0 <= i < |t| && t[i] == z && IsFirstOfKey(t, key, i);
        assert i < |s| && s[i] == z;
      }
    }
  }

  /** An appended element with a new key is a first occurrence. */
  lemma KeepsFirstKeep<T, K>(s: seq<T>, x: T, key: T -> K)
    requires key(x) !in KeysOf(s, key)
    requires forall z :: z in DropDuplicatesBy(s, key) <==>
      exists i :: 0 <= i < |s| && s[i] == z && IsFirstOfKey(s, key, i)
    ensures forall z :: z in DropDuplicatesBy(s, key) + [x] <==>
      exists i :: 0 <= i < |s + [x]| && (s + [x])[i] == z && IsFirstOfKey(s + [x], key, i)
  {
    var t := s + [x];
    FirstOfKeySnoc(s, x, key);
    forall k | 0 <= k < |s| ensures key(t[k]) != key(x) {
      assert t[k] == s[k] && s[k] in s;
    }
    assert IsFirstOfKey(t, key, |s|);
    forall z ensures z in DropDuplicatesBy(s, key) + [x] <==>
      exists i :: 0 <= i < |t| && t[i] == z && IsFirstOfKey(t, key, i)
    {
      if z in DropDuplicatesBy(s, key) {
        var i :| 0 <= i < |s| && s[i] == z && IsFirstOfKey(s, key, i);
        assert t[i] == z;
      }
      if exists i :: 0 <= i < |t| && t[i] == z && IsFirstOfKey(t, key, i) {
        var i :| 0 <= i < |t| && t[i] == z && IsFirstOfKey(t, key, i);
        if i < |s| {
          assert s[i] == z;
        }
      }
    }
  }

  /** `m` is what `dict(zip(keys, values))` builds: exactly the keys, each
      mapped to a value paired with it, the last pairing winning. */
  ghost predicate ZipsTo<K, V>(keys: seq<K>, values: seq<V>, m: map<K, V>)
    requires |keys| == |values|
  {
    m.Keys == (set k | k in keys) &&
    (forall k :: k in m ==> exists i :: 0 <= i < |keys| && keys[i] == k && m[k] == values[i]) &&
    (forall i :: 0 <= i < |keys| && (forall j :: i < j < |keys| ==> keys[j] != keys[i]) ==> m[keys[i]] == values[i])
  }

  /** Adding the last pair to the dictionary of the others. */
  lemma ZipStep<K, V>(keys: seq<K>, values: seq<V>, m': map<K, V>)
    requires |keys| == |values| > 0
    requires ZipsTo(keys[..|keys| - 1], values[..|keys| - 1], m')
    ensures ZipsTo(keys, values, m'[keys[|keys| - 1] := values[|keys| - 1]])
  {
    var n := |keys| - 1;
    var m := m'[keys[n] := values[n]];
    assert keys == keys[..n] + [keys[n]];
    forall k | k in m ensures exists i :: 0 <= i < |keys| && keys[i] == k && m[k] == values[i] {
      if k != keys[n] {
        var i :| 0 <= i < n && keys[..n][i] == k && m'[k] == values[..n][i];
        assert keys[i] == k && m[k] == values[i];
      }
    }
    forall i | 0 <= i < |keys| && (forall j :: i < j < |keys| ==> keys[j] != keys[i]) ensures m[keys[i]] == values[i] {
      if i < n {
        assert forall j :: i < j < n ==> keys[..n][j] != keys[..n][i];
        assert keys[..n][i] == keys[i];
      }
    }
  }

  /** `dict(zip(keys, values))`: later pairs overwrite earlier ones with the same key. */
  function ZipToMap<K, V>(keys: seq<K>, values: seq<V>): (m: map<K, V>)
    requires |keys| == |values|
    ensures m.Keys == set k | k in keys
    ensures forall k :: k in m ==> exists i :: 0 <= i < |keys| && keys[i] == k && m[k] == values[i]
    ensures forall i :: 0 <= i < |keys| && (forall j :: i < j < |keys| ==> keys[j] != keys[i]) ==>
      m[keys[i]] == values[i]
  {
    if |keys| == 0 then map[]
    else
      var n := |keys| - 1;
      var m' := ZipToMap(keys[..n], values[..n]);
      ZipStep(keys, values, m');
      m'[keys[n] := values[n]]
  }
}
