/** `DataFrame.groupby` on an integer key, as used to cut the articles into
    per-day chunks: the groups come in increasing key order and each keeps
    the input order of its members. */
module Grouping {
  import opened Common

  function KeyIs<T>(key: T -> int, d: int): T -> bool {
    (x: T) => key(x) == d
  }

  function KeyIsNot<T>(key: T -> int, d: int): T -> bool {
    (x: T) => key(x) != d
  }

  /** The smallest key in a non-empty sequence. */
  function LeastKey<T>(s: seq<T>, key: T -> int): (d: int)
    requires |s| > 0
    ensures exists i :: 0 <= i < |s| && key(s[i]) == d
    ensures forall i :: 0 <= i < |s| ==> d <= key(s[i])
  {
    if |s| == 1 then key(s[0])
    else
      var d' := LeastKey(s[1..], key);
      assert forall i :: 1 <= i < |s| ==> s[i] == s[1..][i - 1];
      if key(s[0]) <= d' then key(s[0]) else d'
  }

  /** The elements carrying the smallest key, in order. */
  function OnLeast<T(!new)>(s: seq<T>, key: T -> int): (first: seq<T>)
    requires |s| > 0
    ensures first != []
    ensures forall x :: x in first ==> x in s && key(x) == LeastKey(s, key)
    ensures forall x :: x in s && key(x) == LeastKey(s, key) ==> x in first
  {
    var d := LeastKey(s, key);
    var k :| 0 <= k < |s| && key(s[k]) == d;
    assert s[k] in Filter(s, KeyIs(key, d));
    Filter(s, KeyIs(key, d))
  }

  /** The elements carrying a larger key, in order. */
  function AfterLeast<T(!new)>(s: seq<T>, key: T -> int): (rest: seq<T>)
    requires |s| > 0
    ensures |rest| < |s|
    ensures forall x :: x in rest ==> x in s && key(x) > LeastKey(s, key)
    ensures forall x :: x in s && key(x) != LeastKey(s, key) ==> x in rest
  {
    var d := LeastKey(s, key);
    var k :| 0 <= k < |s| && key(s[k]) == d;
    FilterShrinks(s, KeyIsNot(key, d), k);
    Filter(s, KeyIsNot(key, d))
  }

  /** `[group for _, group in s.groupby(key)]`: the group of the smallest
      key, then the groups of the rest. */
  function GroupBy<T(!new)>(s: seq<T>, key: T -> int): seq<seq<T>>
    decreases |s|
  {
    if |s| == 0 then [] else [OnLeast(s, key)] + GroupBy(AfterLeast(s, key), key)
  }

  /** No group is empty, and every member of a group comes from the input and
      carries the group's key. */
  lemma {:induction false} GroupsShareKey<T(!new)>(s: seq<T>, key: T -> int)
    ensures forall i :: 0 <= i < |GroupBy(s, key)| ==> GroupBy(s, key)[i] != []
    ensures forall i, x :: 0 <= i < |GroupBy(s, key)| && x in GroupBy(s, key)[i] ==>
      x in s && key(x) == key(GroupBy(s, key)[i][0])
    decreases |s|
  {
    if |s| > 0 {
      var first := OnLeast(s, key);
      var rest := AfterLeast(s, key);
      GroupsShareKey(rest, key);
      var later := GroupBy(rest, key);
      var groups := GroupBy(s, key);
      assert groups == [first] + later;
      forall i, x | 0 <= i < |groups| && x in groups[i]
        ensures groups[i] != [] && x in s && key(x) == key(groups[i][0])
      {
        if i == 0 {
          assert first[0] in first;
        } else {
          assert groups[i] == later[i - 1];
        }
      }
      forall i | 0 <= i < |groups| ensures groups[i] != [] {
        if i > 0 {
          assert groups[i] == later[i - 1];
        }
      }
    }
  }

  /** The groups' keys strictly increase, so no key has two groups. */
  lemma {:induction false} GroupKeysIncrease<T(!new)>(s: seq<T>, key: T -> int)
    ensures forall i :: 0 <= i < |GroupBy(s, key)| ==> GroupBy(s, key)[i] != []
    ensures forall i, j :: 0 <= i < j < |GroupBy(s, key)| ==>
      key(GroupBy(s, key)[i][0]) < key(GroupBy(s, key)[j][0])
    decreases |s|
  {
    if |s| > 0 {
      var d := LeastKey(s, key);
      var first := OnLeast(s, key);
      var rest := AfterLeast(s, key);
      GroupKeysIncrease(rest, key);
      LaterGroupsAbove(rest, key, d);
      var later := GroupBy(rest, key);
      var groups := GroupBy(s, key);
      assert groups == [first] + later;
      assert first[0] in first;
      ConsKeysIncrease(first, later, key, d);
    }
  }

  /** Putting a group with a smaller key in front keeps the keys increasing. */
  lemma ConsKeysIncrease<T>(first: seq<T>, later: seq<seq<T>>, key: T -> int, d: int)
    requires first != [] && key(first[0]) == d
    requires forall j :: 0 <= j < |later| ==> later[j] != [] && key(later[j][0]) > d
    requires forall i, j :: 0 <= i < j < |later| ==> key(later[i][0]) < key(later[j][0])
    ensures forall i :: 0 <= i < |[first] + later| ==> ([first] + later)[i] != []
    ensures forall i, j :: 0 <= i < j < |[first] + later| ==>
      key(([first] + later)[i][0]) < key(([first] + later)[j][0])
  {
    var groups := [first] + later;
    forall i, j | 0 <= i < j < |groups| ensures key(groups[i][0]) < key(groups[j][0]) {
      assert groups[j] == later[j - 1];
      if i > 0 {
        assert groups[i] == later[i - 1];
      }
    }
  }

  /** When every element's key exceeds `d`, so does every group's. */
  lemma LaterGroupsAbove<T(!new)>(rest: seq<T>, key: T -> int, d: int)
    requires forall x :: x in rest ==> key(x) > d
    ensures forall j :: 0 <= j < |GroupBy(rest, key)| ==>
      GroupBy(rest, key)[j] != [] && key(GroupBy(rest, key)[j][0]) > d
  {
    var later := GroupBy(rest, key);
    GroupsShareKey(rest, key);
    forall j | 0 <= j < |later| ensures later[j] != [] && key(later[j][0]) > d {
      assert later[j][0] in later[j];
    }
  }

  /** The groups read one after the other. */
  function Flatten<T>(groups: seq<seq<T>>): seq<T> {
    if |groups| == 0 then [] else groups[0] + Flatten(groups[1..])
  }

  lemma FlattenCons<T>(group: seq<T>, groups: seq<seq<T>>)
    ensures Flatten([group] + groups) == group + Flatten(groups)
  {
    assert ([group] + groups)[1..] == groups;
  }

  /** Groups that are a leading run followed by groups reading back the
      rest read back the whole. */
  lemma {:induction false} FlattenSnoc<T>(groups: seq<seq<T>>, group: seq<T>)
    ensures Flatten(groups + [group]) == Flatten(groups) + group
    decreases |groups|
  {
    if |groups| == 0 {
      assert [group][1..] == [];
    } else {
      assert (groups + [group])[1..] == groups[1..] + [group];
      FlattenSnoc(groups[1..], group);
    }
  }

  lemma FlattenAfterRun<T>(s: seq<T>, n: nat, groups: seq<seq<T>>, rest: seq<seq<T>>)
    requires n <= |s| && groups == [s[..n]] + rest && Flatten(rest) == s[n..]
    ensures Flatten(groups) == s
  {
    FlattenCons(s[..n], rest);
    assert s == s[..n] + s[n..];
  }

  lemma {:induction false} KeyPartition<T(!new)>(s: seq<T>, key: T -> int, d: int)
    ensures multiset(s) == multiset(Filter(s, KeyIs(key, d))) + multiset(Filter(s, KeyIsNot(key, d)))
    decreases |s|
  {
    if |s| > 0 {
      var s', x := s[..|s| - 1], s[|s| - 1];
      assert s == s' + [x];
      KeyPartition(s', key, d);
      FilterSnoc(s', x, KeyIs(key, d));
      FilterSnoc(s', x, KeyIsNot(key, d));
    }
  }

  /** Grouping only rearranges: every element lands in exactly one group. */
  lemma {:induction false} GroupingIsPermutation<T(!new)>(s: seq<T>, key: T -> int)
    ensures multiset(Flatten(GroupBy(s, key))) == multiset(s)
    decreases |s|
  {
    if |s| > 0 {
      var rest := AfterLeast(s, key);
      GroupingIsPermutation(rest, key);
      KeyPartition(s, key, LeastKey(s, key));
      assert GroupBy(s, key)[1..] == GroupBy(rest, key);
    }
  }

  ghost predicate SortedBy<T>(s: seq<T>, key: T -> int) {
    forall i, j :: 0 <= i < j < |s| ==> key(s[i]) <= key(s[j])
  }

  /** The number of leading elements whose key is `d`. */
  function LeadingOn<T>(s: seq<T>, key: T -> int, d: int): (k: nat)
    ensures k <= |s|
    ensures forall i :: 0 <= i < k ==> key(s[i]) == d
    ensures k < |s| ==> key(s[k]) != d
  {
    if |s| == 0 || key(s[0]) != d then 0 else 1 + LeadingOn(s[1..], key, d)
  }

  /** When exactly the first `n` elements carry key `d`, the filter on `d`
      keeps the first `n` elements and the filter on any other key keeps the
      rest. */
  lemma {:induction false} RunKeepsFront<T(!new)>(s: seq<T>, key: T -> int, d: int, n: nat)
    requires n <= |s|
    requires forall i :: 0 <= i < n ==> key(s[i]) == d
    requires forall i :: n <= i < |s| ==> key(s[i]) != d
    ensures Filter(s, KeyIs(key, d)) == s[..n]
    decreases |s|
  {
    if n == |s| {
      FilterKeepsAll(s, KeyIs(key, d));
    } else {
      var s' := s[..|s| - 1];
      RunKeepsFront(s', key, d, n);
      assert s'[..n] == s[..n];
    }
  }
  lemma {:induction false} RunDropsFront<T(!new)>(s: seq<T>, key: T -> int, d: int, n: nat)
    requires n <= |s|
    requires forall i :: 0 <= i < n ==> key(s[i]) == d
    requires forall i :: n <= i < |s| ==> key(s[i]) != d
    ensures Filter(s, KeyIsNot(key, d)) == s[n..]
    decreases |s|
  {
    if n == |s| {
      FilterKeepsNone(s, KeyIsNot(key, d));
    } else {
      var s' := s[..|s| - 1];
      RunDropsFront(s', key, d, n);
      var x := s[|s| - 1];
      assert s == s' + [x];
      assert s[n..] == s'[n..] + [x];
    }
  }

  /** On sorted input the smallest key's group is the leading run. */
  lemma LeastOfSorted<T>(s: seq<T>, key: T -> int)
    requires |s| > 0 && SortedBy(s, key)
    ensures LeastKey(s, key) == key(s[0])
  {
    var k :| 0 <= k < |s| && key(s[k]) == LeastKey(s, key);
    if k > 0 {
      assert key(s[0]) <= key(s[k]);
    }
  }

  /** In sorted input the run of the first key ends for good. */
  lemma SortedRunEnds<T>(s: seq<T>, key: T -> int, n: nat)
    requires |s| > 0 && SortedBy(s, key)
    requires n <= |s| && (n < |s| ==> key(s[n]) != key(s[0]))
    ensures forall i :: n <= i < |s| ==> key(s[i]) != key(s[0])
  {
    forall i | n <= i < |s| ensures key(s[i]) != key(s[0]) {
      assert key(s[0]) <= key(s[n]) <= key(s[i]);
    }
  }

  lemma SortedSplit<T(!new)>(s: seq<T>, key: T -> int)
    requires |s| > 0 && SortedBy(s, key)
    ensures OnLeast(s, key) == s[..LeadingOn(s, key, LeastKey(s, key))]
    ensures AfterLeast(s, key) == s[LeadingOn(s, key, LeastKey(s, key))..]
  {
    LeastOfSorted(s, key);
    var d := key(s[0]);
    var n := LeadingOn(s, key, d);
    SortedRunEnds(s, key, n);
    RunKeepsFront(s, key, d, n);
    RunDropsFront(s, key, d, n);
  }

  lemma SortedSuffix<T>(s: seq<T>, key: T -> int, n: nat)
    requires n <= |s| && SortedBy(s, key)
    ensures SortedBy(s[n..], key)
  {
    var back := s[n..];
    forall i, j | 0 <= i < j < |back| ensures key(back[i]) <= key(back[j]) {
      assert back[i] == s[n + i] && back[j] == s[n + j];
    }
  }

  /** On sorted input the first group is the leading run of the smallest
      key, and the other groups are those of what follows it. */
  lemma SortedGroupsStep<T(!new)>(s: seq<T>, key: T -> int)
    requires |s| > 0 && SortedBy(s, key)
    ensures GroupBy(s, key) ==
      [s[..LeadingOn(s, key, LeastKey(s, key))]] + GroupBy(s[LeadingOn(s, key, LeastKey(s, key))..], key)
  {
    SortedSplit(s, key);
  }

  /** On input already sorted by key, the groups read one after the other
      give back exactly the input. */
  lemma {:induction false} SortedInputIsNotReordered<T(!new)>(s: seq<T>, key: T -> int)
    requires SortedBy(s, key)
    ensures Flatten(GroupBy(s, key)) == s
    decreases |s|
  {
    if |s| > 0 {
      var n := LeadingOn(s, key, LeastKey(s, key));
      var front, back := s[..n], s[n..];
      SortedGroupsStep(s, key);
      SortedSuffix(s, key, n);
      SortedInputIsNotReordered(back, key);
      FlattenAfterRun(s, n, GroupBy(s, key), GroupBy(back, key));
    }
  }

  // ------------------------------------------------------------ stable sort

  /** `list.sort(key=key)`: Python's sort is stable, so it is the groups of
      equal keys, in increasing key order, read one after the other. */
  function StableSortBy<T(!new)>(s: seq<T>, key: T -> int): seq<T> {
    Flatten(GroupBy(s, key))
  }

  /** Keeping the elements of a subset of what `p` keeps: filtering twice is
      filtering once with the narrower test. */
  lemma {:induction false} FilterNarrows<T(!new)>(s: seq<T>, p: T -> bool, q: T -> bool)
    requires forall x :: q(x) ==> p(x)
    ensures Filter(Filter(s, p), q) == Filter(s, q)
    decreases |s|
  {
    if |s| > 0 {
      var s' := s[..|s| - 1];
      var x := s[|s| - 1];
      FilterNarrows(s', p, q);
      if p(x) {
        assert Filter(s, p) == Filter(s', p) + [x];
        FilterConcat(Filter(s', p), [x], q);
        FilterSingleton(x, q);
      } else {
        assert Filter(s, p) == Filter(s', p);
      }
    }
  }

  lemma SortedConcat<T>(a: seq<T>, b: seq<T>, key: T -> int)
    requires SortedBy(a, key) && SortedBy(b, key)
    requires forall i, j :: 0 <= i < |a| && 0 <= j < |b| ==> key(a[i]) <= key(b[j])
    ensures SortedBy(a + b, key)
  {
  }

  /** The sort's output is ordered by key. */
  lemma {:induction false} StableSortIsSorted<T(!new)>(s: seq<T>, key: T -> int)
    ensures SortedBy(StableSortBy(s, key), key)
    decreases |s|
  {
    if |s| > 0 {
      var first := OnLeast(s, key);
      var rest := AfterLeast(s, key);
      var tail := StableSortBy(rest, key);
      StableSortIsSorted(rest, key);
      GroupingIsPermutation(rest, key);
      assert GroupBy(s, key)[0] == first && GroupBy(s, key)[1..] == GroupBy(rest, key);
      forall i, j | 0 <= i < |first| && 0 <= j < |tail| ensures key(first[i]) <= key(tail[j]) {
        assert first[i] in first;
        assert tail[j] in multiset(rest);
      }
      forall i, j | 0 <= i < j < |first| ensures key(first[i]) <= key(first[j]) {
        assert first[i] in first && first[j] in first;
      }
      SortedConcat(first, tail, key);
    }
  }

  /** The smallest key's group holds all the elements of that key, and none
      of any other. */
  lemma FilterOnLeast<T(!new)>(s: seq<T>, key: T -> int, d: int)
    requires |s| > 0
    ensures Filter(OnLeast(s, key), KeyIs(key, d)) ==
      if d == LeastKey(s, key) then Filter(s, KeyIs(key, d)) else []
  {
    var least := LeastKey(s, key);
    var first := OnLeast(s, key);
    assert first == Filter(s, KeyIs(key, least));
    if d == least {
      FilterNarrows(s, KeyIs(key, least), KeyIs(key, d));
    } else {
      forall i | 0 <= i < |first| ensures !KeyIs(key, d)(first[i]) {
        assert first[i] in first;
      }
      FilterKeepsNone(first, KeyIs(key, d));
    }
  }

  /** The rest holds all the elements of any larger key, and none of the
      smallest. */
  lemma FilterAfterLeast<T(!new)>(s: seq<T>, key: T -> int, d: int)
    requires |s| > 0
    ensures Filter(AfterLeast(s, key), KeyIs(key, d)) ==
      if d == LeastKey(s, key) then [] else Filter(s, KeyIs(key, d))
  {
    var least := LeastKey(s, key);
    var rest := AfterLeast(s, key);
    assert rest == Filter(s, KeyIsNot(key, least));
    if d == least {
      forall i | 0 <= i < |rest| ensures !KeyIs(key, d)(rest[i]) {
        assert rest[i] in rest;
      }
      FilterKeepsNone(rest, KeyIs(key, d));
    } else {
      FilterNarrows(s, KeyIsNot(key, least), KeyIs(key, d));
    }
  }

  /** The sort is stable: the elements sharing any one key come out in their
      input order. */
  lemma {:induction false} StableSortIsStable<T(!new)>(s: seq<T>, key: T -> int, d: int)
    ensures Filter(StableSortBy(s, key), KeyIs(key, d)) == Filter(s, KeyIs(key, d))
    decreases |s|
  {
    if |s| > 0 {
      var first := OnLeast(s, key);
      var rest := AfterLeast(s, key);
      StableSortIsStable(rest, key, d);
      assert GroupBy(s, key)[0] == first && GroupBy(s, key)[1..] == GroupBy(rest, key);
      FilterConcat(first, StableSortBy(rest, key), KeyIs(key, d));
      FilterOnLeast(s, key, d);
      FilterAfterLeast(s, key, d);
    }
  }
}
