/** The stable sort that the standard library's `sort_by` provides. */
module Sorting {

  ghost predicate TotalPreorder<T(!new)>(le: (T, T) -> bool) {
    && (forall x, y :: le(x, y) || le(y, x))
    && (forall x, y, z :: le(x, y) && le(y, z) ==> le(x, z))
  }

  ghost predicate SortedBy<T>(s: seq<T>, le: (T, T) -> bool) {
    forall i, j :: 0 <= i < j < |s| ==> le(s[i], s[j])
  }

  /** Puts `x` before the first element that may follow it. */
  function Insert<T>(x: T, s: seq<T>, le: (T, T) -> bool): seq<T> {
    if s == [] || le(x, s[0]) then [x] + s
    else [s[0]] + Insert(x, s[1..], le)
  }

  function Sort<T>(s: seq<T>, le: (T, T) -> bool): seq<T> {
    if s == [] then [] else Insert(s[0], Sort(s[1..], le), le)
  }

  lemma {:induction false} InsertKeeps<T>(x: T, s: seq<T>, le: (T, T) -> bool)
    ensures multiset(Insert(x, s, le)) == multiset(s) + multiset{x}
  {
    if s == [] || le(x, s[0]) {
      assert multiset([x] + s) == multiset{x} + multiset(s);
    } else {
      InsertKeeps(x, s[1..], le);
      assert s == [s[0]] + s[1..];
      assert multiset(s) == multiset{s[0]} + multiset(s[1..]);
    }
  }

  lemma {:induction false} InsertSorted<T(!new)>(x: T, s: seq<T>, le: (T, T) -> bool)
    requires TotalPreorder(le) && SortedBy(s, le)
    ensures SortedBy(Insert(x, s, le), le)
  {
    if s != [] && !le(x, s[0]) {
      InsertSorted(x, s[1..], le);
      var rest := Insert(x, s[1..], le);
      InsertKeeps(x, s[1..], le);
      forall j | 0 <= j < |rest|
        ensures le(s[0], rest[j])
      {
        assert rest[j] in multiset(rest);
        assert rest[j] == x || rest[j] in s[1..];
      }
    }
  }

  lemma {:induction false} SortIsSorted<T(!new)>(s: seq<T>, le: (T, T) -> bool)
    requires TotalPreorder(le)
    ensures SortedBy(Sort(s, le), le)
    ensures multiset(Sort(s, le)) == multiset(s)
    ensures |Sort(s, le)| == |s|
  {
    SortKeeps(s, le);
    if s != [] {
      SortIsSorted(s[1..], le);
      InsertSorted(s[0], Sort(s[1..], le), le);
    }
  }

  lemma {:induction false} SortKeeps<T>(s: seq<T>, le: (T, T) -> bool)
    ensures multiset(Sort(s, le)) == multiset(s)
    ensures |Sort(s, le)| == |s|
  {
    if s != [] {
      SortKeeps(s[1..], le);
      InsertKeeps(s[0], Sort(s[1..], le), le);
      assert s == [s[0]] + s[1..];
    }
    assert |multiset(Sort(s, le))| == |multiset(s)|;
  }

  lemma SameElements<T>(s: seq<T>, t: seq<T>)
    requires multiset(s) == multiset(t)
    ensures forall x :: x in s <==> x in t
  {
    forall x
      ensures x in s <==> x in t
    {
      assert x in s <==> x in multiset(s);
      assert x in t <==> x in multiset(t);
    }
  }

  /** A rearrangement of `init + [last]` still has `last` somewhere; without it, it rearranges `init`. */
  lemma TakeOut<T>(init: seq<T>, last: T, y: seq<T>) returns (k: nat)
    requires multiset(init + [last]) == multiset(y)
    ensures k < |y| && y[k] == last && multiset(y[..k] + y[k + 1..]) == multiset(init)
  {
    assert last in init + [last];
    SameElements(init + [last], y);
    k :| 0 <= k < |y| && y[k] == last;
    assert y == y[..k] + [last] + y[k + 1..];
    assert multiset(y) == multiset(y[..k]) + multiset{last} + multiset(y[k + 1..]);
    assert multiset(init + [last]) == multiset(init) + multiset{last};
    assert multiset(y[..k] + y[k + 1..]) == multiset(y) - multiset{last};
  }

  ghost predicate DistinctBy<T, K>(s: seq<T>, key: T -> K) {
    forall i, j :: 0 <= i < j < |s| ==> key(s[i]) != key(s[j])
  }

  lemma {:induction false} DistinctOccurOnce<T, K>(s: seq<T>, key: T -> K, x: T)
    requires DistinctBy(s, key)
    ensures multiset(s)[x] <= 1
  {
    if s != [] {
      assert s == [s[0]] + s[1..];
      DistinctOccurOnce(s[1..], key, x);
      if s[0] == x {
        assert x !in s[1..];
      }
    }
  }

  /** Rearranging keeps the keys distinct. */
  lemma DistinctRearranged<T, K>(s: seq<T>, t: seq<T>, key: T -> K)
    requires multiset(s) == multiset(t) && DistinctBy(s, key)
    ensures DistinctBy(t, key)
  {
    SameElements(s, t);
    forall i, j | 0 <= i < j < |t|
      ensures key(t[i]) != key(t[j])
    {
      DistinctOccurOnce(s, key, t[i]);
      assert t == t[..i] + [t[i]] + t[i + 1..j] + [t[j]] + t[j + 1..];
      assert t[i] != t[j];
      assert t[i] in s && t[j] in s;
    }
  }
}
