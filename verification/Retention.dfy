/** Keeping the newest of a set of records with distinct timestamps. */
module Retention {
  import Sorting
  import Sums

  ghost predicate Distinct<T(!new)>(times: map<T, nat>) {
    forall x, y :: x in times && y in times && x != y ==> times[x] != times[y]
  }

  function Newer<T>(times: map<T, nat>, t: nat): set<T> {
    set x | x in times && times[x] > t
  }

  /** The keys with fewer than `limit` newer ones. */
  function Newest<T>(times: map<T, nat>, limit: nat): set<T> {
    set x | x in times && |Newer(times, times[x])| < limit
  }

  lemma {:induction false} OldestExists<T(!new)>(times: map<T, nat>) returns (o: T)
    requires times != map[]
    ensures o in times && forall x :: x in times ==> times[o] <= times[x]
    decreases |times|
  {
    var k :| k in times;
    var rest := times - {k};
    assert rest.Keys == times.Keys - {k};
    if rest == map[] {
      o := k;
      assert rest.Keys == {};
      assert forall x :: x in times && x != k ==> x in rest.Keys;
    } else {
      var p := OldestExists(rest);
      o := if times[k] <= times[p] then k else p;
      assert forall x :: x in times ==> x == k || x in rest;
    }
  }

  /** Without the oldest record, the others have as many newer ones as before. */
  lemma DropOldest<T(!new)>(times: map<T, nat>, o: T, limit: nat)
    requires Distinct(times) && o in times && forall x :: x in times ==> times[o] <= times[x]
    ensures |times - {o}| == |times| - 1 && Distinct(times - {o})
    ensures Newest(times, limit) == Newest(times - {o}, limit) + (if |times| - 1 < limit then {o} else {})
  {
    var rest := times - {o};
    assert rest.Keys == times.Keys - {o};
    NewerThanOldest(times, o);
    forall x | x in rest
      ensures x in Newest(times, limit) <==> x in Newest(rest, limit)
    {
      NewerWithoutOldest(times, o, x);
    }
    hide Newer, Distinct;
    assert |rest.Keys| == |times| - 1;
    assert Newest(times, limit) == Newest(rest, limit) + (if |times| - 1 < limit then {o} else {});
  }

  lemma NewerThanOldest<T(!new)>(times: map<T, nat>, o: T)
    requires Distinct(times) && o in times && forall x :: x in times ==> times[o] <= times[x]
    ensures Newer(times, times[o]) == times.Keys - {o}
  {
    assert forall x :: x in times && x != o ==> times[x] != times[o];
  }

  lemma NewerWithoutOldest<T(!new)>(times: map<T, nat>, o: T, x: T)
    requires o in times && x in times && x != o && times[o] <= times[x]
    ensures Newer(times - {o}, times[x]) == Newer(times, times[x])
  {
  }

  /** Exactly as many are kept as the limit and the set allow. */
  lemma {:induction false} NewestSize<T(!new)>(times: map<T, nat>, limit: nat)
    requires Distinct(times)
    ensures |Newest(times, limit)| == if |times| < limit then |times| else limit
    decreases |times|
  {
    hide Newer, Distinct;
    if times == map[] {
      assert Newest(times, limit) == {};
    } else {
      var o := OldestExists(times);
      DropOldest(times, o, limit);
      NewestSize(times - {o}, limit);
    }
  }

  /** When no more than the limit are there, all are kept. */
  lemma FewAreAllNewest<T(!new)>(times: map<T, nat>, limit: nat, x: T)
    requires |times| <= limit && x in times
    ensures x in Newest(times, limit)
  {
    assert Newer(times, times[x]) <= times.Keys - {x};
    Sums.SubsetSize(Newer(times, times[x]), times.Keys - {x});
  }

  /** What is newer than something kept is kept. */
  lemma NewestIsUpward<T(!new)>(times: map<T, nat>, limit: nat, x: T, y: T)
    requires x in Newest(times, limit) && y in times && times[x] <= times[y]
    ensures y in Newest(times, limit)
  {
    Sums.SubsetSize(Newer(times, times[y]), Newer(times, times[x]));
  }

  // ----- reading the newest off a sorted list -----

  /** `s` lists every key with its time, once. */
  ghost predicate Listing<T(!new)>(s: seq<(T, nat)>, times: map<T, nat>) {
    && (forall i, j :: 0 <= i < j < |s| ==> s[i].0 != s[j].0)
    && (forall i :: 0 <= i < |s| ==> s[i].0 in times && times[s[i].0] == s[i].1)
    && (forall x :: x in times ==> (x, times[x]) in s)
  }

  predicate OlderFirst<T>(x: (T, nat), y: (T, nat)) {
    x.1 <= y.1
  }

  predicate NewerFirst<T>(x: (T, nat), y: (T, nat)) {
    x.1 >= y.1
  }

  function Keys<T>(s: seq<(T, nat)>): set<T> {
    set i | 0 <= i < |s| :: s[i].0
  }

  lemma {:induction false} KeysSize<T>(s: seq<(T, nat)>)
    requires forall i, j :: 0 <= i < j < |s| ==> s[i].0 != s[j].0
    ensures |Keys(s)| == |s|
  {
    if s != [] {
      var init, last := s[..|s| - 1], s[|s| - 1];
      KeysSize(init);
      assert forall i :: 0 <= i < |init| ==> s[i] == init[i];
      assert Keys(s) == Keys(init) + {last.0};
    }
  }

  /** In a list from new to old, entry `k` has `k` newer ones. */
  lemma NewerInDescending<T(!new)>(s: seq<(T, nat)>, times: map<T, nat>, k: nat)
    requires Listing(s, times) && Distinct(times) && k < |s|
    requires forall i, j :: 0 <= i < j < |s| ==> s[i].1 >= s[j].1
    ensures |Newer(times, s[k].1)| == k
  {
    var front := s[..k];
    forall x
      ensures x in Newer(times, s[k].1) <==> x in Keys(front)
    {
      if x in Newer(times, s[k].1) {
        assert (x, times[x]) in s;
        var i :| 0 <= i < |s| && s[i] == (x, times[x]);
        assert i < k;
        assert front[i].0 == x;
      }
      if x in Keys(front) {
        var i :| 0 <= i < k && front[i].0 == x;
        assert s[i] == front[i] && s[i].0 != s[k].0;
      }
    }
    KeysSize(front);
    assert Newer(times, s[k].1) == Keys(front);
  }

  /** In a list from old to new, entry `k` has those behind it newer. */
  lemma NewerInAscending<T(!new)>(s: seq<(T, nat)>, times: map<T, nat>, k: nat)
    requires Listing(s, times) && Distinct(times) && k < |s|
    requires forall i, j :: 0 <= i < j < |s| ==> s[i].1 <= s[j].1
    ensures |Newer(times, s[k].1)| == |s| - 1 - k
  {
    var back := s[k + 1..];
    forall x
      ensures x in Newer(times, s[k].1) <==> x in Keys(back)
    {
      if x in Newer(times, s[k].1) {
        assert (x, times[x]) in s;
        var i :| 0 <= i < |s| && s[i] == (x, times[x]);
        assert i > k;
        assert back[i - k - 1].0 == x;
      }
      if x in Keys(back) {
        var i :| 0 <= i < |back| && back[i].0 == x;
        assert s[i + k + 1] == back[i] && s[k].0 != s[i + k + 1].0;
      }
    }
    KeysSize(back);
    assert Newer(times, s[k].1) == Keys(back);
  }

  lemma ListingRearranged<T(!new)>(s: seq<(T, nat)>, t: seq<(T, nat)>, times: map<T, nat>)
    requires Listing(s, times) && multiset(s) == multiset(t)
    ensures Listing(t, times)
  {
    var key := (e: (T, nat)) => e.0;
    Sorting.SameElements(s, t);
    Sorting.DistinctRearranged(s, t, key);
    assert forall i, j :: 0 <= i < j < |t| ==> key(t[i]) != key(t[j]);
    forall i | 0 <= i < |t|
      ensures t[i].0 in times && times[t[i].0] == t[i].1
    {
      assert t[i] in t;
      var k :| 0 <= k < |s| && s[k] == t[i];
    }
  }

  lemma SortedAscending<T(!new)>(s: seq<(T, nat)>, times: map<T, nat>)
    requires Listing(s, times)
    ensures var r := Sorting.Sort(s, OlderFirst);
            Listing(r, times) && forall i, j :: 0 <= i < j < |r| ==> r[i].1 <= r[j].1
  {
    var r := Sorting.Sort(s, OlderFirst);
    Sorting.SortIsSorted(s, OlderFirst);
    ListingRearranged(s, r, times);
    assert forall i, j :: 0 <= i < j < |r| ==> OlderFirst(r[i], r[j]);
  }

  lemma SortedDescending<T(!new)>(s: seq<(T, nat)>, times: map<T, nat>)
    requires Listing(s, times)
    ensures var r := Sorting.Sort(s, NewerFirst);
            Listing(r, times) && forall i, j :: 0 <= i < j < |r| ==> r[i].1 >= r[j].1
  {
    var r := Sorting.Sort(s, NewerFirst);
    Sorting.SortIsSorted(s, NewerFirst);
    ListingRearranged(s, r, times);
    assert forall i, j :: 0 <= i < j < |r| ==> NewerFirst(r[i], r[j]);
  }
}
