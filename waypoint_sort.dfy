/** The in-place, stable sort of a mission's waypoint list by timestamp
    (src/models/mission.py, `self.waypoints.sort(key=lambda wp: wp.timestamp)`).

    The specification is `StableSortByKey`, a functional insertion sort. Its lemmas show that
    the result is ordered by timestamp, is a permutation of the input and keeps the relative
    order of waypoints with equal timestamps, and that these three facts determine the result,
    so any stable sort (the library's included) produces exactly `StableSortByKey`. */
module WaypointSort {
  import opened Waypoints

  predicate AllTimestamped(s: seq<Waypoint>) {
    forall i :: 0 <= i < |s| ==> Timed(s[i])
  }

  predicate SortedByKey(s: seq<Waypoint>) {
    forall i, j :: 0 <= i < j < |s| ==> Key(s[i]) <= Key(s[j])
  }

  /** The waypoints of `s` whose timestamp is `k`, in their order in `s`. */
  function WithKey(s: seq<Waypoint>, k: real): seq<Waypoint>
    decreases |s|
  {
    if s == [] then []
    else WithKey(s[..|s| - 1], k) + (if Key(s[|s| - 1]) == k then [s[|s| - 1]] else [])
  }

  /** Equal timestamps keep their relative order: for every timestamp, the waypoints carrying
      it appear in the same order in both lists. */
  ghost predicate SameTies(s: seq<Waypoint>, s': seq<Waypoint>) {
    forall k :: WithKey(s, k) == WithKey(s', k)
  }

  /** Inserts `x` into `t` just after the last element whose key is at most `x`'s key. */
  function Insert(t: seq<Waypoint>, x: Waypoint): seq<Waypoint>
    decreases |t|
  {
    if t == [] || Key(t[|t| - 1]) <= Key(x) then t + [x]
    else Insert(t[..|t| - 1], x) + [t[|t| - 1]]
  }

  /** Insertion sort, adding the elements from left to right. */
  function StableSortByKey(s: seq<Waypoint>): seq<Waypoint>
    decreases |s|
  {
    if s == [] then [] else Insert(StableSortByKey(s[..|s| - 1]), s[|s| - 1])
  }

  lemma {:induction false} WithKeyAppend(a: seq<Waypoint>, b: seq<Waypoint>, k: real)
    ensures WithKey(a + b, k) == WithKey(a, k) + WithKey(b, k)
    decreases |b|
  {
    if b == [] {
      assert a + b == a;
    } else {
      var b' := b[..|b| - 1];
      assert (a + b)[..|a + b| - 1] == a + b';
      WithKeyAppend(a, b', k);
    }
  }

  lemma {:induction false} WithKeyMembers(s: seq<Waypoint>, k: real, w: Waypoint)
    ensures w in WithKey(s, k) <==> w in s && Key(w) == k
    decreases |s|
  {
    if s != [] {
      var s' := s[..|s| - 1];
      WithKeyMembers(s', k, w);
      assert s == s' + [s[|s| - 1]];
    }
  }

  lemma {:induction false} InsertPermutes(t: seq<Waypoint>, x: Waypoint)
    ensures multiset(Insert(t, x)) == multiset(t) + multiset{x}
    decreases |t|
  {
    if !(t == [] || Key(t[|t| - 1]) <= Key(x)) {
      var t' := t[..|t| - 1];
      InsertPermutes(t', x);
      assert t == t' + [t[|t| - 1]];
    }
  }

  lemma {:induction false} InsertSorted(t: seq<Waypoint>, x: Waypoint)
    requires SortedByKey(t)
    ensures SortedByKey(Insert(t, x))
    decreases |t|
  {
    if !(t == [] || Key(t[|t| - 1]) <= Key(x)) {
      var t' := t[..|t| - 1];
      var last := t[|t| - 1];
      InsertSorted(t', x);
      InsertPermutes(t', x);
      var r := Insert(t', x);
      forall i | 0 <= i < |r| ensures Key(r[i]) <= Key(last) {
        assert r[i] in multiset(t') + multiset{x};
        if r[i] != x {
          assert r[i] in t';
          var k :| 0 <= k < |t'| && t'[k] == r[i];
          assert t[k] == r[i];
        }
      }
    }
  }

  lemma {:induction false} InsertKeepsTies(t: seq<Waypoint>, x: Waypoint, k: real)
    ensures WithKey(Insert(t, x), k) == WithKey(t + [x], k)
    decreases |t|
  {
    if !(t == [] || Key(t[|t| - 1]) <= Key(x)) {
      var t' := t[..|t| - 1];
      var last := t[|t| - 1];
      InsertKeepsTies(t', x, k);
      WithKeyAppend(Insert(t', x), [last], k);
      WithKeyAppend(t', [x], k);
      WithKeyAppend(t', [last], k);
      WithKeyAppend(t' + [x], [last], k);
      WithKeyAppend(t' + [last], [x], k);
      assert t == t' + [last];
      assert Key(last) != Key(x);
      assert WithKey([x], k) == [] || WithKey([last], k) == [];
      // Passing `last` over `x` only swaps two elements with different keys.
      assert WithKey(Insert(t, x), k) == WithKey(t', k) + WithKey([x], k) + WithKey([last], k);
    }
  }

  /** The specification of the sort: ordered, a permutation, and stable. */
  lemma {:induction false} StableSortByKeyCorrect(s: seq<Waypoint>)
    ensures SortedByKey(StableSortByKey(s))
    ensures multiset(StableSortByKey(s)) == multiset(s)
    ensures SameTies(StableSortByKey(s), s)
    decreases |s|
  {
    if s != [] {
      var s' := s[..|s| - 1];
      var x := s[|s| - 1];
      StableSortByKeyCorrect(s');
      InsertSorted(StableSortByKey(s'), x);
      InsertPermutes(StableSortByKey(s'), x);
      assert s == s' + [x];
      forall k ensures WithKey(StableSortByKey(s), k) == WithKey(s, k) {
        InsertKeepsTies(StableSortByKey(s'), x, k);
        WithKeyAppend(StableSortByKey(s'), [x], k);
        WithKeyAppend(s', [x], k);
      }
    }
  }

  /** Two lists ordered by timestamp with the same ties are equal: a stable sort has exactly
      one possible result. */
  lemma {:induction false} StableSortUnique(s1: seq<Waypoint>, s2: seq<Waypoint>)
    requires SortedByKey(s1) && SortedByKey(s2) && SameTies(s1, s2)
    ensures s1 == s2
    decreases |s1| + |s2|
  {
    if s1 == [] || s2 == [] {
      if s1 != [] {
        WithKeyMembers(s1, Key(s1[0]), s1[0]);
      } else if s2 != [] {
        WithKeyMembers(s2, Key(s2[0]), s2[0]);
      }
    } else {
      var s1', s2' := s1[..|s1| - 1], s2[..|s2| - 1];
      LastsAgree(s1, s2);
      DropLastKeepsTies(s1, s2);
      assert SortedByKey(s1') && SortedByKey(s2');
      StableSortUnique(s1', s2');
      assert s1 == s1' + [s1[|s1| - 1]] && s2 == s2' + [s2[|s2| - 1]];
    }
  }

  lemma LastsAgree(s1: seq<Waypoint>, s2: seq<Waypoint>)
    requires s1 != [] && s2 != []
    requires SortedByKey(s1) && SortedByKey(s2) && SameTies(s1, s2)
    ensures s1[|s1| - 1] == s2[|s2| - 1]
  {
    var a, b := s1[|s1| - 1], s2[|s2| - 1];
    // Each list holds the other's largest timestamp, so the two largest timestamps agree.
    WithKeyMembers(s1, Key(a), a);
    WithKeyMembers(s2, Key(a), a);
    WithKeyMembers(s2, Key(b), b);
    WithKeyMembers(s1, Key(b), b);
    assert WithKey(s1, Key(a)) == WithKey(s2, Key(a));
    assert WithKey(s1, Key(b)) == WithKey(s2, Key(b));
    var i :| 0 <= i < |s2| && s2[i] == a;
    var j :| 0 <= j < |s1| && s1[j] == b;
    assert Key(a) <= Key(b) && Key(b) <= Key(a);
    // Both then end the list of the waypoints with that timestamp.
    assert WithKey(s1, Key(a))[|WithKey(s1, Key(a))| - 1] == a;
    assert WithKey(s2, Key(a))[|WithKey(s2, Key(a))| - 1] == b;
  }

  lemma DropLastKeepsTies(s1: seq<Waypoint>, s2: seq<Waypoint>)
    requires s1 != [] && s2 != [] && s1[|s1| - 1] == s2[|s2| - 1]
    requires SameTies(s1, s2)
    ensures SameTies(s1[..|s1| - 1], s2[..|s2| - 1])
  {
    var a := s1[|s1| - 1];
    var s1', s2' := s1[..|s1| - 1], s2[..|s2| - 1];
    forall k ensures WithKey(s1', k) == WithKey(s2', k) {
      var w1, w2 := WithKey(s1', k), WithKey(s2', k);
      var tail := if Key(a) == k then [a] else [];
      assert WithKey(s1, k) == w1 + tail;
      assert WithKey(s2, k) == w2 + tail;
      assert w1 + tail == w2 + tail;
      assert w1 == (w1 + tail)[..|w1|];
      assert w2 == (w2 + tail)[..|w2|];
    }
  }

  /** Where the inner loop of `SortWaypoints` stops, the result is `Insert`. */
  lemma {:induction false} InsertAt(t: seq<Waypoint>, x: Waypoint, j: nat)
    requires j <= |t|
    requires forall k :: j <= k < |t| ==> Key(x) < Key(t[k])
    requires j == 0 || Key(t[j - 1]) <= Key(x)
    ensures Insert(t, x) == t[..j] + [x] + t[j..]
    decreases |t|
  {
    if j == |t| {
      assert t[..j] == t && t[j..] == [];
    } else {
      var t' := t[..|t| - 1];
      InsertAt(t', x, j);
      assert t'[..j] == t[..j];
      assert t[j..] == t'[j..] + [t[|t| - 1]];
    }
  }

  /** Sorts the caller's list in place, as `list.sort(key=...)` does. */
  method SortWaypoints(a: array<Waypoint>)
    modifies a
    ensures a[..] == StableSortByKey(old(a[..]))
  {
    ghost var s0 := a[..];
    var i := 0;
    while i < a.Length
      invariant 0 <= i <= a.Length
      invariant a[..i] == StableSortByKey(s0[..i])
      invariant a[i..] == s0[i..]
    {
      ghost var t := a[..i];
      var j := SinkLast(a, i);
      assert s0[..i + 1][..i] == s0[..i];
      assert s0[..i + 1][i] == s0[i];
      assert a[..i + 1] == StableSortByKey(s0[..i + 1]);
      assert a[i + 1..] == s0[i + 1..];
      i := i + 1;
    }
    assert a[..] == a[..a.Length];
    assert s0 == s0[..a.Length];
  }

  /** One insertion step: moves `a[i]` left past every earlier element with a strictly later
      timestamp, so that `a[..i + 1]` becomes `Insert(a[..i], a[i])`. */
  method SinkLast(a: array<Waypoint>, i: nat) returns (j: nat)
    requires i < a.Length
    modifies a
    ensures j <= i
    ensures a[..i + 1] == Insert(old(a[..i]), old(a[i]))
    ensures a[i + 1..] == old(a[i + 1..])
  {
    ghost var t := a[..i];
    var x := a[i];
    j := i;
    while 0 < j && Key(x) < Key(a[j - 1])
      invariant 0 <= j <= i
      invariant forall k :: 0 <= k < j ==> a[k] == t[k]
      invariant a[j] == x
      invariant forall k :: j < k <= i ==> a[k] == t[k - 1]
      invariant forall k :: j <= k < i ==> Key(x) < Key(t[k])
      invariant a[i + 1..] == old(a[i + 1..])
    {
      a[j - 1], a[j] := a[j], a[j - 1];
      j := j - 1;
    }
    InsertAt(t, x, j);
    assert a[..i + 1] == t[..j] + [x] + t[j..];
  }
}
