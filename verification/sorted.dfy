/**
  Strictly increasing sequences of naturals. They model the duplicate-sorted
  indices of the store (one sorted set of child keys per parent key) and the
  ascending key order in which a cursor walks a table.
 */
module Sorted {

  predicate StrictlySorted(s: seq<nat>) {
    forall i, j :: 0 <= i < j < |s| ==> s[i] < s[j]
  }

  /** A sorted set of duplicates, as one key of a duplicate-sorted table holds them. */
  type Dup = s: seq<nat> | StrictlySorted(s) witness []

  /** A head below every member of a sorted tail keeps the sequence sorted. */
  lemma ConsSorted(h: nat, tail: Dup)
    requires forall y :: y in tail ==> h < y
    ensures StrictlySorted([h] + tail)
  {
    var r := [h] + tail;
    forall i, j | 0 <= i < j < |r| ensures r[i] < r[j] {
      if i > 0 {
        assert r[i] == tail[i - 1] && r[j] == tail[j - 1];
      } else {
        assert r[j] == tail[j - 1];
        assert r[j] in tail;
      }
    }
  }

  /** `m` is the least member of `s`. */
  predicate IsLeast(m: nat, s: set<nat>) {
    m in s && forall x :: x in s ==> m <= x
  }

  lemma {:induction false} LeastExists(s: set<nat>)
    requires s != {}
    ensures exists m :: IsLeast(m, s)
    decreases |s|
  {
    var y :| y in s;
    if s == {y} {
      assert IsLeast(y, s);
    } else {
      var rest := s - {y};
      LeastExists(rest);
      var m :| IsLeast(m, rest);
      var least := if y < m then y else m;
      forall x | x in s ensures least <= x {
        if x != y {
          assert x in rest;
        }
      }
      assert IsLeast(least, s);
    }
  }

  function Least(s: set<nat>): (m: nat)
    requires s != {}
    ensures IsLeast(m, s)
  {
    LeastExists(s);
    var m :| IsLeast(m, s);
    m
  }

  /** The members of `s` in increasing order: the order a cursor visits keys. */
  function Ascending(s: set<nat>): (r: Dup)
    ensures |r| == |s|
    ensures forall x :: x in r <==> x in s
    decreases |s|
  {
    if s == {} then []
    else
      var m := Least(s);
      var tail := Ascending(s - {m});
      ConsSorted(m, tail);
      [m] + tail
  }

  /** The greatest member of a non-empty set: the last one a cursor visits. */
  function Greatest(s: set<nat>): (m: nat)
    requires s != {}
    ensures m in s && forall x :: x in s ==> x <= m
  {
    var r := Ascending(s);
    assert forall i :: 0 <= i < |r| ==> r[i] <= r[|r| - 1];
    r[|r| - 1]
  }

  /** Two sorted sequences with the same members are equal. */
  lemma {:induction false} SortedUnique(a: Dup, b: Dup)
    requires forall x :: x in a <==> x in b
    ensures a == b
    decreases |a|
  {
    if |a| > 0 {
      assert a[0] in b;
    }
    if |b| > 0 {
      assert b[0] in a;
    }
    if |a| > 0 && |b| > 0 {
      var i :| 0 <= i < |b| && b[i] == a[0];
      var j :| 0 <= j < |a| && a[j] == b[0];
      assert b[0] <= b[i];
      assert a[0] <= a[j];
      forall x ensures x in a[1..] <==> x in b[1..] {
        if x in a[1..] {
          assert x in b && x != b[0];
        }
        if x in b[1..] {
          assert x in a && x != a[0];
        }
      }
      SortedUnique(a[1..], b[1..]);
      assert a == [a[0]] + a[1..];
      assert b == [b[0]] + b[1..];
    }
  }

  /** The members of `s` below `x`. */
  function Below(s: set<nat>, x: nat): (b: set<nat>)
    ensures forall d :: d in b <==> d in s && d < x
  {
    set d | d in s && d < x
  }

  /** In a sorted sequence listing `s`, the greatest member of `s` below the
      `i`-th element is the element before it. */
  lemma GreatestBelow(h: seq<nat>, s: set<nat>, i: nat)
    requires StrictlySorted(h) && (forall d :: d in h <==> d in s)
    requires 0 < i < |h|
    ensures Below(s, h[i]) != {}
    ensures Greatest(Below(s, h[i])) == h[i - 1]
  {
    var below := Below(s, h[i]);
    assert h[i - 1] in below;
    forall d | d in below ensures d <= h[i - 1] {
      assert d in h;
      var j :| 0 <= j < |h| && h[j] == d;
      assert j < i;
    }
  }

  /** Appending a value above every element keeps a sequence sorted. */
  lemma AppendSorted(h: seq<nat>, x: nat)
    requires StrictlySorted(h) && forall d :: d in h ==> d < x
    ensures StrictlySorted(h + [x])
  {
    var ext := h + [x];
    forall i, j | 0 <= i < j < |ext| ensures ext[i] < ext[j] {
      assert ext[i] == h[i];
      if j == |h| {
        assert h[i] in h;
      }
    }
  }

  /** Adding a value above every member puts it last in ascending order. */
  lemma AscendingAppend(s: set<nat>, x: nat)
    requires forall d: nat :: d in s ==> d < x
    ensures Ascending(s + {x}) == Ascending(s) + [x]
  {
    var h := Ascending(s);
    AppendSorted(h, x);
    var ext: Dup := h + [x];
    forall y: nat ensures y in Ascending(s + {x}) <==> y in ext {
      assert y in ext <==> y in h || y == x;
    }
    SortedUnique(Ascending(s + {x}), ext);
  }
}
