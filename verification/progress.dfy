/**
  Progress adapters. A tracking adapter records every value it passes on
  in a shared variable; an offset adapter adds a base fixed when it is
  built. The refresh loops give each child an offset adapter whose base is
  the tracked value at that moment, so progress accumulates across
  children instead of being normalised.
 */
module Progress {
  import opened RankQuery

  /** The shared variable of a tracking adapter and the values it has
      forwarded to its target, in order. */
  datatype Tracking = Tracking(crt: int, forwarded: seq<int>)

  /** `tracking_progress_updater` over the variable's initial value. */
  function NewTracking(initial: int): (s: Tracking)
    ensures s.crt == initial && s.forwarded == []
  {
    Tracking(initial, [])
  }

  /** `tracking_progress_updater::operator()`: stores the value, then
      forwards it unchanged. */
  function TrackReport(s: Tracking, progress: int): (r: Tracking)
    ensures r.crt == progress
    ensures r.forwarded == s.forwarded + [progress]
  {
    Tracking(progress, s.forwarded + [progress])
  }

  /** A run of reports through the tracking adapter. */
  function TrackAll(s: Tracking, reports: seq<int>): (r: Tracking)
    ensures r.forwarded == s.forwarded + reports
    ensures r.crt == (if |reports| == 0 then s.crt else reports[|reports| - 1])
    decreases |reports|
  {
    if |reports| == 0 then s
    else
      var r := TrackAll(TrackReport(s, reports[0]), reports[1..]);
      assert [reports[0]] + reports[1..] == reports;
      r
  }

  /** `offset_progress_updater::operator()`: forwards offset + progress. */
  function OffsetReport(offset: int, progress: int): int {
    offset + progress
  }

  /** A run of reports through an offset adapter. */
  function OffsetAll(offset: int, reports: seq<int>): (r: seq<int>)
    ensures |r| == |reports|
    ensures forall i :: 0 <= i < |r| ==> r[i] == OffsetReport(offset, reports[i])
  {
    seq(|reports|, i requires 0 <= i < |reports| => OffsetReport(offset, reports[i]))
  }

  /** One child of a refresh loop: its reports go through an offset adapter
      built on the tracked value at the child's start, then through the
      tracker. */
  function RunChild(s: Tracking, child: seq<int>): (r: Tracking)
    ensures r.forwarded == s.forwarded + OffsetAll(s.crt, child)
    ensures |child| > 0 ==> r.crt == s.crt + child[|child| - 1]
    ensures |child| == 0 ==> r.crt == s.crt
  {
    TrackAll(s, OffsetAll(s.crt, child))
  }

  /** The children of a refresh loop, one after the other. */
  function RunChildren(s: Tracking, children: seq<seq<int>>): (r: Tracking)
    decreases |children|
  {
    if |children| == 0 then s else RunChildren(RunChild(s, children[0]), children[1..])
  }

  /** Every child ends by reporting 100. */
  predicate EachEndsFull(children: seq<seq<int>>) {
    forall i :: 0 <= i < |children| ==> |children[i]| > 0 && children[i][|children[i]| - 1] == MaxRank
  }

  /** When every child ends with 100, the tracked value after `n` children
      has grown by 100·n. */
  lemma {:induction false} RunChildrenTotal(s: Tracking, children: seq<seq<int>>)
    requires EachEndsFull(children)
    ensures RunChildren(s, children).crt == s.crt + MaxRank * |children|
    decreases |children|
  {
    if |children| > 0 {
      assert EachEndsFull(children[1..]) by {
        forall i | 0 <= i < |children[1..]|
          ensures |children[1..][i]| > 0 && children[1..][i][|children[1..][i]| - 1] == MaxRank
        {
          assert children[1..][i] == children[i + 1];
        }
      }
      RunChildrenTotal(RunChild(s, children[0]), children[1..]);
    }
  }

  /** Values between `lo` and `hi`, never going back. */
  predicate Between(a: seq<int>, lo: int, hi: int) {
    NonDecreasing(a) && forall i :: 0 <= i < |a| ==> lo <= a[i] <= hi
  }

  /** The last value of `a`, or `none` when there is none. */
  function LastOr(a: seq<int>, none: int): int {
    if |a| == 0 then none else a[|a| - 1]
  }

  /** From `s` to `r` the tracker forwarded new values after the old ones,
      never going back, none below the starting value; the tracked value is
      the last one forwarded and grew by at most `b`. */
  predicate Grows(s: Tracking, r: Tracking, b: int) {
    && |s.forwarded| <= |r.forwarded|
    && r.forwarded[..|s.forwarded|] == s.forwarded
    && Between(r.forwarded[|s.forwarded|..], s.crt, r.crt)
    && r.crt == LastOr(r.forwarded[|s.forwarded|..], s.crt)
    && r.crt <= s.crt + b
  }

  lemma AppendSlices(x: seq<int>, y: seq<int>)
    ensures (x + y)[..|x|] == x && (x + y)[|x|..] == y
  {
  }

  /** An offset child's reports never go back, stay at or above the offset
      and end at most `b` above it. */
  lemma OffsetBetween(o: int, c: seq<int>, b: int)
    requires b >= 0 && Between(c, 0, b)
    ensures Between(OffsetAll(o, c), o, LastOr(OffsetAll(o, c), o))
    ensures o <= LastOr(OffsetAll(o, c), o) <= o + b
  {
    var a := OffsetAll(o, c);
    if |c| > 0 {
      assert forall i :: 0 <= i < |a| ==> a[i] <= a[|a| - 1] by {
        forall i | 0 <= i < |a| ensures a[i] <= a[|a| - 1] {
          if i < |a| - 1 {
            assert c[i] <= c[|c| - 1];
          }
        }
      }
    }
  }

  /** A well-behaved child makes the tracker grow by at most its bound. */
  lemma ChildGrows(s: Tracking, c: seq<int>, b: int)
    requires b >= 0 && Between(c, 0, b)
    ensures Grows(s, RunChild(s, c), b)
  {
    var r := RunChild(s, c);
    var added := OffsetAll(s.crt, c);
    AppendSlices(s.forwarded, added);
    OffsetBetween(s.crt, c, b);
  }

  /** Growth composes, adding the bounds. */
  lemma GrowsTrans(s: Tracking, m: Tracking, r: Tracking, b1: int, b2: int)
    requires Grows(s, m, b1) && Grows(m, r, b2)
    ensures Grows(s, r, b1 + b2)
  {
    var n := |s.forwarded|;
    var first := m.forwarded[n..];
    var second := r.forwarded[|m.forwarded|..];
    assert r.forwarded == m.forwarded + second by {
      AppendSlices(r.forwarded[..|m.forwarded|], second);
    }
    assert m.forwarded == s.forwarded + first;
    assert r.forwarded == s.forwarded + (first + second);
    AppendSlices(s.forwarded, first + second);
    GrowsUp(s, m, b1);
    GrowsUp(m, r, b2);
    ConcatBetween(first, second, s.crt, m.crt, r.crt);
    if |second| == 0 {
      assert first + second == first;
    } else {
      assert (first + second)[|first + second| - 1] == second[|second| - 1];
    }
  }

  /** The tracked value never goes back. */
  lemma GrowsUp(s: Tracking, r: Tracking, b: int)
    requires Grows(s, r, b)
    ensures s.crt <= r.crt
  {
    var added := r.forwarded[|s.forwarded|..];
    if |added| > 0 {
      assert s.crt <= added[|added| - 1];
    }
  }

  /** Two runs where the first ends at or below where the second starts. */
  lemma ConcatBetween(x: seq<int>, y: seq<int>, lo: int, mid: int, hi: int)
    requires Between(x, lo, mid) && Between(y, mid, hi) && lo <= mid <= hi
    ensures Between(x + y, lo, hi)
  {
    var z := x + y;
    forall i | 0 <= i < |z| ensures lo <= z[i] <= hi {
      if i < |x| {
        assert z[i] == x[i];
      } else {
        assert z[i] == y[i - |x|];
      }
    }
    forall i, j | 0 <= i < j < |z| ensures z[i] <= z[j] {
      if j < |x| {
        assert z[i] == x[i] && z[j] == x[j];
      } else if i >= |x| {
        assert z[i] == y[i - |x|] && z[j] == y[j - |x|];
      } else {
        assert z[i] == x[i] && z[j] == y[j - |x|];
      }
    }
  }

  /** With children that each report non-decreasing values between 0 and
      100, the loop's progress never goes back and grows by at most 100 per
      child. */
  lemma {:induction false} RunChildrenMonotone(s: Tracking, children: seq<seq<int>>)
    requires forall i :: 0 <= i < |children| ==> Between(children[i], 0, MaxRank)
    ensures Grows(s, RunChildren(s, children), MaxRank * |children|)
    decreases |children|
  {
    if |children| == 0 {
      AppendSlices(s.forwarded, []);
    } else {
      var s1 := RunChild(s, children[0]);
      ChildGrows(s, children[0], MaxRank);
      forall i | 0 <= i < |children[1..]| ensures Between(children[1..][i], 0, MaxRank) {
        assert children[1..][i] == children[i + 1];
      }
      RunChildrenMonotone(s1, children[1..]);
      GrowsTrans(s, s1, RunChildren(s1, children[1..]), MaxRank, MaxRank * (|children| - 1));
    }
  }

  /** Allowing more growth keeps a growth fact. */
  lemma GrowsWeaken(s: Tracking, r: Tracking, b: int, b': int)
    requires Grows(s, r, b) && b <= b'
    ensures Grows(s, r, b')
  {
  }

  /** A nested loop that tracked its own progress from 0 is, to its
      parent, a child that grows the parent's progress by exactly the
      nested loop's final value. */
  lemma NestedChild(s: Tracking, c: Tracking, b: int)
    requires Grows(NewTracking(0), c, b)
    ensures RunChild(s, c.forwarded).crt == s.crt + c.crt
    ensures Grows(s, RunChild(s, c.forwarded), b)
  {
    assert c.forwarded[0..] == c.forwarded;
    GrowsUp(NewTracking(0), c, b);
    assert Between(c.forwarded, 0, b) by {
      forall i | 0 <= i < |c.forwarded| ensures c.forwarded[i] <= b {
        assert c.forwarded[i] <= c.crt;
      }
    }
    ChildGrows(s, c.forwarded, b);
  }
}
