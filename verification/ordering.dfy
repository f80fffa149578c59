/**
  Orderings used by the summary table's column sort: strict weak orderings
  given as comparison functions, `std::lexicographical_compare` on strings,
  a stable insertion sort standing for `std::sort`, `std::is_sorted` and
  `std::reverse`.
 */
module Ordering {

  /** `less` never holds of a value and itself. */
  ghost predicate Irreflexive<T(!new)>(less: (T, T) -> bool) {
    forall a :: !less(a, a)
  }

  ghost predicate Transitive<T(!new)>(less: (T, T) -> bool) {
    forall a, b, c :: less(a, b) && less(b, c) ==> less(a, c)
  }

  /** "Not less" is transitive: incomparable values form classes. */
  ghost predicate NegTransitive<T(!new)>(less: (T, T) -> bool) {
    forall a, b, c :: !less(a, b) && !less(b, c) ==> !less(a, c)
  }

  /** The requirement `std::sort` and `std::is_sorted` place on a comparator. */
  ghost predicate StrictWeak<T(!new)>(less: (T, T) -> bool) {
    Irreflexive(less) && Transitive(less) && NegTransitive(less)
  }

  /** No later element is less than an earlier one. */
  predicate InOrder<T>(s: seq<T>, less: (T, T) -> bool) {
    forall i, j :: 0 <= i < j < |s| ==> !less(s[j], s[i])
  }

  /** `std::is_sorted`: no element is less than the one just before it. */
  predicate AdjacentSorted<T>(s: seq<T>, less: (T, T) -> bool) {
    forall i :: 0 < i < |s| ==> !less(s[i], s[i - 1])
  }

  /** The comparator with its arguments swapped: the descending order. */
  function Flip<T>(less: (T, T) -> bool): (T, T) -> bool {
    (a: T, b: T) => less(b, a)
  }

  /** For a strict weak ordering, checking neighbours is enough: an
      adjacent-sorted sequence is sorted. */
  lemma {:induction false} AdjacentIsSorted<T(!new)>(s: seq<T>, less: (T, T) -> bool)
    requires NegTransitive(less) && AdjacentSorted(s, less)
    ensures InOrder(s, less)
    decreases |s|
  {
    if |s| > 1 {
      var p := s[..|s| - 1];
      assert AdjacentSorted(p, less) by {
        forall i | 0 < i < |p| ensures !less(p[i], p[i - 1]) {
          assert p[i] == s[i] && p[i - 1] == s[i - 1];
        }
      }
      AdjacentIsSorted(p, less);
      forall i, j | 0 <= i < j < |s| ensures !less(s[j], s[i]) {
        if j < |s| - 1 {
          assert p[i] == s[i] && p[j] == s[j];
        } else if i < j - 1 {
          assert p[i] == s[i] && p[j - 1] == s[j - 1];
          assert !less(s[j], s[j - 1]) && !less(s[j - 1], s[i]);
        }
      }
    }
  }

  lemma SortedIsAdjacent<T>(s: seq<T>, less: (T, T) -> bool)
    requires InOrder(s, less)
    ensures AdjacentSorted(s, less)
  {
    forall i | 0 < i < |s| ensures !less(s[i], s[i - 1]) {
      assert 0 <= i - 1 < i < |s|;
    }
  }

  // Strings.

  /** `std::string::operator<`: lexicographic, a proper prefix first. */
  predicate LexLess(a: string, b: string)
    decreases |a|
  {
    |b| > 0 && (|a| == 0 || a[0] < b[0] || (a[0] == b[0] && LexLess(a[1..], b[1..])))
  }

  /** The two ways `a` comes before `b`: it is a proper prefix of `b`, or
      the two first differ at a position where `a`'s character is smaller. */
  predicate LexBefore(a: string, b: string) {
    || (|a| < |b| && a == b[..|a|])
    || exists i :: 0 <= i < |a| && i < |b| && a[..i] == b[..i] && a[i] < b[i]
  }

  /** `LexLess` agrees with the positional definition of lexicographic order. */
  lemma {:induction false} LexLessMeaning(a: string, b: string)
    ensures LexLess(a, b) <==> LexBefore(a, b)
    decreases |a|
  {
    if |a| == 0 || |b| == 0 {
      if |a| == 0 && |b| > 0 {
        assert a == b[..0];
      }
    } else if a[0] < b[0] {
      assert a[..0] == b[..0];
    } else if a[0] > b[0] {
      forall i | 0 < i <= |a| && i <= |b| ensures a[..i] != b[..i] {
        assert a[..i][0] != b[..i][0];
      }
    } else {
      LexLessMeaning(a[1..], b[1..]);
      LexBeforeTail(a, b);
    }
  }

  /** With equal first characters, `a` is before `b` exactly when its tail
      is before `b`'s tail. */
  lemma LexBeforeTail(a: string, b: string)
    requires |a| > 0 && |b| > 0 && a[0] == b[0]
    ensures LexBefore(a, b) <==> LexBefore(a[1..], b[1..])
  {
    var a', b' := a[1..], b[1..];
    if |a| < |b| && a == b[..|a|] {
      assert a' == b'[..|a'|];
    }
    if |a'| < |b'| && a' == b'[..|a'|] {
      assert a == [a[0]] + a' && b[..|a|] == [b[0]] + b'[..|a'|];
    }
    if i :| 0 <= i < |a| && i < |b| && a[..i] == b[..i] && a[i] < b[i] {
      assert i > 0;
      assert a'[..i - 1] == a[1..i] == b[1..i] == b'[..i - 1];
      assert a'[i - 1] < b'[i - 1];
    }
    if i :| 0 <= i < |a'| && i < |b'| && a'[..i] == b'[..i] && a'[i] < b'[i] {
      assert a[..i + 1] == [a[0]] + a'[..i] && b[..i + 1] == [b[0]] + b'[..i];
      assert a[i + 1] < b[i + 1];
    }
  }

  lemma {:induction false} LexIrreflexive(a: string)
    ensures !LexLess(a, a)
    decreases |a|
  {
    if |a| > 0 {
      LexIrreflexive(a[1..]);
    }
  }

  lemma {:induction false} LexTransitive(a: string, b: string, c: string)
    requires LexLess(a, b) && LexLess(b, c)
    ensures LexLess(a, c)
    decreases |a|
  {
    if |a| > 0 && a[0] == b[0] && b[0] == c[0] {
      LexTransitive(a[1..], b[1..], c[1..]);
    }
  }

  /** Any two strings are equal or ordered one way or the other. */
  lemma {:induction false} LexTotal(a: string, b: string)
    ensures a == b || LexLess(a, b) || LexLess(b, a)
    decreases |a|
  {
    if |a| > 0 && |b| > 0 && a[0] == b[0] {
      LexTotal(a[1..], b[1..]);
      if a[1..] == b[1..] {
        assert a == [a[0]] + a[1..] && b == [b[0]] + b[1..];
      }
    }
  }

  lemma {:induction false} LexAsymmetric(a: string, b: string)
    requires LexLess(a, b)
    ensures !LexLess(b, a)
    decreases |a|
  {
    if |a| > 0 && a[0] == b[0] {
      LexAsymmetric(a[1..], b[1..]);
    }
  }

  /** String comparison is a strict weak ordering (indeed a total one). */
  lemma LexStrictWeak()
    ensures StrictWeak((a: string, b: string) => LexLess(a, b))
  {
    var less := (a: string, b: string) => LexLess(a, b);
    forall a ensures !less(a, a) {
      LexIrreflexive(a);
    }
    forall a, b, c | less(a, b) && less(b, c) ensures less(a, c) {
      LexTransitive(a, b, c);
    }
    forall a, b, c | !less(a, b) && !less(b, c) ensures !less(a, c) {
      LexNotLessTrans(a, b, c);
    }
  }

  lemma LexNotLessTrans(a: string, b: string, c: string)
    requires !LexLess(a, b) && !LexLess(b, c)
    ensures !LexLess(a, c)
  {
    LexTotal(a, b);
    LexTotal(b, c);
    if LexLess(b, a) && LexLess(c, b) {
      LexTransitive(c, b, a);
      LexAsymmetric(c, a);
    } else if LexLess(b, a) {
      LexAsymmetric(b, a);
    } else if LexLess(c, b) {
      LexAsymmetric(c, b);
    } else {
      LexIrreflexive(a);
    }
  }

  // Sorting.

  /** Inserts `x` before the first element it is less than. */
  function Insert<T>(x: T, s: seq<T>, less: (T, T) -> bool): (r: seq<T>)
    ensures |r| == |s| + 1
    ensures multiset(r) == multiset(s) + multiset{x}
  {
    if |s| == 0 || less(x, s[0]) then [x] + s
    else
      assert s == [s[0]] + s[1..];
      [s[0]] + Insert(x, s[1..], less)
  }

  /** Sorts by inserting each element into the sorted rest. The result is
      one arrangement `std::sort` may produce; that function is not stable
      and any sorted permutation may come out. */
  function Sort<T>(s: seq<T>, less: (T, T) -> bool): (r: seq<T>)
    ensures |r| == |s|
    ensures multiset(r) == multiset(s)
  {
    if |s| == 0 then []
    else
      assert s == [s[0]] + s[1..];
      Insert(s[0], Sort(s[1..], less), less)
  }

  lemma SortedTail<T>(s: seq<T>, less: (T, T) -> bool)
    requires |s| > 0 && InOrder(s, less)
    ensures InOrder(s[1..], less)
  {
    forall i, j | 0 <= i < j < |s[1..]| ensures !less(s[1..][j], s[1..][i]) {
      assert s[1..][j] == s[j + 1] && s[1..][i] == s[i + 1];
    }
  }

  /** Nothing in a sorted `s` is less than `x` when `x` is less than its head. */
  lemma BelowHead<T(!new)>(x: T, s: seq<T>, less: (T, T) -> bool)
    requires StrictWeak(less) && InOrder(s, less) && |s| > 0 && less(x, s[0])
    ensures forall y :: y in s ==> !less(y, x)
  {
    forall y | y in s ensures !less(y, x) {
      var m :| 0 <= m < |s| && s[m] == y;
      if m == 0 {
        assert !less(s[0], s[0]);
      } else {
        assert !less(s[m], s[0]);
      }
    }
  }

  /** Nothing in `rest` is less than `h` when `rest` holds `x` and elements
      of a sorted sequence headed by `h`, and `x` is not less than `h`. */
  lemma AboveHead<T>(h: T, x: T, s: seq<T>, rest: seq<T>, less: (T, T) -> bool)
    requires |s| > 0 && s[0] == h && InOrder(s, less) && !less(x, h)
    requires multiset(rest) == multiset(s[1..]) + multiset{x}
    ensures forall y :: y in rest ==> !less(y, h)
  {
    forall y | y in rest ensures !less(y, h) {
      assert y in multiset(rest);
      if y != x {
        assert y in multiset(s[1..]);
        var m :| 0 <= m < |s[1..]| && s[1..][m] == y;
        assert s[m + 1] == y;
      }
    }
  }

  /** Inserting into a sorted sequence keeps it sorted. */
  lemma {:induction false} InsertSorted<T(!new)>(x: T, s: seq<T>, less: (T, T) -> bool)
    requires StrictWeak(less) && InOrder(s, less)
    ensures InOrder(Insert(x, s, less), less)
    decreases |s|
  {
    var r := Insert(x, s, less);
    if |s| == 0 || less(x, s[0]) {
      if |s| > 0 {
        BelowHead(x, s, less);
      }
      assert r == [x] + s;
      forall i, j | 0 <= i < j < |r| ensures !less(r[j], r[i]) {
        assert r[j] == s[j - 1] && r[j] in s;
        if i > 0 {
          assert r[i] == s[i - 1];
        }
      }
    } else {
      var rest := Insert(x, s[1..], less);
      SortedTail(s, less);
      InsertSorted(x, s[1..], less);
      AboveHead(s[0], x, s, rest, less);
      assert r == [s[0]] + rest;
      forall i, j | 0 <= i < j < |r| ensures !less(r[j], r[i]) {
        assert r[j] == rest[j - 1] && r[j] in rest;
        if i > 0 {
          assert r[i] == rest[i - 1];
        }
      }
    }
  }

  lemma {:induction false} SortSorted<T(!new)>(s: seq<T>, less: (T, T) -> bool)
    requires StrictWeak(less)
    ensures InOrder(Sort(s, less), less)
    decreases |s|
  {
    if |s| > 0 {
      SortSorted(s[1..], less);
      InsertSorted(s[0], Sort(s[1..], less), less);
    }
  }

  /** `std::reverse`. */
  function Reverse<T>(s: seq<T>): (r: seq<T>)
    ensures |r| == |s|
    ensures forall i :: 0 <= i < |s| ==> r[i] == s[|s| - 1 - i]
  {
    if |s| == 0 then [] else Reverse(s[1..]) + [s[0]]
  }

  lemma {:induction false} ReversePermutes<T>(s: seq<T>)
    ensures multiset(Reverse(s)) == multiset(s)
    decreases |s|
  {
    if |s| > 0 {
      ReversePermutes(s[1..]);
      assert s == [s[0]] + s[1..];
    }
  }

  lemma ReverseTwice<T>(s: seq<T>)
    ensures Reverse(Reverse(s)) == s
  {
  }

  /** Reversing a sequence sorted ascending sorts it descending. */
  lemma ReverseSortedDescending<T>(s: seq<T>, less: (T, T) -> bool)
    requires InOrder(s, less)
    ensures InOrder(Reverse(s), Flip(less))
  {
    var r := Reverse(s);
    forall i, j | 0 <= i < j < |r| ensures !Flip(less)(r[j], r[i]) {
      assert r[i] == s[|s| - 1 - i] && r[j] == s[|s| - 1 - j];
    }
  }

  /** A click on a column header: a column already sorted (neighbour by
      neighbour) is reversed, any other order is sorted. */
  function Toggle<T>(s: seq<T>, less: (T, T) -> bool): (r: seq<T>)
    ensures AdjacentSorted(s, less) ==> r == Reverse(s)
    ensures !AdjacentSorted(s, less) ==> r == Sort(s, less)
  {
    if AdjacentSorted(s, less) then Reverse(s) else Sort(s, less)
  }

  /** A click keeps the same elements; on an unsorted sequence it sorts, on
      a sorted one it sorts the other way round. */
  lemma ToggleMeaning<T(!new)>(s: seq<T>, less: (T, T) -> bool)
    requires StrictWeak(less)
    ensures multiset(Toggle(s, less)) == multiset(s)
    ensures !AdjacentSorted(s, less) ==> InOrder(Toggle(s, less), less)
    ensures AdjacentSorted(s, less) ==> InOrder(Toggle(s, less), Flip(less))
  {
    if AdjacentSorted(s, less) {
      ReversePermutes(s);
      AdjacentIsSorted(s, less);
      ReverseSortedDescending(s, less);
    } else {
      SortSorted(s, less);
    }
  }

  /** Two clicks on an unsorted column: the first sorts it, the second
      reverses the sorted order. */
  lemma ToggleTwice<T(!new)>(s: seq<T>, less: (T, T) -> bool)
    requires StrictWeak(less) && !AdjacentSorted(s, less)
    ensures Toggle(Toggle(s, less), less) == Reverse(Sort(s, less))
  {
    SortSorted(s, less);
    SortedIsAdjacent(Sort(s, less), less);
  }
}
