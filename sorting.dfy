/** The in-place sort behind `Array.prototype.sort(compare)`, and what it means for a
    list to be ordered by a comparator that returns negative, zero or positive. */
module Sorting {
  import opened Lists

  /** -1, 0 or 1 as `n` is negative, zero or positive. */
  function Sign(n: int): (r: int) {
    if n < 0 then -1 else if n > 0 then 1 else 0
  }

  /** What `Array.prototype.sort` asks of a comparator: swapping the arguments flips
      the sign of the answer, and "no later than" (`<= 0`) is transitive. */
  ghost predicate IsTotalPreorder<T(!new)>(cmp: (T, T) -> int) {
    && (forall x, y :: Sign(cmp(x, y)) == -Sign(cmp(y, x)))
    && (forall x, y, z {:trigger cmp(x, y), cmp(y, z), cmp(x, z)} ::
          cmp(x, y) <= 0 && cmp(y, z) <= 0 ==> cmp(x, z) <= 0)
  }

  /** The presence comparators: an item whose flag is set sorts before one whose flag is
      not; with equal flags the answer is `tie` (the name comparison). */
  function PresentFirst(a: bool, b: bool, tie: int): (r: int) {
    if a && !b then -1
    else if !a && b then 1
    else tie
  }

  /** Every element is ordered no later than every element after it. */
  ghost predicate SortedBy<T>(s: seq<T>, cmp: (T, T) -> int) {
    forall i, j :: 0 <= i < j < |s| ==> cmp(s[i], s[j]) <= 0
  }

  /** The items of `s` that compare equal to `x`, in list order. */
  ghost function Ties<T(!new)>(s: seq<T>, x: T, cmp: (T, T) -> int): (r: seq<T>) {
    Filter(s, TiedWith(x, cmp))
  }

  /** Whether an item compares equal to `x`. */
  ghost function TiedWith<T>(x: T, cmp: (T, T) -> int): (r: T -> bool) {
    y => cmp(x, y) == 0
  }

  /** `s` and `t` hold the items of every run of equal-comparing items in the same
      order: a sort from `s` to `t` is stable. */
  ghost predicate SameTies<T(!new)>(s: seq<T>, t: seq<T>, cmp: (T, T) -> int) {
    forall x :: Ties(s, x, cmp) == Ties(t, x, cmp)
  }

  /** `SameTies` composes: stability is kept across successive steps. */
  lemma SameTiesTransitive<T(!new)>(s: seq<T>, t: seq<T>, u: seq<T>, cmp: (T, T) -> int)
    requires SameTies(s, t, cmp) && SameTies(t, u, cmp)
    ensures SameTies(s, u, cmp)
  {
  }

  /** The comparator with its arguments swapped: `(a, b) => compare(b, a)`. */
  function Swapped<T>(cmp: (T, T) -> int): (r: (T, T) -> int) {
    (a, b) => cmp(b, a)
  }

  /** The list read back to front. */
  function Reversed<T>(s: seq<T>): (r: seq<T>)
    ensures |r| == |s|
    ensures forall i :: 0 <= i < |s| ==> r[i] == s[|s| - 1 - i]
  {
    if s == [] then [] else Reversed(s[1..]) + [s[0]]
  }

  /** Sorting by `compare` in place. The result is a permutation of the input ordered by
      `cmp`, and items that compare equal keep their input order (the sort is stable);
      an input that is already ordered is left exactly as it was, so sorting a sorted
      list again changes nothing. */
  method Sort<T(!new)>(a: array<T>, cmp: (T, T) -> int)
    requires IsTotalPreorder(cmp)
    modifies a
    ensures SortedBy(a[..], cmp)
    ensures multiset(a[..]) == multiset(old(a[..]))
    ensures SameTies(old(a[..]), a[..], cmp)
    ensures SortedBy(old(a[..]), cmp) ==> a[..] == old(a[..])
  {
    var i := 0;
    while i < a.Length
      invariant 0 <= i <= a.Length
      invariant SortedBy(a[..i], cmp)
      invariant multiset(a[..]) == multiset(old(a[..]))
      invariant SameTies(old(a[..]), a[..], cmp)
      invariant SortedBy(old(a[..]), cmp) ==> a[..] == old(a[..])
    {
      ghost var before := a[..];
      assert SortedBy(before, cmp) ==> SortedBy(before[..i + 1], cmp);
      Insert(a, i, cmp);
      SameTiesTransitive(old(a[..]), before, a[..], cmp);
      i := i + 1;
    }
    assert a[..] == a[..a.Length];
  }

  /** One step of insertion sort: `a[i]` moves left past every element of the ordered
      prefix `a[..i]` that it must precede, and stops at the first that it need not. */
  method Insert<T(!new)>(a: array<T>, i: nat, cmp: (T, T) -> int)
    requires IsTotalPreorder(cmp)
    requires i < a.Length && SortedBy(a[..i], cmp)
    modifies a
    ensures SortedBy(a[..i + 1], cmp)
    ensures multiset(a[..]) == multiset(old(a[..]))
    ensures SameTies(old(a[..]), a[..], cmp)
    ensures SortedBy(old(a[..i + 1]), cmp) ==> a[..] == old(a[..])
  {
    var j := i;
    ghost var orig := a[..];
    while j > 0 && cmp(a[j - 1], a[j]) > 0
      invariant 0 <= j <= i
      invariant a[..] == MovedLeft(orig, i, j)
      invariant PassedOver(orig, i, j, cmp)
    {
      assert a[j - 1] == orig[j - 1] && a[j] == orig[i];
      PassedOverStep(orig, i, j, cmp);
      MovedLeftStep(orig, i, j);
      Swap(a, j - 1);
      j := j - 1;
    }
    assert j > 0 ==> a[j - 1] == orig[j - 1] && a[j] == orig[i];
    MovedLeftSorted(orig, i, j, cmp);
    MovedLeftKeepsTies(orig, i, j, cmp);
    if j < i {
      OutOfOrderPair(orig[..i + 1], i - 1, cmp);
    }
  }

  /** `s` with its element at `i` taken out and put back at `j`, before the elements
      that were at `j .. i - 1`. */
  function MovedLeft<T>(s: seq<T>, i: nat, j: nat): (r: seq<T>)
    requires j <= i < |s|
    ensures |r| == |s| && r[j] == s[i]
    ensures forall k :: 0 <= k < j ==> r[k] == s[k]
    ensures forall k :: j < k <= i ==> r[k] == s[k - 1]
    ensures forall k :: i < k < |s| ==> r[k] == s[k]
    ensures multiset(r) == multiset(s)
    ensures j == i ==> r == s
  {
    assert s == s[..j] + s[j..i] + [s[i]] + s[i + 1..];
    s[..j] + [s[i]] + s[j..i] + s[i + 1..]
  }

  /** Exchanging the moved element with its left neighbour moves it one place further. */
  lemma MovedLeftStep<T>(s: seq<T>, i: nat, j: nat)
    requires 0 < j <= i < |s|
    ensures MovedLeft(s, i, j)[j - 1 := s[i]][j := s[j - 1]] == MovedLeft(s, i, j - 1)
  {
    var m, m' := MovedLeft(s, i, j), MovedLeft(s, i, j - 1);
    forall k | 0 <= k < |s| ensures m[j - 1 := s[i]][j := s[j - 1]][k] == m'[k] {
      if k < j - 1 {
        assert m[k] == s[k] == m'[k];
      } else if k > i {
        assert m[k] == s[k] == m'[k];
      }
    }
  }

  /** Moving the element at `i` left past the elements of an ordered prefix that must
      come after it, up to one that need not, gives an ordered list up to `i`. */
  lemma MovedLeftSorted<T(!new)>(s: seq<T>, i: nat, j: nat, cmp: (T, T) -> int)
    requires IsTotalPreorder(cmp) && j <= i < |s| && SortedBy(s[..i], cmp)
    requires PassedOver(s, i, j, cmp)
    requires j == 0 || cmp(s[j - 1], s[i]) <= 0
    ensures SortedBy(MovedLeft(s, i, j)[..i + 1], cmp)
  {
    var r := MovedLeft(s, i, j);
    forall p, q | 0 <= p < q <= i ensures cmp(r[p], r[q]) <= 0 {
      if q < j {
        assert s[..i][p] == s[p] && s[..i][q] == s[q];
      } else if q == j {
        if p < j - 1 {
          assert s[..i][p] == s[p] && s[..i][j - 1] == s[j - 1];
          assert cmp(s[p], s[j - 1]) <= 0;
        }
      } else if p < j {
        assert s[..i][p] == s[p] && s[..i][q - 1] == s[q - 1];
      } else if p == j {
        assert Sign(cmp(s[i], s[q - 1])) == -Sign(cmp(s[q - 1], s[i]));
      } else {
        assert s[..i][p - 1] == s[p - 1] && s[..i][q - 1] == s[q - 1];
      }
    }
  }

  /** Moving an element left past elements it does not tie with keeps every run of
      tied elements in order. */
  lemma MovedLeftKeepsTies<T(!new)>(s: seq<T>, i: nat, j: nat, cmp: (T, T) -> int)
    requires IsTotalPreorder(cmp) && j <= i < |s|
    requires PassedOver(s, i, j, cmp)
    ensures SameTies(s, MovedLeft(s, i, j), cmp)
  {
    forall x ensures Ties(s, x, cmp) == Ties(MovedLeft(s, i, j), x, cmp) {
      MovedLeftKeepsTiesOf(s, i, j, x, cmp);
    }
  }

  /** `MovedLeftKeepsTies` for the elements tied with one `x`. */
  lemma MovedLeftKeepsTiesOf<T(!new)>(s: seq<T>, i: nat, j: nat, x: T, cmp: (T, T) -> int)
    requires IsTotalPreorder(cmp) && j <= i < |s|
    requires PassedOver(s, i, j, cmp)
    ensures Ties(s, x, cmp) == Ties(MovedLeft(s, i, j), x, cmp)
  {
    var p := TiedWith(x, cmp);
    if p(s[i]) {
      forall k | j <= k < i ensures !p(s[k]) {
        NotBothTied(x, s[k], s[i], cmp);
      }
    }
    MovedLeftFilter(s, i, j, p);
  }

  /** Moving `s[i]` left past items that cannot both pass `p` with it keeps the filtered
      list as it was. */
  lemma MovedLeftFilter<T(!new)>(s: seq<T>, i: nat, j: nat, p: T -> bool)
    requires j <= i < |s|
    requires p(s[i]) ==> forall k :: j <= k < i ==> !p(s[k])
    ensures Filter(s, p) == Filter(MovedLeft(s, i, j), p)
  {
    var front, middle, back := s[..j], s[j..i], s[i + 1..];
    MovedLeftParts(s, i, j);
    if p(s[i]) {
      NoneInSlice(s, j, i, p);
    }
    FilterSwapped(s, MovedLeft(s, i, j), front, middle, s[i], back, p);
  }

  /** An item of `s[lo..hi]` is an item of `s` between `lo` and `hi`. */
  lemma NoneInSlice<T>(s: seq<T>, lo: nat, hi: nat, p: T -> bool)
    requires lo <= hi <= |s| && forall k :: lo <= k < hi ==> !p(s[k])
    ensures forall k :: 0 <= k < |s[lo..hi]| ==> !p(s[lo..hi][k])
  {
    forall k | 0 <= k < |s[lo..hi]| ensures !p(s[lo..hi][k]) {
      assert s[lo..hi][k] == s[lo + k];
    }
  }

  /** `s` and `MovedLeft(s, i, j)` cut into the same four parts. */
  lemma MovedLeftParts<T>(s: seq<T>, i: nat, j: nat)
    requires j <= i < |s|
    ensures s == s[..j] + s[j..i] + [s[i]] + s[i + 1..]
    ensures MovedLeft(s, i, j) == s[..j] + [s[i]] + s[j..i] + s[i + 1..]
  {
    assert s == s[..j] + s[j..i] + [s[i]] + s[i + 1..];
  }

  /** `FilterSwap` for two lists already known to be made of those parts. */
  lemma FilterSwapped<T(!new)>(s: seq<T>, t: seq<T>, a: seq<T>, m: seq<T>, y: T, b: seq<T>,
                               p: T -> bool)
    requires s == a + m + [y] + b && t == a + [y] + m + b
    requires p(y) ==> forall k :: 0 <= k < |m| ==> !p(m[k])
    ensures Filter(s, p) == Filter(t, p)
  {
    FilterSwap(a, m, y, b, p);
  }

  /** Moving `y` in front of a list `m` none of whose items passes `p` together with `y`
      keeps the filtered list as it was. */
  lemma FilterSwap<T(!new)>(a: seq<T>, m: seq<T>, y: T, b: seq<T>, p: T -> bool)
    requires p(y) ==> forall k :: 0 <= k < |m| ==> !p(m[k])
    ensures Filter(a + m + [y] + b, p) == Filter(a + [y] + m + b, p)
  {
    FilterOfFour(a, m, [y], b, p);
    FilterOfFour(a, [y], m, b, p);
    FilterCons(y, [], p);
    assert [y] + [] == [y];
    if p(y) {
      FilterFirst(m, p);
    }
    SwapMiddle(Filter(a, p), Filter(m, p), Filter([y], p), Filter(b, p));
  }

  /** Two middle parts that commute can change places. */
  lemma SwapMiddle<T>(a: seq<T>, b: seq<T>, c: seq<T>, d: seq<T>)
    requires b + c == c + b
    ensures a + b + c + d == a + c + b + d
  {
    assert a + b + c == a + (b + c);
    assert a + c + b == a + (c + b);
  }

  /** Filtering distributes over a concatenation of four lists. */
  lemma FilterOfFour<T(!new)>(a: seq<T>, b: seq<T>, c: seq<T>, d: seq<T>, p: T -> bool)
    ensures Filter(a + b + c + d, p) == Filter(a, p) + Filter(b, p) + Filter(c, p) + Filter(d, p)
  {
    FilterConcat(a + b + c, d, p);
    FilterConcat(a + b, c, p);
    FilterConcat(a, b, p);
  }

  /** Every item `s[j..i]` compares greater than `s[i]`: insertion has moved `s[i]`
      left past them. */
  ghost predicate PassedOver<T>(s: seq<T>, i: nat, j: nat, cmp: (T, T) -> int)
    requires j <= i < |s|
  {
    forall k :: j <= k < i ==> cmp(s[k], s[i]) > 0
  }

  /** One more item greater than `s[i]` extends `PassedOver` by one place. */
  lemma PassedOverStep<T>(s: seq<T>, i: nat, j: nat, cmp: (T, T) -> int)
    requires 0 < j <= i < |s| && PassedOver(s, i, j, cmp) && cmp(s[j - 1], s[i]) > 0
    ensures PassedOver(s, i, j - 1, cmp)
  {
  }

  /** A list with a neighbour pair out of order is not ordered. */
  lemma OutOfOrderPair<T>(s: seq<T>, k: nat, cmp: (T, T) -> int)
    requires k + 1 < |s| && cmp(s[k], s[k + 1]) > 0
    ensures !SortedBy(s, cmp)
  {
  }

  /** Two items that do not compare equal cannot both tie with a third. */
  lemma NotBothTied<T(!new)>(x: T, u: T, v: T, cmp: (T, T) -> int)
    requires IsTotalPreorder(cmp) && cmp(u, v) != 0
    ensures cmp(x, u) != 0 || cmp(x, v) != 0
  {
    assert Sign(cmp(u, x)) == -Sign(cmp(x, u));
    assert Sign(cmp(v, x)) == -Sign(cmp(x, v));
    assert Sign(cmp(v, u)) == -Sign(cmp(u, v));
  }

  /** Exchanges `a[k]` and `a[k + 1]`. */
  method Swap<T>(a: array<T>, k: nat)
    requires k + 1 < a.Length
    modifies a
    ensures a[..] == old(a[..])[k := old(a[k + 1])][k + 1 := old(a[k])]
    ensures multiset(a[..]) == multiset(old(a[..]))
  {
    a[k], a[k + 1] := a[k + 1], a[k];
  }

  /** Reversing a list ordered by `cmp` gives a list ordered by the swapped comparator:
      the descending order is the ascending one read backwards. */
  lemma ReversedSortedBySwapped<T>(s: seq<T>, cmp: (T, T) -> int)
    requires SortedBy(s, cmp)
    ensures SortedBy(Reversed(s), Swapped(cmp))
  {
    var r := Reversed(s);
    forall i, j | 0 <= i < j < |r| ensures Swapped(cmp)(r[i], r[j]) <= 0 {
      assert r[i] == s[|s| - 1 - i] && r[j] == s[|s| - 1 - j];
    }
  }

  /** A stable sort has one possible result: two lists ordered by `cmp` that hold the
      same items, with every run of equal-comparing items in the same order, are the
      same list. */
  lemma {:induction false} SortedUnique<T(!new)>(s: seq<T>, t: seq<T>, cmp: (T, T) -> int)
    requires IsTotalPreorder(cmp)
    requires SortedBy(s, cmp) && SortedBy(t, cmp)
    requires multiset(s) == multiset(t) && SameTies(s, t, cmp)
    ensures s == t
    decreases |s|
  {
    assert |s| == |multiset(s)| == |multiset(t)| == |t|;
    if s != [] {
      SameHead(s, t, cmp);
      SameTail(s, t, cmp);
      SortedUnique(s[1..], t[1..], cmp);
      assert s == [s[0]] + s[1..] && t == [t[0]] + t[1..];
    }
  }

  /** Two lists as in `SortedUnique` start with the same item. */
  lemma SameHead<T(!new)>(s: seq<T>, t: seq<T>, cmp: (T, T) -> int)
    requires IsTotalPreorder(cmp) && s != [] && t != []
    requires SortedBy(s, cmp) && SortedBy(t, cmp)
    requires multiset(s) == multiset(t) && SameTies(s, t, cmp)
    ensures s[0] == t[0]
  {
    HeadsTie(s, t, cmp);
    var x := s[0];
    TiesStartWithHead(s, x, cmp);
    TiesStartWithHead(t, x, cmp);
    assert Ties(s, x, cmp) == Ties(t, x, cmp);
  }

  /** Two lists as in `SortedUnique` with the same first item have tails as in
      `SortedUnique`. */
  lemma SameTail<T(!new)>(s: seq<T>, t: seq<T>, cmp: (T, T) -> int)
    requires s != [] && t != [] && s[0] == t[0]
    requires SortedBy(s, cmp) && SortedBy(t, cmp)
    requires multiset(s) == multiset(t) && SameTies(s, t, cmp)
    ensures SortedBy(s[1..], cmp) && SortedBy(t[1..], cmp)
    ensures multiset(s[1..]) == multiset(t[1..]) && SameTies(s[1..], t[1..], cmp)
  {
    SameTiesTail(s, t, cmp);
    SortedTail(s, cmp);
    SortedTail(t, cmp);
    TailMultiset(s);
    TailMultiset(t);
  }

  /** The tail of an ordered list is ordered. */
  lemma SortedTail<T>(s: seq<T>, cmp: (T, T) -> int)
    requires s != [] && SortedBy(s, cmp)
    ensures SortedBy(s[1..], cmp)
  {
    forall i, j | 0 <= i < j < |s[1..]| ensures cmp(s[1..][i], s[1..][j]) <= 0 {
      assert s[1..][i] == s[i + 1] && s[1..][j] == s[j + 1];
    }
  }

  /** The tail of a list holds its items but the first. */
  lemma TailMultiset<T>(s: seq<T>)
    requires s != []
    ensures multiset(s[1..]) == multiset(s) - multiset{s[0]}
  {
    assert s == [s[0]] + s[1..];
  }

  /** The first items of two ordered lists holding the same items compare equal. */
  lemma HeadsTie<T(!new)>(s: seq<T>, t: seq<T>, cmp: (T, T) -> int)
    requires IsTotalPreorder(cmp) && s != [] && t != []
    requires SortedBy(s, cmp) && SortedBy(t, cmp) && multiset(s) == multiset(t)
    ensures cmp(s[0], t[0]) == 0 && cmp(s[0], s[0]) == 0
  {
    assert Sign(cmp(s[0], s[0])) == -Sign(cmp(s[0], s[0]));
    assert Sign(cmp(t[0], t[0])) == -Sign(cmp(t[0], t[0]));
    assert t[0] in multiset(s) && s[0] in multiset(t);
    var k :| 0 <= k < |s| && s[k] == t[0];
    var m :| 0 <= m < |t| && t[m] == s[0];
    assert cmp(s[0], s[k]) <= 0 && cmp(t[0], t[m]) <= 0;
    assert Sign(cmp(s[0], t[0])) == -Sign(cmp(t[0], s[0]));
  }

  /** A list whose first item ties with `x` starts the list of `x`'s ties. */
  lemma TiesStartWithHead<T(!new)>(s: seq<T>, x: T, cmp: (T, T) -> int)
    requires s != [] && cmp(x, s[0]) == 0
    ensures Ties(s, x, cmp) != [] && Ties(s, x, cmp)[0] == s[0]
  {
    assert s == [s[0]] + s[1..];
    FilterCons(s[0], s[1..], TiedWith(x, cmp));
  }

  /** Dropping the same first item from two lists keeps `SameTies`. */
  lemma SameTiesTail<T(!new)>(s: seq<T>, t: seq<T>, cmp: (T, T) -> int)
    requires s != [] && t != [] && s[0] == t[0] && SameTies(s, t, cmp)
    ensures SameTies(s[1..], t[1..], cmp)
  {
    forall y ensures Ties(s[1..], y, cmp) == Ties(t[1..], y, cmp) {
      var p := TiedWith(y, cmp);
      var head := if p(s[0]) then [s[0]] else [];
      assert s == [s[0]] + s[1..] && t == [t[0]] + t[1..];
      FilterCons(s[0], s[1..], p);
      FilterCons(t[0], t[1..], p);
      assert Ties(s, y, cmp) == head + Ties(s[1..], y, cmp);
      assert Ties(t, y, cmp) == head + Ties(t[1..], y, cmp);
      assert (head + Ties(s[1..], y, cmp))[|head|..] == Ties(s[1..], y, cmp);
      assert (head + Ties(t[1..], y, cmp))[|head|..] == Ties(t[1..], y, cmp);
    }
  }

  /** No two different items of `s` compare equal. */
  ghost predicate NoDistinctTies<T>(s: seq<T>, cmp: (T, T) -> int) {
    forall x, y :: x in s && y in s && cmp(x, y) == 0 ==> x == y
  }

  /** Without different items that compare equal, holding the same items is enough for
      `SameTies`: each run of ties is copies of a single item. */
  lemma NoDistinctTiesSameTies<T(!new)>(s: seq<T>, t: seq<T>, cmp: (T, T) -> int)
    requires IsTotalPreorder(cmp) && NoDistinctTies(s, cmp) && multiset(s) == multiset(t)
    ensures SameTies(s, t, cmp)
  {
    forall x ensures Ties(s, x, cmp) == Ties(t, x, cmp) {
      var a, b := Ties(s, x, cmp), Ties(t, x, cmp);
      forall y ensures multiset(a)[y] == multiset(b)[y] {
        assert multiset(a)[y] == if cmp(x, y) == 0 then multiset(s)[y] else 0;
        assert multiset(b)[y] == if cmp(x, y) == 0 then multiset(t)[y] else 0;
      }
      assert multiset(a) == multiset(b);
      if a != [] {
        var v := a[0];
        assert cmp(x, v) == 0 && v in s by {
          assert multiset(a)[v] == if cmp(x, v) == 0 then multiset(s)[v] else 0;
        }
        forall y | y in multiset(a) ensures y == v {
          assert multiset(a)[y] == if cmp(x, y) == 0 then multiset(s)[y] else 0;
          TiedTogether(x, v, y, cmp);
        }
        SameItemRepeated(a, b, v);
      }
    }
  }

  /** Two items tied with a third are tied with each other. */
  lemma TiedTogether<T(!new)>(x: T, u: T, v: T, cmp: (T, T) -> int)
    requires IsTotalPreorder(cmp) && cmp(x, u) == 0 && cmp(x, v) == 0
    ensures cmp(u, v) == 0
  {
    assert Sign(cmp(u, x)) == -Sign(cmp(x, u));
    assert Sign(cmp(v, x)) == -Sign(cmp(x, v));
    assert cmp(u, x) <= 0 && cmp(x, v) <= 0 ==> cmp(u, v) <= 0;
    assert cmp(v, x) <= 0 && cmp(x, u) <= 0 ==> cmp(v, u) <= 0;
    assert Sign(cmp(u, v)) == -Sign(cmp(v, u));
  }

  /** Two lists holding the same items, all equal to `v`, are the same list. */
  lemma SameItemRepeated<T>(a: seq<T>, b: seq<T>, v: T)
    requires multiset(a) == multiset(b) && forall y :: y in multiset(a) ==> y == v
    ensures a == b
  {
    assert |a| == |multiset(a)| == |multiset(b)| == |b|;
    forall i | 0 <= i < |a| ensures a[i] == b[i] {
      assert a[i] in multiset(a) && b[i] in multiset(b);
    }
  }

  /** Reading a list backwards keeps its items. */
  lemma {:induction false} ReversedMultiset<T>(s: seq<T>)
    ensures multiset(Reversed(s)) == multiset(s)
  {
    if s != [] {
      ReversedMultiset(s[1..]);
      assert s == [s[0]] + s[1..];
    }
  }

  /** Swapping a comparator's arguments keeps what the sort asks of it. */
  lemma SwappedIsTotalPreorder<T(!new)>(cmp: (T, T) -> int)
    requires IsTotalPreorder(cmp)
    ensures IsTotalPreorder(Swapped(cmp))
  {
    var sw := Swapped(cmp);
    forall x, y ensures Sign(sw(x, y)) == -Sign(sw(y, x)) {
      assert Sign(cmp(y, x)) == -Sign(cmp(x, y));
    }
    forall x, y, z | sw(x, y) <= 0 && sw(y, z) <= 0 ensures sw(x, z) <= 0 {
      assert cmp(z, y) <= 0 && cmp(y, x) <= 0;
    }
  }

  /** When no two different items compare equal, sorting by the swapped comparator gives
      exactly the reverse of sorting by `cmp`: the descending result is the ascending
      one read backwards. */
  lemma SwappedSortIsReversed<T(!new)>(up: seq<T>, down: seq<T>, cmp: (T, T) -> int)
    requires IsTotalPreorder(cmp) && NoDistinctTies(up, cmp)
    requires SortedBy(up, cmp) && SortedBy(down, Swapped(cmp))
    requires multiset(down) == multiset(up)
    ensures down == Reversed(up)
  {
    var r := Reversed(up);
    ReversedSortedBySwapped(up, cmp);
    ReversedMultiset(up);
    SwappedIsTotalPreorder(cmp);
    assert NoDistinctTies(r, Swapped(cmp)) by {
      forall x, y | x in r && y in r && Swapped(cmp)(x, y) == 0 ensures x == y {
        assert x in multiset(up) && y in multiset(up);
        assert cmp(y, x) == 0;
      }
    }
    NoDistinctTiesSameTies(r, down, Swapped(cmp));
    SortedUnique(r, down, Swapped(cmp));
  }
}
