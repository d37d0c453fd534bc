/** List operations the filters are made of: JavaScript's `Array.prototype.filter`,
    the de-duplication helper `removeDuplicatesArray`, and the facts that say what a
    filtered list is. */
module Lists {

  /** `r` can be obtained from `s` by deleting elements: the elements of `r`
      appear in `s` in the same order. */
  ghost predicate IsSubsequence<T>(r: seq<T>, s: seq<T>)
    decreases |s|
  {
    r == [] ||
    (s != [] && ((r[0] == s[0] && IsSubsequence(r[1..], s[1..])) || IsSubsequence(r, s[1..])))
  }

  /** `r` is what is left of `s` after dropping exactly the elements that fail `p`:
      an order-preserving subsequence of `s` holding every element that passes `p`,
      as often as `s` holds it, and nothing else. */
  ghost predicate KeepsExactly<T(!new)>(r: seq<T>, s: seq<T>, p: T -> bool) {
    && IsSubsequence(r, s)
    && forall x {:trigger multiset(r)[x]} :: multiset(r)[x] == if p(x) then multiset(s)[x] else 0
  }

  /** `s.filter(p)`. */
  function Filter<T(!new)>(s: seq<T>, p: T -> bool): (r: seq<T>)
    ensures KeepsExactly(r, s, p)
  {
    if s == [] then []
    else
      assert s == [s[0]] + s[1..];
      if p(s[0]) then [s[0]] + Filter(s[1..], p) else Filter(s[1..], p)
  }

  /** `removeDuplicatesArray(s)`: the first occurrence of every element, in order. */
  function RemoveDuplicates<T(==)>(s: seq<T>): (r: seq<T>)
    ensures forall x :: x in r ==> x in s
    ensures forall x :: x in s ==> x in r
    ensures forall i, j :: 0 <= i < j < |r| ==> r[i] != r[j]
    ensures IsSubsequence(r, s)
    ensures FirstOccurrenceOrder(r, s)
  {
    if s == [] then []
    else
      var init, last := s[..|s| - 1], s[|s| - 1];
      var r := RemoveDuplicates(init);
      assert s == init + [last];
      SubsequenceSnoc(r, init, last);
      FirstOccurrenceOrderSnoc(r, init, last);
      if last in r then r else r + [last]
  }

  /** Every element of `r` occurs in `s` before each occurrence of every element that
      follows it in `r`. */
  ghost predicate FirstOccurrenceOrder<T>(r: seq<T>, s: seq<T>) {
    forall i, j, k :: 0 <= i < j < |r| && 0 <= k < |s| && s[k] == r[j] ==> r[i] in s[..k]
  }

  /** The step of `RemoveDuplicates` that appends the last element when it is new. */
  lemma FirstOccurrenceOrderSnoc<T>(r: seq<T>, init: seq<T>, last: T)
    requires forall x :: x in r <==> x in init
    requires FirstOccurrenceOrder(r, init)
    ensures FirstOccurrenceOrder(if last in r then r else r + [last], init + [last])
  {
    var s := init + [last];
    var r' := if last in r then r else r + [last];
    forall i, j, k | 0 <= i < j < |r'| && 0 <= k < |s| && s[k] == r'[j]
      ensures r'[i] in s[..k]
    {
      assert r'[i] == r[i];
      if j == |r| {
        assert r'[j] == last && last !in init;
        assert k == |init|;
        assert s[..k] == init;
        assert r[i] in r;
      } else {
        assert r'[j] == r[j];
        if k < |init| {
          assert s[..k] == init[..k] && s[k] == init[k];
        } else {
          assert s[..k] == init;
          assert r[i] in r;
        }
      }
    }
  }

  /** A subsequence stays one when an element is appended to the longer list,
      or to both lists. */
  lemma {:induction false} SubsequenceSnoc<T>(r: seq<T>, s: seq<T>, x: T)
    requires IsSubsequence(r, s)
    ensures IsSubsequence(r, s + [x])
    ensures IsSubsequence(r + [x], s + [x])
    decreases |s|
  {
    if s == [] {
      assert r == [];
      assert ([x] + [])[1..] == [];
    } else {
      assert (s + [x])[1..] == s[1..] + [x];
      if r == [] {
        SubsequenceSnoc([], s[1..], x);
        assert r + [x] == [x];
      } else {
        assert (r + [x])[1..] == r[1..] + [x];
        if r[0] == s[0] && IsSubsequence(r[1..], s[1..]) {
          SubsequenceSnoc(r[1..], s[1..], x);
        } else {
          SubsequenceSnoc(r, s[1..], x);
        }
      }
    }
  }

  /** A subsequence holds each element at most as often as the list it comes from. */
  lemma {:induction false} SubsequenceMultiset<T>(r: seq<T>, s: seq<T>)
    requires IsSubsequence(r, s)
    ensures multiset(r) <= multiset(s)
    decreases |s|
  {
    if r != [] {
      assert s == [s[0]] + s[1..];
      if r[0] == s[0] && IsSubsequence(r[1..], s[1..]) {
        SubsequenceMultiset(r[1..], s[1..]);
        assert r == [r[0]] + r[1..];
      } else {
        SubsequenceMultiset(r, s[1..]);
      }
    }
  }

  /** Every list is a subsequence of itself. */
  lemma {:induction false} SubsequenceReflexive<T>(s: seq<T>)
    ensures IsSubsequence(s, s)
    decreases |s|
  {
    if s != [] {
      SubsequenceReflexive(s[1..]);
    }
  }

  /** A subsequence of a subsequence is a subsequence. */
  lemma {:induction false} SubsequenceTransitive<T>(a: seq<T>, b: seq<T>, c: seq<T>)
    requires IsSubsequence(a, b) && IsSubsequence(b, c)
    ensures IsSubsequence(a, c)
    decreases |c|
  {
    if a != [] {
      if b[0] == c[0] && IsSubsequence(b[1..], c[1..]) {
        if a[0] == b[0] && IsSubsequence(a[1..], b[1..]) {
          SubsequenceTransitive(a[1..], b[1..], c[1..]);
        } else {
          SubsequenceTransitive(a, b[1..], c[1..]);
        }
      } else {
        SubsequenceTransitive(a, b, c[1..]);
      }
    }
  }

  /** `KeepsExactly` depends only on which elements pass, not on how the test is written. */
  lemma KeepsExactlySame<T(!new)>(r: seq<T>, s: seq<T>, p: T -> bool, q: T -> bool)
    requires KeepsExactly(r, s, p)
    requires forall x :: p(x) == q(x)
    ensures KeepsExactly(r, s, q)
  {
    forall x ensures multiset(r)[x] == if q(x) then multiset(s)[x] else 0 {
      assert multiset(r)[x] == if p(x) then multiset(s)[x] else 0;
    }
  }

  /** A list whose every element passes `p` keeps all of itself. */
  lemma KeepsAll<T(!new)>(s: seq<T>, p: T -> bool)
    requires forall i :: 0 <= i < |s| ==> p(s[i])
    ensures KeepsExactly(s, s, p)
  {
    SubsequenceReflexive(s);
  }

  /** Filtering by `p` and then by `q` keeps exactly what passes both. */
  lemma KeepsExactlyCompose<T(!new)>(s: seq<T>, r1: seq<T>, r2: seq<T>, p: T -> bool, q: T -> bool, pq: T -> bool)
    requires KeepsExactly(r1, s, p) && KeepsExactly(r2, r1, q)
    requires forall x :: pq(x) == (p(x) && q(x))
    ensures KeepsExactly(r2, s, pq)
  {
    SubsequenceTransitive(r2, r1, s);
  }

  /** `KeepsExactly` pins the result down: the only such list is `Filter(s, p)`. */
  lemma {:induction false} KeepsExactlyIsFilter<T(!new)>(r: seq<T>, s: seq<T>, p: T -> bool)
    requires KeepsExactly(r, s, p)
    ensures r == Filter(s, p)
    decreases |s|
  {
    if s == [] {
      assert r == [];
    } else {
      var h, t := s[0], s[1..];
      assert s == [h] + t;
      if r == [] {
        assert multiset(t)[h] == multiset(s)[h] - 1 by {
          assert multiset(s) == multiset{h} + multiset(t);
        }
        assert multiset(r)[h] == 0 < multiset(s)[h];
        assert !p(h);
        assert KeepsExactly(r, t, p);
        KeepsExactlyIsFilter(r, t, p);
      } else if p(h) {
        if r[0] == h && IsSubsequence(r[1..], t) {
          assert r == [h] + r[1..];
          assert multiset(r) == multiset{h} + multiset(r[1..]);
          assert multiset(s) == multiset{h} + multiset(t);
          forall x ensures multiset(r[1..])[x] == if p(x) then multiset(t)[x] else 0 {
            assert multiset(r)[x] == if p(x) then multiset(s)[x] else 0;
          }
          KeepsExactlyIsFilter(r[1..], t, p);
        } else {
          SubsequenceMultiset(r, t);
          assert false;
        }
      } else {
        assert r[0] != h by {
          assert r[0] in multiset(r);
        }
        assert KeepsExactly(r, t, p);
        KeepsExactlyIsFilter(r, t, p);
      }
    }
  }

  /** Filtering a list whose every element passes `p` returns the list unchanged. */
  lemma FilterAllPass<T(!new)>(s: seq<T>, p: T -> bool)
    requires forall i :: 0 <= i < |s| ==> p(s[i])
    ensures Filter(s, p) == s
  {
    KeepsAll(s, p);
    KeepsExactlyIsFilter(s, s, p);
  }

  /** Filtering twice by the same predicate is filtering once. */
  lemma FilterIdempotent<T(!new)>(s: seq<T>, p: T -> bool)
    ensures Filter(Filter(s, p), p) == Filter(s, p)
  {
    var r := Filter(s, p);
    forall i | 0 <= i < |r| ensures p(r[i]) {
      assert multiset(r)[r[i]] > 0;
    }
    FilterAllPass(r, p);
  }

  /** Filtering distributes over concatenation. */
  lemma {:induction false} FilterConcat<T(!new)>(a: seq<T>, b: seq<T>, p: T -> bool)
    ensures Filter(a + b, p) == Filter(a, p) + Filter(b, p)
    decreases |a|
  {
    if a == [] {
      assert a + b == b;
    } else {
      var x, t := a[0], a[1..];
      var head := if p(x) then [x] else [];
      calc {
        Filter(a + b, p);
        { assert a + b == [x] + (t + b); }
        Filter([x] + (t + b), p);
        { FilterCons(x, t + b, p); }
        head + Filter(t + b, p);
        { FilterConcat(t, b, p); }
        head + (Filter(t, p) + Filter(b, p));
        (head + Filter(t, p)) + Filter(b, p);
        { FilterCons(x, t, p); assert a == [x] + t; }
        Filter(a, p) + Filter(b, p);
      }
    }
  }

  /** Filtering a list with a known first element. */
  lemma FilterCons<T(!new)>(x: T, t: seq<T>, p: T -> bool)
    ensures Filter([x] + t, p) == (if p(x) then [x] else []) + Filter(t, p)
  {
    assert ([x] + t)[0] == x && ([x] + t)[1..] == t;
  }

  /** The filtered list is empty exactly when nothing passes, and otherwise it starts
      with the first element that passes. */
  lemma {:induction false} FilterFirst<T(!new)>(s: seq<T>, p: T -> bool)
    ensures Filter(s, p) == [] <==> forall i :: 0 <= i < |s| ==> !p(s[i])
    ensures Filter(s, p) != [] ==>
      exists i :: 0 <= i < |s| && p(s[i]) && Filter(s, p)[0] == s[i] &&
        forall j :: 0 <= j < i ==> !p(s[j])
    decreases |s|
  {
    if s != [] && !p(s[0]) {
      FilterFirst(s[1..], p);
      if Filter(s, p) != [] {
        var i :| 0 <= i < |s[1..]| && p(s[1..][i]) && Filter(s[1..], p)[0] == s[1..][i] &&
          forall j :: 0 <= j < i ==> !p(s[1..][j]);
        assert forall j :: 0 <= j < i + 1 ==> !p(s[j]) by {
          forall j | 0 <= j < i + 1 ensures !p(s[j]) {
            if j > 0 {
              assert s[j] == s[1..][j - 1];
            }
          }
        }
        assert p(s[i + 1]) && Filter(s, p)[0] == s[i + 1];
      } else {
        forall i | 0 <= i < |s| ensures !p(s[i]) {
          if i > 0 {
            assert s[i] == s[1..][i - 1];
          }
        }
      }
    }
  }
}
