/** Facts about sequences of keys: sortedness, first index, sub-ranges. */
module Seqs {

  /** Non-decreasing order, the order of an inorder traversal of a search tree. */
  ghost predicate Sorted(s: seq<int>)
  {
    forall i, j :: 0 <= i < j < |s| ==> s[i] <= s[j]
  }

  /** Strictly increasing order (all keys distinct). */
  ghost predicate StrictlySorted(s: seq<int>)
  {
    forall i, j :: 0 <= i < j < |s| ==> s[i] < s[j]
  }

  /** Python's `list.index`: the position of the first occurrence of `x`. */
  function IndexOf(s: seq<int>, x: int): (i: nat)
    requires x in s
    ensures i < |s| && s[i] == x
    ensures forall j :: 0 <= j < i ==> s[j] != x
  {
    if s[0] == x then 0 else 1 + IndexOf(s[1..], x)
  }

  /** The elements `y` of `s` with `lo <= y < hi`, in their order in `s`. */
  function Within(s: seq<int>, lo: int, hi: int): (r: seq<int>)
    ensures forall y :: y in r ==> y in s && lo <= y < hi
  {
    if s == [] then []
    else (if lo <= s[0] < hi then [s[0]] else []) + Within(s[1..], lo, hi)
  }

  lemma {:induction false} WithinAppend(a: seq<int>, b: seq<int>, lo: int, hi: int)
    ensures Within(a + b, lo, hi) == Within(a, lo, hi) + Within(b, lo, hi)
  {
    if a == [] {
      assert a + b == b;
    } else {
      assert (a + b)[0] == a[0];
      assert (a + b)[1..] == a[1..] + b;
      WithinAppend(a[1..], b, lo, hi);
    }
  }

  lemma {:induction false} WithinAll(s: seq<int>, lo: int, hi: int)
    requires forall i :: 0 <= i < |s| ==> lo <= s[i] < hi
    ensures Within(s, lo, hi) == s
  {
    if s != [] {
      WithinAll(s[1..], lo, hi);
    }
  }

  lemma {:induction false} WithinNone(s: seq<int>, lo: int, hi: int)
    requires forall i :: 0 <= i < |s| ==> !(lo <= s[i] < hi)
    ensures Within(s, lo, hi) == []
  {
    if s != [] {
      WithinNone(s[1..], lo, hi);
    }
  }

  /** A sorted sequence splits at any element into a sorted prefix of smaller-or-equal
      elements and a sorted suffix of greater-or-equal ones, and conversely. */
  lemma SortedJoin(a: seq<int>, k: int, b: seq<int>)
    ensures Sorted(a + [k] + b) <==>
            && Sorted(a) && Sorted(b)
            && (forall y :: y in a ==> y <= k)
            && (forall y :: y in b ==> k <= y)
  {
    var s := a + [k] + b;
    if Sorted(s) {
      forall i, j | 0 <= i < j < |a| ensures a[i] <= a[j] {
        assert s[i] == a[i] && s[j] == a[j];
      }
      forall i, j | 0 <= i < j < |b| ensures b[i] <= b[j] {
        assert s[|a| + 1 + i] == b[i] && s[|a| + 1 + j] == b[j];
      }
      forall y | y in a ensures y <= k {
        var i :| 0 <= i < |a| && a[i] == y;
        assert s[i] == y && s[|a|] == k;
      }
      forall y | y in b ensures k <= y {
        var i :| 0 <= i < |b| && b[i] == y;
        assert s[|a| + 1 + i] == y && s[|a|] == k;
      }
    }
    if && Sorted(a) && Sorted(b)
       && (forall y :: y in a ==> y <= k)
       && (forall y :: y in b ==> k <= y)
    {
      forall i, j | 0 <= i < j < |s| ensures s[i] <= s[j] {
        if j < |a| {
          assert s[i] == a[i] && s[j] == a[j];
        } else if i > |a| {
          assert s[i] == b[i - |a| - 1] && s[j] == b[j - |a| - 1];
        } else {
          if i < |a| { assert s[i] == a[i] && a[i] in a; }
          if j > |a| { assert s[j] == b[j - |a| - 1] && b[j - |a| - 1] in b; }
        }
      }
    }
  }

  /** Deleting one element keeps a sequence sorted. */
  lemma SortedRemoveAt(s: seq<int>, p: nat)
    requires Sorted(s) && p < |s|
    ensures Sorted(s[..p] + s[p + 1..])
  {
    var r := s[..p] + s[p + 1..];
    forall i, j | 0 <= i < j < |r| ensures r[i] <= r[j] {
      var i' := if i < p then i else i + 1;
      var j' := if j < p then j else j + 1;
      assert r[i] == s[i'] && r[j] == s[j'];
    }
  }

  /** Overwriting position `p` of a sorted sequence keeps it sorted exactly when the new
      value lies between the old neighbours of `p`. */
  lemma SortedUpdate(s: seq<int>, p: nat, v: int)
    requires Sorted(s) && p < |s|
    ensures Sorted(s[p := v]) <==>
            (p == 0 || s[p - 1] <= v) && (p + 1 == |s| || v <= s[p + 1])
  {
    var r := s[p := v];
    if (p == 0 || s[p - 1] <= v) && (p + 1 == |s| || v <= s[p + 1]) {
      forall i, j | 0 <= i < j < |r| ensures r[i] <= r[j] {
        if i == p {
          assert v <= s[p + 1] <= s[j];
        } else if j == p {
          assert s[i] <= s[p - 1] <= v;
        }
      }
    } else if p > 0 && v < s[p - 1] {
      assert r[p - 1] > r[p];
    } else {
      assert r[p] > r[p + 1];
    }
  }

  /** A sorted sequence is determined by its multiset of elements. */
  lemma {:induction false} SortedUnique(a: seq<int>, b: seq<int>)
    requires Sorted(a) && Sorted(b) && multiset(a) == multiset(b)
    ensures a == b
  {
    if a == [] {
      assert |b| == |multiset(b)| == 0;
    } else {
      SortedSameHead(a, b);
      SortedTail(a);
      SortedTail(b);
      TailMultiset(a);
      TailMultiset(b);
      SortedUnique(a[1..], b[1..]);
      SameHeadAndTail(a, b);
    }
  }

  lemma SortedSameHead(a: seq<int>, b: seq<int>)
    requires Sorted(a) && Sorted(b) && multiset(a) == multiset(b) && a != []
    ensures b != [] && a[0] == b[0]
  {
    assert a[0] in multiset(b);
    var i :| 0 <= i < |b| && b[i] == a[0];
    assert b[0] in multiset(a);
    var j :| 0 <= j < |a| && a[j] == b[0];
    assert i == 0 || b[0] <= b[i];
    assert j == 0 || a[0] <= a[j];
  }

  lemma SortedTail(a: seq<int>)
    requires Sorted(a) && a != []
    ensures Sorted(a[1..])
  {
    forall i, j | 0 <= i < j < |a| - 1 ensures a[1..][i] <= a[1..][j] {
      assert a[1..][i] == a[i + 1] && a[1..][j] == a[j + 1];
    }
  }

  lemma TailMultiset(a: seq<int>)
    requires a != []
    ensures multiset(a[1..]) == multiset(a) - multiset{a[0]}
  {
    assert a == [a[0]] + a[1..];
  }

  lemma SameHeadAndTail(a: seq<int>, b: seq<int>)
    requires a != [] && b != [] && a[0] == b[0] && a[1..] == b[1..]
    ensures a == b
  {
    assert a == [a[0]] + a[1..];
    assert b == [b[0]] + b[1..];
  }

  // Splicing one element into, or out of, one side of `a + [k] + c`.

  lemma SpliceIntoLeft(a: seq<int>, k: int, c: seq<int>, p: nat, x: int)
    requires p <= |a|
    ensures var s := a + [k] + c;
            (a[..p] + [x] + a[p..]) + [k] + c == s[..p] + [x] + s[p..]
  {
    var s := a + [k] + c;
    assert s[..p] == a[..p];
    assert s[p..] == a[p..] + [k] + c;
  }

  lemma SpliceIntoRight(a: seq<int>, k: int, c: seq<int>, q: nat, x: int)
    requires q <= |c|
    ensures var s := a + [k] + c;
            a + [k] + (c[..q] + [x] + c[q..]) == s[..|a| + 1 + q] + [x] + s[|a| + 1 + q..]
  {
    var s := a + [k] + c;
    assert s[..|a| + 1 + q] == a + [k] + c[..q];
    assert s[|a| + 1 + q..] == c[q..];
  }

  lemma SpliceOutOfLeft(a: seq<int>, k: int, c: seq<int>, d: seq<int>, s: seq<int>, p: nat)
    requires p < |a| && s == a + [k] + c && d == a[..p] + a[p + 1..]
    ensures d + [k] + c == s[..p] + s[p + 1..]
  {
    assert s[..p] == a[..p];
    assert s[p + 1..] == a[p + 1..] + [k] + c;
  }

  lemma SpliceOutOfRight(a: seq<int>, k: int, c: seq<int>, d: seq<int>, s: seq<int>, q: nat)
    requires q < |c| && s == a + [k] + c && d == c[..q] + c[q + 1..]
    ensures a + [k] + d == s[..|a| + 1 + q] + s[|a| + 1 + q + 1..]
  {
    assert s[..|a| + 1 + q] == a + [k] + c[..q];
    assert s[|a| + 1 + q + 1..] == c[q + 1..];
  }

  lemma SpliceOutOfMiddle(a: seq<int>, k: int, c: seq<int>)
    ensures var s := a + [k] + c;
            a + c == s[..|a|] + s[|a| + 1..]
  {
    var s := a + [k] + c;
    assert s[..|a|] == a;
    assert s[|a| + 1..] == c;
  }

  // Updating one element on one side of `a + [k] + c`.

  lemma UpdateInLeft(a: seq<int>, k: int, c: seq<int>, p: nat, v: int)
    requires p < |a|
    ensures a[p := v] + [k] + c == (a + [k] + c)[p := v]
  {
  }

  lemma UpdateInRight(a: seq<int>, k: int, c: seq<int>, q: nat, v: int)
    requires q < |c|
    ensures a + [k] + c[q := v] == (a + [k] + c)[|a| + 1 + q := v]
  {
  }

  lemma UpdateAtMiddle(a: seq<int>, k: int, c: seq<int>, v: int)
    ensures a + [v] + c == (a + [k] + c)[|a| := v]
  {
  }

  /** Putting `x` after the elements at most `x` and before those greater than it keeps
      a sorted sequence sorted. */
  lemma SortedInsertAt(s: seq<int>, p: nat, x: int)
    requires Sorted(s) && p <= |s|
    requires forall i :: 0 <= i < p ==> s[i] <= x
    requires forall i :: p <= i < |s| ==> x < s[i]
    ensures Sorted(s[..p] + [x] + s[p..])
  {
    var r := s[..p] + [x] + s[p..];
    forall i, j | 0 <= i < j < |r| ensures r[i] <= r[j] {
      if j < p {
        assert r[i] == s[i] && r[j] == s[j];
      } else if i > p {
        assert r[i] == s[i - 1] && r[j] == s[j - 1];
      } else if i == p {
        assert r[j] == s[j - 1];
      } else {
        assert r[i] == s[i];
        if j > p { assert r[j] == s[j - 1]; }
      }
    }
  }

  lemma SpliceInContents(s: seq<int>, p: nat, x: int)
    requires p <= |s|
    ensures multiset(s[..p] + [x] + s[p..]) == multiset(s) + multiset{x}
    ensures forall y :: y in s[..p] + [x] + s[p..] <==> y in s || y == x
  {
    assert s == s[..p] + s[p..];
    var r := s[..p] + [x] + s[p..];
    forall y ensures y in r <==> y in s || y == x {
      assert y in r <==> y in multiset(r);
      assert y in s <==> y in multiset(s);
    }
  }

  lemma SpliceOutContents(s: seq<int>, p: nat)
    requires p < |s|
    ensures multiset(s[..p] + s[p + 1..]) == multiset(s) - multiset{s[p]}
  {
    assert s == s[..p] + [s[p]] + s[p + 1..];
  }

  lemma SplitAtMiddle(s: seq<int>, m: nat)
    requires m < |s|
    ensures multiset(s) == multiset(s[..m]) + multiset{s[m]} + multiset(s[m + 1..])
  {
    assert s == s[..m] + [s[m]] + s[m + 1..];
  }

  /** The two halves `a` and `b` around position `m` of a strictly sorted sequence are
      strictly sorted, below and above `s[m]` respectively. */
  lemma StrictlySortedHalves(s: seq<int>, m: nat, a: seq<int>, b: seq<int>)
    requires StrictlySorted(s) && m < |s|
    requires a == s[..m] && b == s[m + 1..]
    ensures StrictlySorted(a) && StrictlySorted(b)
    ensures forall y :: y in a ==> y < s[m]
    ensures forall y :: y in b ==> s[m] < y
  {
    forall i, j | 0 <= i < j < |b| ensures b[i] < b[j] {
      assert b[i] == s[m + 1 + i] && b[j] == s[m + 1 + j];
    }
    forall y | y in a ensures y < s[m] {
      var i :| 0 <= i < |a| && a[i] == y;
    }
    forall y | y in b ensures s[m] < y {
      var i :| 0 <= i < |b| && b[i] == y;
      assert b[i] == s[m + 1 + i];
    }
  }

  /** In a sorted sequence, the elements from the first `lo` (at `i`) up to the first
      `hi` (at `j`) are exactly those in the half-open range [lo, hi). */
  lemma WithinSorted(s: seq<int>, i: nat, j: nat)
    requires Sorted(s) && i <= j < |s|
    requires forall m :: 0 <= m < i ==> s[m] != s[i]
    requires forall m :: 0 <= m < j ==> s[m] != s[j]
    ensures Within(s, s[i], s[j]) == s[i..j]
  {
    WithinSplit(s, i, j, s[i], s[j]);
    WithinSortedBelow(s, i, s[j], s[..i]);
    WithinSortedBetween(s, i, j, s[i..j]);
    WithinSortedAbove(s, j, s[i], s[j..]);
  }

  lemma WithinSplit(s: seq<int>, i: nat, j: nat, lo: int, hi: int)
    requires i <= j <= |s|
    ensures Within(s, lo, hi) == Within(s[..i], lo, hi) + Within(s[i..j], lo, hi) + Within(s[j..], lo, hi)
  {
    assert s == s[..i] + s[i..j] + s[j..];
    WithinAppend(s[..i] + s[i..j], s[j..], lo, hi);
    WithinAppend(s[..i], s[i..j], lo, hi);
  }

  lemma WithinSortedBelow(s: seq<int>, i: nat, hi: int, pre: seq<int>)
    requires Sorted(s) && i < |s| && pre == s[..i]
    requires forall m :: 0 <= m < i ==> s[m] != s[i]
    ensures Within(pre, s[i], hi) == []
  {
    forall m | 0 <= m < |pre| ensures !(s[i] <= pre[m] < hi) {
      assert pre[m] == s[m] && s[m] <= s[i];
    }
    WithinNone(pre, s[i], hi);
  }

  lemma WithinSortedBetween(s: seq<int>, i: nat, j: nat, mid: seq<int>)
    requires Sorted(s) && i <= j < |s| && mid == s[i..j]
    requires forall m :: 0 <= m < j ==> s[m] != s[j]
    ensures Within(mid, s[i], s[j]) == mid
  {
    forall m | 0 <= m < |mid| ensures s[i] <= mid[m] < s[j] {
      assert mid[m] == s[i + m] && s[i] <= s[i + m] <= s[j];
    }
    WithinAll(mid, s[i], s[j]);
  }

  lemma WithinSortedAbove(s: seq<int>, j: nat, lo: int, post: seq<int>)
    requires Sorted(s) && j < |s| && post == s[j..]
    ensures Within(post, lo, s[j]) == []
  {
    forall m | 0 <= m < |post| ensures !(lo <= post[m] < s[j]) {
      assert post[m] == s[j + m] && s[j] <= s[j + m];
    }
    WithinNone(post, lo, s[j]);
  }

  /** In a sorted sequence a smaller element sits at a smaller index. */
  lemma SortedIndexOrder(s: seq<int>, i: nat, j: nat)
    requires Sorted(s) && i < |s| && j < |s| && s[i] < s[j]
    ensures i < j
  {
  }

  lemma SliceExtend(s: seq<int>, i: nat, j: nat)
    requires i <= j < |s|
    ensures s[i..j + 1] == s[i..j] + [s[j]]
  {
  }

  /** For the first positions `i` and `j` of two elements of a sorted sequence: they are
      in the order of the elements, and between them lie exactly the elements in
      [s[i], s[j]). */
  lemma SortedFirstIndices(s: seq<int>, i: nat, j: nat)
    requires Sorted(s) && i < |s| && j < |s|
    requires forall m :: 0 <= m < i ==> s[m] != s[i]
    requires forall m :: 0 <= m < j ==> s[m] != s[j]
    ensures i <= j <==> s[i] <= s[j]
    ensures i <= j ==> Within(s, s[i], s[j]) == s[i..j]
  {
    if s[i] < s[j] {
      SortedIndexOrder(s, i, j);
    } else if s[j] < s[i] {
      SortedIndexOrder(s, j, i);
    }
    if i <= j {
      WithinSorted(s, i, j);
    }
  }


  lemma MultisetAssoc(a: multiset<int>, b: multiset<int>, c: multiset<int>)
    ensures a + b + c == a + (b + c)
  {
  }

  lemma MultisetOfLast(s: seq<int>)
    requires s != []
    ensures multiset(s) == multiset(s[..|s| - 1]) + multiset{s[|s| - 1]}
  {
    assert s == s[..|s| - 1] + [s[|s| - 1]];
  }
}
