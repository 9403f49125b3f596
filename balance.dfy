/**
 * `rebalance` (linkedbst.py:268-283) as a value: the keys of the inorder snapshot are
 * added to an empty tree middle element first, then the left half, then the right half,
 * recursively (`rebalance1`).
 */
module Balance {
  import opened Seqs
  import opened Trees

  function Pow2(n: nat): (p: nat)
    ensures p >= 1
  {
    if n == 0 then 1 else 2 * Pow2(n - 1)
  }

  lemma {:induction false} Pow2Monotone(a: nat, b: nat)
    requires a <= b
    ensures Pow2(a) <= Pow2(b)
  {
    if a < b {
      Pow2Monotone(a, b - 1);
    }
  }

  /** A tree of height `h` holds fewer than 2^(h+1) keys. */
  lemma {:induction false} SizeBelowPow2Height(t: Tree)
    requires t.Node?
    ensures |Inorder(t)| < Pow2(Height(t) + 1)
    decreases t, 0
  {
    var h := Height(t);
    var half := Pow2(h);
    assert Pow2(h + 1) == 2 * half;
    var nl, nr := |Inorder(t.left)|, |Inorder(t.right)|;
    assert |Inorder(t)| == nl + 1 + nr;
    ChildBelowPow2Height(t.left, h);
    ChildBelowPow2Height(t.right, h);
  }

  lemma {:induction false} ChildBelowPow2Height(c: Tree, h: nat)
    requires c.Node? ==> Height(c) < h
    ensures |Inorder(c)| < Pow2(h)
    decreases c, 1
  {
    if c.Node? {
      SizeBelowPow2Height(c);
      Pow2Monotone(Height(c) + 1, h);
    }
  }

  /** `rebalance1(nodes)` applied to the tree `t`: add the middle key, then recurse on
      the keys before it and on the keys after it. */
  function AddMiddleFirst(t: Tree, s: seq<int>): (u: Tree)
    ensures t.Node? || s != [] ==> u.Node?
    decreases |s|
  {
    if s == [] then t
    else
      var mid := |s| / 2;
      AddMiddleFirst(AddMiddleFirst(Insert(t, s[mid]), s[..mid]), s[mid + 1..])
  }

  /** Every key of `s` is added once, and nothing else. */
  lemma {:induction false} AddMiddleFirstContents(t: Tree, s: seq<int>)
    ensures multiset(Inorder(AddMiddleFirst(t, s))) == multiset(Inorder(t)) + multiset(s)
    decreases |s|
  {
    if s != [] {
      var mid := |s| / 2;
      var t1 := Insert(t, s[mid]);
      var t2 := AddMiddleFirst(t1, s[..mid]);
      var u := AddMiddleFirst(t, s);
      var m, x, a, b := multiset(Inorder(t)), multiset{s[mid]}, multiset(s[..mid]), multiset(s[mid + 1..]);
      assert multiset(Inorder(t1)) == m + x by { InsertContents(t, s[mid]); }
      assert multiset(Inorder(t2)) == m + x + a by { AddMiddleFirstContents(t1, s[..mid]); }
      assert multiset(Inorder(u)) == m + x + a + b by { AddMiddleFirstContents(t2, s[mid + 1..]); }
      assert multiset(s) == a + x + b by { SplitAtMiddle(s, mid); }
      MultisetRegroup(m, x, a, b);
    }
  }

  lemma MultisetRegroup(m: multiset<int>, x: multiset<int>, a: multiset<int>, b: multiset<int>)
    ensures m + x + a + b == m + (a + x + b)
  {
  }

  lemma {:induction false} AddMiddleFirstKeepsBST(t: Tree, s: seq<int>)
    requires IsBST(t)
    ensures IsBST(AddMiddleFirst(t, s))
    decreases |s|
  {
    if s != [] {
      var mid := |s| / 2;
      InsertKeepsBST(t, s[mid]);
      AddMiddleFirstKeepsBST(Insert(t, s[mid]), s[..mid]);
      AddMiddleFirstKeepsBST(AddMiddleFirst(Insert(t, s[mid]), s[..mid]), s[mid + 1..]);
    }
  }

  lemma AddMiddleFirstSize(t: Tree, s: seq<int>)
    ensures |Inorder(AddMiddleFirst(t, s))| == |Inorder(t)| + |s|
  {
    AddMiddleFirstContents(t, s);
    assert |multiset(Inorder(AddMiddleFirst(t, s)))| == |Inorder(AddMiddleFirst(t, s))|;
  }

  /** Rebuilding from a sorted sequence gives back that sequence in inorder. */
  lemma RebuildKeepsInorder(s: seq<int>)
    requires Sorted(s)
    ensures Inorder(AddMiddleFirst(Leaf, s)) == s
  {
    var u := AddMiddleFirst(Leaf, s);
    AddMiddleFirstContents(Leaf, s);
    AddMiddleFirstKeepsBST(Leaf, s);
    BstIffSorted(u);
    SortedUnique(Inorder(u), s);
  }

  /** Keys all smaller than the root's all land in its left subtree. */
  lemma {:induction false} AddMiddleFirstGoesLeft(l: Tree, k: int, r: Tree, s: seq<int>)
    requires forall y :: y in s ==> y < k
    ensures AddMiddleFirst(Node(l, k, r), s) == Node(AddMiddleFirst(l, s), k, r)
    decreases |s|
  {
    if s != [] {
      var mid := |s| / 2;
      var a, b := s[..mid], s[mid + 1..];
      assert s[mid] in s;
      forall y | y in a ensures y < k {
        var i :| 0 <= i < |a| && a[i] == y;
        assert s[i] in s;
      }
      forall y | y in b ensures y < k {
        var i :| 0 <= i < |b| && b[i] == y;
        assert s[mid + 1 + i] in s;
      }
      var l1 := Insert(l, s[mid]);
      assert Insert(Node(l, k, r), s[mid]) == Node(l1, k, r);
      AddMiddleFirstGoesLeft(l1, k, r, a);
      AddMiddleFirstGoesLeft(AddMiddleFirst(l1, a), k, r, b);
    }
  }

  /** Keys all at least the root's all land in its right subtree. */
  lemma {:induction false} AddMiddleFirstGoesRight(l: Tree, k: int, r: Tree, s: seq<int>)
    requires forall y :: y in s ==> k <= y
    ensures AddMiddleFirst(Node(l, k, r), s) == Node(l, k, AddMiddleFirst(r, s))
    decreases |s|
  {
    if s != [] {
      var mid := |s| / 2;
      var a, b := s[..mid], s[mid + 1..];
      assert s[mid] in s;
      forall y | y in a ensures k <= y {
        var i :| 0 <= i < |a| && a[i] == y;
        assert s[i] in s;
      }
      forall y | y in b ensures k <= y {
        var i :| 0 <= i < |b| && b[i] == y;
        assert s[mid + 1 + i] in s;
      }
      var r1 := Insert(r, s[mid]);
      assert Insert(Node(l, k, r), s[mid]) == Node(l, k, r1);
      AddMiddleFirstGoesRight(l, k, r1, a);
      AddMiddleFirstGoesRight(l, k, AddMiddleFirst(r1, a), b);
    }
  }

  /** With distinct keys the rebuilt tree has the middle key at the root and the two
      halves rebuilt below it. */
  lemma RebuildShape(s: seq<int>)
    requires StrictlySorted(s) && s != []
    ensures var mid := |s| / 2;
            AddMiddleFirst(Leaf, s) ==
            Node(AddMiddleFirst(Leaf, s[..mid]), s[mid], AddMiddleFirst(Leaf, s[mid + 1..]))
  {
    var mid := |s| / 2;
    StrictlySortedHalves(s, mid, s[..mid], s[mid + 1..]);
    AddMiddleFirstGoesLeft(Leaf, s[mid], Leaf, s[..mid]);
    AddMiddleFirstGoesRight(AddMiddleFirst(Leaf, s[..mid]), s[mid], Leaf, s[mid + 1..]);
  }

  /** A node whose existing children each have height `h` with 2^h <= n has
      2^height <= 2n. */
  lemma Pow2HeightOfJoin(a: Tree, k: int, b: Tree, n: nat)
    requires a.Node? ==> Pow2(Height(a)) <= n
    requires b.Node? ==> Pow2(Height(b)) <= n
    requires a.Node? || b.Node?
    ensures Pow2(Height(Node(a, k, b))) <= 2 * n
  {
    var u := Node(a, k, b);
    if a.Node? && b.Node? {
      var h := if Height(a) < Height(b) then Height(b) else Height(a);
      assert Height(u) == h + 1;
    } else if a.Node? {
      assert Height(u) == Height(a) + 1;
    } else {
      assert Height(u) == Height(b) + 1;
    }
  }

  /** A tree with 2^height(u) <= size(t) is no taller than `t`. */
  lemma NoTallerBySize(t: Tree, u: Tree)
    requires t.Node? && u.Node?
    requires Pow2(Height(u)) <= |Inorder(t)|
    ensures Height(u) <= Height(t)
  {
    SizeBelowPow2Height(t);
    if Height(u) > Height(t) {
      Pow2Monotone(Height(t) + 1, Height(u));
    }
  }

  /** With distinct keys the rebuilt tree has minimal height: 2^height <= number of keys. */
  lemma {:induction false} RebuildHeight(s: seq<int>)
    requires StrictlySorted(s) && s != []
    ensures Pow2(Height(AddMiddleFirst(Leaf, s))) <= |s|
    decreases |s|
  {
    var mid := |s| / 2;
    var a, b := AddMiddleFirst(Leaf, s[..mid]), AddMiddleFirst(Leaf, s[mid + 1..]);
    assert AddMiddleFirst(Leaf, s) == Node(a, s[mid], b) by {
      RebuildShape(s);
    }
    assert |Inorder(a)| == mid && |Inorder(b)| == |s| - mid - 1 by {
      AddMiddleFirstSize(Leaf, s[..mid]);
      AddMiddleFirstSize(Leaf, s[mid + 1..]);
    }
    assert StrictlySorted(s[..mid]) && StrictlySorted(s[mid + 1..]) by {
      StrictlySortedHalves(s, mid, s[..mid], s[mid + 1..]);
    }
    if mid == 0 {
      assert a == Leaf && b == Leaf;
    } else {
      RebuildHeight(s[..mid]);
      if b.Node? {
        RebuildHeight(s[mid + 1..]);
      }
      Pow2HeightOfJoin(a, s[mid], b, mid);
    }
  }

  /** With distinct keys, rebuilding never makes a tree taller. */
  lemma RebuildNoTaller(t: Tree)
    requires t.Node? && StrictlySorted(Inorder(t))
    ensures Height(AddMiddleFirst(Leaf, Inorder(t))) <= Height(t)
  {
    RebuildHeight(Inorder(t));
    NoTallerBySize(t, AddMiddleFirst(Leaf, Inorder(t)));
  }

  /** With repeated keys the rebuild can make a tree taller: adding 5, 3, 3, 8, removing
      5 and 8 and adding 3 gives three 3s at height 1, and the rebuild of [3, 3, 3]
      sends every equal key right, into a chain of height 2. */
  lemma RebuildCanGrowTaller()
    ensures var t := Insert(Delete(Delete(Insert(Insert(Insert(Insert(Leaf, 5), 3), 3), 8), 5), 8), 3);
            && IsBST(t) && Inorder(t) == [3, 3, 3] && Height(t) == 1
            && Height(AddMiddleFirst(Leaf, Inorder(t))) == 2
  {
    var three := Node(Leaf, 3, Leaf);
    var t0 := Insert(Insert(Insert(Insert(Leaf, 5), 3), 3), 8);
    assert t0 == Node(Node(Leaf, 3, three), 5, Node(Leaf, 8, Leaf));
    assert Inorder(Node(Leaf, 3, three)) == [3, 3];
    assert Delete(t0, 5) == Node(three, 3, Node(Leaf, 8, Leaf));
    var t := Node(three, 3, three);
    assert Delete(Delete(t0, 5), 8) == Node(three, 3, Leaf);
    assert Insert(Node(three, 3, Leaf), 3) == t;
    assert Inorder(t) == [3, 3, 3];
    assert IsBST(t);
    var s := [3, 3, 3];
    assert s[..1] == [3] && s[2..] == [3];
    assert AddMiddleFirst(three, [3]) == Node(Leaf, 3, three);
    assert AddMiddleFirst(Node(Leaf, 3, three), [3]) == Node(Leaf, 3, Node(Leaf, 3, three));
    assert AddMiddleFirst(Leaf, s) == Node(Leaf, 3, Node(Leaf, 3, three));
  }
}
