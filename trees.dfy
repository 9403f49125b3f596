/**
 * The linked nodes of binary_search_tree/linkedbst.py as a value: a node (`BSTNode`) is
 * `Node(left, data, right)` and an absent child (`None`) is `Leaf`. Each helper that the
 * source nests inside a `LinkedBST` method and that walks the nodes recursively is a
 * function here, with the lemmas that say what it does to the inorder key sequence.
 */
module Trees {
  import opened Wrappers
  import opened Seqs

  datatype Tree = Leaf | Node(left: Tree, data: int, right: Tree)

  /** Keys in inorder: left subtree, node, right subtree. */
  function Inorder(t: Tree): seq<int>
  {
    match t
    case Leaf => []
    case Node(l, k, r) => Inorder(l) + [k] + Inorder(r)
  }

  /** Keys in preorder: node, left subtree, right subtree. */
  function Preorder(t: Tree): seq<int>
  {
    match t
    case Leaf => []
    case Node(l, k, r) => [k] + Preorder(l) + Preorder(r)
  }

  /** Both traversals visit every node exactly once. */
  lemma {:induction false} PreorderIsPermutationOfInorder(t: Tree)
    ensures multiset(Preorder(t)) == multiset(Inorder(t))
  {
    match t
    case Leaf =>
    case Node(l, k, r) =>
      PreorderIsPermutationOfInorder(l);
      PreorderIsPermutationOfInorder(r);
  }

  /**
   * The ordering invariant the mutators keep: every key of a left subtree is at most the
   * node's key and every key of a right subtree is at least it. Insertion routes an equal
   * key to the right; deletion may lift a copy of a key to above an equal key on its left,
   * so the left side is only non-strict (see IsStrictBST).
   */
  ghost predicate IsBST(t: Tree)
  {
    match t
    case Leaf => true
    case Node(l, k, r) =>
      && IsBST(l) && IsBST(r)
      && (forall y :: y in Inorder(l) ==> y <= k)
      && (forall y :: y in Inorder(r) ==> k <= y)
  }

  /** The asymmetric form: left keys strictly smaller, right keys greater or equal. */
  ghost predicate IsStrictBST(t: Tree)
  {
    match t
    case Leaf => true
    case Node(l, k, r) =>
      && IsStrictBST(l) && IsStrictBST(r)
      && (forall y :: y in Inorder(l) ==> y < k)
      && (forall y :: y in Inorder(r) ==> k <= y)
  }

  /** The ordering invariant holds exactly when the inorder traversal is sorted. */
  lemma {:induction false} BstIffSorted(t: Tree)
    ensures IsBST(t) <==> Sorted(Inorder(t))
  {
    match t
    case Leaf =>
    case Node(l, k, r) =>
      BstIffSorted(l);
      BstIffSorted(r);
      SortedJoin(Inorder(l), k, Inorder(r));
  }

  // ---------------------------------------------------------------- lookup (find)

  /** `find`'s nested `recurse` (linkedbst.py:86-94): equal stops, smaller goes left,
      anything else goes right; running off the tree gives `None`. */
  function Find(t: Tree, x: int): (found: Option<int>)
    ensures found.Some? ==> found.value == x && x in Inorder(t)
  {
    match t
    case Leaf => None
    case Node(l, k, r) =>
      if x == k then Some(k)
      else if x < k then Find(l, x)
      else Find(r, x)
  }

  /** On an ordered tree the search path cannot miss a key that is present. */
  lemma {:induction false} FindComplete(t: Tree, x: int)
    requires IsBST(t) && x in Inorder(t)
    ensures Find(t, x) == Some(x)
  {
    match t
    case Leaf =>
    case Node(l, k, r) =>
      if x < k {
        assert x !in Inorder(r);
        FindComplete(l, x);
      } else if x > k {
        assert x !in Inorder(l);
        FindComplete(r, x);
      }
  }

  /** The inorder position of the node at which the search for `x` stops. */
  ghost function PathIndex(t: Tree, x: int): (p: nat)
    ensures Find(t, x).Some? ==> p < |Inorder(t)| && Inorder(t)[p] == x
  {
    match t
    case Leaf => 0
    case Node(l, k, r) =>
      if k == x then |Inorder(l)|
      else if k > x then PathIndex(l, x)
      else |Inorder(l)| + 1 + PathIndex(r, x)
  }

  // ---------------------------------------------------------------- insertion (add)

  /** `add`'s nested `recurse` (linkedbst.py:108-120), with the empty-tree case of
      linkedbst.py:124-125: the key becomes a new leaf in the first empty child slot on
      the path that goes left while it is smaller than the node and right otherwise. */
  function Insert(t: Tree, x: int): (u: Tree)
    ensures u.Node? && |Inorder(u)| == |Inorder(t)| + 1
  {
    match t
    case Leaf => Node(Leaf, x, Leaf)
    case Node(l, k, r) =>
      if x < k then Node(Insert(l, x), k, r)
      else Node(l, k, Insert(r, x))
  }

  /** The base class's constructor loop: each key of `s` is added in turn, first to
      last. */
  function InsertAll(t: Tree, s: seq<int>): (u: Tree)
    ensures |Inorder(u)| == |Inorder(t)| + |s|
    decreases |s|
  {
    if s == [] then t else Insert(InsertAll(t, s[..|s| - 1]), s[|s| - 1])
  }

  /** One more key of the list: the prefix ending at index `i` is the prefix before it
      with `s[i]` added. */
  lemma InsertAllStep(t: Tree, s: seq<int>, i: nat)
    requires i < |s|
    ensures InsertAll(t, s[..i + 1]) == Insert(InsertAll(t, s[..i]), s[i])
  {
    assert s[..i + 1][..i] == s[..i];
  }

  /** Adding the keys of a list adds each of them once and nothing else. */
  lemma {:induction false} InsertAllContents(t: Tree, s: seq<int>)
    ensures multiset(Inorder(InsertAll(t, s))) == multiset(Inorder(t)) + multiset(s)
    decreases |s|
  {
    if s != [] {
      var p, x := s[..|s| - 1], s[|s| - 1];
      var u := InsertAll(t, p);
      var m, mp := multiset(Inorder(t)), multiset(p);
      assert multiset(Inorder(u)) == m + mp by { InsertAllContents(t, p); }
      assert multiset(Inorder(InsertAll(t, s))) == multiset(Inorder(u)) + multiset{x} by {
        assert InsertAll(t, s) == Insert(u, x);
        InsertContents(u, x);
      }
      MultisetOfLast(s);
      MultisetAssoc(m, mp, multiset{x});
    }
  }

  lemma {:induction false} InsertAllKeepsBST(t: Tree, s: seq<int>)
    requires IsBST(t)
    ensures IsBST(InsertAll(t, s))
    decreases |s|
  {
    if s != [] {
      InsertAllKeepsBST(t, s[..|s| - 1]);
      InsertKeepsBST(InsertAll(t, s[..|s| - 1]), s[|s| - 1]);
    }
  }

  /** Where the new key lands in the inorder sequence. */
  ghost function InsertPos(t: Tree, x: int): (p: nat)
    ensures p <= |Inorder(t)|
  {
    match t
    case Leaf => 0
    case Node(l, k, r) =>
      if x < k then InsertPos(l, x)
      else |Inorder(l)| + 1 + InsertPos(r, x)
  }

  /** Insertion puts the new key into the inorder sequence and moves nothing else. */
  lemma {:induction false} InsertInorder(t: Tree, x: int)
    ensures Inorder(Insert(t, x)) ==
            Inorder(t)[..InsertPos(t, x)] + [x] + Inorder(t)[InsertPos(t, x)..]
  {
    match t
    case Leaf =>
    case Node(l, k, r) =>
      if x < k {
        InsertInorder(l, x);
        SpliceIntoLeft(Inorder(l), k, Inorder(r), InsertPos(l, x), x);
      } else {
        InsertInorder(r, x);
        SpliceIntoRight(Inorder(l), k, Inorder(r), InsertPos(r, x), x);
      }
  }

  /** Insertion adds exactly one occurrence of the key. */
  lemma InsertContents(t: Tree, x: int)
    ensures multiset(Inorder(Insert(t, x))) == multiset(Inorder(t)) + multiset{x}
    ensures forall y :: y in Inorder(Insert(t, x)) <==> y in Inorder(t) || y == x
  {
    InsertInorder(t, x);
    SpliceInContents(Inorder(t), InsertPos(t, x), x);
  }

  /** On an ordered tree the new key lands after every key that is smaller or equal and
      before every key that is greater: equal keys go to the right. */
  lemma {:induction false} InsertPosIsOrdered(t: Tree, x: int)
    requires IsBST(t)
    ensures forall i :: 0 <= i < InsertPos(t, x) ==> Inorder(t)[i] <= x
    ensures forall i :: InsertPos(t, x) <= i < |Inorder(t)| ==> x < Inorder(t)[i]
  {
    match t
    case Leaf =>
    case Node(l, k, r) =>
      var s, sl, sr := Inorder(t), Inorder(l), Inorder(r);
      var p := InsertPos(t, x);
      assert s == sl + [k] + sr;
      if x < k {
        InsertPosIsOrdered(l, x);
        forall i | p <= i < |s| ensures x < s[i] {
          if i > |sl| {
            assert s[i] == sr[i - |sl| - 1] && sr[i - |sl| - 1] in sr;
          }
        }
      } else {
        InsertPosIsOrdered(r, x);
        forall i | 0 <= i < p ensures s[i] <= x {
          if i < |sl| {
            assert s[i] == sl[i] && sl[i] in sl;
          } else if i > |sl| {
            assert s[i] == sr[i - |sl| - 1];
          }
        }
        forall i | p <= i < |s| ensures x < s[i] {
          assert s[i] == sr[i - |sl| - 1];
        }
      }
  }

  lemma InsertKeepsBST(t: Tree, x: int)
    requires IsBST(t)
    ensures IsBST(Insert(t, x))
  {
    BstIffSorted(t);
    InsertInorder(t, x);
    InsertPosIsOrdered(t, x);
    SortedInsertAt(Inorder(t), InsertPos(t, x), x);
    BstIffSorted(Insert(t, x));
  }

  /** Insertion alone also keeps the strict form of the order. */
  lemma {:induction false} InsertKeepsStrictBST(t: Tree, x: int)
    requires IsStrictBST(t)
    ensures IsStrictBST(Insert(t, x))
  {
    match t
    case Leaf =>
    case Node(l, k, r) =>
      if x < k {
        var l' := Insert(l, x);
        InsertKeepsStrictBST(l, x);
        InsertContents(l, x);
        assert forall y :: y in Inorder(l') ==> y < k;
        assert Insert(t, x) == Node(l', k, r);
      } else {
        var r' := Insert(r, x);
        InsertKeepsStrictBST(r, x);
        InsertContents(r, x);
        assert forall y :: y in Inorder(r') ==> k <= y;
        assert Insert(t, x) == Node(l, k, r');
      }
  }

  // ---------------------------------------------------------------- deletion (remove)

  /** The key of the rightmost node: the node `lift_max_in_left_subtree_to_top` stops at,
      the first one on the right spine with no right child. */
  function Max(t: Tree): (m: int)
    requires t.Node?
    ensures m == Inorder(t)[|Inorder(t)| - 1]
  {
    if t.right.Leaf? then t.data else Max(t.right)
  }

  /** `t` with its rightmost node unlinked: that node's left child takes its place. */
  function RemoveMax(t: Tree): (u: Tree)
    requires t.Node?
    ensures |Inorder(u)| == |Inorder(t)| - 1
  {
    if t.right.Leaf? then t.left else Node(t.left, t.data, RemoveMax(t.right))
  }

  /** Unlinking the rightmost node removes exactly the last key of the inorder sequence. */
  lemma {:induction false} RemoveMaxInorder(t: Tree)
    requires t.Node?
    ensures Inorder(RemoveMax(t)) + [Max(t)] == Inorder(t)
  {
    if t.right.Node? {
      RemoveMaxInorder(t.right);
    }
  }

  /** On an ordered tree the rightmost key is a greatest key. */
  lemma MaxIsGreatest(t: Tree)
    requires t.Node? && IsBST(t)
    ensures Max(t) in Inorder(t)
    ensures forall y :: y in Inorder(t) ==> y <= Max(t)
  {
    RemoveMaxInorder(t);
    BstIffSorted(t);
    var s := Inorder(t);
    assert s[|s| - 1] == Max(t);
    forall y | y in s ensures y <= Max(t) {
      var i :| 0 <= i < |s| && s[i] == y;
    }
  }

  /**
   * Removal of a node that holds the key, linkedbst.py:183-204:
   * two children (187-189): the max of the left subtree is copied into the node and the
   *   max node is replaced by its left child (lift_max_in_left_subtree_to_top, 139-154);
   * no left child (193-194): the right child takes the node's place;
   * no right child (197-198): the left child takes the node's place.
   */
  function DeleteRoot(t: Tree): (u: Tree)
    requires t.Node?
    ensures Inorder(u) == Inorder(t.left) + Inorder(t.right)
  {
    if t.left.Node? && t.right.Node? then
      RemoveMaxInorder(t.left);
      Node(RemoveMax(t.left), Max(t.left), t.right)
    else if t.left.Leaf? then t.right
    else t.left
  }

  /** The tree after `remove`: the search loop of linkedbst.py:166-176 (equal stops,
      greater-than-item goes left, otherwise right) followed by DeleteRoot. */
  function Delete(t: Tree, x: int): (u: Tree)
  {
    match t
    case Leaf => Leaf
    case Node(l, k, r) =>
      if k == x then DeleteRoot(t)
      else if k > x then Node(Delete(l, x), k, r)
      else Node(l, k, Delete(r, x))
  }

  /** Deletion removes exactly the key at the node where the search stops, on any tree. */
  lemma {:induction false} DeleteInorder(t: Tree, x: int)
    requires Find(t, x).Some?
    ensures Inorder(Delete(t, x)) ==
            Inorder(t)[..PathIndex(t, x)] + Inorder(t)[PathIndex(t, x) + 1..]
  {
    match t
    case Leaf =>
    case Node(l, k, r) =>
      if k == x {
        DeleteInorderHere(l, k, r);
      } else if k > x {
        DeleteInorder(l, x);
        DeleteInorderLeft(l, k, r, x);
      } else {
        DeleteInorder(r, x);
        DeleteInorderRight(l, k, r, x);
      }
  }

  lemma DeleteInorderHere(l: Tree, k: int, r: Tree)
    ensures var t := Node(l, k, r);
            Inorder(Delete(t, k)) == Inorder(t)[..PathIndex(t, k)] + Inorder(t)[PathIndex(t, k) + 1..]
  {
    var t, a, c := Node(l, k, r), Inorder(l), Inorder(r);
    assert Inorder(Delete(t, k)) == a + c by {
      assert Delete(t, k) == DeleteRoot(t);
    }
    assert PathIndex(t, k) == |a| && Inorder(t) == a + [k] + c;
    SpliceOutOfMiddle(a, k, c);
  }

  lemma DeleteInorderLeft(l: Tree, k: int, r: Tree, x: int)
    requires k > x && Find(l, x).Some?
    requires Inorder(Delete(l, x)) == Inorder(l)[..PathIndex(l, x)] + Inorder(l)[PathIndex(l, x) + 1..]
    ensures var t := Node(l, k, r);
            Inorder(Delete(t, x)) == Inorder(t)[..PathIndex(t, x)] + Inorder(t)[PathIndex(t, x) + 1..]
  {
    var t, a, c, p := Node(l, k, r), Inorder(l), Inorder(r), PathIndex(l, x);
    var d := Inorder(Delete(l, x));
    assert Inorder(Delete(t, x)) == d + [k] + c by {
      assert Delete(t, x) == Node(Delete(l, x), k, r);
    }
    assert PathIndex(t, x) == p;
    SpliceOutOfLeft(a, k, c, d, Inorder(t), p);
  }

  lemma DeleteInorderRight(l: Tree, k: int, r: Tree, x: int)
    requires k < x && Find(r, x).Some?
    requires Inorder(Delete(r, x)) == Inorder(r)[..PathIndex(r, x)] + Inorder(r)[PathIndex(r, x) + 1..]
    ensures var t := Node(l, k, r);
            Inorder(Delete(t, x)) == Inorder(t)[..PathIndex(t, x)] + Inorder(t)[PathIndex(t, x) + 1..]
  {
    var t, a, c, q := Node(l, k, r), Inorder(l), Inorder(r), PathIndex(r, x);
    var d := Inorder(Delete(r, x));
    assert Inorder(Delete(t, x)) == a + [k] + d by {
      assert Delete(t, x) == Node(l, k, Delete(r, x));
    }
    assert PathIndex(t, x) == |a| + 1 + q;
    SpliceOutOfRight(a, k, c, d, Inorder(t), q);
  }

  /** When the search misses, deletion changes nothing. */
  lemma {:induction false} DeleteMissing(t: Tree, x: int)
    requires Find(t, x).None?
    ensures Delete(t, x) == t
  {
    match t
    case Leaf =>
    case Node(l, k, r) =>
      if k > x {
        DeleteMissing(l, x);
      } else if k < x {
        DeleteMissing(r, x);
      }
  }

  /** Deletion removes one occurrence of the key from the key multiset. */
  lemma DeleteMultiset(t: Tree, x: int)
    requires Find(t, x).Some?
    ensures multiset(Inorder(Delete(t, x))) == multiset(Inorder(t)) - multiset{x}
    ensures |Inorder(Delete(t, x))| == |Inorder(t)| - 1
  {
    DeleteInorder(t, x);
    SpliceOutContents(Inorder(t), PathIndex(t, x));
  }

  /** Deletion keeps the ordering invariant. */
  lemma DeleteKeepsBST(t: Tree, x: int)
    requires IsBST(t)
    ensures IsBST(Delete(t, x))
  {
    if Find(t, x).Some? {
      DeleteInorder(t, x);
        BstIffSorted(t);
      SortedRemoveAt(Inorder(t), PathIndex(t, x));
      BstIffSorted(Delete(t, x));
    } else {
      DeleteMissing(t, x);
    }
  }

  /** On an ordered tree, deleting the only copy of a key makes it unreachable. */
  lemma DeleteLastCopy(t: Tree, x: int)
    requires IsBST(t) && multiset(Inorder(t))[x] == 1
    ensures Find(Delete(t, x), x) == None
  {
    FindComplete(t, x);
    DeleteMultiset(t, x);
  }

  /** The strict form of the order is not kept by deletion once keys repeat: after adding
      5, 3, 3, 8, removing 5 lifts the lower 3 into the root above the other 3. */
  lemma DeleteBreaksStrictOrder()
    ensures var t := Insert(Insert(Insert(Insert(Leaf, 5), 3), 3), 8);
            IsStrictBST(t) && !IsStrictBST(Delete(t, 5)) && IsBST(Delete(t, 5))
  {
    var t := Insert(Insert(Insert(Insert(Leaf, 5), 3), 3), 8);
    var three, eight := Node(Leaf, 3, Leaf), Node(Leaf, 8, Leaf);
    assert t == Node(Node(Leaf, 3, three), 5, eight);
    assert Inorder(Node(Leaf, 3, three)) == [3, 3];
    var u := Node(three, 3, eight);
    assert Delete(t, 5) == u;
    assert Inorder(three) == [3];
    assert 3 in Inorder(three);
    assert IsBST(u);
  }

  // ---------------------------------------------------------------- overwrite (replace)

  /** The tree after `replace` (linkedbst.py:220-229): the first node on the search path
      whose key equals `x` gets key `v`; the order is not re-checked. */
  function Overwrite(t: Tree, x: int, v: int): (u: Tree)
    ensures |Inorder(u)| == |Inorder(t)|
  {
    match t
    case Leaf => Leaf
    case Node(l, k, r) =>
      if k == x then Node(l, v, r)
      else if k > x then Node(Overwrite(l, x, v), k, r)
      else Node(l, k, Overwrite(r, x, v))
  }

  /** Overwriting changes exactly the inorder position of the node the search reaches. */
  lemma {:induction false} OverwriteInorder(t: Tree, x: int, v: int)
    requires Find(t, x).Some?
    ensures Inorder(Overwrite(t, x, v)) == Inorder(t)[PathIndex(t, x) := v]
  {
    match t
    case Leaf =>
    case Node(l, k, r) =>
      if k == x {
        UpdateAtMiddle(Inorder(l), k, Inorder(r), v);
      } else if k > x {
        OverwriteInorder(l, x, v);
        UpdateInLeft(Inorder(l), k, Inorder(r), PathIndex(l, x), v);
      } else {
        OverwriteInorder(r, x, v);
        UpdateInRight(Inorder(l), k, Inorder(r), PathIndex(r, x), v);
      }
  }

  lemma {:induction false} OverwriteMissing(t: Tree, x: int, v: int)
    requires Find(t, x).None?
    ensures Overwrite(t, x, v) == t
  {
    match t
    case Leaf =>
    case Node(l, k, r) =>
      if k > x {
        OverwriteMissing(l, x, v);
      } else if k < x {
        OverwriteMissing(r, x, v);
      }
  }

  /** On an ordered tree, the overwrite keeps the order exactly when the new key lies
      between the inorder neighbours of the overwritten node. */
  lemma OverwriteKeepsBstIff(t: Tree, x: int, v: int)
    requires IsBST(t) && Find(t, x).Some?
    ensures var s, p := Inorder(t), PathIndex(t, x);
            IsBST(Overwrite(t, x, v)) <==>
            (p == 0 || s[p - 1] <= v) && (p + 1 == |s| || v <= s[p + 1])
  {
    OverwriteInorder(t, x, v);
    BstIffSorted(t);
    BstIffSorted(Overwrite(t, x, v));
    SortedUpdate(Inorder(t), PathIndex(t, x), v);
  }

  // ---------------------------------------------------------------- height

  /** `height1` (linkedbst.py:238-250): 0 for a node without children, otherwise one more
      than the greatest height among the children that exist. */
  function Height(t: Tree): (h: nat)
    requires t.Node?
    ensures h < |Inorder(t)|
  {
    if t.left.Leaf? && t.right.Leaf? then 0
    else if t.left.Leaf? then Height(t.right) + 1
    else if t.right.Leaf? then Height(t.left) + 1
    else
      var a, b := Height(t.left), Height(t.right);
      (if a < b then b else a) + 1
  }

  datatype Direction = L | R

  /** `p` is a sequence of child steps that leads from the root of `t` to a node. */
  ghost predicate IsPath(t: Tree, p: seq<Direction>)
    decreases |p|
  {
    t.Node? && (p == [] || IsPath(if p[0] == L then t.left else t.right, p[1..]))
  }

  /** No downward path has more edges than the height. */
  lemma {:induction false} HeightBoundsPaths(t: Tree, p: seq<Direction>)
    requires IsPath(t, p)
    ensures |p| <= Height(t)
  {
    if p != [] {
      HeightBoundsPaths(if p[0] == L then t.left else t.right, p[1..]);
    }
  }

  /** A downward path with as many edges as the height. */
  ghost function DeepestPath(t: Tree): (p: seq<Direction>)
    requires t.Node?
    ensures IsPath(t, p) && |p| == Height(t)
  {
    if t.left.Leaf? && t.right.Leaf? then []
    else if t.left.Node? && (t.right.Leaf? || Height(t.right) <= Height(t.left)) then
      var q := DeepestPath(t.left);
      assert ([L] + q)[1..] == q;
      [L] + q
    else
      var q := DeepestPath(t.right);
      assert ([R] + q)[1..] == q;
      [R] + q
  }

  // ---------------------------------------------------------------- parent chains

  /**
   * One link of the chain of parents that the loops of `remove` and `replace` walk
   * down: the parent's key and the sibling subtree, with the hole on the side the walk
   * took (`direction == 'L'` or `'R'` in the source).
   */
  datatype Frame = InLeft(key: int, right: Tree) | InRight(left: Tree, key: int)

  function Fill(f: Frame, t: Tree): Tree
  {
    match f
    case InLeft(k, r) => Node(t, k, r)
    case InRight(l, k) => Node(l, k, t)
  }

  /** Relinks `t` under the chain of parents `ctx` (outermost first) and returns the
      root. The empty chain is the `pre_root` sentinel of linkedbst.py:161-163: the
      subtree is then the new root. */
  function Plug(ctx: seq<Frame>, t: Tree): Tree
    decreases |ctx|
  {
    if ctx == [] then t else Plug(ctx[..|ctx| - 1], Fill(ctx[|ctx| - 1], t))
  }

  lemma PlugExtend(ctx: seq<Frame>, f: Frame, t: Tree)
    ensures Plug(ctx + [f], t) == Plug(ctx, Fill(f, t))
  {
    assert (ctx + [f])[..|ctx|] == ctx;
  }
}
