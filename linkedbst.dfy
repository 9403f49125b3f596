/**
 * The `LinkedBST` class of binary_search_tree/linkedbst.py. Its two fields are the root
 * link and the key count kept by the collection base class. The node graph hangs from
 * `root` as a `Tree` value; updating a node in place is rebuilding the path from the
 * root to that node.
 */
module BinarySearchTree {
  import opened Wrappers
  import opened Seqs
  import opened Trees
  import opened Balance

  /** The exceptions the source raises: `KeyError` from `remove`, and `ValueError` from
      `list.index` in `range_find`. */
  datatype Error = KeyError | ValueError

  /** The nested `recurse` of `inorder` (linkedbst.py:61-65): appends the keys of `node`
      in inorder to the list `lyst`. */
  method AppendInorder(node: Tree, lyst: seq<int>) returns (out: seq<int>)
    ensures out == lyst + Inorder(node)
  {
    out := lyst;
    if node.Node? {
      out := AppendInorder(node.left, out);
      out := out + [node.data];
      out := AppendInorder(node.right, out);
    }
  }

  /** `elements[elements.index(low):elements.index(high) + 1]`: a bound that is not in
      the list raises `ValueError`; a stop before the start gives an empty slice. */
  function RangeSlice(elements: seq<int>, low: int, high: int): (r: Result<seq<int>, Error>)
    ensures r.Err? <==> low !in elements || high !in elements
    ensures r.Err? ==> r.error == ValueError
    ensures r.Ok? ==> exists i, j :: 0 <= i <= j <= |elements| && r.value == elements[i..j]
  {
    if low !in elements || high !in elements then Err(ValueError)
    else
      var start, stop := IndexOf(elements, low), IndexOf(elements, high) + 1;
      if start <= stop then Ok(elements[start..stop])
      else
        assert elements[start..start] == [];
        Ok([])
  }

  /** On a sorted list: every element from `low` up to but excluding `high`, then one
      copy of `high` (later copies of `high` are cut off); nothing when `high < low`. */
  lemma RangeSliceSorted(elements: seq<int>, low: int, high: int)
    requires Sorted(elements) && low in elements && high in elements
    ensures RangeSlice(elements, low, high) ==
            Ok(if low <= high then Within(elements, low, high) + [high] else [])
  {
    var i, j := IndexOf(elements, low), IndexOf(elements, high);
    assert RangeSlice(elements, low, high) == Ok(if i <= j then elements[i..j] + [high] else []) by {
      RangeSliceAt(elements, low, high);
    }
    assert (i <= j <==> low <= high) && (i <= j ==> Within(elements, low, high) == elements[i..j]) by {
      SortedFirstIndices(elements, i, j);
    }
  }

  /** The slice by first indices: the elements from the first `low` up to the first
      `high`, then that `high`; nothing when the first `high` comes before `low`. */
  lemma RangeSliceAt(elements: seq<int>, low: int, high: int)
    requires low in elements && high in elements
    ensures var i, j := IndexOf(elements, low), IndexOf(elements, high);
            RangeSlice(elements, low, high) == Ok(if i <= j then elements[i..j] + [high] else [])
  {
    var i, j := IndexOf(elements, low), IndexOf(elements, high);
    if i <= j {
      SliceExtend(elements, i, j);
    } else if i == j + 1 {
      assert elements[i..j + 1] == [];
    }
  }

  class LinkedBST {
    var root: Tree
    var size: nat

    /** The count kept by the base class equals the number of nodes. The ordering
        invariant is deliberately not part of it: `Replace` does not re-check it. */
    ghost predicate Valid()
      reads this
    {
      size == |Inorder(root)|
    }

    /** `__init__` with the base class's constructor: each key of `source` is added in
        turn (linkedbst.py:18-22). */
    constructor (source: seq<int>)
      ensures Valid() && IsBST(root)
      ensures root == InsertAll(Leaf, source)
      ensures multiset(Inorder(root)) == multiset(source)
    {
      root := Leaf;
      size := 0;
      new;
      AddAll(source);
    }

    /** The base class's constructor loop over `sourceCollection`: `add` for each key in
        order. */
    method AddAll(items: seq<int>)
      requires Valid()
      modifies this
      ensures Valid()
      ensures root == InsertAll(old(root), items)
      ensures multiset(Inorder(root)) == multiset(Inorder(old(root))) + multiset(items)
      ensures old(IsBST(root)) ==> IsBST(root)
    {
      ghost var root0 := root;
      for i := 0 to |items|
        invariant Valid() && root == InsertAll(root0, items[..i])
      {
        InsertAllStep(root0, items, i);
        Add(items[i]);
      }
      assert items[..|items|] == items;
      InsertAllContents(root0, items);
      if IsBST(root0) {
        InsertAllKeepsBST(root0, items);
      }
    }

    /** The base class's `isEmpty`, read by `__iter__` (linkedbst.py:42), `add` (124) and
        `remove` (210). */
    function IsEmpty(): (b: bool)
      reads this
      ensures Valid() ==> (b <==> root == Leaf)
    {
      size == 0
    }

    /** `__iter__` (linkedbst.py:40-51): the keys in preorder, from an explicit stack
        (the top is the last element) from which a node is popped and its right child,
        then its left child, are pushed. */
    method Iter() returns (items: seq<int>)
      requires Valid()
      ensures items == Preorder(root)
      ensures multiset(items) == multiset(Inorder(root))
    {
      items := [];
      if !IsEmpty() {
        var stack: seq<NonEmpty> := [root];
        while stack != []
          invariant items + StackPreorder(stack) == Preorder(root)
          decreases |StackPreorder(stack)|
        {
          ghost var before := items;
          var node;
          node, stack := PopAndPushChildren(stack);
          items := items + [node.data];
          Assoc(before, [node.data], StackPreorder(stack));
        }
      }
      PreorderIsPermutationOfInorder(root);
    }

    /** `inorder` (linkedbst.py:57-68): the list its recursion builds. */
    method InorderList() returns (lyst: seq<int>)
      ensures lyst == Inorder(root)
      ensures IsBST(root) <==> Sorted(lyst)
    {
      lyst := AppendInorder(root, []);
      BstIffSorted(root);
    }

    /** `find` (linkedbst.py:82-96). */
    function Find(item: int): (found: Option<int>)
      reads this
      ensures found.Some? ==> found.value == item && item in Inorder(root)
      ensures IsBST(root) && item in Inorder(root) ==> found == Some(item)
    {
      assert IsBST(root) && item in Inorder(root) ==> Trees.Find(root, item) == Some(item) by {
        if IsBST(root) && item in Inorder(root) {
          FindComplete(root, item);
        }
      }
      Trees.Find(root, item)
    }

    /** `__contains__` (linkedbst.py:78-80): `find` did not return `None`. */
    function Contains(item: int): (b: bool)
      reads this
      ensures b == Find(item).Some?
      ensures IsBST(root) ==> (b <==> item in Inorder(root))
    {
      Find(item).Some?
    }

    /** `clear` (linkedbst.py:99-102). */
    method Clear()
      modifies this
      ensures Valid() && IsBST(root)
      ensures root == Leaf && size == 0
    {
      root := Leaf;
      size := 0;
    }

    /** `add` (linkedbst.py:104-129): the recursive descent of `Insert`, or a new root
        when the tree is empty; one more key. */
    method Add(item: int)
      requires Valid()
      modifies this
      ensures Valid()
      ensures root == Insert(old(root), item) && size == old(size) + 1
      ensures multiset(Inorder(root)) == multiset(Inorder(old(root))) + multiset{item}
      ensures old(IsBST(root)) ==> IsBST(root)
    {
      InsertContents(root, item);
      if IsBST(root) {
        InsertKeepsBST(root, item);
      }
      if IsEmpty() {
        root := Node(Leaf, item, Leaf);
      } else {
        root := Insert(root, item);
      }
      size := size + 1;
    }

    /**
     * `remove` (linkedbst.py:131-214): the membership test, the unlinking done by
     * `UnlinkNode` on the node graph, and the size and root update. The returns at lines
     * 157 and 179 cannot be reached after the membership test and are left out.
     */
    method Remove(item: int) returns (r: Result<int, Error>)
      requires Valid()
      modifies this
      ensures Valid()
      ensures !old(Contains(item)) ==> r == Err(KeyError) && root == old(root) && size == old(size)
      ensures old(Contains(item)) ==>
                && r == Ok(item)
                && root == Delete(old(root), item)
                && size == old(size) - 1
                && multiset(Inorder(root)) == multiset(Inorder(old(root))) - multiset{item}
      ensures old(IsBST(root)) ==> IsBST(root)
    {
      if !Contains(item) {
        return Err(KeyError);
      }
      ghost var root0 := root;
      DeleteMultiset(root0, item);
      if IsBST(root0) {
        DeleteKeepsBST(root0, item);
      }
      var newRoot, itemRemoved := UnlinkNode(root, item);
      size := size - 1;
      if IsEmpty() {
        root := Leaf;
      } else {
        root := newRoot;
      }
      r := Ok(itemRemoved);
    }

    /** `replace` (linkedbst.py:216-230): the probe loop keeps the chain of parents so
        that the overwritten node can be relinked. */
    method Replace(item: int, newItem: int) returns (r: Option<int>)
      requires Valid()
      modifies this
      ensures Valid() && size == old(size)
      ensures r == old(Find(item))
      ensures root == Overwrite(old(root), item, newItem)
      ensures r.None? ==> root == old(root)
      ensures r.Some? ==>
                Inorder(root) == Inorder(old(root))[PathIndex(old(root), item) := newItem]
    {
      ghost var root0 := root;
      if Trees.Find(root0, item).Some? {
        OverwriteInorder(root0, item, newItem);
      } else {
        OverwriteMissing(root0, item, newItem);
      }
      var ctx: seq<Frame> := [];
      var probe := root;
      while probe.Node?
        invariant Plug(ctx, probe) == root0 && root == root0 && size == old(size)
        invariant Overwrite(root0, item, newItem) == Plug(ctx, Overwrite(probe, item, newItem))
        invariant Trees.Find(root0, item) == Trees.Find(probe, item)
        decreases probe
      {
        if probe.data == item {
          var oldData := probe.data;
          root := Plug(ctx, Node(probe.left, newItem, probe.right));
          return Some(oldData);
        } else if probe.data > item {
          PlugExtend(ctx, InLeft(probe.data, probe.right), probe.left);
          PlugExtend(ctx, InLeft(probe.data, probe.right), Overwrite(probe.left, item, newItem));
          ctx := ctx + [InLeft(probe.data, probe.right)];
          probe := probe.left;
        } else {
          PlugExtend(ctx, InRight(probe.left, probe.data), probe.right);
          PlugExtend(ctx, InRight(probe.left, probe.data), Overwrite(probe.right, item, newItem));
          ctx := ctx + [InRight(probe.left, probe.data)];
          probe := probe.right;
        }
      }
      return None;
    }

    /** `height` (linkedbst.py:232-252); the source fails on an empty tree. */
    function Height(): (h: nat)
      reads this
      requires root.Node?
      ensures h < |Inorder(root)|
      ensures forall p :: IsPath(root, p) ==> |p| <= h
      ensures IsPath(root, DeepestPath(root)) && |DeepestPath(root)| == h
    {
      assert forall p :: IsPath(root, p) ==> |p| <= Trees.Height(root) by {
        forall p | IsPath(root, p) ensures |p| <= Trees.Height(root) {
          HeightBoundsPaths(root, p);
        }
      }
      Trees.Height(root)
    }

    /** `range_find` (linkedbst.py:261-266). */
    method RangeFind(low: int, high: int) returns (r: Result<seq<int>, Error>)
      ensures r == RangeSlice(Inorder(root), low, high)
      ensures r.Err? <==> low !in Inorder(root) || high !in Inorder(root)
      ensures r.Err? ==> r.error == ValueError
      ensures r.Ok? ==> exists i, j :: 0 <= i <= j <= |Inorder(root)| && r.value == Inorder(root)[i..j]
      ensures r.Ok? && IsBST(root) ==>
                r.value == if low <= high then Within(Inorder(root), low, high) + [high] else []
    {
      var elements := InorderList();
      r := RangeSlice(elements, low, high);
      if r.Ok? && IsBST(root) {
        RangeSliceSorted(elements, low, high);
      }
    }

    /** `rebalance` (linkedbst.py:268-283): snapshot the inorder keys, clear, and add
        them back middle first. */
    method Rebalance()
      requires Valid()
      modifies this
      ensures Valid() && size == old(size)
      ensures root == Balance.AddMiddleFirst(Leaf, Inorder(old(root)))
      ensures IsBST(root)
      ensures multiset(Inorder(root)) == multiset(Inorder(old(root)))
      ensures old(IsBST(root)) ==> Inorder(root) == Inorder(old(root))
    {
      var lst := InorderList();
      if IsBST(root) {
        RebuildKeepsInorder(lst);
      }
      AddMiddleFirstKeepsBST(Leaf, lst);
      AddMiddleFirstContents(Leaf, lst);
      Clear();
      AddMiddleFirst(lst);
    }

    /** `rebalance1` (linkedbst.py:274-279). */
    method AddMiddleFirst(nodes: seq<int>)
      requires Valid()
      modifies this
      ensures Valid()
      ensures root == Balance.AddMiddleFirst(old(root), nodes)
      ensures size == old(size) + |nodes|
      ensures old(IsBST(root)) ==> IsBST(root)
      decreases |nodes|
    {
      if IsBST(root) {
        AddMiddleFirstKeepsBST(root, nodes);
      }
      if nodes != [] {
        var mid := |nodes| / 2;
        Add(nodes[mid]);
        AddMiddleFirst(nodes[..mid]);
        AddMiddleFirst(nodes[mid + 1..]);
      }
    }

    /** `successor` (linkedbst.py:285-297): the first inorder key greater than `item`. */
    method Successor(item: int) returns (r: Option<int>)
      ensures r.Some? ==> r.value in Inorder(root) && item < r.value
      ensures r.Some? ==> exists n :: 0 <= n < |Inorder(root)| && Inorder(root)[n] == r.value &&
                                    forall j :: 0 <= j < n ==> Inorder(root)[j] <= item
      ensures r.None? <==> forall k :: k in Inorder(root) ==> k <= item
      ensures r.Some? && IsBST(root) ==> forall k :: k in Inorder(root) && item < k ==> r.value <= k
    {
      var lyst := InorderList();
      for n := 0 to |lyst|
        invariant forall j :: 0 <= j < n ==> lyst[j] <= item
      {
        if lyst[n] > item {
          forall k | k in lyst && item < k && Sorted(lyst) ensures lyst[n] <= k {
            var j :| 0 <= j < |lyst| && lyst[j] == k;
          }
          assert forall j :: 0 <= j < n ==> lyst[j] <= item;
          return Some(lyst[n]);
        }
      }
      forall k | k in lyst ensures k <= item {
        var j :| 0 <= j < |lyst| && lyst[j] == k;
      }
      return None;
    }

    /** `predecessor` (linkedbst.py:299-313): the inorder keys are pushed on a stack (the
        last one on top) and popped until one is smaller than `item`. */
    method Predecessor(item: int) returns (r: Option<int>)
      ensures r.Some? ==> r.value in Inorder(root) && r.value < item
      ensures r.Some? ==> exists n :: 0 <= n < |Inorder(root)| && Inorder(root)[n] == r.value &&
                                    forall j :: n < j < |Inorder(root)| ==> item <= Inorder(root)[j]
      ensures r.None? <==> forall k :: k in Inorder(root) ==> item <= k
      ensures r.Some? && IsBST(root) ==> forall k :: k in Inorder(root) && k < item ==> k <= r.value
    {
      var lyst := InorderList();
      var stack := lyst;
      while stack != []
        invariant |stack| <= |lyst| && stack == lyst[..|stack|]
        invariant forall j :: |stack| <= j < |lyst| ==> item <= lyst[j]
      {
        var elem := stack[|stack| - 1];
        stack := stack[..|stack| - 1];
        if elem < item {
          forall k | k in lyst && k < item && Sorted(lyst) ensures k <= elem {
            var j :| 0 <= j < |lyst| && lyst[j] == k;
          }
          assert lyst[|stack|] == elem;
          return Some(elem);
        }
      }
      forall k | k in lyst ensures item <= k {
        var j :| 0 <= j < |lyst| && lyst[j] == k;
      }
      return None;
    }
  }

  /** A link that holds a node: what the traversal stack holds. */
  type NonEmpty = t: Tree | t.Node? witness Node(Leaf, 0, Leaf)

  /** The keys still to be yielded from a stack of nodes, top (last element) first. */
  function StackPreorder(stack: seq<Tree>): seq<int>
    decreases |stack|
  {
    if stack == [] then [] else Preorder(stack[|stack| - 1]) + StackPreorder(stack[..|stack| - 1])
  }

  lemma Assoc<T>(a: seq<T>, b: seq<T>, c: seq<T>)
    ensures a + b + c == a + (b + c)
  {
  }

  /** Pushing a node puts its keys ahead of the pending ones. */
  lemma PushPreorder(stack: seq<Tree>, t: Tree)
    ensures StackPreorder(stack + [t]) == Preorder(t) + StackPreorder(stack)
  {
    assert (stack + [t])[..|stack|] == stack;
  }

  /** Popping a node and pushing its right, then its left child, each when present,
      leaves the node's key followed by the same pending keys. */
  lemma PopStep(stack: seq<Tree>, pushed: seq<Tree>)
    requires stack != [] && stack[|stack| - 1].Node?
    requires var node := stack[|stack| - 1];
             pushed == stack[..|stack| - 1] + (if node.right.Node? then [node.right] else [])
                                            + (if node.left.Node? then [node.left] else [])
    ensures StackPreorder(stack) == [stack[|stack| - 1].data] + StackPreorder(pushed)
  {
    var node, rest := stack[|stack| - 1], stack[..|stack| - 1];
    var d, pl, pr, tail := node.data, Preorder(node.left), Preorder(node.right), StackPreorder(rest);
    var middle := rest + (if node.right.Node? then [node.right] else []);
    assert StackPreorder(middle) == pr + tail by {
      if node.right.Node? {
        PushPreorder(rest, node.right);
      } else {
        assert middle == rest;
      }
    }
    assert StackPreorder(pushed) == pl + (pr + tail) by {
      if node.left.Node? {
        PushPreorder(middle, node.left);
      } else {
        assert pushed == middle;
      }
    }
    calc {
      StackPreorder(stack);
      [d] + pl + pr + tail;
      { Assoc([d] + pl, pr, tail); }
      [d] + pl + (pr + tail);
      { Assoc([d], pl, pr + tail); }
      [d] + (pl + (pr + tail));
    }
  }

  /**
   * The body of `remove` after the membership test (linkedbst.py:158-204): the search
   * loop keeps the chain of parents in `ctx` (its last frame is `parent` with its
   * `direction`; the empty chain is `pre_root`), and the node found is unlinked by one
   * of the three cases. The result is `pre_root.left`.
   */
  method UnlinkNode(root: Tree, item: int) returns (newRoot: Tree, itemRemoved: int)
    requires Find(root, item).Some?
    ensures newRoot == Delete(root, item) && itemRemoved == item
  {
    var ctx: seq<Frame> := [];
    var current := root;
    while current.Node? && current.data != item
      invariant Find(current, item).Some?
      invariant Delete(root, item) == Plug(ctx, Delete(current, item))
      decreases current
    {
      if current.data > item {
        PlugExtend(ctx, InLeft(current.data, current.right), Delete(current.left, item));
        ctx := ctx + [InLeft(current.data, current.right)];
        current := current.left;
      } else {
        PlugExtend(ctx, InRight(current.left, current.data), Delete(current.right, item));
        ctx := ctx + [InRight(current.left, current.data)];
        current := current.right;
      }
    }
    itemRemoved := current.data;
    var replacement: Tree;
    if current.left.Node? && current.right.Node? {
      // Case 1 (linkedbst.py:187-189)
      replacement := LiftMaxInLeftSubtreeToTop(current);
    } else {
      // Cases 2 and 3 (linkedbst.py:193-198)
      var newChild := if current.left.Leaf? then current.right else current.left;
      replacement := newChild;
    }
    // linkedbst.py:201-204: the parent's slot, or `pre_root.left`, holds the result
    newRoot := Plug(ctx, replacement);
  }

  /** One round of `__iter__`'s loop (linkedbst.py:46-51): pop the top node, whose key
      is yielded, then push its right child and its left child when present. */
  method PopAndPushChildren(stack: seq<NonEmpty>) returns (node: NonEmpty, rest: seq<NonEmpty>)
    requires stack != []
    ensures node == stack[|stack| - 1]
    ensures StackPreorder(stack) == [node.data] + StackPreorder(rest)
  {
    node := stack[|stack| - 1];
    rest := stack[..|stack| - 1];
    if node.right.Node? {
      rest := rest + [node.right];
    }
    if node.left.Node? {
      rest := rest + [node.left];
    }
    PopStep(stack, rest);
  }

  /** `lift_max_in_left_subtree_to_top` (linkedbst.py:139-154): walk right from the left
      child, keeping the chain of parents, copy the last key into `top` and put that
      node's left child into its parent's slot (`top.left` when the chain is empty). */
  method LiftMaxInLeftSubtreeToTop(top: Tree) returns (t: Tree)
    requires top.Node? && top.left.Node?
    ensures t == Node(RemoveMax(top.left), Max(top.left), top.right)
    ensures Inorder(t) == Inorder(top.left) + Inorder(top.right)
  {
    RemoveMaxInorder(top.left);
    var ctx: seq<Frame> := [];
    var current := top.left;
    while current.right.Node?
      invariant current.Node?
      invariant RemoveMax(top.left) == Plug(ctx, RemoveMax(current))
      invariant Max(top.left) == Max(current)
      decreases current
    {
      PlugExtend(ctx, InRight(current.left, current.data), RemoveMax(current.right));
      ctx := ctx + [InRight(current.left, current.data)];
      current := current.right;
    }
    t := Node(Plug(ctx, current.left), current.data, top.right);
  }
}
