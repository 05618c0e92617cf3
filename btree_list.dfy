// `BTreeList` (BTreeList.java): a list whose elements sit in the leaves of
// a b-tree, in index order, and whose inner nodes cache the number of
// elements below them, so that a position is found by descending from the
// root. The list object holds the order and the root node; the operations
// walk the tree with `FinderByIndex` and replace the root by the tree
// after an insertion, removal or overwrite.
module BTreeList {
  import opened BTreeNode
  import opened BTreeFind
  import opened BTreeInsert
  import opened BTreeRemove
  import opened BTreeAccess
  import opened BTreeBulk
  import opened BTreeWalk

  /** The exceptions the list operations throw. */
  datatype Exception = IndexOutOfBounds | IllegalState | NoSuchElement | UnsupportedOperation

  /** What an operation returns, or the exception it throws. */
  datatype Result<T> = Return(value: T) | Throw(exception: Exception)

  /** `Integer.MAX_VALUE`. */
  const INT_MAX: int := 0x7fff_ffff

  /** `BTreeList.DEFAULT_ORDER`. */
  const DEFAULT_ORDER: nat := 64

  /** A list of elements in a b-tree of the given order. */
  class BTreeList<E> {
    const order: nat
    var root: Node<E>

    /** The tree is well-formed for the order: every node but the root holds `minOrder()` entries or more. */
    ghost predicate Valid()
      reads this
    {
      3 <= order && Tree(root, order)
    }

    /** The elements of the list, in index order. */
    ghost function Contents(): seq<E>
      reads this
    {
      Items(root)
    }

    /** `new BTreeList(order)`: an empty leaf as root. */
    constructor (order: nat)
      requires 3 <= order
      ensures Valid() && this.order == order && Contents() == []
    {
      this.order := order;
      root := Node(0, 0, []);
    }

    /** `new BTreeList()`: the default order. */
    constructor Default()
      ensures Valid() && order == DEFAULT_ORDER && Contents() == []
    {
      order := DEFAULT_ORDER;
      root := Node(0, 0, []);
    }

    /** `new BTreeList(order, root)`: a list over an existing tree. */
    constructor WithRoot(order: nat, root: Node<E>)
      requires 3 <= order && Tree(root, order)
      ensures Valid() && this.order == order && this.root == root
    {
      this.order := order;
      this.root := root;
    }

    /** `isEmpty()`: the root has no entries exactly when the list has no elements. */
    method IsEmpty() returns (b: bool)
      requires Valid()
      ensures b <==> Contents() == []
    {
      EmptyRoot(root, order);
      b := |root.data| == 0;
    }

    /** `lsize()`: the root's cached size is the number of elements. */
    method LSize() returns (n: int)
      requires Valid()
      ensures n == |Contents()|
    {
      n := root.size;
    }

    /** `size()`: the number of elements, which must fit below `Integer.MAX_VALUE`. */
    method Size() returns (r: Result<int>)
      requires Valid()
      ensures |Contents()| < INT_MAX ==> r == Return(|Contents()|)
      ensures INT_MAX <= |Contents()| ==> r == Throw(IllegalState)
    {
      var s := LSize();
      if s < INT_MAX {
        return Return(s);
      }
      return Throw(IllegalState);
    }

    /** `checkIndex(i)`: whether i is the position of an element. */
    method CheckIndex(i: int) returns (ok: bool)
      requires Valid()
      ensures ok <==> 0 <= i < |Contents()|
    {
      var n := LSize();
      ok := !(i < 0 || n <= i);
    }

    /** `checkRange(i)`: whether i is a position an element can be inserted at. */
    method CheckRange(i: int) returns (ok: bool)
      requires Valid()
      ensures ok <==> 0 <= i <= |Contents()|
    {
      var n := LSize();
      ok := !(i < 0 || n < i);
    }

    /** `get(i)`: element i, found by walking from the root to its leaf. */
    method Get(i: int) returns (r: Result<E>)
      requires Valid()
      ensures 0 <= i < |Contents()| ==> r == Return(Contents()[i])
      ensures !(0 <= i < |Contents()|) ==> r == Throw(IndexOutOfBounds)
    {
      var ok := CheckIndex(i);
      if !ok {
        return Throw(IndexOutOfBounds);
      }
      var finder := new Finder(root, i);
      finder.Walk2Leaf(order);
      r := Return(finder.node.data[finder.off].value);
    }

    /**
     * `set(i, x)`: element i becomes x and the old one is returned; the
     * nodes keep their heights, used counts and sizes.
     */
    method Set(i: int, x: E) returns (r: Result<E>)
      requires Valid()
      modifies this
      ensures Valid()
      ensures 0 <= i < |old(Contents())| ==>
                r == Return(old(Contents())[i]) && Contents() == old(Contents())[i := x]
                && SameShape(root, old(root))
      ensures !(0 <= i < |old(Contents())|) ==> r == Throw(IndexOutOfBounds) && root == old(root)
    {
      var ok := CheckIndex(i);
      if !ok {
        return Throw(IndexOutOfBounds);
      }
      var finder := new Finder(root, i);
      finder.Walk2Leaf(order);
      var old_ := finder.node.data[finder.off].value;
      SetAtOk(root, i, x, order);
      EmptyRoot(root, order);
      root := SetAt(root, i, x, order);
      r := Return(old_);
    }

    /** `first()`: the first element, down the first children; an empty list has none. */
    method First() returns (r: Result<E>)
      requires Valid()
      ensures Contents() != [] ==> r == Return(Contents()[0])
      ensures Contents() == [] ==> r == Throw(IllegalState)
    {
      var empty := IsEmpty();
      if empty {
        return Throw(IllegalState);
      }
      EmptyRoot(root, order);
      var node := root;
      while node.height > 0
        invariant Ok(node, order) && 0 < |node.data| && 0 < |Items(node)|
        invariant Items(node)[0] == Contents()[0]
        decreases node.height
      {
        FirstChild(node, order);
        node := node.data[0].node;
      }
      LeafForest(node.data, order);
      r := Return(node.data[0].value);
    }

    /** `last()`: the last element, down the last children; an empty list has none. */
    method Last() returns (r: Result<E>)
      requires Valid()
      ensures Contents() != [] ==> r == Return(Contents()[|Contents()| - 1])
      ensures Contents() == [] ==> r == Throw(IllegalState)
    {
      var empty := IsEmpty();
      if empty {
        return Throw(IllegalState);
      }
      EmptyRoot(root, order);
      var node := root;
      while node.height > 0
        invariant Ok(node, order) && 0 < |node.data| && 0 < |Items(node)|
        invariant Items(node)[|Items(node)| - 1] == Contents()[|Contents()| - 1]
        decreases node.height
      {
        LastChild(node, order);
        node := node.data[|node.data| - 1].node;
        MergeFits(order);
      }
      LeafForest(node.data, order);
      r := Return(node.data[|node.data| - 1].value);
    }

    /** `clear()`: an empty leaf as root. */
    method Clear()
      requires Valid()
      modifies this
      ensures Valid() && Contents() == []
    {
      root := Node(0, 0, []);
    }

    /** `add(e)`: e goes after the last element (`append`). */
    method Add(e: E) returns (b: bool)
      requires Valid()
      modifies this
      ensures Valid() && b && Contents() == old(Contents()) + [e]
    {
      AppendedTree(root, e, order);
      root := Appended(root, e, order);
      b := true;
    }

    /** `addAll(xs)`: the elements of xs go after the last one, in order. */
    method AddAll(xs: seq<E>) returns (b: bool)
      requires Valid()
      modifies this
      ensures Valid() && b && Contents() == old(Contents()) + xs
    {
      BulkInsert(xs);
      EnsureRightBranchInvariants();
      b := true;
    }

    /**
     * The state between `bulkInsert` and `ensureRightBranchInvariants`:
     * the tree is well-formed except on its right spine, whose short nodes
     * have full left neighbours, and its last leaf is not empty.
     */
    ghost predicate Bulk()
      reads this
    {
      3 <= order && Spine(root, order, None) && Shaped(root) && RootMin(root.height) <= |root.data|
      && (0 < root.height ==> 0 < |LastLeaf(root).data|)
    }

    /**
     * `bulkInsert(xs)`: the elements of xs fill the last leaf, `order` at
     * most to a leaf; a full last leaf first gets a new one after it.
     */
    method BulkInsert(xs: seq<E>)
      requires Valid()
      modifies this
      ensures Bulk() && Contents() == old(Contents()) + xs
    {
      OkSpine(root, order, None);
      ghost var start := Items(root);
      var k := 0;
      while k < |xs|
        invariant 0 <= k <= |xs| && Bulk() && Items(root) == start + xs[..k]
      {
        ghost var before := Items(root);
        var k' := FillRound(xs, k);
        assert xs[..k'] == xs[..k] + xs[k..k'];
        k := k';
      }
      assert xs[..k] == xs;
    }

    /**
     * One round of the loop of `bulkInsert(xs)`: a full last leaf gets a
     * new one after it, and the elements of xs from k on fill the last
     * leaf up to `order`.
     */
    method FillRound(xs: seq<E>, k: int) returns (k': int)
      requires Bulk() && 0 <= k < |xs|
      modifies this
      ensures Bulk() && k < k' <= |xs| && Items(root) == old(Items(root)) + xs[k..k']
    {
      LastLeafFits(root, order, None);
      var used := |LastLeaf(root).data|;
      if used == order {
        CreateLeafAfterSpine(root, order);
        root := CreateLeafAfter(root, order);
        used := 0;
      }
      var i := used;
      k' := k;
      var chunk := [];
      while i < order && k' < |xs|
        invariant used <= i <= order && k <= k' <= |xs| && k' - k == i - used
        invariant chunk == xs[k..k']
      {
        chunk := chunk + [xs[k']];
        i := i + 1;
        k' := k' + 1;
      }
      FillStep(root, chunk, order);
      root := FillLast(root, chunk);
    }

    /**
     * `ensureRightBranchInvariants()`: from the root down, a short last
     * child takes the entries it misses from the child before it.
     */
    method EnsureRightBranchInvariants()
      requires Bulk()
      modifies this
      ensures Valid() && Contents() == old(Contents())
    {
      FixSpineOk(root, order, None);
      root := FixSpine(root, order, None);
    }

    /** `add(i, e)`: e goes in at position i; the elements from i on move up one. */
    method AddAt(i: int, e: E) returns (r: Result<()>)
      requires Valid()
      modifies this
      ensures Valid()
      ensures 0 <= i <= |old(Contents())| ==>
                r == Return(()) && Contents() == old(Contents())[..i] + [e] + old(Contents())[i..]
      ensures !(0 <= i <= |old(Contents())|) ==> r == Throw(IndexOutOfBounds) && root == old(root)
    {
      var ok := CheckRange(i);
      if !ok {
        return Throw(IndexOutOfBounds);
      }
      InsertedTree(root, i, e, order);
      root := Inserted(root, i, e, order);
      r := Return(());
    }

    /** `remove(i)`: element i goes out and is returned; the elements after it move down one. */
    method Remove(i: int) returns (r: Result<E>)
      requires Valid()
      modifies this
      ensures Valid()
      ensures 0 <= i < |old(Contents())| ==>
                r == Return(old(Contents())[i]) && Contents() == old(Contents())[..i] + old(Contents())[i + 1..]
      ensures !(0 <= i < |old(Contents())|) ==> r == Throw(IndexOutOfBounds) && root == old(root)
    {
      var ok := CheckIndex(i);
      if !ok {
        return Throw(IndexOutOfBounds);
      }
      var finder := new Finder(root, i);
      finder.Walk2Leaf(order);
      var old_ := finder.node.data[finder.off].value;
      RemovedTree(root, i, order);
      root := Removed(root, i, order);
      r := Return(old_);
    }

    /**
     * `forEach(action)`: the elements in index order, as `action` receives
     * them, walking the tree with one cursor per level.
     */
    method ForEach() returns (seen: seq<E>)
      requires Valid()
      ensures seen == Contents()
    {
      var height := root.height;
      var cursors := new int[height + 1](_ => 0);
      var node := root;
      var parents: seq<Node<E>> := [];
      var i := height;
      seen := [];
      Start(root, cursors[..]);
      while true
        invariant 0 <= i <= height && cursors.Length == height + 1 && cursors[0] == 0
        invariant Walking(root, cursors[..], i, node, parents, seen)
        decreases |Items(root)| - |seen|,
                  if 0 < i && cursors[i] == |node.data| then 1 else 0,
                  if 0 < i && cursors[i] == |node.data| then height - i else i
      {
        ghost var cs := cursors[..];
        WalkRest(root, cs, i, node, parents, seen);
        if i == 0 {
          WalkLeaf(root, cs, node, parents, seen);
          WalkNext(root, cs, node, parents, seen, order);
          ghost var seen0 := seen;
          var items := VisitLeaf(node, order);
          seen := seen + items;
          if height == 0 {
            assert node.data[..0] == [] && node.data[0..] == node.data;
            break;
          }
          AtOk(root, cs, 0, order);
          MergeFits(order);
          node, parents := Climb(root, cursors, 0, node, parents, seen0, seen);
          i := i + 1;
        } else if cursors[i] < |node.data| {
          WalkDown(root, cs, i, node, parents, seen, order);
          MergeFits(order);
          parents := parents + [node];
          node := node.data[cursors[i]].node;
          i := i - 1;
        } else if i < height {
          WalkFinished(root, cs, i, node, parents, seen);
          node, parents := Climb(root, cursors, i, node, parents, seen, seen);
          i := i + 1;
        } else {
          WalkEnded(root, cs, node, parents, seen);
          break;
        }
      }
    }

    /** `iterator()`: an iterator over the elements, in index order. */
    method Iterator() returns (it: BTreeIterator<E>)
      requires Valid()
      ensures fresh(it) && fresh(it.cursors) && it.Valid() && it.Elements() == Contents() && it.seen == []
    {
      it := new BTreeIterator(root, order);
    }

    /** `clone()`: a new list of the same order over a copy of the tree. */
    method Clone() returns (c: BTreeList<E>)
      requires Valid()
      ensures fresh(c) && c.Valid() && c.order == order && c.root == root && c.Contents() == Contents()
    {
      CloneEqual(root);
      c := new BTreeList.WithRoot(order, CloneNode(root));
    }

    /**
     * `toArray(tmp)`: the elements in index order, in tmp when they fit
     * (the slots after them untouched) or else in a new array of their
     * number. More than `Integer.MAX_VALUE` - 1 elements, or more than
     * `maxSize` (`ArrayUtil.MAX_SIZE`), cannot be converted.
     */
    method ToArray(tmp: array<E>, maxSize: int) returns (r: Result<array<E>>)
      requires Valid()
      modifies tmp
      ensures (INT_MAX <= |Contents()| || maxSize < |Contents()|) ==> r == Throw(IllegalState) && tmp[..] == old(tmp[..])
      ensures r.Return? ==> |Contents()| <= r.value.Length && r.value[..|Contents()|] == Contents()
      ensures r.Return? && |Contents()| <= tmp.Length ==> r.value == tmp && tmp[|Contents()|..] == old(tmp[|Contents()|..])
      ensures r.Return? && tmp.Length < |Contents()| ==> fresh(r.value) && r.value.Length == |Contents()| && tmp[..] == old(tmp[..])
      ensures r.Throw? <==> (INT_MAX <= |Contents()| || maxSize < |Contents()|)
    {
      var size := Size();
      if size.Throw? || maxSize < size.value {
        return Throw(IllegalState);
      }
      var s := size.value;
      var xs: array<E>;
      if s <= tmp.Length {
        xs := tmp;
      } else {
        var fst := First();
        xs := new E[s](_ => fst.value);
      }
      var n := ToArrayFrom(xs, 0, root);
      r := Return(xs);
    }

    /** `toArray(xs, next, node)`: the elements below node go to xs from next on. */
    method ToArrayFrom(xs: array<E>, next: int, node: Node<E>) returns (off: int)
      requires 3 <= order && Ok(node, order) && 0 <= next && next + |Items(node)| <= xs.Length
      modifies xs
      ensures off == next + |Items(node)|
      ensures xs[..next] == old(xs[..next]) && xs[next..off] == Items(node) && xs[off..] == old(xs[off..])
      decreases node, 1
    {
      if node.height == 0 {
        off := ToArrayLeaf(xs, next, node);
      } else {
        off := ToArrayInner(xs, next, node);
      }
    }

    /** `toArrayLeaf`: the leaf's entries copied to xs from next on. */
    method ToArrayLeaf(xs: array<E>, next: int, node: Node<E>) returns (off: int)
      requires 3 <= order && Ok(node, order) && node.height == 0 && 0 <= next && next + |Items(node)| <= xs.Length
      modifies xs
      ensures off == next + |Items(node)|
      ensures xs[..next] == old(xs[..next]) && xs[next..off] == Items(node) && xs[off..] == old(xs[off..])
    {
      LeafForest(node.data, order);
      var n := |node.data|;
      forall k | next <= k < next + n {
        xs[k] := node.data[k - next].value;
      }
      off := next + n;
    }

    /** `toArrayInner`: the elements below each child in turn. */
    method ToArrayInner(xs: array<E>, next: int, node: Node<E>) returns (off: int)
      requires 3 <= order && Ok(node, order) && 0 < node.height && 0 <= next && next + |Items(node)| <= xs.Length
      modifies xs
      ensures off == next + |Items(node)|
      ensures xs[..next] == old(xs[..next]) && xs[next..off] == Items(node) && xs[off..] == old(xs[off..])
      decreases node, 0
    {
      off := next;
      var i := 0;
      while i < |node.data|
        invariant 0 <= i <= |node.data|
        invariant off == next + |Forest(node.data[..i])| <= next + |Items(node)|
        invariant xs[..next] == old(xs[..next]) && xs[next..off] == Forest(node.data[..i])
        invariant xs[next + |Items(node)|..] == old(xs[next + |Items(node)|..])
      {
        assert SlotOk(node.data[i], node.height, order);
        var child := node.data[i].node;
        ForestSnoc(node.data, i + 1);
        ForestSplit(node.data, i + 1, i + 1);
        ghost var before := xs[..];
        off := ToArrayFrom(xs, off, child);
        ArrayStep(before, xs[..], next, off - |Items(child)|, off, next + |Items(node)|);
        i := i + 1;
      }
      assert node.data[..i] == node.data;
    }
  }

  /**
   * The loop of `searchLeaf()`: from a position at an inner level, down to
   * the next leaf that has elements, or up to the root once every child has
   * been walked.
   */
  method Search<E>(ghost t: Node<E>, ghost order: nat, height: nat, cursors: array<int>, level: nat,
                   node: Node<E>, parents: seq<Node<E>>, ghost seen: seq<E>)
    returns (found: bool, level': nat, node': Node<E>, parents': seq<Node<E>>)
    requires 3 <= order && Ok(t, order) && height == t.height && cursors.Length == height + 1 && cursors[0] == 0 && 0 < level
    requires Walking(t, cursors[..], level, node, parents, seen)
    modifies cursors
    ensures cursors[0] == 0 && Walking(t, cursors[..], level', node', parents', seen)
    ensures found == (level' == 0)
    ensures found && 0 < t.height ==> 0 < |node'.data|
    ensures !found ==> level' == t.height && cursors[t.height] == |node'.data| && seen == Items(t)
  {
    level', node', parents' := level, node, parents;
    while true
      invariant cursors[0] == 0 && Walking(t, cursors[..], level', node', parents', seen)
      invariant level' == 0 && 0 < t.height ==> 0 < |node'.data|
      decreases if 0 < level' && cursors[level'] == |node'.data| then 1 else 0,
                if 0 < level' && cursors[level'] == |node'.data| then t.height - level' else level'
    {
      if level' == 0 {
        return true, level', node', parents';
      } else if cursors[level'] < |node'.data| {
        WalkDown(t, cursors[..], level', node', parents', seen, order);
        MergeFits(order);
        parents' := parents' + [node'];
        node' := node'.data[cursors[level']].node;
        level' := level' - 1;
      } else if level' < height {
        WalkFinished(t, cursors[..], level', node', parents', seen);
        node', parents' := Climb(t, cursors, level', node', parents', seen, seen);
        level' := level' + 1;
      } else {
        WalkEnded(t, cursors[..], node', parents', seen);
        return false, level', node', parents';
      }
    }
  }

  /** The inner loop of `forEach`: every element of a leaf, in order. */
  method VisitLeaf<E>(leaf: Node<E>, ghost order: nat) returns (items: seq<E>)
    requires Ok(leaf, order) && leaf.height == 0
    ensures items == Items(leaf)
  {
    LeafForest(leaf.data, order);
    items := [];
    for j := 0 to |leaf.data|
      invariant items == Items(leaf)[..j]
    {
      items := items + [leaf.data[j].value];
    }
    assert Items(leaf)[..|leaf.data|] == Items(leaf);
  }

  /**
   * Climbing from a finished node to its parent, as `forEach` and
   * `searchLeaf()` do: the node's cursor is reset and the parent's advanced.
   */
  method Climb<E>(ghost t: Node<E>, cursors: array<int>, l: nat, node: Node<E>, parents: seq<Node<E>>,
                  ghost seen0: seq<E>, ghost seen: seq<E>)
    returns (parent: Node<E>, rest: seq<Node<E>>)
    requires cursors.Length == t.height + 1 && l < t.height
    requires Walking(t, cursors[..], l, node, parents, seen0)
    requires seen == Done(t, cursors[..], l) + Items(node)
    modifies cursors
    ensures cursors[..] == old(cursors[..])[l := 0][l + 1 := old(cursors[l + 1]) + 1]
    ensures Walking(t, cursors[..], l + 1, parent, rest, seen)
  {
    ghost var cs := cursors[..];
    WalkUp(t, cs, l, node, parents, seen0, seen);
    cursors[l] := 0;
    cursors[l + 1] := cursors[l + 1] + 1;
    assert cursors[..] == cs[l := 0][l + 1 := cs[l + 1] + 1];
    parent := parents[|parents| - 1];
    rest := parents[..|parents| - 1];
  }

  /**
   * `BTreeIterator`: a walk over the leaves that stops at each element.
   * `cursor0` is the position in the current leaf; `seen` (not in the
   * source) records the elements `next()` has returned.
   */
  class BTreeIterator<E> {
    ghost const tree: Node<E>
    ghost const order: nat
    const height: nat
    const cursors: array<int>
    var cursor0: int
    var level: nat
    var node: Node<E>
    var parents: seq<Node<E>>
    ghost var seen: seq<E>

    /** The elements the iterator walks over. */
    ghost function Elements(): seq<E>
    {
      Items(tree)
    }

    /** The position as one run of cursors, `cursor0` standing for the leaf level. */
    ghost function Position(): seq<int>
      reads this, cursors
      requires 0 < cursors.Length
    {
      cursors[..][0 := cursor0]
    }

    /** A position of the walk, at any level; what `seen` holds comes before it. */
    ghost predicate Searching()
      reads this, cursors
    {
      3 <= order && Tree(tree, order) && height == tree.height && cursors.Length == height + 1
      && level <= height && cursors[0] == 0 && (0 < level ==> cursor0 == 0)
      && Walking(tree, Position(), level, node, parents, seen)
    }

    /** Between calls the iterator is at a leaf, or at the root with every child behind it. */
    ghost predicate Valid()
      reads this, cursors
    {
      Searching() && (level == 0 || (level == height && cursors[height] == |node.data|))
    }

    /** `BTreeIterator()`: at the first leaf, nothing seen. */
    constructor (tree: Node<E>, ghost order: nat)
      requires 3 <= order && Tree(tree, order)
      ensures Valid() && this.tree == tree && seen == [] && fresh(cursors)
    {
      this.tree := tree;
      this.order := order;
      height := tree.height;
      cursors := new int[tree.height + 1](_ => 0);
      cursor0 := 0;
      level := tree.height;
      node := tree;
      parents := [];
      seen := [];
      new;
      assert Position() == cursors[..];
      Start(tree, cursors[..]);
      if height > 0 {
        var _ := SearchLeaf();
      }
    }

    /**
     * `searchLeaf()`: up while the cursor is past the node's entries, then
     * down to a leaf; false when the root has none left.
     */
    method SearchLeaf() returns (found: bool)
      requires Searching() && 0 < level
      modifies this, cursors
      ensures Valid() && seen == old(seen) && found == (level == 0)
      ensures found ==> cursor0 == 0 && (0 < height ==> 0 < |node.data|)
      ensures !found ==> seen == Elements()
    {
      assert Position() == cursors[..];
      var l, n, ps;
      found, l, n, ps := Search(tree, order, height, cursors, level, node, parents, seen);
      level, node, parents := l, n, ps;
      assert Position() == cursors[..];
    }

    /**
     * `advanceLeaf()`: from the end of a leaf to the next one. The root
     * leaf of a tree of height 0 has no next one, and the iterator stays
     * there.
     */
    method AdvanceLeaf() returns (b: bool)
      requires Valid() && (level == 0 ==> cursor0 == |node.data|)
      modifies this, cursors
      ensures Valid() && seen == old(seen)
      ensures b ==> level == 0 && cursor0 < |node.data|
      ensures !b ==> seen == Elements()
    {
      if level == 0 {
        ghost var cs := Position();
        WalkFinished(tree, cs, 0, node, parents, seen);
        if height == 0 {
          assert Done(tree, cs, 0) == [];
          return false;
        }
        WalkUp(tree, cs, 0, node, parents, seen, seen);
        cursor0 := 0;
        node := parents[|parents| - 1];
        parents := parents[..|parents| - 1];
        level := level + 1;
        cursors[1] := cursors[1] + 1;
        assert Position() == cs[0 := 0][1 := cs[1] + 1];
      }
      b := SearchLeaf();
    }

    /** `ensureNext()`: whether an element is left, moving to the leaf that holds it. */
    method EnsureNext() returns (b: bool)
      requires Valid()
      modifies this, cursors
      ensures Valid() && seen == old(seen)
      ensures b <==> |seen| < |Elements()|
      ensures b ==> level == 0 && cursor0 < |node.data|
    {
      if NextInLeaf(level, cursor0, node) {
        WalkNext(tree, Position(), node, parents, seen, order);
        return true;
      }
      b := AdvanceLeaf();
      if b {
        WalkNext(tree, Position(), node, parents, seen, order);
      }
    }

    /** `hasNext()`: whether `next()` has an element to return. */
    method HasNext() returns (b: bool)
      requires Valid()
      modifies this, cursors
      ensures Valid() && seen == old(seen)
      ensures b <==> |seen| < |Elements()|
    {
      b := EnsureNext();
    }

    /** `next()`: the element after those already returned, or `NoSuchElementException`. */
    method Next() returns (r: Result<E>)
      requires Valid()
      modifies this, cursors
      ensures Valid()
      ensures |old(seen)| < |Elements()| ==>
                r == Return(Elements()[|old(seen)|]) && seen == old(seen) + [r.value]
      ensures |Elements()| <= |old(seen)| ==> r == Throw(NoSuchElement) && seen == old(seen)
    {
      var b := EnsureNext();
      if !b {
        return Throw(NoSuchElement);
      }
      ghost var cs := Position();
      WalkNext(tree, cs, node, parents, seen, order);
      WalkStep(tree, cs, node, parents, seen, order);
      var e := node.data[cursor0].value;
      cursor0 := cursor0 + 1;
      assert Position() == cs[0 := cs[0] + 1];
      seen := seen + [e];
      r := Return(e);
    }

    /** `remove()`: not supported. */
    method Remove() returns (r: Result<()>)
      ensures r == Throw(UnsupportedOperation)
    {
      r := Throw(UnsupportedOperation);
    }
  }

  /** The test of `ensureNext()`: an element is left in the current leaf. */
  predicate NextInLeaf<E>(level: int, cursor0: int, node: Node<E>)
  {
    level == 0 && cursor0 < |node.data|
  }

  /** The test of `ensureNext()` as the source writes it, without the level. */
  predicate NextInLeafAsWritten<E>(cursor0: int, node: Node<E>)
  {
    cursor0 < |node.data|
  }

  /**
   * Once `hasNext()` has answered false on a tree of height 1 or more, the
   * iterator rests at the root, with cursor0 at 0 and every element seen;
   * the code's test then finds an "element" at the root, so a second
   * `hasNext()` answers true, while the test with the level does not.
   */
  lemma {:induction false} HasNextAfterEnd<E>(t: Node<E>, order: nat)
    requires 3 <= order && Tree(t, order) && 0 < t.height
    ensures var cs := seq(t.height + 1, m => if m == t.height then |t.data| else 0);
            Walking(t, cs, t.height, t, [], Items(t))
            && NextInLeafAsWritten(0, t) && !NextInLeaf(t.height, 0, t)
  {
    var cs := seq(t.height + 1, m => if m == t.height then |t.data| else 0);
    assert t.data[..|t.data|] == t.data;
  }

  /** One child's elements written after those before it, in the buffer of `toArrayInner`. */
  lemma {:induction false} ArrayStep<T>(before: seq<T>, after: seq<T>, next: int, mid: int, off: int, end: int)
    requires 0 <= next <= mid <= off <= end <= |before| == |after|
    requires after[..mid] == before[..mid] && after[off..] == before[off..]
    ensures after[..next] == before[..next] && after[next..off] == before[next..mid] + after[mid..off]
    ensures after[end..] == before[end..]
  {
    assert after[..next] == after[..mid][..next];
  }
}
