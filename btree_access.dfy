// Reading and overwriting single positions of a `BTreeList`
// (BTreeList.java, `isEmpty`, `first`, `last`, `set`, `findLastLeaf`,
// `append` and `clone`), on the node values of BTreeNode.
module BTreeAccess {
  import opened BTreeNode
  import opened BTreeFind
  import opened BTreeInsert

  // ---------------------------------------------------------------------
  // Emptiness and the ends of a tree

  /** A well-formed node with an entry holds an element: inner nodes never hold empty children. */
  lemma {:induction false} NonEmpty<E>(t: Node<E>, order: nat)
    requires Ok(t, order) && 3 <= order && 0 < |t.data|
    ensures 0 < |Items(t)|
    decreases t
  {
    Pick(t.data, 0);
    assert SlotOk(t.data[0], t.height, order);
    match t.data[0]
    case Item(_) =>
    case Child(c) => NonEmpty(c, order);
  }

  /** A tree is empty exactly when its root has no entries (`isEmpty`). */
  lemma {:induction false} EmptyRoot<E>(t: Node<E>, order: nat)
    requires Ok(t, order) && 3 <= order
    ensures |t.data| == 0 <==> Items(t) == []
  {
    if 0 < |t.data| {
      NonEmpty(t, order);
    }
  }

  /**
   * The first child of a non-empty well-formed inner node is a non-empty
   * well-formed node one level lower that starts with the node's first
   * element (the step of the loop in `first`).
   */
  lemma {:induction false} FirstChild<E>(t: Node<E>, order: nat)
    requires Ok(t, order) && 3 <= order && 0 < t.height && 0 < |t.data|
    ensures t.data[0].Child? && Ok(t.data[0].node, order)
    ensures t.data[0].node.height == t.height - 1 && 0 < |t.data[0].node.data|
    ensures 0 < |Items(t.data[0].node)| && 0 < |Items(t)| && Items(t)[0] == Items(t.data[0].node)[0]
  {
    assert SlotOk(t.data[0], t.height, order);
    Pick(t.data, 0);
    NonEmpty(t.data[0].node, order);
    assert t.data[..0] == [];
  }

  /**
   * The last child of a non-empty well-formed inner node is a non-empty
   * well-formed node one level lower that ends with the node's last
   * element (the step of the loops in `last` and `findLastLeaf`).
   */
  lemma {:induction false} LastChild<E>(t: Node<E>, order: nat)
    requires Ok(t, order) && 3 <= order && 0 < t.height && 0 < |t.data|
    ensures var c := t.data[|t.data| - 1];
            c.Child? && Ok(c.node, order) && c.node.height == t.height - 1
            && MinOrder(order) <= |c.node.data| && 0 < |Items(c.node)| && 0 < |Items(t)|
            && Items(t)[|Items(t)| - 1] == Items(c.node)[|Items(c.node)| - 1]
  {
    var j := |t.data| - 1;
    assert SlotOk(t.data[j], t.height, order);
    Pick(t.data, j);
    NonEmpty(t.data[j].node, order);
    assert t.data[j + 1..] == [];
  }

  // ---------------------------------------------------------------------
  // Overwriting a position

  /**
   * `set(i, x)` below node t: the leaf that `walk2Leaf` reaches gets x at
   * the offset the walk left, and every node on the way keeps its size.
   */
  function SetAt<E>(t: Node<E>, r: int, x: E, order: nat): Node<E>
    requires Ok(t, order) && 0 <= r < |Items(t)|
    decreases t
  {
    if t.height == 0 then
      LeafForest(t.data, order);
      t.(data := t.data[r := Item(x)])
    else
      Descend(t, order, r);
      var (j, r') := Locate(t.data, r);
      t.(data := t.data[j := Child(SetAt(t.data[j].node, r', x, order))])
  }

  /** Two nodes with the same heights, sizes and used counts all the way down. */
  ghost predicate SameShape<E>(a: Node<E>, b: Node<E>)
    decreases a
  {
    a.height == b.height && a.size == b.size && |a.data| == |b.data|
    && forall k :: 0 <= k < |a.data| ==> SameSlot(a.data[k], b.data[k])
  }

  /** Two entries that are both elements, or both children of the same shape. */
  ghost predicate SameSlot<E>(s: Slot<E>, u: Slot<E>)
    decreases s
  {
    match s
    case Item(_) => u.Item?
    case Child(c) => u.Child? && SameShape(c, u.node)
  }

  /** Every node has its own shape. */
  lemma {:induction false} ShapeRefl<E>(t: Node<E>)
    ensures SameShape(t, t)
    decreases t
  {
    forall k | 0 <= k < |t.data|
      ensures SameSlot(t.data[k], t.data[k])
    {
      match t.data[k]
      case Item(_) =>
      case Child(c) => ShapeRefl(c);
    }
  }

  /**
   * `set(i, x)` on a well-formed node changes position i of its elements
   * to x and nothing else: the node stays well-formed with the same shape
   * (heights, used counts and sizes).
   */
  lemma {:induction false} SetAtOk<E>(t: Node<E>, r: int, x: E, order: nat)
    requires Ok(t, order) && 0 <= r < |Items(t)|
    ensures var u := SetAt(t, r, x, order);
            Ok(u, order) && Items(u) == Items(t)[r := x] && SameShape(u, t)
    decreases t
  {
    var u := SetAt(t, r, x, order);
    if t.height == 0 {
      LeafForest(t.data, order);
      SlotsOkUpdate(t.data, r, Item(x), 0, order);
      LeafForest(u.data, order);
    } else {
      Descend(t, order, r);
      var j, r' := Locate(t.data, r).0, Locate(t.data, r).1;
      var c := t.data[j].node;
      SlotsSized(t.data, t.height, order);
      LocateItems(t.data, r);
      SetAtOk(c, r', x, order);
      var c' := SetAt(c, r', x, order);
      SetAtUp(t, j, r, r', c', x, order);
      forall k | 0 <= k < |t.data|
        ensures SameSlot(u.data[k], t.data[k])
      {
        if k != j {
          match t.data[k]
          case Item(_) =>
          case Child(d) => ShapeRefl(d);
        }
      }
    }
  }

  /**
   * The way back up from `set`: with child j replaced by a well-formed
   * node of the same height and used count whose elements are the child's
   * with position r' overwritten by x, the node is well-formed and its
   * elements are the old ones with position r overwritten by x.
   */
  lemma {:induction false} SetAtUp<E>(t: Node<E>, j: nat, r: int, r': int, c': Node<E>, x: E, order: nat)
    requires Ok(t, order) && 0 < t.height && j < |t.data| && t.data[j].Child?
    requires MinOrder(order) <= |t.data[j].node.data|
    requires |Forest(t.data[..j])| + r' == r && 0 <= r' < |Items(t.data[j].node)| && r < |Items(t)|
    requires Ok(c', order) && c'.height == t.data[j].node.height && |c'.data| == |t.data[j].node.data|
    requires Items(c') == Items(t.data[j].node)[r' := x]
    ensures var u := t.(data := t.data[j := Child(c')]);
            Ok(u, order) && Items(u) == Items(t)[r := x]
  {
    var d := t.data;
    var u := t.(data := d[j := Child(c')]);
    assert SlotOk(d[j], t.height, order);
    assert SlotOk(Child(c'), t.height, order);
    SlotsOkUpdate(d, j, Child(c'), t.height, order);
    Pick(d, j);
    UpdateAround(d, j, Child(c'));
    assert u.data[..j] == d[..j] && u.data[j + 1..] == d[j + 1..];
    Pick(u.data, j);
    UpdateMid(Forest(d[..j]), Items(d[j].node), Forest(d[j + 1..]), r', x);
  }

  // ---------------------------------------------------------------------
  // Appending

  /**
   * `append(e)`: `findLastLeaf(1)` descends along the last children,
   * adding one to each size, and `insert` puts e at the end of the last
   * leaf, splitting upwards as insertion does.
   */
  function AppendBelow<E>(t: Node<E>, e: E, order: nat): (Node<E>, Option<Node<E>>)
    requires Ok(t, order) && 3 <= order
    requires 0 < t.height ==> 0 < |t.data|
    decreases t
  {
    if t.height == 0 then
      InsertLeaf(t, |t.data|, e, order)
    else
      LastChild(t, order);
      var j := |t.data| - 1;
      var p := AppendBelow(t.data[j].node, e, order);
      var t1 := t.(size := t.size + 1, data := t.data[j := Child(p.0)]);
      if p.1.None? then (t1, None) else InsertInner(t1, j + 1, p.1.value, order)
  }

  /** `append(e)` on the whole tree: a new root when the root splits. */
  function Appended<E>(root: Node<E>, e: E, order: nat): Node<E>
    requires Tree(root, order) && 3 <= order
  {
    var p := AppendBelow(root, e, order);
    if p.1.None? then p.0 else NewRoot(p.0, p.1.value)
  }

  /**
   * Looking for the position just past the end, `walk1` lands at the end
   * of the last entry.
   */
  lemma {:induction false} LocateEnd<E>(ss: seq<Slot<E>>)
    requires 0 < |ss| && Sized(ss)
    ensures Locate(ss, |Forest(ss)|) == (|ss| - 1, |SlotItems(ss[|ss| - 1])|)
    decreases |ss|
  {
    assert SlotSize(ss[0]) == |SlotItems(ss[0])|;
    if |ss| == 1 {
      assert Forest(ss[1..]) == [];
    } else {
      var tail := ss[1..];
      assert Sized(tail) by {
        forall k | 0 <= k < |tail|
          ensures SlotSize(tail[k]) == |SlotItems(tail[k])|
        {
          assert tail[k] == ss[k + 1];
        }
      }
      LocateEnd(tail);
      assert tail[|tail| - 1] == ss[|ss| - 1];
    }
  }

  /**
   * `append(e)` is `insert(size, e)`: the walk along the last children
   * meets the walk of `FinderByIndex` to the position just past the end.
   */
  lemma {:induction false} AppendIsInsert<E>(t: Node<E>, e: E, order: nat)
    requires Ok(t, order) && 3 <= order
    requires 0 < t.height ==> 0 < |t.data|
    ensures AppendBelow(t, e, order) == InsertBelow(t, |Items(t)|, e, order)
    decreases t
  {
    if t.height == 0 {
      LeafForest(t.data, order);
    } else {
      LastChild(t, order);
      SlotsSized(t.data, t.height, order);
      LocateEnd(t.data);
      var j := |t.data| - 1;
      Pick(t.data, j);
      assert t.data[j + 1..] == [];
      AppendIsInsert(t.data[j].node, e, order);
    }
  }

  /** `add(e)` on a well-formed tree: a well-formed tree with e after the old elements. */
  lemma {:induction false} AppendedTree<E>(root: Node<E>, e: E, order: nat)
    requires Tree(root, order) && 3 <= order
    ensures Tree(Appended(root, e, order), order)
    ensures Items(Appended(root, e, order)) == Items(root) + [e]
  {
    AppendIsInsert(root, e, order);
    InsertedTree(root, |Items(root)|, e, order);
    assert Items(root)[..|Items(root)|] == Items(root);
  }

  // ---------------------------------------------------------------------
  // Copying

  /**
   * `clone(src)`: a node of the same height, size and used count whose
   * entries are the leaf's elements or, for an inner node, the clones of
   * its children.
   */
  function CloneNode<E>(src: Node<E>): Node<E>
    decreases src
  {
    if src.height == 0 then Node(0, src.size, src.data)
    else Node(src.height, src.size, CloneChildren(src.data))
  }

  /** The clones of the children of an inner node, left to right. */
  function CloneChildren<E>(ss: seq<Slot<E>>): seq<Slot<E>>
    decreases ss
  {
    if |ss| == 0 then [] else [CloneSlot(ss[0])] + CloneChildren(ss[1..])
  }

  /** The clone of a child; an element is copied as it is. */
  function CloneSlot<E>(s: Slot<E>): Slot<E>
    decreases s
  {
    match s
    case Item(v) => Item(v)
    case Child(c) => Child(CloneNode(c))
  }

  /** `clone()` of a well-formed node is a copy equal in heights, used counts, sizes and elements. */
  lemma {:induction false} CloneEqual<E>(src: Node<E>)
    ensures CloneNode(src) == src
    decreases src
  {
    if src.height > 0 {
      CloneChildrenEqual(src.data);
    }
  }

  /** Cloning the entries of a node copies them. */
  lemma {:induction false} CloneChildrenEqual<E>(ss: seq<Slot<E>>)
    ensures CloneChildren(ss) == ss
    decreases ss
  {
    if |ss| > 0 {
      CloneSlotEqual(ss[0]);
      CloneChildrenEqual(ss[1..]);
      assert ss == [ss[0]] + ss[1..];
    }
  }

  /** Cloning an entry copies it. */
  lemma {:induction false} CloneSlotEqual<E>(s: Slot<E>)
    ensures CloneSlot(s) == s
    decreases s
  {
    match s
    case Item(_) =>
    case Child(c) => CloneEqual(c);
  }
}
