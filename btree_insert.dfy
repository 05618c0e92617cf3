// Insertion into a `BTreeList` (BTreeList.java, `insert` and the helpers
// it calls). An entry goes into a node with room (`insertVacant`), or a
// full node splits into itself and a new right sibling (`insertFull`) that
// its parent then takes in after it (`insertInnerAfter`), up to the root,
// which is replaced by a new root over the two halves (`newRoot`).
module BTreeInsert {
  import opened BTreeNode
  import opened BTreeFind

  datatype Option<T> = None | Some(value: T)

  /** `insertVacant`: entry v opens slot i; the entries from i on move up one. */
  function InsertVacant<E>(data: seq<Slot<E>>, i: nat, v: Slot<E>): seq<Slot<E>>
    requires i <= |data|
  {
    data[..i] + [v] + data[i..]
  }

  /**
   * `insertFull`: entry v goes in slot i of the full node t, which keeps the
   * first n = order / 2 + 1 entries; the others go to a new node of the
   * same height (its size is set by the caller).
   */
  function InsertFull<E>(t: Node<E>, i: nat, v: Slot<E>, order: nat): (Node<E>, Node<E>)
    requires |t.data| == order && i <= order && 2 <= order
  {
    var m := order;
    var n := m / 2 + 1;
    if i < n then
      (t.(data := t.data[..i] + [v] + t.data[i..n - 1]), Node(t.height, 0, t.data[n - 1..m]))
    else
      (t.(data := t.data[..n]), Node(t.height, 0, t.data[n..i] + [v] + t.data[i..m]))
  }

  /** `fixInnerNode`: the size of an inner node recomputed from its children. */
  function FixInnerNode<E>(t: Node<E>): Node<E>
  {
    t.(size := Sizes(t.data))
  }

  /** `insertLeaf`: element e goes in slot i of leaf t; the second component is the new sibling if t was full. */
  function InsertLeaf<E>(t: Node<E>, i: nat, e: E, order: nat): (Node<E>, Option<Node<E>>)
    requires i <= |t.data| <= order && 2 <= order
  {
    if |t.data| < order then
      // insertLeafVacants
      (t.(data := InsertVacant(t.data, i, Item(e)), size := t.size + 1), None)
    else
      // insertLeafFull
      var p := InsertFull(t, i, Item(e), order);
      (p.0.(size := |p.0.data|), Some(p.1.(size := |p.1.data|)))
  }

  /** `insertInnerVacant` or `insertInnerFull`: child c goes in slot i of inner node t. */
  function InsertInner<E>(t: Node<E>, i: nat, c: Node<E>, order: nat): (Node<E>, Option<Node<E>>)
    requires i <= |t.data| <= order && 2 <= order
  {
    if |t.data| < order then
      (t.(data := InsertVacant(t.data, i, Child(c))), None)
    else
      var p := InsertFull(t, i, Child(c), order);
      (FixInnerNode(p.0), Some(FixInnerNode(p.1)))
  }

  /** `newRoot`: a root over two nodes of equal height, sized by their sum. */
  function NewRoot<E>(a: Node<E>, b: Node<E>): Node<E>
  {
    Node(a.height + 1, a.size + b.size, [Child(a), Child(b)])
  }

  /**
   * `insert(i, e)` below node t: the descent of `walk2Leaf(1)`, which adds
   * one to the size of every inner node it passes, then `insertLeaf` at
   * the leaf and, on the way back up, `insertInnerAfter` for each node that
   * split. The first component is t after the insertion; the second is the
   * right sibling t split into, if it did.
   */
  function InsertBelow<E>(t: Node<E>, i: int, e: E, order: nat): (Node<E>, Option<Node<E>>)
    requires Ok(t, order) && 0 <= i <= |Items(t)| && 3 <= order
    requires 0 < t.height ==> 0 < |t.data|
    decreases t
  {
    if t.height == 0 then
      LeafForest(t.data, order);
      InsertLeaf(t, i, e, order)
    else
      DescendAt(t, order, i);
      var (j, r) := Locate(t.data, i);
      var p := InsertBelow(t.data[j].node, r, e, order);
      var t1 := t.(size := t.size + 1, data := t.data[j := Child(p.0)]);
      if p.1.None? then (t1, None) else InsertInner(t1, j + 1, p.1.value, order)
  }

  /** `insert(i, e)` on the whole tree: a new root over the old root and its new sibling when the root splits. */
  function Inserted<E>(root: Node<E>, i: int, e: E, order: nat): Node<E>
    requires Tree(root, order) && 0 <= i <= |Items(root)| && 3 <= order
  {
    var p := InsertBelow(root, i, e, order);
    if p.1.None? then p.0 else NewRoot(p.0, p.1.value)
  }

  /** The elements of a node and of the sibling it split into, if any. */
  ghost function Spread<E>(p: (Node<E>, Option<Node<E>>)): seq<E>
  {
    Items(p.0) + (if p.1.Some? then Items(p.1.value) else [])
  }

  // ---------------------------------------------------------------------
  // The descent for an insertion

  /**
   * One step down from a well-formed inner node for an insertion at
   * position r (at most the node's size): `walk1` picks a well-formed child
   * one level lower, and the position lands inside it or at its end.
   */
  lemma {:induction false} DescendAt<E>(t: Node<E>, order: nat, r: int)
    requires Ok(t, order) && 0 < t.height && 0 < |t.data| && 0 <= r <= |Items(t)| && 3 <= order
    ensures t.data[Locate(t.data, r).0].Child?
    ensures var c := t.data[Locate(t.data, r).0].node;
            c.height == t.height - 1 && Ok(c, order) && MinOrder(order) <= |c.data| && 0 < |c.data|
            && 0 <= Locate(t.data, r).1 <= |Items(c)|
            && |Forest(t.data[..Locate(t.data, r).0])| + Locate(t.data, r).1 == r
  {
    SlotsSized(t.data, t.height, order);
    LocateItems(t.data, r);
    var j := Locate(t.data, r).0;
    assert SlotOk(t.data[j], t.height, order);
  }

  // ---------------------------------------------------------------------
  // Splitting a full node

  /** `insertFull` with the new entry in the kept half: the node keeps the first n of the grown run. */
  lemma {:induction false} SplitLow<T>(d: seq<T>, i: nat, v: T, n: nat)
    requires i < n <= |d|
    ensures d[..i] + [v] + d[i..n - 1] == (d[..i] + [v] + d[i..])[..n]
    ensures d[n - 1..] == (d[..i] + [v] + d[i..])[n..]
  {
  }

  /** `insertFull` with the new entry in the moved half: the new node takes the grown run from n on. */
  lemma {:induction false} SplitHigh<T>(d: seq<T>, i: nat, v: T, n: nat)
    requires n <= i <= |d|
    ensures d[..n] == (d[..i] + [v] + d[i..])[..n]
    ensures d[n..i] + [v] + d[i..] == (d[..i] + [v] + d[i..])[n..]
  {
  }

  /**
   * Splitting a full node: the kept node holds the first n = order / 2 + 1
   * entries of the run with v put in slot i, and the new node the other
   * order + 1 - n, both at the height of the old node.
   */
  lemma {:induction false} InsertFullSplit<E>(t: Node<E>, i: nat, v: Slot<E>, order: nat)
    requires |t.data| == order && i <= order && 2 <= order
    ensures var W := InsertVacant(t.data, i, v);
            var n := order / 2 + 1;
            InsertFull(t, i, v, order).0.data == W[..n] && InsertFull(t, i, v, order).1.data == W[n..]
            && InsertFull(t, i, v, order).0.height == t.height && InsertFull(t, i, v, order).1.height == t.height
  {
    var n := order / 2 + 1;
    if i < n {
      SplitLow(t.data, i, v, n);
    } else {
      SplitHigh(t.data, i, v, n);
    }
  }

  /** The two halves of a split node hold, together, the elements of the grown run. */
  lemma {:induction false} InsertFullItems<E>(t: Node<E>, i: nat, v: Slot<E>, order: nat)
    requires |t.data| == order && i <= order && 2 <= order
    ensures Forest(InsertFull(t, i, v, order).0.data) + Forest(InsertFull(t, i, v, order).1.data)
            == Forest(InsertVacant(t.data, i, v))
  {
    InsertFullSplit(t, i, v, order);
    var W := InsertVacant(t.data, i, v);
    var n := order / 2 + 1;
    assert W == W[..n] + W[n..];
    ForestConcat(W[..n], W[n..]);
  }

  /** Both halves of a split node hold between `minOrder()` and `order` entries. */
  lemma {:induction false} HalvesFit(order: nat)
    requires 3 <= order
    ensures MinOrder(order) <= order / 2 + 1 <= order
    ensures MinOrder(order) <= order + 1 - (order / 2 + 1) <= order
  {
  }

  // ---------------------------------------------------------------------
  // Contents

  /** The entries of a run with v put in slot i: the elements of v go in at the matching position. */
  lemma {:induction false} VacantItems<E>(d: seq<Slot<E>>, i: nat, v: Slot<E>)
    requires i <= |d|
    ensures Forest(InsertVacant(d, i, v)) == Forest(d[..i]) + SlotItems(v) + Forest(d[i..])
    ensures Forest(d) == Forest(d[..i]) + Forest(d[i..])
  {
    ForestThree(d[..i], [v], d[i..]);
    ForestOne(v);
    assert d == d[..i] + d[i..];
    ForestConcat(d[..i], d[i..]);
  }

  /** `insertLeaf` puts e at position i of the leaf's elements, in the leaf or across the two halves. */
  lemma {:induction false} InsertLeafItems<E>(t: Node<E>, i: nat, e: E, order: nat)
    requires i <= |t.data| <= order && 2 <= order && SlotsOk(t.data, 0, order)
    ensures var W := Items(t); i <= |W| && Spread(InsertLeaf(t, i, e, order)) == W[..i] + [e] + W[i..]
  {
    LeafForest(t.data, order);
    var d := t.data;
    VacantItems(d, i, Item(e));
    SlotsOkSlice(d, 0, i, 0, order);
    LeafForest(d[..i], order);
    SliceConcat(Forest(d[..i]), Forest(d[i..]));
    if |d| == order {
      InsertFullItems(t, i, Item(e), order);
    }
  }

  /** `insertInnerAfter` puts the elements of child c after those of the entries before slot i. */
  lemma {:induction false} InsertInnerItems<E>(t: Node<E>, i: nat, c: Node<E>, order: nat)
    requires i <= |t.data| <= order && 2 <= order
    ensures Spread(InsertInner(t, i, c, order)) == Forest(t.data[..i]) + Items(c) + Forest(t.data[i..])
  {
    VacantItems(t.data, i, Child(c));
    if |t.data| == order {
      InsertFullItems(t, i, Child(c), order);
    }
  }

  /**
   * `insert(i, e)` below a well-formed node puts e at position i of its
   * elements: the elements of the node and of the sibling it split into, if
   * it did, are the old elements with e inserted at i.
   */
  lemma {:induction false} InsertBelowItems<E>(t: Node<E>, i: int, e: E, order: nat)
    requires Ok(t, order) && 0 <= i <= |Items(t)| && 3 <= order
    requires 0 < t.height ==> 0 < |t.data|
    ensures Spread(InsertBelow(t, i, e, order)) == Items(t)[..i] + [e] + Items(t)[i..]
    decreases t
  {
    if t.height == 0 {
      LeafForest(t.data, order);
      InsertLeafItems(t, i, e, order);
    } else {
      DescendAt(t, order, i);
      var j, r := Locate(t.data, i).0, Locate(t.data, i).1;
      var child := t.data[j].node;
      InsertBelowItems(child, r, e, order);
      InsertBelowStep(t, i, e, order, j, r, InsertBelow(child, r, e, order));
    }
  }

  /** One level of `InsertBelowItems`: the elements around the child's, with e put in the child's. */
  lemma {:induction false} InsertBelowStep<E>(t: Node<E>, i: int, e: E, order: nat, j: nat, r: int, p: (Node<E>, Option<Node<E>>))
    requires Ok(t, order) && 3 <= order && j < |t.data| && t.data[j].Child?
    requires 0 <= r <= |Items(t.data[j].node)| && |Forest(t.data[..j])| + r == i && i <= |Items(t)|
    requires Spread(p) == Items(t.data[j].node)[..r] + [e] + Items(t.data[j].node)[r..]
    ensures var t1 := t.(size := t.size + 1, data := t.data[j := Child(p.0)]);
            Spread(if p.1.None? then (t1, None) else InsertInner(t1, j + 1, p.1.value, order))
            == Items(t)[..i] + [e] + Items(t)[i..]
  {
    var d := t.data;
    var P, C, Q := Forest(d[..j]), Items(d[j].node), Forest(d[j + 1..]);
    Pick(d, j);
    SpreadAfter(t, j, p, order);
    SpliceMid(P, C, Q, r, e);
  }

  /**
   * One level of `insert` on the way back up: with slot j of t replaced by
   * the child after the insertion, and the sibling it split into (if any)
   * taken in after it, the elements are those of the other entries around
   * the elements of the two halves.
   */
  lemma {:induction false} SpreadAfter<E>(t: Node<E>, j: nat, p: (Node<E>, Option<Node<E>>), order: nat)
    requires j < |t.data| <= order && 3 <= order
    ensures var t1 := t.(size := t.size + 1, data := t.data[j := Child(p.0)]);
            Spread(if p.1.None? then (t1, None) else InsertInner(t1, j + 1, p.1.value, order))
            == Forest(t.data[..j]) + Spread(p) + Forest(t.data[j + 1..])
  {
    var d := t.data;
    var d1 := d[j := Child(p.0)];
    var t1 := t.(size := t.size + 1, data := d1);
    UpdateAround(d, j, Child(p.0));
    assert d1[..j] == d[..j] && d1[j + 1..] == d[j + 1..];
    Pick(d1, j);
    if p.1.Some? {
      InsertInnerItems(t1, j + 1, p.1.value, order);
      assert d1[..j + 1] == d[..j] + [Child(p.0)];
      ForestConcat(d[..j], [Child(p.0)]);
      ForestOne(Child(p.0));
    }
  }

  // ---------------------------------------------------------------------
  // Well-formedness

  /** A run with one entry replaced by a well-formed one is well-formed. */
  lemma {:induction false} SlotsOkUpdate<E>(d: seq<Slot<E>>, j: nat, v: Slot<E>, h: nat, order: nat)
    requires j < |d| && SlotsOk(d, h, order) && SlotOk(v, h, order)
    ensures SlotsOk(d[j := v], h, order)
  {
    var d' := d[j := v];
    forall k | 0 <= k < |d'|
      ensures SlotOk(d'[k], h, order)
    {
      if k != j {
        assert d'[k] == d[k];
      }
    }
  }

  /** A run with a well-formed entry put in slot i is well-formed. */
  lemma {:induction false} SlotsOkVacant<E>(d: seq<Slot<E>>, i: nat, v: Slot<E>, h: nat, order: nat)
    requires i <= |d| && SlotsOk(d, h, order) && SlotOk(v, h, order)
    ensures SlotsOk(InsertVacant(d, i, v), h, order)
  {
    forall k | 0 <= k < |d| + 1
      ensures SlotOk(InsertVacant(d, i, v)[k], h, order)
    {
      if k < i {
        assert InsertVacant(d, i, v)[k] == d[k];
      } else if i < k {
        assert InsertVacant(d, i, v)[k] == d[k - 1];
      }
    }
  }

  /**
   * `insertLeaf` keeps a well-formed leaf well-formed, with one entry more
   * when it has room; when it splits, both halves are well-formed leaves
   * with at least `minOrder()` entries.
   */
  lemma {:induction false} InsertLeafOk<E>(t: Node<E>, i: nat, e: E, order: nat)
    requires Ok(t, order) && t.height == 0 && i <= |t.data| && 3 <= order
    ensures var p := InsertLeaf(t, i, e, order);
            p.0.height == 0 && Ok(p.0, order)
            && (p.1.None? ==> |p.0.data| == |t.data| + 1)
            && (p.1.Some? ==> p.1.value.height == 0 && Ok(p.1.value, order)
                              && MinOrder(order) <= |p.0.data| && MinOrder(order) <= |p.1.value.data|)
    ensures Grown(t, InsertLeaf(t, i, e, order), order)
  {
    var d := t.data;
    var W := InsertVacant(d, i, Item(e));
    SlotsOkVacant(d, i, Item(e), 0, order);
    LeafForest(d, order);
    LeafForest(W, order);
    InsertLeafItems(t, i, e, order);
    if |d| == order {
      InsertFullSplit(t, i, Item(e), order);
      HalvesFit(order);
      var n := order / 2 + 1;
      SlotsOkSlice(W, 0, n, 0, order);
      SlotsOkSlice(W, n, |W|, 0, order);
      LeafForest(W[..n], order);
      LeafForest(W[n..], order);
    }
  }

  /**
   * `insertInnerAfter` on an inner node whose entries are well-formed and
   * whose size already counts the elements of the new child c: the node
   * stays well-formed, with one entry more when it has room; when it splits,
   * both halves are well-formed with at least `minOrder()` entries and
   * sizes recomputed by `fixInnerNode`.
   */
  lemma {:induction false} InsertInnerOk<E>(t: Node<E>, i: nat, c: Node<E>, order: nat)
    requires 0 < t.height && |t.data| <= order && i <= |t.data| && 3 <= order
    requires SlotsOk(t.data, t.height, order) && SlotOk(Child(c), t.height, order)
    requires t.size == |Forest(t.data)| + |Items(c)|
    ensures var p := InsertInner(t, i, c, order);
            p.0.height == t.height && Ok(p.0, order)
            && (p.1.None? ==> |p.0.data| == |t.data| + 1)
            && (p.1.Some? ==> p.1.value.height == t.height && Ok(p.1.value, order)
                              && MinOrder(order) <= |p.0.data| && MinOrder(order) <= |p.1.value.data|)
  {
    var d := t.data;
    var W := InsertVacant(d, i, Child(c));
    SlotsOkVacant(d, i, Child(c), t.height, order);
    VacantItems(d, i, Child(c));
    if |d| == order {
      InsertFullSplit(t, i, Child(c), order);
      HalvesFit(order);
      var n := order / 2 + 1;
      SlotsOkSlice(W, 0, n, t.height, order);
      SlotsOkSlice(W, n, |W|, t.height, order);
      SlotsSized(W[..n], t.height, order);
      SizesItems(W[..n]);
      SlotsSized(W[n..], t.height, order);
      SizesItems(W[n..]);
    }
  }

  /**
   * What an insertion below t leaves: t at its height, well-formed, with at
   * least as many entries; or, when it split, both halves well-formed at
   * its height with at least `minOrder()` entries each.
   */
  ghost predicate Grown<E>(t: Node<E>, p: (Node<E>, Option<Node<E>>), order: nat)
  {
    p.0.height == t.height && Ok(p.0, order)
    && (p.1.None? ==> |t.data| <= |p.0.data|)
    && (p.1.Some? ==> p.1.value.height == t.height && Ok(p.1.value, order)
                      && MinOrder(order) <= |p.0.data| && MinOrder(order) <= |p.1.value.data|)
  }

  /**
   * `insert(i, e)` below a well-formed node keeps it well-formed at its
   * height, with at least as many entries; when it splits, both halves are
   * well-formed with at least `minOrder()` entries.
   */
  lemma {:induction false} InsertBelowOk<E>(t: Node<E>, i: int, e: E, order: nat)
    requires Ok(t, order) && 0 <= i <= |Items(t)| && 3 <= order
    requires 0 < t.height ==> 0 < |t.data|
    ensures Grown(t, InsertBelow(t, i, e, order), order)
    decreases t
  {
    if t.height == 0 {
      LeafForest(t.data, order);
      InsertLeafOk(t, i, e, order);
      assert InsertBelow(t, i, e, order) == InsertLeaf(t, i, e, order);
    } else {
      DescendAt(t, order, i);
      var j, r := Locate(t.data, i).0, Locate(t.data, i).1;
      var child := t.data[j].node;
      var p := InsertBelow(child, r, e, order);
      InsertBelowOk(child, r, e, order);
      InsertBelowItems(child, r, e, order);
      Pick(t.data, j);
      OkAfter(t, j, p, order);
      var t1 := t.(size := t.size + 1, data := t.data[j := Child(p.0)]);
      assert InsertBelow(t, i, e, order) == if p.1.None? then (t1, None) else InsertInner(t1, j + 1, p.1.value, order);
    }
  }

  /**
   * One level of `insert` on the way back up keeps the node well-formed:
   * slot j gets the child after the insertion, which holds one element more,
   * and the sibling it split into (if any) is taken in after it.
   */
  lemma {:induction false} OkAfter<E>(t: Node<E>, j: nat, p: (Node<E>, Option<Node<E>>), order: nat)
    requires Ok(t, order) && 0 < t.height && j < |t.data| && 3 <= order
    requires Forest(t.data) == Forest(t.data[..j]) + SlotItems(t.data[j]) + Forest(t.data[j + 1..])
    requires t.data[j].Child? && |Spread(p)| == |Items(t.data[j].node)| + 1
    requires Grown(t.data[j].node, p, order)
    ensures var t1 := t.(size := t.size + 1, data := t.data[j := Child(p.0)]);
            Grown(t, if p.1.None? then (t1, None) else InsertInner(t1, j + 1, p.1.value, order), order)
  {
    var d := t.data;
    var t1 := t.(size := t.size + 1, data := d[j := Child(p.0)]);
    assert SlotOk(d[j], t.height, order);
    assert SlotOk(Child(p.0), t.height, order);
    SlotsOkUpdate(d, j, Child(p.0), t.height, order);
    UpdateAround(d, j, Child(p.0));
    assert t1.data[..j] == d[..j] && t1.data[j + 1..] == d[j + 1..];
    Pick(t1.data, j);
    if p.1.Some? {
      assert SlotOk(Child(p.1.value), t.height, order);
      InsertInnerOk(t1, j + 1, p.1.value, order);
    }
  }

  /**
   * `insert(i, e)` on a well-formed tree: the result is a well-formed tree
   * of the same order whose elements are the old ones with e inserted at
   * position i; when the root splits, the new root has exactly the two
   * halves as children and their summed size.
   */
  lemma {:induction false} InsertedTree<E>(root: Node<E>, i: int, e: E, order: nat)
    requires Tree(root, order) && 0 <= i <= |Items(root)| && 3 <= order
    ensures Tree(Inserted(root, i, e, order), order)
    ensures Items(Inserted(root, i, e, order)) == Items(root)[..i] + [e] + Items(root)[i..]
    ensures var r := Inserted(root, i, e, order);
      r.height == root.height ||
      (r.height == root.height + 1 && |r.data| == 2 &&
       r.data[0].Child? && r.data[1].Child? &&
       r.data[0].node.height == r.data[1].node.height == root.height &&
       r.size == r.data[0].node.size + r.data[1].node.size)
  {
    InsertBelowOk(root, i, e, order);
    InsertBelowItems(root, i, e, order);
    var p := InsertBelow(root, i, e, order);
    if p.1.Some? {
      var a, b := p.0, p.1.value;
      var nr := NewRoot(a, b);
      ForestConcat([Child(a)], [Child(b)]);
      ForestOne(Child(a));
      ForestOne(Child(b));
      assert [Child(a)] + [Child(b)] == nr.data;
      assert SlotsOk(nr.data, nr.height, order) by {
        assert SlotOk(Child(a), nr.height, order);
        assert SlotOk(Child(b), nr.height, order);
      }
    }
  }
}
