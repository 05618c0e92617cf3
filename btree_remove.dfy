// Removal from a `BTreeList` (BTreeList.java, `remove` and the helpers it
// calls). The entry goes out of its leaf; a node left with fewer than
// `minOrder()` entries takes one from its left sibling, or merges into it,
// or, when it is the first child, takes one from its right sibling or
// merges into that; a merge removes an entry from the parent, which may
// underflow in turn, up to the root, which is replaced by its only child
// when it is an inner node left with one.
module BTreeRemove {
  import opened BTreeNode
  import opened BTreeFind

  /** `remove(data, n, i)`: entry i goes out; the entries after it move down one. */
  function Without<T>(s: seq<T>, i: nat): (r: seq<T>)
    requires i < |s|
    ensures |r| == |s| - 1
    ensures forall k :: 0 <= k < i ==> r[k] == s[k]
    ensures forall k :: i <= k < |r| ==> r[k] == s[k + 1]
  {
    s[..i] + s[i + 1..]
  }

  /**
   * Node c, short of entries, takes the last entry of its left sibling
   * `left` as its first; the entry's size moves from one node's `size` to
   * the other's.
   */
  function BorrowLeft<E>(left: Node<E>, c: Node<E>): (Node<E>, Node<E>)
    requires 0 < |left.data|
  {
    var n := |left.data|;
    var s := left.data[n - 1];
    (left.(size := left.size - SlotSize(s), data := left.data[..n - 1]),
     c.(size := c.size + SlotSize(s), data := [s] + c.data))
  }

  /**
   * Node c, short of entries, goes into its left sibling: its entries are
   * appended, and `fixNewChildren` recounts the size (the number of entries
   * of a leaf; the old size plus the sizes of the moved children otherwise).
   */
  function MergeLeft<E>(left: Node<E>, c: Node<E>): Node<E>
  {
    var data := left.data + c.data;
    left.(data := data, size := if left.height == 0 then |data| else left.size + Sizes(c.data))
  }

  /** Node c, short of entries, takes the first entry of its right sibling as its last. */
  function BorrowRight<E>(c: Node<E>, right: Node<E>): (Node<E>, Node<E>)
    requires 0 < |right.data|
  {
    var s := right.data[0];
    (c.(size := c.size + SlotSize(s), data := c.data + [s]),
     right.(size := right.size - SlotSize(s), data := right.data[1..]))
  }

  /** Node c, short of entries, goes into its right sibling, in front of its entries. */
  function MergeRight<E>(c: Node<E>, right: Node<E>): Node<E>
  {
    var data := c.data + right.data;
    right.(data := data, size := if right.height == 0 then |data| else right.size + Sizes(c.data))
  }

  /** Every entry of a run is a child node. */
  predicate Children<E>(ss: seq<Slot<E>>)
  {
    forall k :: 0 <= k < |ss| ==> ss[k].Child?
  }

  /**
   * One turn of the loop of `remove(leaf, off)`: child j of inner node t
   * has become c. If c still holds `minOrder()` entries it just takes its
   * slot; otherwise it borrows from or merges into its left sibling, or its
   * right sibling when it is the first child. A merge leaves t with one
   * entry less.
   */
  function Rebalance<E>(t: Node<E>, j: nat, c: Node<E>, order: nat): Node<E>
    requires 1 < |t.data| && j < |t.data| && Children(t.data)
  {
    var d := t.data;
    var min := MinOrder(order);
    if min <= |c.data| then
      t.(data := d[..j] + [Child(c)] + d[j + 1..])
    else if 0 < j then
      var left := d[j - 1].node;
      if min < |left.data| then
        var p := BorrowLeft(left, c);
        t.(data := d[..j - 1] + [Child(p.0), Child(p.1)] + d[j + 1..])
      else
        t.(data := d[..j - 1] + [Child(MergeLeft(left, c))] + d[j + 1..])
    else
      var right := d[1].node;
      if min < |right.data| then
        var p := BorrowRight(c, right);
        t.(data := [Child(p.0), Child(p.1)] + d[2..])
      else
        t.(data := [Child(MergeRight(c, right))] + d[2..])
  }

  /**
   * `remove(i)` below node t: the descent of `walk2Leaf(-1)`, which takes
   * one from the size of every inner node it passes, the removal of the
   * element from its leaf, and the rebalancing of each node on the way
   * back up. An inner node needs two entries (a sibling for its short
   * child).
   */
  function RemoveAt<E>(t: Node<E>, r: int, order: nat): Node<E>
    requires Ok(t, order) && 3 <= order && 0 <= r < |Items(t)|
    requires 0 < t.height ==> 2 <= |t.data|
    decreases t
  {
    if t.height == 0 then
      LeafForest(t.data, order);
      t.(size := t.size - 1, data := Without(t.data, r))
    else
      Descend(t, order, r);
      var (j, r') := Locate(t.data, r);
      var c := RemoveAt(t.data[j].node, r', order);
      Rebalance(t.(size := t.size - 1), j, c, order)
  }

  /** `remove(i)` on the whole tree: an inner root left with one child gives way to it. */
  function Removed<E>(root: Node<E>, i: int, order: nat): Node<E>
    requires Tree(root, order) && 3 <= order && 0 <= i < |Items(root)|
  {
    RemoveAtOk(root, i, order);
    var t := RemoveAt(root, i, order);
    if 0 < t.height && |t.data| == 1 then t.data[0].node else t
  }

  // ---------------------------------------------------------------------
  // Borrowing and merging

  /** The elements of a run of two entries. */
  lemma {:induction false} ForestTwo<E>(a: Slot<E>, b: Slot<E>)
    ensures Forest([a, b]) == SlotItems(a) + SlotItems(b)
  {
    assert [a, b] == [a] + [b];
    ForestConcat([a], [b]);
    ForestOne(a);
    ForestOne(b);
  }

  /** A node of well-formed entries whose size counts them is well-formed. */
  lemma {:induction false} NodeOk<E>(t: Node<E>, order: nat)
    requires |t.data| <= order && SlotsOk(t.data, t.height, order)
    requires t.height == 0 ==> t.size == |t.data|
    requires 0 < t.height ==> t.size == Sizes(t.data)
    ensures Ok(t, order)
  {
    if t.height == 0 {
      LeafForest(t.data, order);
    } else {
      SlotsSized(t.data, t.height, order);
      SizesItems(t.data);
    }
  }

  /**
   * Taking the last entry of a left sibling with more than `minOrder()`
   * into a node one short of it: both are well-formed with `minOrder()`
   * entries or more, and their elements, in order, are unchanged.
   */
  lemma {:induction false} BorrowLeftOk<E>(left: Node<E>, c: Node<E>, order: nat)
    requires Ok(left, order) && Ok(c, order) && left.height == c.height && 3 <= order
    requires MinOrder(order) < |left.data| && |c.data| + 1 == MinOrder(order)
    ensures var p := BorrowLeft(left, c);
            p.0.height == c.height && p.1.height == c.height
            && Ok(p.0, order) && Ok(p.1, order)
            && MinOrder(order) <= |p.0.data| && MinOrder(order) <= |p.1.data|
            && Items(p.0) + Items(p.1) == Items(left) + Items(c)
  {
    var n := |left.data|;
    var s := left.data[n - 1];
    BorrowLeftItems(left, c);
    ForestSnoc(left.data, n);
    assert left.data[..n] == left.data;
    assert SlotOk(s, c.height, order);
    SlotsSized(left.data, left.height, order);
    SlotsOkSlice(left.data, 0, n - 1, left.height, order);
    SlotsOkConcat([s], c.data, c.height, order);
  }

  /**
   * Taking the first entry of a right sibling with more than `minOrder()`
   * into a node one short of it: both are well-formed with `minOrder()`
   * entries or more, and their elements, in order, are unchanged.
   */
  lemma {:induction false} BorrowRightOk<E>(c: Node<E>, right: Node<E>, order: nat)
    requires Ok(right, order) && Ok(c, order) && right.height == c.height && 3 <= order
    requires MinOrder(order) < |right.data| && |c.data| + 1 == MinOrder(order)
    ensures var p := BorrowRight(c, right);
            p.0.height == c.height && p.1.height == c.height
            && Ok(p.0, order) && Ok(p.1, order)
            && MinOrder(order) <= |p.0.data| && MinOrder(order) <= |p.1.data|
            && Items(p.0) + Items(p.1) == Items(c) + Items(right)
  {
    var s := right.data[0];
    BorrowRightItems(c, right);
    ForestCons(right.data, 0);
    assert right.data[0..] == right.data;
    assert SlotOk(s, c.height, order);
    SlotsSized(right.data, right.height, order);
    SlotsOkSlice(right.data, 1, |right.data|, right.height, order);
    SlotsOkConcat(c.data, [s], c.height, order);
  }

  /** Both entries fit in one node after a merge: `minOrder()` + `minOrder()` - 1 is at most the order. */
  lemma {:induction false} MergeFits(order: nat)
    requires 3 <= order
    ensures 2 * MinOrder(order) - 1 <= order && 2 <= MinOrder(order)
  {
  }

  /**
   * Merging a node one short of `minOrder()` entries into a sibling with
   * exactly `minOrder()`: the merged node is well-formed and holds the
   * elements of both, in order (a holds the first ones).
   */
  lemma {:induction false} MergeOk<E>(a: Node<E>, b: Node<E>, m: Node<E>, order: nat)
    requires Ok(a, order) && Ok(b, order) && a.height == b.height && 3 <= order
    requires |a.data| + |b.data| == 2 * MinOrder(order) - 1
    requires m.height == a.height && m.data == a.data + b.data
    requires m.height == 0 ==> m.size == |m.data|
    requires 0 < m.height ==> m.size == Sizes(a.data) + Sizes(b.data)
    ensures Ok(m, order) && MinOrder(order) <= |m.data| && Items(m) == Items(a) + Items(b)
  {
    MergeFits(order);
    ForestConcat(a.data, b.data);
    SlotsOkConcat(a.data, b.data, a.height, order);
    SizesConcat(a.data, b.data);
    NodeOk(m, order);
  }

  // ---------------------------------------------------------------------
  // Rebalancing a node's short child

  /** The three parts of a run: before lo, from lo to hi, from hi on. */
  lemma {:induction false} ForestSplit<E>(d: seq<Slot<E>>, lo: nat, hi: nat)
    requires lo <= hi <= |d|
    ensures Forest(d) == Forest(d[..lo]) + Forest(d[lo..hi]) + Forest(d[hi..])
  {
    ThreeParts(d, lo, hi);
    ForestThree(d[..lo], d[lo..hi], d[hi..]);
  }

  /** A sequence cut in three and put back together. */
  lemma {:induction false} ThreeParts<T>(d: seq<T>, lo: nat, hi: nat)
    requires lo <= hi <= |d|
    ensures d[..lo] + d[lo..hi] + d[hi..] == d
  {
  }

  /** Entries lo to hi of a run, when they are two. */
  lemma {:induction false} PairAt<T>(d: seq<T>, lo: nat)
    requires lo + 2 <= |d|
    ensures d[lo..lo + 2] == [d[lo], d[lo + 1]]
  {
  }

  /** The elements of a run up to entry j, the last of them being entry j - 1. */
  lemma {:induction false} ForestSnoc<E>(d: seq<Slot<E>>, j: nat)
    requires 0 < j <= |d|
    ensures Forest(d[..j]) == Forest(d[..j - 1]) + SlotItems(d[j - 1])
  {
    assert d[..j] == d[..j - 1] + [d[j - 1]];
    ForestConcat(d[..j - 1], [d[j - 1]]);
    ForestOne(d[j - 1]);
  }

  /** The elements of a run from entry i on, the first of them being entry i. */
  lemma {:induction false} ForestCons<E>(d: seq<Slot<E>>, i: nat)
    requires i < |d|
    ensures Forest(d[i..]) == SlotItems(d[i]) + Forest(d[i + 1..])
  {
    assert d[i..] == [d[i]] + d[i + 1..];
    ForestConcat([d[i]], d[i + 1..]);
    ForestOne(d[i]);
  }

  /** Borrowing from the left sibling keeps the elements of the two nodes, in order. */
  lemma {:induction false} BorrowLeftItems<E>(left: Node<E>, c: Node<E>)
    requires 0 < |left.data|
    ensures Items(BorrowLeft(left, c).0) + Items(BorrowLeft(left, c).1) == Items(left) + Items(c)
  {
    var n := |left.data|;
    ForestSnoc(left.data, n);
    assert left.data[..n] == left.data;
    ForestCons([left.data[n - 1]] + c.data, 0);
    assert ([left.data[n - 1]] + c.data)[1..] == c.data;
  }

  /** Borrowing from the right sibling keeps the elements of the two nodes, in order. */
  lemma {:induction false} BorrowRightItems<E>(c: Node<E>, right: Node<E>)
    requires 0 < |right.data|
    ensures Items(BorrowRight(c, right).0) + Items(BorrowRight(c, right).1) == Items(c) + Items(right)
  {
    var n := |c.data| + 1;
    ForestCons(right.data, 0);
    assert right.data[0..] == right.data;
    ForestSnoc(c.data + [right.data[0]], n);
    assert (c.data + [right.data[0]])[..n] == c.data + [right.data[0]];
    assert (c.data + [right.data[0]])[..n - 1] == c.data;
  }

  /** A node that keeps its slot: its elements replace those of child j. */
  lemma {:induction false} KeepItems<E>(d: seq<Slot<E>>, j: nat, c: Node<E>)
    requires j < |d|
    ensures Forest(d[..j] + [Child(c)] + d[j + 1..]) == Forest(d[..j]) + Items(c) + Forest(d[j + 1..])
  {
    ForestThree(d[..j], [Child(c)], d[j + 1..]);
    ForestOne(Child(c));
  }

  /**
   * Entries j - 1 and j replaced by a run whose elements are those of the
   * left sibling followed by those of c.
   */
  lemma {:induction false} LeftItems<E>(d: seq<Slot<E>>, j: nat, mid: seq<Slot<E>>, left: Node<E>, c: Node<E>)
    requires 0 < j < |d| && d[j - 1] == Child(left) && Forest(mid) == Items(left) + Items(c)
    ensures Forest(d[..j - 1] + mid + d[j + 1..]) == Forest(d[..j]) + Items(c) + Forest(d[j + 1..])
  {
    ForestThree(d[..j - 1], mid, d[j + 1..]);
    ForestSnoc(d, j);
    Regroup(Forest(d[..j - 1]), Items(left), Items(c), Forest(d[j + 1..]));
  }

  /** Concatenation regrouped. */
  lemma {:induction false} Regroup<T>(p: seq<T>, x: seq<T>, y: seq<T>, q: seq<T>)
    ensures p + (x + y) + q == (p + x) + y + q
  {
  }

  /**
   * Entries 0 and 1 replaced by a run whose elements are those of c
   * followed by those of its right sibling.
   */
  lemma {:induction false} RightItems<E>(d: seq<Slot<E>>, mid: seq<Slot<E>>, c: Node<E>, right: Node<E>)
    requires 1 < |d| && d[1] == Child(right) && Forest(mid) == Items(c) + Items(right)
    ensures Forest(mid + d[2..]) == Forest(d[..0]) + Items(c) + Forest(d[1..])
  {
    ForestConcat(mid, d[2..]);
    ForestCons(d, 1);
    assert d[..0] == [];
  }

  /**
   * Rebalancing puts the elements of the new child c where those of child
   * j were, whichever of the five cases applies.
   */
  lemma {:induction false} RebalanceItems<E>(t: Node<E>, j: nat, c: Node<E>, order: nat)
    requires 1 < |t.data| && j < |t.data| && Children(t.data)
    ensures Forest(Rebalance(t, j, c, order).data) == Forest(t.data[..j]) + Items(c) + Forest(t.data[j + 1..])
  {
    var d := t.data;
    var min := MinOrder(order);
    if min <= |c.data| {
      KeepItems(d, j, c);
    } else if 0 < j {
      var left := d[j - 1].node;
      if min < |left.data| {
        var p := BorrowLeft(left, c);
        ForestTwo(Child(p.0), Child(p.1));
        BorrowLeftItems(left, c);
        LeftItems(d, j, [Child(p.0), Child(p.1)], left, c);
      } else {
        var m := MergeLeft(left, c);
        ForestOne(Child(m));
        ForestConcat(left.data, c.data);
        LeftItems(d, j, [Child(m)], left, c);
      }
    } else {
      var right := d[1].node;
      if min < |right.data| {
        var p := BorrowRight(c, right);
        ForestTwo(Child(p.0), Child(p.1));
        BorrowRightItems(c, right);
        RightItems(d, [Child(p.0), Child(p.1)], c, right);
      } else {
        var m := MergeRight(c, right);
        ForestOne(Child(m));
        ForestConcat(c.data, right.data);
        RightItems(d, [Child(m)], c, right);
      }
    }
  }

  /** A run with the entries from lo to hi replaced by well-formed ones is well-formed. */
  lemma {:induction false} SlotsOkSplice<E>(d: seq<Slot<E>>, lo: nat, hi: nat, mid: seq<Slot<E>>, h: nat, order: nat)
    requires lo <= hi <= |d| && SlotsOk(d, h, order) && SlotsOk(mid, h, order)
    ensures SlotsOk(d[..lo] + mid + d[hi..], h, order)
  {
    SlotsOkSlice(d, 0, lo, h, order);
    SlotsOkSlice(d, hi, |d|, h, order);
    SlotsOkConcat(d[..lo], mid, h, order);
    SlotsOkConcat(d[..lo] + mid, d[hi..], h, order);
  }

  /**
   * A short child borrowing from or merging into its left sibling leaves
   * the entries of the node well-formed.
   */
  lemma {:induction false} RebalanceLeftOk<E>(t: Node<E>, j: nat, c: Node<E>, order: nat)
    requires 0 < t.height && 0 < j < |t.data| && 3 <= order
    requires SlotsOk(t.data, t.height, order) && Children(t.data)
    requires c.height == t.height - 1 && Ok(c, order) && |c.data| + 1 == MinOrder(order)
    ensures SlotsOk(Rebalance(t, j, c, order).data, t.height, order)
  {
    var d := t.data;
    var h := t.height;
    var left := d[j - 1].node;
    assert SlotOk(d[j - 1], h, order);
    if MinOrder(order) < |left.data| {
      BorrowLeftOk(left, c, order);
      var p := BorrowLeft(left, c);
      assert SlotsOk([Child(p.0), Child(p.1)], h, order) by {
        assert SlotOk(Child(p.0), h, order) && SlotOk(Child(p.1), h, order);
      }
      SlotsOkSplice(d, j - 1, j + 1, [Child(p.0), Child(p.1)], h, order);
    } else {
      var m := MergeLeft(left, c);
      OkSizes(left, order);
      MergeOk(left, c, m, order);
      assert SlotsOk([Child(m)], h, order) by {
        assert SlotOk(Child(m), h, order);
      }
      SlotsOkSplice(d, j - 1, j + 1, [Child(m)], h, order);
    }
  }

  /**
   * A short first child borrowing from or merging into its right sibling
   * leaves the entries of the node well-formed.
   */
  lemma {:induction false} RebalanceRightOk<E>(t: Node<E>, c: Node<E>, order: nat)
    requires 0 < t.height && 1 < |t.data| && 3 <= order
    requires SlotsOk(t.data, t.height, order) && Children(t.data)
    requires c.height == t.height - 1 && Ok(c, order) && |c.data| + 1 == MinOrder(order)
    ensures SlotsOk(Rebalance(t, 0, c, order).data, t.height, order)
  {
    var d := t.data;
    var h := t.height;
    var right := d[1].node;
    assert SlotOk(d[1], h, order);
    if MinOrder(order) < |right.data| {
      BorrowRightOk(c, right, order);
      var p := BorrowRight(c, right);
      assert SlotsOk([Child(p.0), Child(p.1)], h, order) by {
        assert SlotOk(Child(p.0), h, order) && SlotOk(Child(p.1), h, order);
      }
      SlotsOkSplice(d, 0, 2, [Child(p.0), Child(p.1)], h, order);
    } else {
      var m := MergeRight(c, right);
      OkSizes(right, order);
      MergeOk(c, right, m, order);
      assert SlotsOk([Child(m)], h, order) by {
        assert SlotOk(Child(m), h, order);
      }
      SlotsOkSplice(d, 0, 2, [Child(m)], h, order);
    }
  }

  /**
   * Rebalancing after child j of a well-formed inner node became c, a
   * well-formed node at most one short of `minOrder()` entries, keeps the
   * node well-formed (its size already counting the elements of c), with
   * the same height and at most one entry less.
   */
  lemma {:induction false} RebalanceOk<E>(t: Node<E>, j: nat, c: Node<E>, order: nat)
    requires 0 < t.height && 1 < |t.data| <= order && j < |t.data| && 3 <= order
    requires SlotsOk(t.data, t.height, order)
    requires c.height == t.height - 1 && Ok(c, order) && MinOrder(order) <= |c.data| + 1
    requires t.size == |Forest(t.data[..j])| + |Items(c)| + |Forest(t.data[j + 1..])|
    ensures Children(t.data)
    ensures var u := Rebalance(t, j, c, order);
            u.height == t.height && Ok(u, order) && |t.data| - 1 <= |u.data| <= |t.data|
  {
    var d := t.data;
    var h := t.height;
    forall k | 0 <= k < |d|
      ensures d[k].Child?
    {
      assert SlotOk(d[k], h, order);
    }
    RebalanceItems(t, j, c, order);
    if MinOrder(order) <= |c.data| {
      assert SlotsOk([Child(c)], h, order) by {
        assert SlotOk(Child(c), h, order);
      }
      SlotsOkSplice(d, j, j + 1, [Child(c)], h, order);
    } else if 0 < j {
      RebalanceLeftOk(t, j, c, order);
    } else {
      RebalanceRightOk(t, c, order);
    }
  }

  // ---------------------------------------------------------------------
  // Removal

  /**
   * `remove(i)` below a well-formed node removes its element at position
   * r and keeps it well-formed at the same height, with at most one entry
   * less.
   */
  lemma {:induction false} RemoveAtOk<E>(t: Node<E>, r: int, order: nat)
    requires Ok(t, order) && 3 <= order && 0 <= r < |Items(t)|
    requires 0 < t.height ==> 2 <= |t.data|
    ensures var u := RemoveAt(t, r, order);
            Items(u) == Items(t)[..r] + Items(t)[r + 1..]
            && u.height == t.height && Ok(u, order) && |t.data| - 1 <= |u.data| <= |t.data|
    decreases t
  {
    if t.height == 0 {
      LeafForest(t.data, order);
      RemoveLeafOk(t, r, order);
    } else {
      Descend(t, order, r);
      var j, r' := Locate(t.data, r).0, Locate(t.data, r).1;
      var child := t.data[j].node;
      SlotsSized(t.data, t.height, order);
      LocateItems(t.data, r);
      MergeFits(order);
      RemoveAtOk(child, r', order);
      RemoveUp(t, r, j, r', RemoveAt(child, r', order), order);
    }
  }

  /** Removing entry r of a well-formed leaf removes its element at r and leaves it well-formed. */
  lemma {:induction false} RemoveLeafOk<E>(t: Node<E>, r: int, order: nat)
    requires Ok(t, order) && t.height == 0 && 0 <= r < |t.data|
    ensures var u := t.(size := t.size - 1, data := Without(t.data, r));
            var W := Items(t);
            r < |W| && Items(u) == W[..r] + W[r + 1..] && Ok(u, order)
  {
    LeafForest(t.data, order);
    var u := t.(size := t.size - 1, data := Without(t.data, r));
    SlotsOkSlice(t.data, 0, r, 0, order);
    SlotsOkSlice(t.data, r + 1, |t.data|, 0, order);
    SlotsOkConcat(t.data[..r], t.data[r + 1..], 0, order);
    LeafForest(u.data, order);
  }

  /**
   * The way back up from a removal at position r' of child j (position r
   * of t): rebalancing t, with one less in its size, around the child
   * after the removal leaves t well-formed and without its element at r.
   */
  lemma {:induction false} RemoveUp<E>(t: Node<E>, r: int, j: nat, r': int, c: Node<E>, order: nat)
    requires Ok(t, order) && 0 < t.height && 2 <= |t.data| && 3 <= order
    requires j < |t.data| && t.data[j].Child? && MinOrder(order) <= |t.data[j].node.data|
    requires |Forest(t.data[..j])| + r' == r && 0 <= r' < |Items(t.data[j].node)| && r < |Items(t)|
    requires Items(c) == Items(t.data[j].node)[..r'] + Items(t.data[j].node)[r' + 1..]
    requires c.height == t.height - 1 && Ok(c, order) && |t.data[j].node.data| - 1 <= |c.data|
    ensures Children(t.data)
    ensures var u := Rebalance(t.(size := t.size - 1), j, c, order);
            Items(u) == Items(t)[..r] + Items(t)[r + 1..]
            && u.height == t.height && Ok(u, order) && |t.data| - 1 <= |u.data| <= |t.data|
  {
    var child := t.data[j].node;
    Pick(t.data, j);
    CutMid(Forest(t.data[..j]), Items(child), Forest(t.data[j + 1..]), r');
    RebalanceOk(t.(size := t.size - 1), j, c, order);
    RebalanceItems(t.(size := t.size - 1), j, c, order);
  }

  /**
   * `remove(i)` on a well-formed tree with an element at position i: the
   * result is a well-formed tree of the same order holding the old
   * elements without the one at position i.
   */
  lemma {:induction false} RemovedTree<E>(root: Node<E>, i: int, order: nat)
    requires Tree(root, order) && 3 <= order && 0 <= i < |Items(root)|
    ensures Tree(Removed(root, i, order), order)
    ensures Items(Removed(root, i, order)) == Items(root)[..i] + Items(root)[i + 1..]
  {
    RemoveAtOk(root, i, order);
    var t := RemoveAt(root, i, order);
    if 0 < t.height && |t.data| == 1 {
      assert SlotOk(t.data[0], t.height, order);
      ForestOne(t.data[0]);
      assert t.data == [t.data[0]];
      MergeFits(order);
    }
  }
}
