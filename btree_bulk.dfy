// Appending many elements to a `BTreeList` (BTreeList.java, `addAll`,
// `bulkInsert`, `createLeafAfter`, `updateAncestorsSize`, `newParent` and
// `ensureRightBranchInvariants`). The elements fill the last leaf; a full
// last leaf gets a new empty leaf after it, linked into the lowest
// ancestor with room through a chain of one-child parents (or under a new
// root). This leaves the nodes on the right spine (the path of last
// children) possibly short of `minOrder()` entries; afterwards each short
// node on the spine takes the entries it misses from its left sibling,
// from the root down.
module BTreeBulk {
  import opened BTreeNode
  import opened BTreeFind
  import opened BTreeInsert
  import opened BTreeRemove

  // ---------------------------------------------------------------------
  // The right spine

  /** Every inner node on the right spine has a last child one level lower. */
  ghost predicate Shaped<E>(t: Node<E>)
    decreases t
  {
    0 < t.height ==>
      0 < |t.data| && t.data[|t.data| - 1].Child?
      && t.data[|t.data| - 1].node.height == t.height - 1
      && Shaped(t.data[|t.data| - 1].node)
  }

  /** `findLastLeaf()`: the leaf reached by following the last children. */
  function LastLeaf<E>(t: Node<E>): (l: Node<E>)
    requires Shaped(t)
    ensures l.height == 0
    decreases t.height
  {
    if t.height == 0 then t else LastLeaf(t.data[|t.data| - 1].node)
  }

  /** The child an entry holds, if it holds one. */
  ghost function ChildOf<E>(s: Slot<E>): Option<Node<E>>
  {
    match s
    case Child(c) => Some(c)
    case Item(_) => None
  }

  /**
   * The node just left of the last child of t, at the same level: the
   * entry before it in t or, when t has one entry, the last child of ln,
   * the node just left of t.
   */
  ghost function LeftOf<E>(t: Node<E>, ln: Option<Node<E>>): Option<Node<E>>
  {
    var n := |t.data|;
    if 2 <= n then ChildOf(t.data[n - 2])
    else if ln.Some? && 0 < |ln.value.data| then ChildOf(ln.value.data[|ln.value.data| - 1])
    else None
  }

  /**
   * Node t, whose left neighbour at its level is ln, is well-formed except
   * that the nodes on its right spine may hold fewer than `minOrder()`
   * entries (inner ones at least one); each such node has a full left
   * neighbour. Its size counts its elements.
   */
  ghost predicate Spine<E>(t: Node<E>, order: nat, ln: Option<Node<E>>)
    decreases t, 0
  {
    var n := |t.data|;
    n <= order && t.size == |Items(t)|
    && (t.height == 0 ==> SlotsOk(t.data, 0, order))
    && (0 < t.height ==>
          0 < n && SlotsOk(t.data[..n - 1], t.height, order) && t.data[n - 1].Child?
          && SpineChild(t.data[n - 1].node, t.height, order, LeftOf(t, ln)))
  }

  /** The last child c of a node of height h on the right spine, with left neighbour lc. */
  ghost predicate SpineChild<E>(c: Node<E>, h: nat, order: nat, lc: Option<Node<E>>)
    decreases c, 1
  {
    c.height + 1 == h && (0 < c.height ==> 0 < |c.data|)
    && Spine(c, order, lc)
    && (|c.data| < MinOrder(order) ==> lc.Some? && |lc.value.data| == order)
  }

  // ---------------------------------------------------------------------
  // bulkInsert

  /** The elements xs as leaf entries. */
  function Wrap<E>(xs: seq<E>): (ss: seq<Slot<E>>)
    ensures |ss| == |xs| && forall k :: 0 <= k < |xs| ==> ss[k] == Item(xs[k])
  {
    seq(|xs|, k requires 0 <= k < |xs| => Item(xs[k]))
  }

  /** `newParent(child)`: a node one level up whose only entry is the child (size left at 0). */
  function NewParent<E>(c: Node<E>): Node<E>
  {
    Node(c.height + 1, 0, [Child(c)])
  }

  /**
   * `createLeafAfter` below node t on the right spine: a new empty leaf
   * goes after the last leaf, wrapped by `newParent` once for every full
   * ancestor, and the wrapped node is taken in by the lowest ancestor with
   * room. The first component is t after that; the second is the wrapped
   * node, of t's height, still to be linked after t when t is full too.
   */
  function LinkLeaf<E>(t: Node<E>, order: nat): (Node<E>, Option<Node<E>>)
    requires Shaped(t)
    decreases t.height
  {
    if t.height == 0 then (t, Some(Node(0, 0, [])))
    else
      var n := |t.data|;
      var p := LinkLeaf(t.data[n - 1].node, order);
      var t1 := t.(data := t.data[n - 1 := Child(p.0)]);
      if p.1.None? then (t1, None)
      else if n < order then (t1.(data := t1.data + [Child(p.1.value)]), None)
      else (t1, Some(NewParent(p.1.value)))
  }

  /** `createLeafAfter` on the whole tree: `newRoot` over the old root and the chain when no ancestor has room. */
  function CreateLeafAfter<E>(root: Node<E>, order: nat): Node<E>
    requires Shaped(root)
  {
    var p := LinkLeaf(root, order);
    if p.1.None? then p.0 else NewRoot(p.0, p.1.value)
  }

  /**
   * The inner loop of `bulkInsert` with `updateAncestorsSize`: the
   * elements xs go after the entries of the last leaf, whose size becomes
   * its used count, and every node on the right spine grows by |xs|.
   */
  function FillLast<E>(t: Node<E>, xs: seq<E>): Node<E>
    requires Shaped(t)
    decreases t.height
  {
    if t.height == 0 then t.(data := t.data + Wrap(xs), size := |t.data| + |xs|)
    else
      var n := |t.data|;
      t.(size := t.size + |xs|, data := t.data[n - 1 := Child(FillLast(t.data[n - 1].node, xs))])
  }

  // ---------------------------------------------------------------------
  // ensureRightBranchInvariants

  /**
   * The move of `ensureRightBranchInvariants`: the last toMove entries of
   * `sndlast` go in front of those of `last`; leaves take their used
   * counts as sizes, inner nodes move the sizes of the moved children.
   */
  function MoveRight<E>(snd: Node<E>, last: Node<E>, toMove: nat): (Node<E>, Node<E>)
    requires toMove <= |snd.data|
  {
    var m := |snd.data| - toMove;
    var moved := snd.data[m..];
    var data := moved + last.data;
    if last.height == 0 then
      (snd.(data := snd.data[..m], size := m), last.(data := data, size := |data|))
    else
      var movedSize := Sizes(moved);
      (snd.(data := snd.data[..m], size := snd.size - movedSize),
       last.(data := data, size := last.size + movedSize))
  }

  /**
   * `ensureRightBranchInvariants` from node t of the right spine down: a
   * last child short of `minOrder()` entries takes the missing ones from
   * the child before it; then the same one level down.
   */
  function FixSpine<E>(t: Node<E>, order: nat, ghost ln: Option<Node<E>>): Node<E>
    requires 3 <= order && Spine(t, order, ln) && Shaped(t)
    requires 0 < t.height ==> 2 <= |t.data| && 0 < |LastLeaf(t).data|
    decreases t.height, 1
  {
    if t.height == 0 then t
    else
      var n := |t.data|;
      FixStep(t, order, ln);
      var snd := t.data[n - 2].node;
      var last := t.data[n - 1].node;
      if MinOrder(order) <= |last.data| then
        t.(data := t.data[n - 1 := Child(FixSpine(last, order, Some(snd)))])
      else
        FixShort(t, order, ln)
  }

  /** `FixSpine` at an inner node t whose last child is short: the move, then the same below the last child. */
  function FixShort<E>(t: Node<E>, order: nat, ghost ln: Option<Node<E>>): Node<E>
    requires 3 <= order && Spine(t, order, ln) && Shaped(t)
    requires 0 < t.height && 2 <= |t.data| && 0 < |LastLeaf(t).data|
    requires |t.data[|t.data| - 1].node.data| < MinOrder(order)
    decreases t.height, 0
  {
    var n := |t.data|;
    FixStep(t, order, ln);
    var snd := t.data[n - 2].node;
    var last := t.data[n - 1].node;
    var min := MinOrder(order);
    MoveSpine(snd, last, min - |last.data|, order);
    var p := MoveRight(snd, last, min - |last.data|);
    t.(data := t.data[..n - 2] + [Child(p.0), Child(FixSpine(p.1, order, Some(p.0)))])
  }

  // ---------------------------------------------------------------------
  // Lemmas: the spine of a well-formed tree

  /** A node on the right spine in this relaxed sense has its last children all the way down. */
  lemma {:induction false} SpineShaped<E>(t: Node<E>, order: nat, ln: Option<Node<E>>)
    requires Spine(t, order, ln)
    ensures Shaped(t)
    decreases t
  {
    if 0 < t.height {
      var n := |t.data|;
      SpineShaped(t.data[n - 1].node, order, LeftOf(t, ln));
    }
  }

  /** The last leaf of a node satisfying the relaxed invariant has at most `order` entries. */
  lemma {:induction false} LastLeafFits<E>(t: Node<E>, order: nat, ln: Option<Node<E>>)
    requires Spine(t, order, ln) && Shaped(t)
    ensures |LastLeaf(t).data| <= order
    decreases t
  {
    if 0 < t.height {
      LastLeafFits(t.data[|t.data| - 1].node, order, LeftOf(t, ln));
    }
  }

  /**
   * A well-formed node (with an entry, if inner) satisfies the relaxed
   * invariant whatever its left neighbour, and its last leaf is not empty.
   */
  lemma {:induction false} OkSpine<E>(t: Node<E>, order: nat, ln: Option<Node<E>>)
    requires Ok(t, order) && 3 <= order && (0 < t.height ==> 0 < |t.data|)
    ensures Spine(t, order, ln) && Shaped(t)
    ensures 0 < t.height ==> 0 < |LastLeaf(t).data|
    decreases t
  {
    if 0 < t.height {
      var n := |t.data|;
      assert SlotOk(t.data[n - 1], t.height, order);
      var c := t.data[n - 1].node;
      SlotsOkSlice(t.data, 0, n - 1, t.height, order);
      OkSpine(c, order, LeftOf(t, ln));
    }
  }

  // ---------------------------------------------------------------------
  // Lemmas: linking a new leaf

  /** The elements of a chain of one-child nodes over an empty leaf: none. */
  lemma {:induction false} ChainEmpty<E>(c: Node<E>)
    requires Items(c) == []
    ensures Items(NewParent(c)) == []
  {
    ForestOne(Child(c));
  }

  /**
   * What `createLeafAfter` leaves below t: t with the same elements and
   * height and no fewer entries, whose last leaf is the new empty one; or,
   * when no node on the right spine had room, t itself, full, and beside it
   * a chain of new nodes, each with one child, down to the new leaf.
   */
  ghost predicate Linked<E>(t: Node<E>, p: (Node<E>, Option<Node<E>>), order: nat, ln: Option<Node<E>>)
  {
    p.0.height == t.height && Items(p.0) == Items(t) && |t.data| <= |p.0.data|
    && (p.1.None? ==> Spine(p.0, order, ln) && Shaped(p.0) && LastLeaf(p.0) == Node(0, 0, []))
    && (p.1.Some? ==> p.0 == t && Ok(t, order) && |t.data| == order
                      && p.1.value.height == t.height && Items(p.1.value) == [] && p.1.value.size == 0
                      && Spine(p.1.value, order, Some(t)) && Shaped(p.1.value)
                      && LastLeaf(p.1.value) == Node(0, 0, [])
                      && (0 < t.height ==> 0 < |p.1.value.data|))
  }

  /** `createLeafAfter` below t, whose last leaf is full, leaves what `Linked` describes. */
  lemma {:induction false} LinkLeafSpine<E>(t: Node<E>, order: nat, ln: Option<Node<E>>)
    requires 3 <= order && Spine(t, order, ln) && Shaped(t) && |LastLeaf(t).data| == order
    ensures Linked(t, LinkLeaf(t, order), order, ln)
    decreases t
  {
    if t.height == 0 {
      LeafForest(t.data, order);
    } else {
      var c := t.data[|t.data| - 1].node;
      LinkLeafSpine(c, order, LeftOf(t, ln));
      LinkStep(t, order, ln, LinkLeaf(c, order));
    }
  }

  /** One level of `createLeafAfter` on the way back up from the last child. */
  lemma {:induction false} LinkStep<E>(t: Node<E>, order: nat, ln: Option<Node<E>>, p: (Node<E>, Option<Node<E>>))
    requires 3 <= order && Spine(t, order, ln) && Shaped(t) && 0 < t.height
    requires Linked(t.data[|t.data| - 1].node, p, order, LeftOf(t, ln))
    ensures var n := |t.data|;
            var t1 := t.(data := t.data[n - 1 := Child(p.0)]);
            Linked(t, if p.1.None? then (t1, None)
                      else if n < order then (t1.(data := t1.data + [Child(p.1.value)]), None)
                      else (t1, Some(NewParent(p.1.value))), order, ln)
  {
    var n := |t.data|;
    var c := t.data[n - 1].node;
    if p.1.None? {
      LinkUpdate(t, order, ln, p.0);
    } else if n < order {
      assert t.data[n - 1 := Child(c)] == t.data;
      LinkAttach(t, order, ln, p.1.value);
    } else {
      assert t.data[n - 1 := Child(c)] == t.data;
      LinkOverflow(t, order, ln, p.1.value);
    }
  }

  /** The way back up when the leaf was linked below the last child c'. */
  lemma {:induction false} LinkUpdate<E>(t: Node<E>, order: nat, ln: Option<Node<E>>, c': Node<E>)
    requires 3 <= order && Spine(t, order, ln) && 0 < t.height
    requires var c := t.data[|t.data| - 1].node;
             c'.height == c.height && Items(c') == Items(c) && |c.data| <= |c'.data|
             && Spine(c', order, LeftOf(t, ln)) && Shaped(c') && LastLeaf(c') == Node(0, 0, [])
    ensures var t1 := t.(data := t.data[|t.data| - 1 := Child(c')]);
            Items(t1) == Items(t) && Spine(t1, order, ln) && Shaped(t1)
            && LastLeaf(t1) == Node(0, 0, [])
  {
    var n := |t.data|;
    var d := t.data;
    var t1 := t.(data := d[n - 1 := Child(c')]);
    assert t1.data[..n - 1] == d[..n - 1];
    assert LeftOf(t1, ln) == LeftOf(t, ln);
    Pick(d, n - 1);
    Pick(t1.data, n - 1);
    assert d[n..] == [] && t1.data[n..] == [];
  }

  /** Every entry of a node's run is well-formed once its last one is. */
  lemma {:induction false} SlotsOkLast<E>(d: seq<Slot<E>>, h: nat, order: nat)
    requires 0 < |d| && SlotsOk(d[..|d| - 1], h, order) && SlotOk(d[|d| - 1], h, order)
    ensures SlotsOk(d, h, order)
  {
    forall k | 0 <= k < |d|
      ensures SlotOk(d[k], h, order)
    {
      if k < |d| - 1 {
        assert d[k] == d[..|d| - 1][k];
      }
    }
  }

  /**
   * The chain over node c: one level up, holding c only, with no
   * elements; it satisfies the relaxed invariant next to a full
   * well-formed node t whose last child is c's left neighbour.
   */
  lemma {:induction false} ChainSpine<E>(t: Node<E>, c: Node<E>, order: nat)
    requires 3 <= order && 0 < t.height && 0 < |t.data| && t.data[|t.data| - 1].Child?
    requires c.height + 1 == t.height && Items(c) == [] && c.size == 0 && (0 < c.height ==> 0 < |c.data|)
    requires Spine(c, order, Some(t.data[|t.data| - 1].node)) && Shaped(c)
    requires |t.data[|t.data| - 1].node.data| == order
    ensures Spine(NewParent(c), order, Some(t)) && Shaped(NewParent(c)) && Items(NewParent(c)) == []
    ensures LastLeaf(NewParent(c)) == LastLeaf(c)
  {
    ChainEmpty(c);
    var q := NewParent(c);
    assert q.data[..0] == [];
    assert LeftOf(q, Some(t)) == Some(t.data[|t.data| - 1].node);
  }

  /** The way back up when the chain goes in after the last child c of t, which has room. */
  lemma {:induction false} LinkAttach<E>(t: Node<E>, order: nat, ln: Option<Node<E>>, q: Node<E>)
    requires 3 <= order && Spine(t, order, ln) && 0 < t.height && |t.data| < order
    requires var c := t.data[|t.data| - 1].node;
             Ok(c, order) && |c.data| == order
             && q.height == c.height && Items(q) == [] && (0 < q.height ==> 0 < |q.data|)
             && Spine(q, order, Some(c)) && Shaped(q) && LastLeaf(q) == Node(0, 0, [])
    ensures var t1 := t.(data := t.data + [Child(q)]);
            Items(t1) == Items(t) && Spine(t1, order, ln) && Shaped(t1)
            && LastLeaf(t1) == Node(0, 0, [])
  {
    var n := |t.data|;
    var d := t.data;
    var t1 := t.(data := d + [Child(q)]);
    assert t1.data[..n] == d;
    assert SlotOk(d[n - 1], t.height, order);
    SlotsOkLast(d, t.height, order);
    assert LeftOf(t1, ln) == Some(d[n - 1].node);
    ForestConcat(d, [Child(q)]);
    ForestOne(Child(q));
  }

  /** The way back up when t is full too: t is well-formed, and the chain grows by one level. */
  lemma {:induction false} LinkOverflow<E>(t: Node<E>, order: nat, ln: Option<Node<E>>, q: Node<E>)
    requires 3 <= order && Spine(t, order, ln) && 0 < t.height && |t.data| == order
    requires var c := t.data[|t.data| - 1].node;
             Ok(c, order) && |c.data| == order
             && q.height == c.height && Items(q) == [] && q.size == 0 && (0 < q.height ==> 0 < |q.data|)
             && Spine(q, order, Some(c)) && Shaped(q) && LastLeaf(q) == Node(0, 0, [])
    ensures Ok(t, order)
    ensures Spine(NewParent(q), order, Some(t)) && Shaped(NewParent(q)) && Items(NewParent(q)) == []
    ensures LastLeaf(NewParent(q)) == Node(0, 0, [])
  {
    var n := |t.data|;
    assert SlotOk(t.data[n - 1], t.height, order);
    SlotsOkLast(t.data, t.height, order);
    ChainSpine(t, q, order);
  }

  /**
   * `createLeafAfter` on a tree satisfying the relaxed invariant whose
   * last leaf is full: the elements and the root's minimum stay, and the
   * new last leaf is empty.
   */
  lemma {:induction false} CreateLeafAfterSpine<E>(root: Node<E>, order: nat)
    requires 3 <= order && Spine(root, order, None) && Shaped(root) && RootMin(root.height) <= |root.data|
    requires |LastLeaf(root).data| == order
    ensures var r := CreateLeafAfter(root, order);
            Spine(r, order, None) && Shaped(r) && RootMin(r.height) <= |r.data|
            && Items(r) == Items(root) && LastLeaf(r) == Node(0, 0, [])
  {
    LinkLeafSpine(root, order, None);
    var p := LinkLeaf(root, order);
    if p.1.Some? {
      var q := p.1.value;
      var r := NewRoot(root, q);
      ForestTwo(Child(root), Child(q));
      assert r.data[..1] == [Child(root)];
      assert SlotOk(Child(root), r.height, order);
      assert SlotsOk(r.data[..1], r.height, order);
      assert LeftOf(r, None) == Some(root);
    }
  }

  // ---------------------------------------------------------------------
  // Lemmas: filling the last leaf

  /** The elements of a run of leaf entries made from xs are xs. */
  lemma {:induction false} WrapItems<E>(xs: seq<E>, order: nat)
    ensures SlotsOk(Wrap(xs), 0, order) && Forest(Wrap(xs)) == xs
  {
    var w := Wrap(xs);
    assert SlotsOk(w, 0, order) by {
      forall k | 0 <= k < |w|
        ensures SlotOk(w[k], 0, order)
      {
      }
    }
    LeafForest(w, order);
  }

  /**
   * Filling the last leaf with xs, while it has room for them, keeps the
   * relaxed invariant and appends xs to the elements; the last leaf grows
   * by xs.
   */
  lemma {:induction false} FillLastSpine<E>(t: Node<E>, xs: seq<E>, order: nat, ln: Option<Node<E>>)
    requires Spine(t, order, ln) && Shaped(t) && |LastLeaf(t).data| + |xs| <= order
    ensures var u := FillLast(t, xs);
            Spine(u, order, ln) && Shaped(u) && Items(u) == Items(t) + xs
            && u.height == t.height && |t.data| <= |u.data|
            && |LastLeaf(u).data| == |LastLeaf(t).data| + |xs|
    decreases t
  {
    if t.height == 0 {
      WrapItems(xs, order);
      SlotsOkConcat(t.data, Wrap(xs), 0, order);
      ForestConcat(t.data, Wrap(xs));
      LeafForest(t.data + Wrap(xs), order);
    } else {
      var n := |t.data|;
      var c := t.data[n - 1].node;
      FillLastSpine(c, xs, order, LeftOf(t, ln));
      FillUp(t, xs, order, ln, FillLast(c, xs));
    }
  }

  /** One round of `bulkInsert` on the whole tree: a non-empty run of elements fills the last leaf. */
  lemma {:induction false} FillStep<E>(root: Node<E>, xs: seq<E>, order: nat)
    requires Spine(root, order, None) && Shaped(root) && RootMin(root.height) <= |root.data|
    requires 0 < |xs| && |LastLeaf(root).data| + |xs| <= order
    ensures var r := FillLast(root, xs);
            Spine(r, order, None) && Shaped(r) && RootMin(r.height) <= |r.data|
            && 0 < |LastLeaf(r).data| && Items(r) == Items(root) + xs
  {
    FillLastSpine(root, xs, order, None);
  }

  /** The way back up from filling: the last child grew by xs, and so does t. */
  lemma {:induction false} FillUp<E>(t: Node<E>, xs: seq<E>, order: nat, ln: Option<Node<E>>, c': Node<E>)
    requires Spine(t, order, ln) && 0 < t.height
    requires var c := t.data[|t.data| - 1].node;
             Spine(c', order, LeftOf(t, ln)) && Shaped(c') && Items(c') == Items(c) + xs
             && c'.height == c.height && |c.data| <= |c'.data|
    ensures var u := t.(size := t.size + |xs|, data := t.data[|t.data| - 1 := Child(c')]);
            Spine(u, order, ln) && Items(u) == Items(t) + xs
  {
    var n := |t.data|;
    var d := t.data;
    var u := t.(size := t.size + |xs|, data := d[n - 1 := Child(c')]);
    assert u.data[..n - 1] == d[..n - 1];
    assert LeftOf(u, ln) == LeftOf(t, ln);
    ForestLast(d, Child(c'));
    SpineOf(u, order, ln);
  }

  /** The elements of a run whose last entry is replaced by s. */
  lemma {:induction false} ForestLast<E>(d: seq<Slot<E>>, s: Slot<E>)
    requires 0 < |d|
    ensures Forest(d[|d| - 1 := s]) == Forest(d[..|d| - 1]) + SlotItems(s)
    ensures Forest(d) == Forest(d[..|d| - 1]) + SlotItems(d[|d| - 1])
  {
    var n := |d|;
    assert d[n - 1 := s] == d[..n - 1] + [s];
    assert d == d[..n - 1] + [d[n - 1]];
    ForestConcat(d[..n - 1], [s]);
    ForestConcat(d[..n - 1], [d[n - 1]]);
    ForestOne(s);
    ForestOne(d[n - 1]);
  }

  // ---------------------------------------------------------------------
  // Lemmas: the repair

  /**
   * One level of `ensureRightBranchInvariants` at inner node t with two
   * entries or more: the last two are children one level lower; the one
   * before last is well-formed with `minOrder()` entries, and full when
   * the last one is short.
   */
  lemma {:induction false} FixStep<E>(t: Node<E>, order: nat, ln: Option<Node<E>>)
    requires 3 <= order && Spine(t, order, ln) && Shaped(t)
    requires 0 < t.height && 2 <= |t.data| && 0 < |LastLeaf(t).data|
    ensures var n := |t.data|;
            t.data[n - 2].Child? && t.data[n - 1].Child?
            && var snd := t.data[n - 2].node;
               var last := t.data[n - 1].node;
               Ok(snd, order) && MinOrder(order) <= |snd.data| && snd.height == last.height == t.height - 1
               && Spine(last, order, Some(snd)) && Shaped(last) && 0 < |last.data|
               && (0 < last.height ==> 0 < |LastLeaf(last).data|)
               && (|last.data| < MinOrder(order) ==> |snd.data| == order)
  {
    var n := |t.data|;
    assert t.data[n - 2] == t.data[..n - 1][n - 2];
    assert SlotOk(t.data[n - 2], t.height, order);
    assert LeftOf(t, ln) == Some(t.data[n - 2].node);
  }

  /**
   * Moving the entries a short last child misses from its full left
   * sibling: the sibling keeps `minOrder()` entries or more and stays
   * well-formed, the last child gets exactly `minOrder()` and satisfies
   * the relaxed invariant with the same last leaf, and the elements of
   * the two, in order, are unchanged.
   */
  lemma {:induction false} MoveSpine<E>(snd: Node<E>, last: Node<E>, toMove: nat, order: nat)
    requires 3 <= order && Ok(snd, order) && |snd.data| == order && snd.height == last.height
    requires Spine(last, order, Some(snd)) && Shaped(last) && 0 < |last.data| < MinOrder(order)
    requires toMove == MinOrder(order) - |last.data|
    ensures toMove <= |snd.data|
    ensures var p := MoveRight(snd, last, toMove);
            Ok(p.0, order) && MinOrder(order) <= |p.0.data| && p.0.height == snd.height
            && p.1.height == last.height && |p.1.data| == MinOrder(order)
            && Spine(p.1, order, Some(p.0)) && Shaped(p.1)
            && (0 < last.height ==> LastLeaf(p.1) == LastLeaf(last))
            && Items(p.0) + Items(p.1) == Items(snd) + Items(last)
  {
    MergeFits(order);
    MoveKept(snd, last, toMove, order);
    MoveItems(snd, last, toMove);
    if last.height == 0 {
      GainedLeaf(snd, last, toMove, order);
    } else {
      GainedInner(snd, last, toMove, order);
    }
  }

  /** The sibling that gave its last entries away stays well-formed. */
  lemma {:induction false} MoveKept<E>(snd: Node<E>, last: Node<E>, toMove: nat, order: nat)
    requires Ok(snd, order) && toMove <= |snd.data| && snd.height == last.height
    ensures Ok(MoveRight(snd, last, toMove).0, order)
  {
    var m := |snd.data| - toMove;
    SlotsOkSlice(snd.data, 0, m, snd.height, order);
    SlotsOkSlice(snd.data, m, |snd.data|, snd.height, order);
    assert snd.data == snd.data[..m] + snd.data[m..];
    ForestConcat(snd.data[..m], snd.data[m..]);
    if snd.height == 0 {
      LeafForest(snd.data[..m], order);
    } else {
      SlotsSized(snd.data[m..], snd.height, order);
      SizesItems(snd.data[m..]);
    }
  }

  /** The move keeps the elements of the two nodes, in order. */
  lemma {:induction false} MoveItems<E>(snd: Node<E>, last: Node<E>, toMove: nat)
    requires toMove <= |snd.data|
    ensures var p := MoveRight(snd, last, toMove);
            Items(p.0) + Items(p.1) == Items(snd) + Items(last)
  {
    var m := |snd.data| - toMove;
    assert snd.data == snd.data[..m] + snd.data[m..];
    ForestConcat(snd.data[..m], snd.data[m..]);
    ForestConcat(snd.data[m..], last.data);
  }

  /** Positions at the end of a + b, for b not empty. */
  lemma {:induction false} EndOf<T>(a: seq<T>, b: seq<T>)
    requires 0 < |b|
    ensures (a + b)[..|a + b| - 1] == a + b[..|b| - 1] && (a + b)[|a + b| - 1] == b[|b| - 1]
    ensures 2 <= |b| ==> (a + b)[|a + b| - 2] == b[|b| - 2]
    ensures |b| == 1 && 0 < |a| ==> (a + b)[|a + b| - 2] == a[|a| - 1]
  {
  }

  /** A leaf that took entries from its full left sibling satisfies the relaxed invariant. */
  lemma {:induction false} GainedLeaf<E>(snd: Node<E>, last: Node<E>, toMove: nat, order: nat)
    requires Ok(snd, order) && snd.height == last.height == 0
    requires Spine(last, order, Some(snd)) && toMove <= |snd.data| && toMove + |last.data| <= order
    ensures var p := MoveRight(snd, last, toMove);
            Spine(p.1, order, Some(p.0)) && Shaped(p.1) && |p.1.data| == toMove + |last.data|
  {
    var m := |snd.data| - toMove;
    var moved := snd.data[m..];
    SlotsOkSlice(snd.data, m, |snd.data|, 0, order);
    SlotsOkConcat(moved, last.data, 0, order);
    LeafForest(moved + last.data, order);
  }

  /** An inner node that took entries from its full left sibling: size and entries before the last. */
  lemma {:induction false} GainedParts<E>(snd: Node<E>, last: Node<E>, toMove: nat, order: nat)
    requires Ok(snd, order) && snd.height == last.height && 0 < last.height
    requires Spine(last, order, Some(snd)) && toMove <= |snd.data|
    ensures var p := MoveRight(snd, last, toMove);
            var u := p.1;
            p.1.size == |Items(p.1)| && SlotsOk(u.data[..|u.data| - 1], u.height, order)
  {
    var m := |snd.data| - toMove;
    var moved := snd.data[m..];
    var k := |last.data|;
    SlotsOkSlice(snd.data, m, |snd.data|, snd.height, order);
    SlotsSized(moved, last.height, order);
    SizesItems(moved);
    ForestConcat(moved, last.data);
    EndOf(moved, last.data);
    SlotsOkConcat(moved, last.data[..k - 1], last.height, order);
  }

  /** After the move, the left neighbour of the last child's last child is the one it had. */
  lemma {:induction false} GainedLeft<E>(snd: Node<E>, last: Node<E>, toMove: nat, ln: Option<Node<E>>)
    requires 0 < toMove <= |snd.data| && 0 < |last.data|
    ensures LeftOf(MoveRight(snd, last, toMove).1, ln) == LeftOf(last, Some(snd))
  {
    var m := |snd.data| - toMove;
    var moved := snd.data[m..];
    EndOf(moved, last.data);
    EndOf(snd.data[..m], moved);
    assert snd.data[..m] + moved == snd.data;
  }

  /** The relaxed invariant of an inner node, from its parts. */
  lemma {:induction false} SpineOf<E>(u: Node<E>, order: nat, ln: Option<Node<E>>)
    requires 0 < u.height && 0 < |u.data| <= order && u.size == |Items(u)|
    requires SlotsOk(u.data[..|u.data| - 1], u.height, order) && u.data[|u.data| - 1].Child?
    requires SpineChild(u.data[|u.data| - 1].node, u.height, order, LeftOf(u, ln))
    ensures Spine(u, order, ln)
  {
  }

  /** An inner node that took entries from its full left sibling satisfies the relaxed invariant. */
  lemma {:induction false} GainedInner<E>(snd: Node<E>, last: Node<E>, toMove: nat, order: nat)
    requires Ok(snd, order) && snd.height == last.height && 0 < last.height && |snd.data| == order
    requires Spine(last, order, Some(snd)) && Shaped(last) && 0 < toMove <= |snd.data|
    requires toMove + |last.data| <= order
    ensures var p := MoveRight(snd, last, toMove);
            Spine(p.1, order, Some(p.0)) && Shaped(p.1) && LastLeaf(p.1) == LastLeaf(last)
  {
    var m := |snd.data| - toMove;
    var moved := snd.data[m..];
    var p := MoveRight(snd, last, toMove);
    var u := p.1;
    var k := |last.data|;
    GainedParts(snd, last, toMove, order);
    GainedLeft(snd, last, toMove, Some(p.0));
    EndOf(moved, last.data);
    assert u.data[|u.data| - 1] == last.data[k - 1];
    SpineOf(u, order, Some(p.0));
  }

  /** u is t made well-formed: the same elements, height and number of entries. */
  ghost predicate Fixed<E>(t: Node<E>, u: Node<E>, order: nat)
  {
    Ok(u, order) && Items(u) == Items(t) && u.height == t.height && |u.data| == |t.data|
  }

  /**
   * `ensureRightBranchInvariants()` below t makes it well-formed, keeping
   * its elements, its height and its number of entries.
   */
  lemma {:induction false} FixSpineOk<E>(t: Node<E>, order: nat, ln: Option<Node<E>>)
    requires 3 <= order && Spine(t, order, ln) && Shaped(t)
    requires 0 < t.height ==> 2 <= |t.data| && 0 < |LastLeaf(t).data|
    ensures Fixed(t, FixSpine(t, order, ln), order)
    decreases t.height, 1
  {
    if 0 < t.height {
      FixStep(t, order, ln);
      if MinOrder(order) <= |t.data[|t.data| - 1].node.data| {
        FixSpineKept(t, order, ln);
      } else {
        FixSpineMoved(t, order, ln);
      }
    }
  }

  /** `FixSpineOk` when the last child of t has at least `minOrder()` entries. */
  lemma {:induction false} FixSpineKept<E>(t: Node<E>, order: nat, ln: Option<Node<E>>)
    requires 3 <= order && Spine(t, order, ln) && Shaped(t)
    requires 0 < t.height && 2 <= |t.data| && 0 < |LastLeaf(t).data|
    requires MinOrder(order) <= |t.data[|t.data| - 1].node.data|
    ensures Fixed(t, FixSpine(t, order, ln), order)
    decreases t.height, 0
  {
    var n := |t.data|;
    FixStep(t, order, ln);
    var snd := t.data[n - 2].node;
    var last := t.data[n - 1].node;
    FixSpineOk(last, order, Some(snd));
    var c' := FixSpine(last, order, Some(snd));
    FixKeep(t, order, ln, c');
    assert FixSpine(t, order, ln) == t.(data := t.data[n - 1 := Child(c')]);
  }

  /** `FixSpineOk` when the last child of t is short and takes entries from the one before it. */
  lemma {:induction false} FixSpineMoved<E>(t: Node<E>, order: nat, ln: Option<Node<E>>)
    requires 3 <= order && Spine(t, order, ln) && Shaped(t)
    requires 0 < t.height && 2 <= |t.data| && 0 < |LastLeaf(t).data|
    requires |t.data[|t.data| - 1].node.data| < MinOrder(order)
    ensures Fixed(t, FixShort(t, order, ln), order)
    decreases t.height, 0
  {
    var n := |t.data|;
    FixStep(t, order, ln);
    var snd := t.data[n - 2].node;
    var last := t.data[n - 1].node;
    var min := MinOrder(order);
    MergeFits(order);
    MoveSpine(snd, last, min - |last.data|, order);
    var p := MoveRight(snd, last, min - |last.data|);
    FixSpineOk(p.1, order, Some(p.0));
    FixMoved(t, order, ln, p.0, FixSpine(p.1, order, Some(p.0)));
  }

  /** The way back up when the last child c of t had enough entries and became c'. */
  lemma {:induction false} FixKeep<E>(t: Node<E>, order: nat, ln: Option<Node<E>>, c': Node<E>)
    requires Spine(t, order, ln) && 0 < t.height
    requires var c := t.data[|t.data| - 1].node;
             Fixed(c, c', order) && MinOrder(order) <= |c.data|
    ensures Fixed(t, t.(data := t.data[|t.data| - 1 := Child(c')]), order)
  {
    var n := |t.data|;
    var d := t.data;
    var u := t.(data := d[n - 1 := Child(c')]);
    assert u.data[..n - 1] == d[..n - 1];
    assert SlotOk(Child(c'), t.height, order);
    SlotsOkLast(u.data, t.height, order);
    Pick(d, n - 1);
    Pick(u.data, n - 1);
    assert d[n..] == [] && u.data[n..] == [];
  }

  /** The way back up when the last two children of t became s' and c'. */
  lemma {:induction false} FixMoved<E>(t: Node<E>, order: nat, ln: Option<Node<E>>, s': Node<E>, c': Node<E>)
    requires Spine(t, order, ln) && 0 < t.height && 2 <= |t.data|
    requires t.data[|t.data| - 2].Child?
    requires var snd := t.data[|t.data| - 2].node;
             var c := t.data[|t.data| - 1].node;
             Ok(s', order) && Ok(c', order) && s'.height == c'.height == t.height - 1
             && MinOrder(order) <= |s'.data| && MinOrder(order) <= |c'.data|
             && Items(s') + Items(c') == Items(snd) + Items(c)
    ensures Fixed(t, t.(data := t.data[..|t.data| - 2] + [Child(s'), Child(c')]), order)
  {
    var n := |t.data|;
    var d := t.data;
    var u := t.(data := d[..n - 2] + [Child(s'), Child(c')]);
    SlotsOkSlice(d[..n - 1], 0, n - 2, t.height, order);
    assert d[..n - 1][..n - 2] == d[..n - 2];
    assert SlotsOk([Child(s'), Child(c')], t.height, order) by {
      assert SlotOk(Child(s'), t.height, order) && SlotOk(Child(c'), t.height, order);
    }
    SlotsOkConcat(d[..n - 2], [Child(s'), Child(c')], t.height, order);
    ForestConcat(d[..n - 2], [Child(s'), Child(c')]);
    ForestTwo(Child(s'), Child(c'));
    assert d == d[..n - 2] + [d[n - 2], d[n - 1]];
    ForestConcat(d[..n - 2], [d[n - 2], d[n - 1]]);
    ForestTwo(d[n - 2], d[n - 1]);
  }
}
