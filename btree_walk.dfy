// The position of an in-order walk over a b-tree, as `forEach` and
// `BTreeIterator` (BTreeList.java) keep it: one cursor per level, the
// node reached by following the cursors from the root down to the current
// level, and that node's ancestors (the `parent` links of the source, a
// stack here). The elements before the position are those left of the
// path at every level above, then those before the cursor in the current
// node.
module BTreeWalk {
  import opened BTreeNode
  import opened BTreeFind
  import opened BTreeRemove

  /**
   * Following the cursors cs from node t down to level l stays inside the
   * tree: at every level above l the cursor picks a child one level lower.
   */
  ghost predicate Path<E>(t: Node<E>, cs: seq<int>, l: nat)
    decreases t
  {
    t.height < |cs|
    && (l < t.height ==>
          0 <= cs[t.height] < |t.data| && t.data[cs[t.height]].Child?
          && t.data[cs[t.height]].node.height + 1 == t.height
          && Path(t.data[cs[t.height]].node, cs, l))
  }

  /** The node at level l on the path of the cursors. */
  ghost function At<E>(t: Node<E>, cs: seq<int>, l: nat): (n: Node<E>)
    requires Path(t, cs, l)
    ensures l <= t.height ==> n.height == l
    ensures t.height <= l ==> n == t
    decreases t
  {
    if t.height <= l then t else At(t.data[cs[t.height]].node, cs, l)
  }

  /** The nodes above level l on the path, from t down (the chain of `parent` links, reversed). */
  ghost function Ancestors<E>(t: Node<E>, cs: seq<int>, l: nat): seq<Node<E>>
    requires Path(t, cs, l)
    decreases t
  {
    if t.height <= l then [] else [t] + Ancestors(t.data[cs[t.height]].node, cs, l)
  }

  /** The elements left of the path above level l: those the walk has finished with. */
  ghost function Done<E>(t: Node<E>, cs: seq<int>, l: nat): seq<E>
    requires Path(t, cs, l)
    decreases t
  {
    if t.height <= l then []
    else Forest(t.data[..cs[t.height]]) + Done(t.data[cs[t.height]].node, cs, l)
  }

  /** The elements right of the path above level l: those the walk has still to reach. */
  ghost function After<E>(t: Node<E>, cs: seq<int>, l: nat): seq<E>
    requires Path(t, cs, l)
    decreases t
  {
    if t.height <= l then []
    else After(t.data[cs[t.height]].node, cs, l) + Forest(t.data[cs[t.height] + 1..])
  }

  /**
   * The position of a walk: the path of cs reaches level l at node, with
   * parents above it and its cursor inside it; the levels below l have
   * cursor 0; seen is what comes before the position.
   */
  ghost predicate Walking<E>(t: Node<E>, cs: seq<int>, l: nat, node: Node<E>, parents: seq<Node<E>>, seen: seq<E>)
  {
    Path(t, cs, l) && l <= t.height && l < |cs| && node == At(t, cs, l) && parents == Ancestors(t, cs, l)
    && 0 <= cs[l] <= |node.data|
    && (forall m :: 0 <= m < l ==> cs[m] == 0)
    && seen == Done(t, cs, l) + Forest(node.data[..cs[l]])
  }

  // ---------------------------------------------------------------------
  // Lemmas

  /** At the top, with all cursors 0, the walk is at the root and has seen nothing. */
  lemma {:induction false} Start<E>(t: Node<E>, cs: seq<int>)
    requires |cs| == t.height + 1 && forall m :: 0 <= m < |cs| ==> cs[m] == 0
    ensures Walking(t, cs, t.height, t, [], [])
  {
    assert t.data[..0] == [];
  }

  /**
   * The elements of t are those before the position, those after the
   * cursor c in the current node and those right of the path.
   */
  lemma {:induction false} Split<E>(t: Node<E>, cs: seq<int>, l: nat, c: int)
    requires Path(t, cs, l) && 0 <= c <= |At(t, cs, l).data|
    ensures var n := At(t, cs, l);
            Items(t) == Done(t, cs, l) + Forest(n.data[..c]) + Forest(n.data[c..]) + After(t, cs, l)
    decreases t
  {
    if t.height <= l {
      assert t.data == t.data[..c] + t.data[c..];
      ForestConcat(t.data[..c], t.data[c..]);
    } else {
      var j := cs[t.height];
      var ch := t.data[j].node;
      var n := At(t, cs, l);
      Split(ch, cs, l, c);
      Pick(t.data, j);
      Regroup6(Forest(t.data[..j]), Done(ch, cs, l), Forest(n.data[..c]), Forest(n.data[c..]),
              After(ch, cs, l), Forest(t.data[j + 1..]));
    }
  }

  /** Regrouping a concatenation of six runs. */
  lemma {:induction false} Regroup6<T>(a: seq<T>, x: seq<T>, y: seq<T>, z: seq<T>, w: seq<T>, b: seq<T>)
    ensures a + (x + y + z + w) + b == (a + x) + y + z + (w + b)
  {
  }

  /**
   * Descending from level l through the cursor of the node there: the
   * path reaches the child, which joins no ancestors but the node, and the
   * entries before the cursor join what is finished.
   */
  lemma {:induction false} Down<E>(t: Node<E>, cs: seq<int>, l: nat)
    requires Path(t, cs, l) && 0 < l <= t.height
    requires var n := At(t, cs, l);
             0 <= cs[l] < |n.data| && n.data[cs[l]].Child? && n.data[cs[l]].node.height + 1 == l
    ensures var n := At(t, cs, l);
            Path(t, cs, l - 1) && At(t, cs, l - 1) == n.data[cs[l]].node
            && Ancestors(t, cs, l - 1) == Ancestors(t, cs, l) + [n]
            && Done(t, cs, l - 1) == Done(t, cs, l) + Forest(n.data[..cs[l]])
    decreases t
  {
    if t.height == l {
      var c := t.data[cs[l]].node;
      assert Path(c, cs, l - 1);
    } else {
      Down(t.data[cs[t.height]].node, cs, l);
    }
  }

  /** Cursors at or below level l do not matter to the path down to l. */
  lemma {:induction false} Frame<E>(t: Node<E>, cs: seq<int>, cs': seq<int>, l: nat)
    requires |cs| == |cs'| && forall m :: l < m < |cs| ==> cs[m] == cs'[m]
    requires Path(t, cs, l)
    ensures Path(t, cs', l) && At(t, cs', l) == At(t, cs, l) && Ancestors(t, cs', l) == Ancestors(t, cs, l)
            && Done(t, cs', l) == Done(t, cs, l)
    decreases t
  {
    if l < t.height {
      Frame(t.data[cs[t.height]].node, cs, cs', l);
    }
  }

  /** A path down to level l is a path down to every level above. */
  lemma {:induction false} PathUp<E>(t: Node<E>, cs: seq<int>, l: nat)
    requires Path(t, cs, l) && l < t.height
    ensures Path(t, cs, l + 1)
    ensures var p := At(t, cs, l + 1);
            0 <= cs[l + 1] < |p.data| && p.data[cs[l + 1]] == Child(At(t, cs, l))
            && p.data[cs[l + 1]].node.height + 1 == l + 1
    decreases t
  {
    if l + 1 < t.height {
      PathUp(t.data[cs[t.height]].node, cs, l);
    }
  }

  /**
   * Leaving the node at level l, all of it seen, for its parent: the
   * cursor of level l goes back to 0 and that of the parent moves past
   * it. The parent is the last ancestor, and what comes before the new
   * position is what came before the node and the node's elements.
   */
  lemma {:induction false} Up<E>(t: Node<E>, cs: seq<int>, l: nat)
    requires Path(t, cs, l) && l < t.height && l + 1 < |cs|
    ensures var cs' := cs[l := 0][l + 1 := cs[l + 1] + 1];
            var a := Ancestors(t, cs, l);
            0 < |a| && Path(t, cs', l + 1) && At(t, cs', l + 1) == a[|a| - 1]
            && Ancestors(t, cs', l + 1) == a[..|a| - 1]
            && 0 <= cs'[l + 1] <= |At(t, cs', l + 1).data|
            && Done(t, cs', l + 1) + Forest(At(t, cs', l + 1).data[..cs'[l + 1]])
               == Done(t, cs, l) + Items(At(t, cs, l))
  {
    var cs' := cs[l := 0][l + 1 := cs[l + 1] + 1];
    PathUp(t, cs, l);
    var p := At(t, cs, l + 1);
    Down(t, cs, l + 1);
    Frame(t, cs, cs', l + 1);
    ForestSnoc(p.data, cs[l + 1] + 1);
    var a := Ancestors(t, cs, l);
    assert a == Ancestors(t, cs, l + 1) + [p];
    assert a[..|a| - 1] == Ancestors(t, cs, l + 1);
  }

  /**
   * On the path of a well-formed tree every node is well-formed, and one
   * below the root holds `minOrder()` entries or more.
   */
  lemma {:induction false} AtOk<E>(t: Node<E>, cs: seq<int>, l: nat, order: nat)
    requires Ok(t, order) && Path(t, cs, l)
    ensures Ok(At(t, cs, l), order)
    ensures l < t.height ==> MinOrder(order) <= |At(t, cs, l).data|
    decreases t
  {
    if l < t.height {
      var c := t.data[cs[t.height]];
      assert SlotOk(c, t.height, order);
      AtOk(c.node, cs, l, order);
    }
  }

  /** In a well-formed leaf, the entries before and after position c stand for one element each. */
  lemma {:induction false} LeafRest<E>(n: Node<E>, c: int, order: nat)
    requires Ok(n, order) && n.height == 0 && 0 <= c <= |n.data|
    ensures |Forest(n.data[..c])| == c && |Forest(n.data[c..])| == |n.data| - c
  {
    SlotsOkSlice(n.data, 0, c, 0, order);
    SlotsOkSlice(n.data, c, |n.data|, 0, order);
    LeafForest(n.data[..c], order);
    LeafForest(n.data[c..], order);
  }

  // ---------------------------------------------------------------------
  // Steps of a walk

  /** What comes before the position, the rest of the current node and what is right of the path make up t. */
  lemma {:induction false} WalkRest<E>(t: Node<E>, cs: seq<int>, l: nat, node: Node<E>, parents: seq<Node<E>>, seen: seq<E>)
    requires Walking(t, cs, l, node, parents, seen)
    ensures Items(t) == seen + Forest(node.data[cs[l]..]) + After(t, cs, l)
  {
    Split(t, cs, l, cs[l]);
  }

  /** Going down through the cursor of a well-formed tree's node at level l: the child becomes current. */
  lemma {:induction false} WalkDown<E>(t: Node<E>, cs: seq<int>, l: nat, node: Node<E>, parents: seq<Node<E>>, seen: seq<E>, order: nat)
    requires Ok(t, order) && Walking(t, cs, l, node, parents, seen) && 0 < l && cs[l] < |node.data|
    ensures node.data[cs[l]].Child? && MinOrder(order) <= |node.data[cs[l]].node.data|
    ensures Walking(t, cs, l - 1, node.data[cs[l]].node, parents + [node], seen)
  {
    AtOk(t, cs, l, order);
    assert SlotOk(node.data[cs[l]], node.height, order);
    Down(t, cs, l);
    assert cs[l - 1] == 0;
    assert node.data[cs[l]].node.data[..0] == [];
  }

  /** A node whose cursor is past its entries has all its elements seen. */
  lemma {:induction false} WalkFinished<E>(t: Node<E>, cs: seq<int>, l: nat, node: Node<E>, parents: seq<Node<E>>, seen: seq<E>)
    requires Walking(t, cs, l, node, parents, seen) && cs[l] == |node.data|
    ensures seen == Done(t, cs, l) + Items(node)
  {
    assert node.data[..cs[l]] == node.data;
  }

  /** At a leaf with cursor 0, nothing of the leaf is seen yet. */
  lemma {:induction false} WalkLeaf<E>(t: Node<E>, cs: seq<int>, node: Node<E>, parents: seq<Node<E>>, seen: seq<E>)
    requires Walking(t, cs, 0, node, parents, seen) && cs[0] == 0
    ensures seen == Done(t, cs, 0)
  {
    assert node.data[..0] == [];
  }

  /**
   * Going up from the node at level l once seen holds all of its elements:
   * its cursor goes back to 0, its parent's moves past it, and the parent
   * becomes current.
   */
  lemma {:induction false} WalkUp<E>(t: Node<E>, cs: seq<int>, l: nat, node: Node<E>, parents: seq<Node<E>>, seen0: seq<E>, seen: seq<E>)
    requires Walking(t, cs, l, node, parents, seen0) && l < t.height
    requires seen == Done(t, cs, l) + Items(node)
    ensures 0 < |parents|
    ensures Walking(t, cs[l := 0][l + 1 := cs[l + 1] + 1], l + 1, parents[|parents| - 1], parents[..|parents| - 1], seen)
  {
    Up(t, cs, l);
  }

  /** At the root, with its cursor past its entries, the walk has seen every element. */
  lemma {:induction false} WalkEnded<E>(t: Node<E>, cs: seq<int>, node: Node<E>, parents: seq<Node<E>>, seen: seq<E>)
    requires Walking(t, cs, t.height, node, parents, seen) && cs[t.height] == |node.data|
    ensures seen == Items(t)
  {
    WalkRest(t, cs, t.height, node, parents, seen);
    assert node.data[cs[t.height]..] == [];
  }

  /**
   * At a well-formed leaf, the element at the cursor is the next one of
   * t, and the number left is at least what is left in the leaf.
   */
  lemma {:induction false} WalkNext<E>(t: Node<E>, cs: seq<int>, node: Node<E>, parents: seq<Node<E>>, seen: seq<E>, order: nat)
    requires Ok(t, order) && Walking(t, cs, 0, node, parents, seen)
    ensures Ok(node, order) && node.height == 0
    ensures |seen| + |node.data| - cs[0] <= |Items(t)|
    ensures cs[0] < |node.data| ==>
              |seen| < |Items(t)| && node.data[cs[0]].Item? && Items(t)[|seen|] == node.data[cs[0]].value
  {
    AtOk(t, cs, 0, order);
    WalkRest(t, cs, 0, node, parents, seen);
    LeafRest(node, cs[0], order);
    if cs[0] < |node.data| {
      ForestCons(node.data, cs[0]);
      assert SlotOk(node.data[cs[0]], 0, order);
    }
  }

  /** Moving the leaf cursor past one element: that element joins what is seen. */
  lemma {:induction false} WalkStep<E>(t: Node<E>, cs: seq<int>, node: Node<E>, parents: seq<Node<E>>, seen: seq<E>, order: nat)
    requires Ok(t, order) && Walking(t, cs, 0, node, parents, seen) && cs[0] < |node.data|
    ensures node.data[cs[0]].Item?
    ensures Walking(t, cs[0 := cs[0] + 1], 0, node, parents, seen + [node.data[cs[0]].value])
  {
    AtOk(t, cs, 0, order);
    assert SlotOk(node.data[cs[0]], 0, order);
    Frame(t, cs, cs[0 := cs[0] + 1], 0);
    ForestSnoc(node.data, cs[0] + 1);
  }
}
