// `FinderByIndex` (BTreeList.java): the descent from a node to the leaf
// holding a given position, one level at a time (`walk1`), choosing the
// first child whose size exceeds what is left of the position, or the last
// child.
module BTreeFind {
  import opened BTreeNode

  /**
   * The child `walk1` moves to from a node with entries ss when looking for
   * position r, and the position left within that child: the first entry
   * whose size exceeds what is left of r, or else the last entry.
   */
  function Locate<E>(ss: seq<Slot<E>>, r: int): (res: (nat, int))
    requires 0 < |ss|
    ensures res.0 < |ss|
    decreases |ss|
  {
    if |ss| == 1 || r < SlotSize(ss[0]) then (0, r)
    else
      var res' := Locate(ss[1..], r - SlotSize(ss[0]));
      (res'.0 + 1, res'.1)
  }

  /**
   * Looking for a position in range (or just past the end, as insertion
   * does), `walk1` lands in the entry that holds it: the elements of the
   * entries before it and the offset within it add up to the position.
   */
  lemma {:induction false} LocateItems<E>(ss: seq<Slot<E>>, r: int)
    requires 0 < |ss| && Sized(ss) && 0 <= r <= |Forest(ss)|
    ensures |Forest(ss[..Locate(ss, r).0])| + Locate(ss, r).1 == r
    ensures 0 <= Locate(ss, r).1 <= |SlotItems(ss[Locate(ss, r).0])|
    ensures r < |Forest(ss)| ==> Locate(ss, r).1 < |SlotItems(ss[Locate(ss, r).0])|
    decreases |ss|
  {
    assert SlotSize(ss[0]) == |SlotItems(ss[0])|;
    if |ss| == 1 {
      assert Forest(ss[1..]) == [];
    } else if r < SlotSize(ss[0]) {
    } else {
      var tail := ss[1..];
      assert Sized(tail) by {
        forall k | 0 <= k < |tail|
          ensures SlotSize(tail[k]) == |SlotItems(tail[k])|
        {
          assert tail[k] == ss[k + 1];
        }
      }
      LocateItems(tail, r - SlotSize(ss[0]));
      var j := Locate(tail, r - SlotSize(ss[0])).0;
      assert ss[..j + 1][1..] == tail[..j];
      assert ss[..j + 1][0] == ss[0];
      assert tail[j] == ss[j + 1];
    }
  }

  /** The contents of a run around one of its entries. */
  lemma {:induction false} Pick<E>(ss: seq<Slot<E>>, j: nat)
    requires j < |ss|
    ensures Forest(ss) == Forest(ss[..j]) + SlotItems(ss[j]) + Forest(ss[j + 1..])
  {
    Around(ss, j);
    ForestThree(ss[..j], [ss[j]], ss[j + 1..]);
    ForestOne(ss[j]);
  }

  /**
   * One step down from a well-formed inner node towards position r: the
   * child `walk1` picks is a well-formed node one level lower, and
   * position r of the node is the picked position of the child.
   */
  lemma {:induction false} Descend<E>(t: Node<E>, order: nat, r: int)
    requires Ok(t, order) && 0 < t.height && 0 <= r < |Items(t)|
    ensures 0 < |t.data| && forall k :: 0 <= k < |t.data| ==> t.data[k].Child?
    ensures t.data[Locate(t.data, r).0].Child?
    ensures var c := t.data[Locate(t.data, r).0].node;
            c.height == t.height - 1 && Ok(c, order) && MinOrder(order) <= |c.data|
            && 0 <= Locate(t.data, r).1 < |Items(c)| && Items(c)[Locate(t.data, r).1] == Items(t)[r]
  {
    assert 0 < |t.data|;
    forall k | 0 <= k < |t.data|
      ensures t.data[k].Child?
    {
      assert SlotOk(t.data[k], t.height, order);
    }
    SlotsSized(t.data, t.height, order);
    LocateItems(t.data, r);
    var j := Locate(t.data, r).0;
    assert SlotOk(t.data[j], t.height, order);
    Pick(t.data, j);
  }

  /** `FinderByIndex`: a cursor that still has to skip `off` elements below `node`. */
  class Finder<E> {
    var node: Node<E>
    var off: int

    /** `new FinderByIndex(node, off)`. */
    constructor (node: Node<E>, off: int)
      ensures this.node == node && this.off == off
    {
      this.node := node;
      this.off := off;
    }

    /** `walk1()`: move to the child holding position `off`, or to the last child. */
    method Walk1()
      requires 0 < |node.data| && forall k :: 0 <= k < |node.data| ==> node.data[k].Child?
      modifies this
      ensures old(node).data[Locate(old(node).data, old(off)).0] == Child(node)
      ensures off == Locate(old(node).data, old(off)).1
    {
      var used := |node.data|;
      var children := node.data;
      var i := 0;
      var r := off;
      while i < used - 1
        invariant 0 <= i < used
        invariant Locate(children, off) == (Locate(children[i..], r).0 + i, Locate(children[i..], r).1)
      {
        var child := children[i].node;
        if r < child.size {
          break;
        }
        assert children[i..][1..] == children[i + 1..];
        i := i + 1;
        r := r - child.size;
      }
      node := children[i].node;
      off := r;
    }

    /** `walk2Leaf()`: descend to the leaf holding position `off` of the starting node. */
    method Walk2Leaf(ghost order: nat)
      requires Ok(node, order) && 0 <= off < |Items(node)|
      modifies this
      ensures node.height == 0 && 0 <= off < |node.data|
      ensures node.data[off] == Item(Items(old(node))[old(off)])
    {
      while node.height > 0
        invariant Ok(node, order) && 0 <= off < |Items(node)|
        invariant Items(node)[off] == Items(old(node))[old(off)]
        decreases node.height
      {
        Descend(node, order, off);
        Walk1();
      }
      LeafForest(node.data, order);
    }
  }
}
