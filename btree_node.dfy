// The nodes of a `BTreeList` (BTreeList.java, class `Node`), as values. A
// node has a height (0 for leaves), the cached number of elements below it
// (`size`) and the filled part of its `data` array: elements in a leaf,
// child nodes in an inner node. `used` is the length of `data`; the `null`
// tail of the Java array is not represented.
module BTreeNode {

  /** An entry of a node's `data` array: an element (leaves) or a child node (inner nodes). */
  datatype Slot<E> = Item(value: E) | Child(node: Node<E>)

  /** `BTreeList.Node`: height, cached size and the `used` filled entries. */
  datatype Node<E> = Node(height: nat, size: int, data: seq<Slot<E>>)

  /** `minOrder()`: the fewest entries a node other than the root holds. */
  function MinOrder(order: nat): nat { (order + 1) / 2 }

  /** The fewest entries of the root: any number for a leaf, two children for an inner root. */
  function RootMin(h: nat): nat { if h == 0 then 0 else 2 }

  // ---------------------------------------------------------------------
  // Contents

  /** The elements below node t, in index order (an in-order walk). */
  function Items<E>(t: Node<E>): seq<E>
    decreases t
  {
    Forest(t.data)
  }

  /** The elements below a run of entries, left to right. */
  function Forest<E>(ss: seq<Slot<E>>): seq<E>
    decreases ss
  {
    if |ss| == 0 then [] else SlotItems(ss[0]) + Forest(ss[1..])
  }

  /** The elements an entry stands for. */
  function SlotItems<E>(s: Slot<E>): seq<E>
    decreases s
  {
    match s
    case Item(v) => [v]
    case Child(c) => Items(c)
  }

  /** `childSize`: what an entry adds to its node's `size`. */
  function SlotSize<E>(s: Slot<E>): int
  {
    match s
    case Item(_) => 1
    case Child(c) => c.size
  }

  /** The sum of the sizes of a run of entries, as `fixInnerNode` adds them up. */
  function Sizes<E>(ss: seq<Slot<E>>): int
  {
    if |ss| == 0 then 0 else SlotSize(ss[0]) + Sizes(ss[1..])
  }

  /** Every entry's size counts its elements. */
  ghost predicate Sized<E>(ss: seq<Slot<E>>)
  {
    forall k :: 0 <= k < |ss| ==> SlotSize(ss[k]) == |SlotItems(ss[k])|
  }

  // ---------------------------------------------------------------------
  // Well-formedness

  /**
   * Node t is a well-formed subtree for a list of the given order: it has
   * at most `order` entries, its `size` counts its elements, and its
   * entries are well-formed for its height.
   */
  ghost predicate Ok<E>(t: Node<E>, order: nat)
    decreases t
  {
    |t.data| <= order && t.size == |Items(t)| && SlotsOk(t.data, t.height, order)
  }

  /** Every entry of a run is well-formed for a node of height h. */
  ghost predicate SlotsOk<E>(ss: seq<Slot<E>>, h: nat, order: nat)
    decreases ss
  {
    forall k :: 0 <= k < |ss| ==> SlotOk(ss[k], h, order)
  }

  /**
   * An entry of a node of height h: an element in a leaf; in an inner node
   * a well-formed child one level lower holding at least `minOrder()`
   * entries.
   */
  ghost predicate SlotOk<E>(s: Slot<E>, h: nat, order: nat)
    decreases s
  {
    match s
    case Item(_) => h == 0
    case Child(c) => 0 < h && c.height == h - 1 && MinOrder(order) <= |c.data| && Ok(c, order)
  }

  /** The root of a list: a well-formed node with at least `RootMin` entries. */
  ghost predicate Tree<E>(t: Node<E>, order: nat)
  {
    Ok(t, order) && RootMin(t.height) <= |t.data|
  }

  // ---------------------------------------------------------------------
  // Lemmas about runs of entries

  /** Contents of a run are those of its parts. */
  lemma {:induction false} ForestConcat<E>(a: seq<Slot<E>>, b: seq<Slot<E>>)
    ensures Forest(a + b) == Forest(a) + Forest(b)
    decreases |a|
  {
    if |a| > 0 {
      assert (a + b)[1..] == a[1..] + b;
      ForestConcat(a[1..], b);
    } else {
      assert a + b == b;
    }
  }

  /** Sizes of a run are those of its parts. */
  lemma {:induction false} SizesConcat<E>(a: seq<Slot<E>>, b: seq<Slot<E>>)
    ensures Sizes(a + b) == Sizes(a) + Sizes(b)
    decreases |a|
  {
    if |a| > 0 {
      assert (a + b)[1..] == a[1..] + b;
      SizesConcat(a[1..], b);
    } else {
      assert a + b == b;
    }
  }

  /** The contents of a single entry. */
  lemma {:induction false} ForestOne<E>(s: Slot<E>)
    ensures Forest([s]) == SlotItems(s)
  {
    assert [s][1..] == [];
  }

  /** The contents of a run of three parts. */
  lemma {:induction false} ForestThree<E>(a: seq<Slot<E>>, b: seq<Slot<E>>, c: seq<Slot<E>>)
    ensures Forest(a + b + c) == Forest(a) + Forest(b) + Forest(c)
  {
    ForestConcat(a + b, c);
    ForestConcat(a, b);
  }

  /** A sequence around one of its elements. */
  lemma {:induction false} Around<T>(s: seq<T>, j: nat)
    requires j < |s|
    ensures s == s[..j] + [s[j]] + s[j + 1..]
  {
  }

  /** A sequence with one element replaced, around that element. */
  lemma {:induction false} UpdateAround<T>(s: seq<T>, j: nat, x: T)
    requires j < |s|
    ensures s[j := x] == s[..j] + [x] + s[j + 1..]
  {
  }

  /** The two parts of a concatenation, recovered by slicing. */
  lemma {:induction false} SliceConcat<T>(a: seq<T>, b: seq<T>)
    ensures (a + b)[..|a|] == a && (a + b)[|a|..] == b
  {
  }

  /**
   * Putting e at position |P| + r of P + C + Q puts it at position r of the
   * middle part.
   */
  lemma {:induction false} SpliceMid<T>(P: seq<T>, C: seq<T>, Q: seq<T>, r: int, e: T)
    requires 0 <= r <= |C|
    ensures (P + C + Q)[..|P| + r] + [e] + (P + C + Q)[|P| + r..] == P + (C[..r] + [e] + C[r..]) + Q
  {
    var S := P + C + Q;
    assert S[..|P| + r] == P + C[..r];
    assert S[|P| + r..] == C[r..] + Q;
  }

  /**
   * Overwriting position |P| + r of P + C + Q overwrites position r of the
   * middle part.
   */
  lemma {:induction false} UpdateMid<T>(P: seq<T>, C: seq<T>, Q: seq<T>, r: int, x: T)
    requires 0 <= r < |C|
    ensures (P + C + Q)[|P| + r := x] == P + C[r := x] + Q
  {
  }

  /**
   * Removing position |P| + r of P + C + Q removes position r of the middle
   * part.
   */
  lemma {:induction false} CutMid<T>(P: seq<T>, C: seq<T>, Q: seq<T>, r: int)
    requires 0 <= r < |C|
    ensures (P + C + Q)[..|P| + r] + (P + C + Q)[|P| + r + 1..] == P + (C[..r] + C[r + 1..]) + Q
  {
    var S := P + C + Q;
    assert S[..|P| + r] == P + C[..r];
    assert S[|P| + r + 1..] == C[r + 1..] + Q;
  }

  /** When every entry's size counts its elements, so does the sum of the sizes. */
  lemma {:induction false} SizesItems<E>(ss: seq<Slot<E>>)
    requires Sized(ss)
    ensures Sizes(ss) == |Forest(ss)|
    decreases |ss|
  {
    if |ss| > 0 {
      assert Sized(ss[1..]) by {
        forall k | 0 <= k < |ss[1..]|
          ensures SlotSize(ss[1..][k]) == |SlotItems(ss[1..][k])|
        {
          assert ss[1..][k] == ss[k + 1];
        }
      }
      SizesItems(ss[1..]);
    }
  }

  /** Well-formed entries have sizes that count their elements. */
  lemma {:induction false} SlotsSized<E>(ss: seq<Slot<E>>, h: nat, order: nat)
    requires SlotsOk(ss, h, order)
    ensures Sized(ss)
  {
    forall k | 0 <= k < |ss|
      ensures SlotSize(ss[k]) == |SlotItems(ss[k])|
    {
      assert SlotOk(ss[k], h, order);
      match ss[k]
      case Item(_) =>
      case Child(c) => assert Ok(c, order);
    }
  }

  /** A node's `size` is the sum of its entries' sizes. */
  lemma {:induction false} OkSizes<E>(t: Node<E>, order: nat)
    requires Ok(t, order)
    ensures t.size == Sizes(t.data)
  {
    SlotsSized(t.data, t.height, order);
    SizesItems(t.data);
  }

  /** A leaf's elements are the values of its entries, one each. */
  lemma {:induction false} LeafForest<E>(ss: seq<Slot<E>>, order: nat)
    requires SlotsOk(ss, 0, order)
    ensures |Forest(ss)| == |ss|
    ensures forall k :: 0 <= k < |ss| ==> ss[k].Item? && Forest(ss)[k] == ss[k].value
    decreases |ss|
  {
    if |ss| > 0 {
      assert SlotOk(ss[0], 0, order);
      assert SlotsOk(ss[1..], 0, order) by {
        forall k | 0 <= k < |ss[1..]|
          ensures SlotOk(ss[1..][k], 0, order)
        {
          assert ss[1..][k] == ss[k + 1];
        }
      }
      LeafForest(ss[1..], order);
      forall k | 0 <= k < |ss|
        ensures ss[k].Item? && Forest(ss)[k] == ss[k].value
      {
        assert SlotOk(ss[k], 0, order);
        if k > 0 {
          assert ss[k] == ss[1..][k - 1];
        }
      }
    }
  }

  /** The entries of a run with every entry well-formed, taken apart and put together. */
  lemma {:induction false} SlotsOkConcat<E>(a: seq<Slot<E>>, b: seq<Slot<E>>, h: nat, order: nat)
    requires SlotsOk(a, h, order) && SlotsOk(b, h, order)
    ensures SlotsOk(a + b, h, order)
  {
    forall k | 0 <= k < |a + b|
      ensures SlotOk((a + b)[k], h, order)
    {
      if k < |a| {
        assert (a + b)[k] == a[k];
      } else {
        assert (a + b)[k] == b[k - |a|];
      }
    }
  }

  /** A slice of a run of well-formed entries is well-formed. */
  lemma {:induction false} SlotsOkSlice<E>(ss: seq<Slot<E>>, a: nat, b: nat, h: nat, order: nat)
    requires a <= b <= |ss| && SlotsOk(ss, h, order)
    ensures SlotsOk(ss[a..b], h, order)
  {
    forall k | 0 <= k < b - a
      ensures SlotOk(ss[a..b][k], h, order)
    {
      assert ss[a..b][k] == ss[a + k];
    }
  }
}
