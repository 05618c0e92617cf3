// An iterator over a cursor: `hasNext` advances the cursor at most once and
// remembers in `ready` that its current value has not been handed out yet.
module CursorIterator {

  datatype Option<T> = None | Some(value: T)

  /**
   * A cursor over a fixed sequence of values. It starts before the first
   * value; `pos` counts the successful advances, so the current value is
   * `values[pos - 1]`.
   */
  class SeqCursor<T> {
    const values: seq<T>
    var pos: nat

    ghost predicate Valid()
      reads this
    {
      pos <= |values|
    }

    constructor (values: seq<T>)
      ensures this.values == values && pos == 0
    {
      this.values := values;
      pos := 0;
    }

    /** `advance()`: moves to the next value; false once the end is reached. */
    method Advance() returns (b: bool)
      requires Valid()
      modifies this
      ensures Valid()
      ensures b <==> old(pos) < |values|
      ensures pos == if b then old(pos) + 1 else old(pos)
    {
      if pos < |values| {
        pos := pos + 1;
        return true;
      }
      return false;
    }

    /** `value()`: the value the cursor stands on. */
    function Value(): (v: T)
      reads this
      requires 1 <= pos <= |values|
      ensures v == values[pos - 1]
    {
      values[pos - 1]
    }
  }

  class CursorIterator<T> {
    const cursor: SeqCursor<T>
    var ready: bool

    ghost predicate Valid()
      reads this, cursor
    {
      cursor.Valid() && (ready ==> 1 <= cursor.pos)
    }

    /** What successive `next()` calls return: the current value if not yet handed out, then the rest. */
    ghost function Remaining(): seq<T>
      reads this, cursor
      requires Valid()
    {
      if ready then cursor.values[cursor.pos - 1..] else cursor.values[cursor.pos..]
    }

    constructor (cursor: SeqCursor<T>)
      requires cursor.Valid()
      ensures this.cursor == cursor && !ready && Valid()
      ensures Remaining() == cursor.values[cursor.pos..]
    {
      this.cursor := cursor;
      ready := false;
    }

    /** `hasNext()`: advances only when no value is pending. */
    method HasNext() returns (b: bool)
      requires Valid()
      modifies this, cursor
      ensures Valid() && Remaining() == old(Remaining())
      ensures b <==> Remaining() != []
      ensures b == ready
      ensures old(ready) ==> cursor.pos == old(cursor.pos)
    {
      if ready {
        return true;
      }
      ready := cursor.Advance();
      b := ready;
    }

    /** `next()`: the pending value, after which the next `hasNext` advances again. */
    method Next() returns (v: Option<T>)
      requires Valid()
      modifies this, cursor
      ensures Valid() && !ready
      ensures old(Remaining()) == [] ==> v == None && Remaining() == []
      ensures old(Remaining()) != [] ==>
        v == Some(old(Remaining())[0]) && Remaining() == old(Remaining())[1..]
    {
      var b := HasNext();
      if b {
        ready := false;
        return Some(cursor.Value());
      }
      return None;
    }
  }
}
