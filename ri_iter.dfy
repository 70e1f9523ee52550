/**
 * A cursor over the buffer of a reverse index, which it holds by shared
 * reference and never changes: only its position moves.
 *
 * Both directions test `index > len` where `index >= len` is needed, so a
 * cursor standing at `len` reads past the end; and `next_back` steps below
 * zero from position 0. Those two situations are preconditions here.
 */
module Iteration {
  import opened Core

  datatype Option<T> = None | Some(value: T)

  /** A match handle: a position bound to the index whose buffer it refers to. */
  datatype RiIndex = RiIndex(index: nat, reverseIndex: ReverseIndex)

  class RiIter {
    var index: nat
    const reverseIndex: ReverseIndex

    constructor (index: nat, reverseIndex: ReverseIndex)
      ensures this.index == index && this.reverseIndex == reverseIndex
    {
      this.index := index;
      this.reverseIndex := reverseIndex;
    }

    /** `Iterator::next`: the item at the cursor, then one step forward. */
    method Next() returns (r: Option<string>)
      requires index != |reverseIndex.buffer|
      modifies this`index
      ensures unchanged(reverseIndex)
      ensures old(index) > |reverseIndex.buffer| ==> r == None && index == old(index)
      ensures old(index) < |reverseIndex.buffer| ==>
                r == Some(reverseIndex.buffer[old(index)]) && index == old(index) + 1
    {
      if index > |reverseIndex.buffer| {
        return None;
      } else {
        var reference := reverseIndex.Index(index);
        index := index + 1;
        r := Some(reference);
      }
    }

    /** `DoubleEndedIterator::next_back`: the item at the cursor, then one step back. */
    method NextBack() returns (r: Option<string>)
      requires index != |reverseIndex.buffer|
      requires index <= |reverseIndex.buffer| ==> index > 0
      modifies this`index
      ensures unchanged(reverseIndex)
      ensures old(index) > |reverseIndex.buffer| ==> r == None && index == old(index)
      ensures old(index) < |reverseIndex.buffer| ==>
                r == Some(reverseIndex.buffer[old(index)]) && index == old(index) - 1
    {
      if index > |reverseIndex.buffer| {
        return None;
      } else {
        var reference := reverseIndex.Index(index);
        index := index - 1;
        r := Some(reference);
      }
    }
  }
}
