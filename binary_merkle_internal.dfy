/**
 * AbstractBinaryMerkleInternal: an internal merkle node with exactly two child slots,
 * left (index 0) and right (index 1), each either empty (null) or holding a child.
 *
 * The slots are stored in two fields that setChildInternal overwrites; every other
 * index is refused with an IllegalChildIndexException. The value view Slots and the
 * sequence view Children give the specification the class is proved against.
 */
module BinaryMerkleInternal {
  import opened Wrappers

  const MIN_BINARY_CHILD_COUNT: int := 0
  const LEFT_CHILD: int := 0
  const RIGHT_CHILD: int := 1
  const BINARY_CHILD_COUNT: int := 2

  /** The identity of a child merkle node; an empty slot is None. */
  type NodeId = nat

  /** IllegalChildIndexException(minimum, maximum, index). */
  datatype IllegalChildIndex = IllegalChildIndex(minimum: int, maximum: int, index: int)

  /** The two child slots as a value. */
  datatype Slots = Slots(left: Option<NodeId>, right: Option<NodeId>)

  /** The slots in index order: the child at index i is Children(s)[i]. */
  function Children(s: Slots): (cs: seq<Option<NodeId>>)
    ensures |cs| == BINARY_CHILD_COUNT
  {
    [s.left, s.right]
  }

  /** The indices the node accepts. */
  predicate ValidIndex(index: int) {
    index == LEFT_CHILD || index == RIGHT_CHILD
  }

  /** The exception both getChild and setChildInternal throw for a bad index. */
  function BadIndex(index: int): IllegalChildIndex {
    IllegalChildIndex(LEFT_CHILD, RIGHT_CHILD, index)
  }

  /** getChild on a value: the slot at the index, or the exception for any other index. */
  function ChildAt(s: Slots, index: int): (r: Result<Option<NodeId>, IllegalChildIndex>)
    ensures r.Ok? <==> 0 <= index < |Children(s)|
    ensures r.Ok? ==> r.value == Children(s)[index]
    ensures r.Err? ==> r.error == IllegalChildIndex(0, |Children(s)| - 1, index)
  {
    if index == LEFT_CHILD then Ok(s.left)
    else if index == RIGHT_CHILD then Ok(s.right)
    else Err(BadIndex(index))
  }

  /** setChildInternal on a value: the slots with one entry replaced, or the exception. */
  function WithChild(s: Slots, index: int, child: Option<NodeId>): (r: Result<Slots, IllegalChildIndex>)
    ensures r.Ok? <==> 0 <= index < |Children(s)|
    ensures r.Ok? ==> Children(r.value) == Children(s)[index := child]
    ensures r.Err? ==> r.error == IllegalChildIndex(0, |Children(s)| - 1, index)
  {
    if index == LEFT_CHILD then Ok(s.(left := child))
    else if index == RIGHT_CHILD then Ok(s.(right := child))
    else Err(BadIndex(index))
  }

  class BinaryInternal {
    var left: Option<NodeId>
    var right: Option<NodeId>

    /** The current slots as a value. */
    function State(): Slots
      reads this
    {
      Slots(left, right)
    }

    /** A new binary internal node has both slots empty. */
    constructor ()
      ensures State() == Slots(None, None)
    {
      left := None;
      right := None;
    }

    /** A binary node always reports two children, even when both slots are empty. */
    function NumberOfChildren(): (n: int)
      ensures n == |Children(Slots(None, None))|
    {
      BINARY_CHILD_COUNT
    }

    /** The minimum child count, for every version. */
    function MinimumChildCount(version: int): (n: int)
      ensures n == 0
    {
      MIN_BINARY_CHILD_COUNT
    }

    /** The maximum child count, for every version. */
    function MaximumChildCount(version: int): (n: int)
      ensures n == NumberOfChildren()
    {
      BINARY_CHILD_COUNT
    }

    /** getChild: the left slot for index 0, the right slot for index 1, otherwise the exception. */
    function GetChild(index: int): (r: Result<Option<NodeId>, IllegalChildIndex>)
      reads this
      ensures r.Ok? <==> index == LEFT_CHILD || index == RIGHT_CHILD
      ensures index == LEFT_CHILD ==> r == Ok(left)
      ensures index == RIGHT_CHILD ==> r == Ok(right)
      ensures r.Err? ==> r.error == IllegalChildIndex(LEFT_CHILD, RIGHT_CHILD, index)
    {
      ChildAt(State(), index)
    }

    /**
     * setChildInternal: overwrite the slot at the index; a bad index throws before any
     * field is written.
     */
    method SetChildInternal(index: int, child: Option<NodeId>) returns (r: Result<(), IllegalChildIndex>)
      modifies this
      ensures WithChild(old(State()), index, child).Ok? ==>
                r.Ok? && State() == WithChild(old(State()), index, child).value
      ensures WithChild(old(State()), index, child).Err? ==>
                r == Err(WithChild(old(State()), index, child).error) && State() == old(State())
    {
      if index == LEFT_CHILD {
        left := child;
        r := Ok(());
      } else if index == RIGHT_CHILD {
        right := child;
        r := Ok(());
      } else {
        r := Err(IllegalChildIndex(LEFT_CHILD, RIGHT_CHILD, index));
      }
    }

    /** allocateSpaceForChild: the two slots always exist, so nothing changes. */
    method AllocateSpaceForChild(index: int)
      ensures State() == old(State())
    {
    }

    /** checkChildIndexIsValid: the check is left to getChild, so nothing changes. */
    method CheckChildIndexIsValid(index: int)
      ensures State() == old(State())
    {
    }
  }

  /** Every index below the child count, and no other, is accepted, for every version. */
  lemma ChildCountsAgree(node: BinaryInternal, version: int, index: int)
    ensures node.MinimumChildCount(version) <= node.NumberOfChildren() <= node.MaximumChildCount(version)
    ensures ValidIndex(index) <==> 0 <= index < node.NumberOfChildren()
  {
  }

  /** Reading back a slot just written gives the child written there. */
  lemma GetAfterSet(s: Slots, index: int, child: Option<NodeId>)
    requires ValidIndex(index)
    ensures WithChild(s, index, child).Ok?
    ensures ChildAt(WithChild(s, index, child).value, index) == Ok(child)
  {
  }

  /** Writing one slot leaves the other slot as it was. */
  lemma OtherSlotUnchanged(s: Slots, index: int, other: int, child: Option<NodeId>)
    requires ValidIndex(index) && ValidIndex(other) && index != other
    ensures WithChild(s, index, child).Ok?
    ensures ChildAt(WithChild(s, index, child).value, other) == ChildAt(s, other)
  {
  }

  /** A bad index fails both operations with the same exception. */
  lemma BadIndexRejected(s: Slots, index: int, child: Option<NodeId>)
    requires !ValidIndex(index)
    ensures ChildAt(s, index) == Err(IllegalChildIndex(LEFT_CHILD, RIGHT_CHILD, index))
    ensures WithChild(s, index, child) == Err(IllegalChildIndex(LEFT_CHILD, RIGHT_CHILD, index))
  {
  }

  /** Writing back the child already in a slot changes nothing. */
  lemma SetSameChild(s: Slots, index: int)
    requires ValidIndex(index)
    ensures ChildAt(s, index).Ok?
    ensures WithChild(s, index, ChildAt(s, index).value) == Ok(s)
  {
  }

  /** Of two writes to the same slot, the later one wins. */
  lemma LastWriteWins(s: Slots, index: int, first: Option<NodeId>, second: Option<NodeId>)
    requires ValidIndex(index)
    ensures WithChild(s, index, first).Ok?
    ensures WithChild(WithChild(s, index, first).value, index, second) == WithChild(s, index, second)
  {
  }

  /** Slots are determined by what getChild returns at the two valid indices. */
  lemma SlotsExtensional(s: Slots, t: Slots)
    requires ChildAt(s, LEFT_CHILD) == ChildAt(t, LEFT_CHILD)
    requires ChildAt(s, RIGHT_CHILD) == ChildAt(t, RIGHT_CHILD)
    ensures s == t
  {
  }
}
