/** The nesting stack that reader and writer keep in one 64-bit shift register
    (az_json_private.h), refined to a sequence of containers. */
module BitStack {

  datatype Item = Array | Object

  const MAX_DEPTH := 64

  /** Values of the uint64_t register. */
  const REGISTER_LIMIT: int := 0x1_0000_0000_0000_0000

  type Register = x: int | 0 <= x < REGISTER_LIMIT witness 0

  /** r <<= 1: the topmost bit is lost. */
  function ShiftLeft(r: Register): Register {
    (2 * r) % REGISTER_LIMIT
  }

  /** r >>= 1 */
  function ShiftRight(r: Register): Register {
    r / 2
  }

  /** r |= bit, for a single low bit */
  function OrBit(r: Register, item: Item): Register {
    if r % 2 == 0 && item.Object? then r + 1 else r
  }

  /** r & 1 */
  function LowBit(r: Register): Item {
    if r % 2 != 0 then Object else Array
  }

  /** The innermost container; outside every container the register reads as an array. */
  function Top(items: seq<Item>): Item {
    if items == [] then Array else items[|items| - 1]
  }

  function Pow2(k: nat): (p: nat)
    ensures p >= 1
  {
    if k == 0 then 1 else 2 * Pow2(k - 1)
  }

  /** The containers, innermost last, that the lowest "depth" bits stand for. */
  ghost function Items(r: Register, depth: nat): (items: seq<Item>)
    ensures |items| == depth
  {
    if depth == 0 then [] else Items(ShiftRight(r), depth - 1) + [LowBit(r)]
  }

  lemma {:induction false} Pow2Monotone(i: nat, j: nat)
    requires i <= j
    ensures Pow2(i) <= Pow2(j)
    decreases j
  {
    if i < j {
      Pow2Monotone(i, j - 1);
    }
  }

  lemma Pow2Of63()
    ensures 2 * Pow2(63) == REGISTER_LIMIT
  {
    assert Pow2(7) == 0x80;
    Pow2Sum(7, 7);
    Pow2Sum(14, 7);
    Pow2Sum(21, 21);
    Pow2Sum(42, 21);
  }

  lemma {:induction false} Pow2Sum(i: nat, j: nat)
    ensures Pow2(i + j) == Pow2(i) * Pow2(j)
  {
    if j > 0 {
      Pow2Sum(i, j - 1);
      assert Pow2(i) * (2 * Pow2(j - 1)) == 2 * (Pow2(i) * Pow2(j - 1));
    }
  }

  /** A register that holds fewer than 64 containers loses none when one more is pushed. */
  lemma PushLosesNothing(r: Register, depth: nat, item: Item)
    requires depth < MAX_DEPTH && r < Pow2(depth)
    ensures var pushed := OrBit(ShiftLeft(r), item);
            pushed < Pow2(depth + 1) && ShiftRight(pushed) == r && LowBit(pushed) == item
  {
    Pow2Monotone(depth, 63);
    Pow2Of63();
  }

  class JsonStack {
    var azJsonStack: Register
    var currentDepth: int

    ghost predicate Valid()
      reads this
    {
      0 <= currentDepth <= MAX_DEPTH && azJsonStack < Pow2(currentDepth)
    }

    /** The stack of containers that the register stands for. */
    ghost function Contents(): (items: seq<Item>)
      requires Valid()
      reads this
      ensures |items| == currentDepth
    {
      Items(azJsonStack, currentDepth)
    }

    constructor ()
      ensures Valid() && Contents() == []
    {
      azJsonStack := 0;
      currentDepth := 0;
    }

    /** _az_json_stack_pop: returns the container that is innermost afterwards. */
    method Pop() returns (item: Item)
      requires Valid() && currentDepth > 0
      modifies this
      ensures Valid() && Contents() == old(Contents())[..old(currentDepth) - 1]
      ensures item == Top(Contents())
    {
      if currentDepth != 0 {
        azJsonStack := ShiftRight(azJsonStack);
        currentDepth := currentDepth - 1;
      }
      item := Peek();
    }

    /** _az_json_stack_push */
    method Push(item: Item)
      requires Valid() && currentDepth < MAX_DEPTH
      modifies this
      ensures Valid() && Contents() == old(Contents()) + [item]
    {
      PushLosesNothing(azJsonStack, currentDepth, item);
      currentDepth := currentDepth + 1;
      azJsonStack := ShiftLeft(azJsonStack);
      azJsonStack := OrBit(azJsonStack, item);
    }

    /** _az_json_stack_peek */
    function Peek(): (item: Item)
      requires Valid()
      reads this
      ensures item == Top(Contents())
    {
      LowBit(azJsonStack)
    }
  }
}
