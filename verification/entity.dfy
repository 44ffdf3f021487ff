/** Entity identifiers: a slot index plus a generation that tells apart successive
    occupants of that slot. Both are `u32` in the system; here they are unbounded naturals
    and `ValidEntity` states the `u32` range where it matters. */
module Entities {

  /** One more than the largest `u32`. */
  const U32_LIMIT: nat := 0x1_0000_0000

  predicate IsU32(n: nat)
  {
    n < U32_LIMIT
  }

  /** Two entities are equal exactly when both fields are equal (datatype equality). */
  datatype Entity = Entity(index: nat, generation: nat)

  predicate ValidEntity(e: Entity)
  {
    IsU32(e.index) && IsU32(e.generation)
  }
}
