/** Instance ids: 16-byte values held as two 64-bit words, and the order in
    which a strongly connected component is executed. */
module Ids {

  type Word = x: nat | x < 0x1_0000_0000_0000_0000

  datatype InstanceID = InstanceID(b0: Word, b1: Word)

  /** The timestamp embedded in a version 1 UUID. Nothing is assumed about it:
      every result below holds for any function of the id. */
  const TimeOf: InstanceID -> int

  /** The order of iidSorter.Less: first the embedded timestamp, then the id. */
  predicate Precedes(a: InstanceID, b: InstanceID) {
    if TimeOf(a) != TimeOf(b) then TimeOf(a) < TimeOf(b)
    else a.b0 < b.b0 || (a.b0 == b.b0 && a.b1 < b.b1)
  }

  lemma PrecedesIsStrictTotalOrder(a: InstanceID, b: InstanceID, c: InstanceID)
    ensures !Precedes(a, a)
    ensures Precedes(a, b) && Precedes(b, c) ==> Precedes(a, c)
    ensures a != b ==> (Precedes(a, b) <==> !Precedes(b, a))
  {
  }
}
