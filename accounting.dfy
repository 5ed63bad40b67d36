/** Capacity accounting of RBUF_t: the queries that only read the size and the
    two cursors, and the rollover tests and cursor updates the write and read
    paths perform. One cell is always left free, so that an empty buffer
    (write == read) differs from a full one (write + 1 == read modulo size). */
module Accounting {
  import opened Sizes
  import opened Layout

  /** What the queries read of an RBUF_t: the array size and the two cursors. */
  datatype Cursors = Cursors(size: uint16, writeIndex: uint16, readIndex: uint16)
  {
    /** Both cursors index the array; a zero-size buffer keeps both at 0. */
    predicate Valid()
    {
      if size == 0 then writeIndex == 0 && readIndex == 0
      else writeIndex < size && readIndex < size
    }
  }

  /** RBUF_GetUsedSize: the number of queued bytes, fewer than the cells. */
  function UsedSize(c: Cursors): (n: uint16)
    requires c.Valid()
    ensures c.size == 0 ==> n == 0
    ensures c.size > 0 ==> n < c.size
  {
    if c.writeIndex >= c.readIndex then c.writeIndex - c.readIndex  // no rollover
    else c.size - c.readIndex + c.writeIndex                        // rollover
  }

  /** The used size is how many cells the write cursor lies ahead of the read
      cursor around the ring: write - read reduced modulo size. */
  lemma UsedSizeIsDistance(c: Cursors)
    requires c.Valid() && c.size > 0
    ensures Wrap(c.readIndex + UsedSize(c), c.size) == c.writeIndex
    ensures UsedSize(c) == (c.writeIndex - c.readIndex) % c.size
  {
    ModOneLap(c.writeIndex - c.readIndex, c.size);
  }

  /** RBUF_GetFreeSize with the zero-size case guarded: the free cells apart from
      the reserved one, so that used + free == size - 1; 0 when size is 0. */
  function FreeSize(c: Cursors): (n: uint16)
    requires c.Valid()
    ensures c.size == 0 ==> n == 0
    ensures c.size > 0 ==> n + UsedSize(c) == c.size - 1
  {
    if c.size == 0 then 0
    else
      var free := if c.writeIndex >= c.readIndex then c.size - c.writeIndex + c.readIndex
                  else c.readIndex - c.writeIndex;
      free - 1
  }

  /** RBUF_GetFreeSize as written: the reserved cell is subtracted without a
      guard, in 16-bit unsigned arithmetic. It agrees with FreeSize on every
      buffer of positive size and wraps to 65535 on a zero-size buffer. */
  function FreeSizeAsWritten(c: Cursors): (n: uint16)
    requires c.Valid()
    ensures c.size > 0 ==> n == FreeSize(c)
    ensures c.size == 0 ==> n == 0xFFFF
  {
    var free: uint16 := if c.writeIndex >= c.readIndex then (c.size - c.writeIndex + c.readIndex) % 0x1_0000
                        else c.readIndex - c.writeIndex;
    (free - 1) % 0x1_0000
  }

  /** RBUF_IsEmpty: true exactly when no byte is queued. */
  function IsEmpty(c: Cursors): (empty: bool)
    requires c.Valid()
    ensures empty <==> UsedSize(c) == 0
  {
    c.writeIndex == c.readIndex
  }

  /** RBUF_IsFull: true exactly when the buffer has cells and none is free. */
  function IsFull(c: Cursors): (full: bool)
    requires c.Valid()
    ensures full <==> c.size > 0 && FreeSize(c) == 0
  {
    ModOneLap(c.writeIndex + 1, c.size);
    c.size > 0 && (c.writeIndex + 1) % c.size == c.readIndex
  }

  /** With two cells or more, empty and full are never reported together. With a
      single cell both cursors are 0 and the buffer is both. */
  lemma EmptyAndFullExclusive(c: Cursors)
    requires c.Valid()
    ensures IsEmpty(c) && IsFull(c) <==> c.size == 1
  {
  }

  /** RBUF_GetWriteIndex: the write cursor, which sits `used` cells past the read cursor. */
  function GetWriteIndex(c: Cursors): (i: uint16)
    requires c.Valid()
    ensures c.size > 0 ==> i == Wrap(c.readIndex + UsedSize(c), c.size)
    ensures c.size == 0 ==> i == 0
  {
    c.writeIndex
  }

  /** Rbuf_Min. */
  function Min(a: uint16, b: uint16): (m: uint16)
    ensures m <= a && m <= b && (m == a || m == b)
  {
    if a < b then a else b
  }

  /** Rbuf_WillWriteRollover: whether an n-byte write reaches the end of the array.
      RolloverMeansReduction states what this means for the cursor modulo size. */
  function WillWriteRollover(c: Cursors, n: uint16): (b: bool)
    ensures c.writeIndex + n < 2 * c.size ==> (b <==> Wrap(c.writeIndex + n, c.size) != c.writeIndex + n)
  {
    c.writeIndex + n >= c.size
  }

  /** Rbuf_WillReadRollover as written: whether an n-byte read passes the end of
      the array, a read that ends exactly at the end not counting.
      RolloverMeansReduction compares it with reduction modulo size. */
  function WillReadRolloverAsWritten(c: Cursors, n: uint16): (b: bool)
    ensures c.readIndex + n < 2 * c.size && c.readIndex + n != c.size ==>
      (b <==> Wrap(c.readIndex + n, c.size) != c.readIndex + n)
    ensures c.readIndex + n == c.size ==> !b
  {
    c.readIndex + n > c.size
  }

  /** Rbuf_WillReadRollover corrected to the write test's `>=`.
      RolloverMeansReduction states what this means for the cursor modulo size. */
  function WillReadRollover(c: Cursors, n: uint16): (b: bool)
    ensures c.readIndex + n < 2 * c.size ==> (b <==> Wrap(c.readIndex + n, c.size) != c.readIndex + n)
  {
    c.readIndex + n >= c.size
  }

  /** What the rollover tests mean: a write rolls over exactly when its advanced
      cursor needs reducing modulo size, and so does a read under the corrected
      test. The test as written also lets through, as no rollover, the read that
      ends exactly at the last cell, whose advanced cursor (== size) needs
      reducing as well. */
  lemma RolloverMeansReduction(c: Cursors, n: uint16)
    requires c.size > 0
    ensures !WillWriteRollover(c, n) <==> (c.writeIndex + n) % c.size == c.writeIndex + n
    ensures !WillReadRollover(c, n) <==> (c.readIndex + n) % c.size == c.readIndex + n
    ensures !WillReadRolloverAsWritten(c, n) <==>
      (c.readIndex + n) % c.size == c.readIndex + n || c.readIndex + n == c.size
  {
    ModKeepsBelow(c.writeIndex + n, c.size);
    ModKeepsBelow(c.readIndex + n, c.size);
  }

  /** The write cursor after an n-byte write that fits: `w + n` when the write does
      not roll over, else `size2`, the part written at the head. It is `w + n`
      folded back into the ring, and the queue grows by exactly n bytes. */
  function WriteCursorAfter(c: Cursors, n: uint16): (w: uint16)
    requires c.Valid() && n <= FreeSize(c)
    ensures c.size > 0 ==> w == Wrap(c.writeIndex + n, c.size)
    ensures Cursors(c.size, w, c.readIndex).Valid()
    ensures UsedSize(Cursors(c.size, w, c.readIndex)) == UsedSize(c) + n
  {
    if !WillWriteRollover(c, n) then c.writeIndex + n
    else n - (c.size - c.writeIndex)
  }

  /** The read cursor after an n-byte read of queued bytes, with the corrected
      rollover test: `r + n` folded back into the ring, and the queue shrinks by exactly n bytes. */
  function ReadCursorAfter(c: Cursors, n: uint16): (r: uint16)
    requires c.Valid() && n <= UsedSize(c)
    ensures c.size > 0 ==> r == Wrap(c.readIndex + n, c.size)
    ensures Cursors(c.size, c.writeIndex, r).Valid()
    ensures UsedSize(Cursors(c.size, c.writeIndex, r)) == UsedSize(c) - n
  {
    if !WillReadRollover(c, n) then c.readIndex + n
    else n - (c.size - c.readIndex)
  }

  /** The read cursor RBUF_ReadCopyBlock and RBUF_ReadCopyRaw compute as written.
      It is the corrected cursor except when the read ends exactly at the last
      cell, where it is left at `size`, one past the last cell. */
  function ReadCursorAfterAsWritten(c: Cursors, n: uint16): (r: uint16)
    requires c.Valid() && n <= UsedSize(c)
    ensures c.size > 0 && c.readIndex + n == c.size ==> r == c.size
    ensures c.readIndex + n != c.size ==> r == ReadCursorAfter(c, n)
  {
    if !WillReadRolloverAsWritten(c, n) then c.readIndex + n
    else n - (c.size - c.readIndex)
  }

  /** A read cursor left at `size` breaks the cursor invariant. Concretely: size 5,
      three bytes written and read back, two more written (the write cursor wraps
      to 0), then a two-byte block read leaves the read cursor at 5. */
  lemma ReadCursorEscapesArray()
    ensures var c := Cursors(5, 0, 3);
      c.Valid() && UsedSize(c) == 2 && ReadCursorAfterAsWritten(c, 2) == 5
      && !Cursors(5, 0, ReadCursorAfterAsWritten(c, 2)).Valid()
      && ReadCursorAfter(c, 2) == 0
  {
  }

  /** On a zero-size buffer the unguarded free size reads 65535, so the guard of
      RBUF_WriteUint8 admits a write, which then rolls over and stores at cell 0
      of a zero-cell array. The guarded free size refuses it. */
  lemma ZeroSizeAdmitsWrite()
    ensures var c := Cursors(0, 0, 0);
      c.Valid() && FreeSizeAsWritten(c) >= 1 && WillWriteRollover(c, 1)
      && !(c.writeIndex < c.size) && FreeSize(c) == 0
  {
  }
}
