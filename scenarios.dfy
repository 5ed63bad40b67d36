/** The scenarios of the unit tests, replayed on the model: each method drives a
    freshly initialised ring buffer through the calls of one test and returns
    what that test inspects, and its contract is the test's expectation. They
    follow from the contracts of the operations alone. */
module Scenarios {
  import opened Sizes
  import opened Layout
  import opened Accounting
  import opened Linear
  import opened Ring

  /** Five cells: two bytes written and read back, then four written. The write
      cursor wraps to 1, four bytes are queued, and the last byte lands in cell 0. */
  method WriteWithRollover() returns (w: uint16, r: uint16, used: uint16, cells: seq<uint8>)
    ensures w == 1 && r == 2 && used == 4
    ensures cells == [0x05, 0x01, 0x02, 0x03, 0x04]
  {
    var rb := WriteTwoReadTwo();
    ghost var d0 := rb.data[..];
    var ok := rb.WriteUint8(0x02);
    assert ok && rb.writeIndex == 3;
    ok := rb.WriteUint8(0x03);
    assert ok && rb.writeIndex == 4;
    ok := rb.WriteUint8(0x04);
    assert ok && rb.writeIndex == 0;
    ok := rb.WriteUint8(0x05);
    assert ok && rb.data[..] == d0[2 := 0x02][3 := 0x03][4 := 0x04][0 := 0x05];
    w, r, used, cells := rb.writeIndex, rb.readIndex, UsedSize(rb.View()), rb.data[..];
  }

  /** The first half of WriteWithRollover: a fresh ring of five cells after two
      bytes are written and read back is empty, with both cursors at 2 and the
      two bytes still in cells 0 and 1. */
  method WriteTwoReadTwo() returns (rb: RingBuffer)
    ensures fresh(rb) && fresh(rb.data) && rb.Valid() && rb.dataAddr == 0x1000
    ensures rb.View() == Cursors(5, 2, 2) && rb.data.Length == 5 && rb.data[0] == 0x00 && rb.data[1] == 0x01
  {
    var a := new uint8[5];
    rb := new RingBuffer.InitEmpty(a, 0x1000, 5);
    var ok := rb.WriteUint8(0x00);
    ok := rb.WriteUint8(0x01);
    var x := ReadOne(rb);
    x := ReadOne(rb);
  }

  /** Five cells hold four bytes: the fifth write is refused and changes nothing. */
  method WriteOnFull() returns (firstFour: bool, fifth: bool, cells: seq<uint8>, w: uint16, r: uint16)
    ensures firstFour && !fifth && |cells| == 5 && cells[..4] == [0x00, 0x01, 0x02, 0x03] && w == 4 && r == 0
  {
    var a := new uint8[5];
    var rb := new RingBuffer.InitEmpty(a, 0x1000, 5);
    var b0 := rb.WriteUint8(0x00);
    var b1 := rb.WriteUint8(0x01);
    var b2 := rb.WriteUint8(0x02);
    var b3 := rb.WriteUint8(0x03);
    firstFour := b0 && b1 && b2 && b3;
    fifth := rb.WriteUint8(0x04);
    cells, w, r := a[..], rb.writeIndex, rb.readIndex;
  }

  /** Six cells, five of them usable: after five writes no cell is free and the
      buffer reports full. */
  method FillToFull() returns (free: uint16, full: bool)
    ensures free == 0 && full
  {
    var a := new uint8[6];
    var rb := new RingBuffer.InitEmpty(a, 0x1000, 6);
    var ok := rb.WriteUint8(0xAA);
    ok := rb.WriteUint8(0xAA);
    ok := rb.WriteUint8(0xAA);
    ok := rb.WriteUint8(0xAA);
    ok := rb.WriteUint8(0xAA);
    free, full := FreeSize(rb.View()), IsFull(rb.View());
  }

  /** Five cells: reading the empty buffer yields 0 and moves nothing; after
      four bytes are written, two reads return the first two in order. */
  method ReadInOrder() returns (bytes: seq<uint8>, r: uint16, empty: uint8)
    ensures bytes == [0xAA, 0x01] && r == 2 && empty == 0
  {
    var rb;
    empty, rb := ReadEmptyWriteFour();
    var x0 := ReadOne(rb);
    var x1 := ReadOne(rb);
    bytes, r := [x0, x1], rb.readIndex;
  }

  /** The first half of ReadInOrder: a read from a fresh ring of five cells,
      then four bytes written. */
  method ReadEmptyWriteFour() returns (empty: uint8, rb: RingBuffer)
    ensures fresh(rb) && fresh(rb.data) && rb.Valid() && rb.dataAddr == 0x1000
    ensures empty == 0 && rb.View() == Cursors(5, 4, 0) && rb.data[..4] == [0xAA, 0x01, 0x02, 0x03]
  {
    var a := new uint8[5];
    rb := new RingBuffer.InitEmpty(a, 0x1000, 5);
    empty := rb.ReadUint8();
    var ok := rb.WriteUint8(0xAA);
    ok := rb.WriteUint8(0x01);
    ok := rb.WriteUint8(0x02);
    ok := rb.WriteUint8(0x03);
  }

  /** Continuing on five cells holding 0x02, 0x03 in cells 2 and 3: two more bytes
      written wrap the write cursor, and four reads return all four bytes in
      order across the end of the array, leaving the read cursor at 1. */
  method ReadWithRollover() returns (bytes: seq<uint8>, r: uint16)
    ensures bytes == [0x02, 0x03, 0x04, 0x05] && r == 1
  {
    var rb := WriteTwoMore();
    var x2 := ReadOne(rb);
    var x3 := ReadOne(rb);
    var x4 := ReadOne(rb);
    var x5 := ReadOne(rb);
    bytes, r := [x2, x3, x4, x5], rb.readIndex;
  }

  /** The first half of ReadWithRollover: 0x04 and 0x05 written after 0x02, 0x03,
      the second landing in cell 0. */
  method WriteTwoMore() returns (rb: RingBuffer)
    ensures fresh(rb) && fresh(rb.data) && rb.Valid() && rb.dataAddr == 0x1000
    ensures rb.View() == Cursors(5, 1, 2) && rb.data[..] == [0x05, 0, 0x02, 0x03, 0x04]
  {
    var a := new uint8[5](i requires 0 <= i < 5 => if i == 2 then 0x02 else if i == 3 then 0x03 else 0);
    rb := new RingBuffer.InitEmpty(a, 0x1000, 5);
    rb.writeIndex, rb.readIndex := 4, 2;
    var ok := rb.WriteUint8(0x04);
    ok := rb.WriteUint8(0x05);
  }

  /** RBUF_ReadUint8 on a buffer that holds a byte returns the byte in the cell
      under the read cursor and advances that cursor one cell around the ring. */
  method ReadOne(rb: RingBuffer) returns (x: uint8)
    requires rb.Valid() && rb.dataAddr != 0 && UsedSize(rb.View()) > 0
    modifies rb`readIndex
    ensures rb.Valid()
    ensures x == old(rb.data[rb.readIndex]) && rb.readIndex == Wrap(old(rb.readIndex) + 1, rb.size)
    ensures UsedSize(rb.View()) == UsedSize(old(rb.View())) - 1
  {
    WindowFirst(rb.data[..], rb.size, rb.readIndex, UsedSize(rb.View()));
    ghost var c0 := rb.View();
    x := rb.ReadUint8();
    assert rb.View() == Cursors(c0.size, c0.writeIndex, ReadCursorAfter(c0, 1));
  }

  /** Ten zeroed cells with both cursors at 8: "Hello" is written over the end,
      "He" in the last two cells and "llo" from cell 0, and is then the queue. */
  method WriteStringWithRollover() returns (written: bool, cells: seq<uint8>, ghost queue: seq<uint8>)
    ensures written
    ensures cells == [0x6C, 0x6C, 0x6F, 0, 0, 0, 0, 0, 0x48, 0x65]
    ensures queue == [0x48, 0x65, 0x6C, 0x6C, 0x6F]
  {
    var a := new uint8[10](_ => 0);
    var rb := new RingBuffer.InitEmpty(a, 0x1000, 10);
    rb.writeIndex, rb.readIndex := 8, 8;
    var hello: seq<uint8> := [0x48, 0x65, 0x6C, 0x6C, 0x6F];
    ghost var d0 := a[..];
    assert rb.Contents() == [];
    written := rb.WriteString(hello, 0x2000);
    cells, queue := a[..], rb.Contents();
    var expected: seq<uint8> := [0x6C, 0x6C, 0x6F, 0, 0, 0, 0, 0, 0x48, 0x65];
    forall p | 0 <= p < 10 ensures RingWrite(d0, 10, 8, hello)[p] == expected[p] {
      if p < 3 {
        assert Dist(8, p, 10) == p + 2;
      } else if p < 8 {
        assert Dist(8, p, 10) == p + 2;
      } else {
        assert Dist(8, p, 10) == p - 8;
      }
    }
  }

  /** RBUF_WriteString with a NULL source is refused; with no bytes it succeeds
      and the cells and the queue stay as they were. */
  method WriteStringEdgeCases() returns (withNull: bool, withNothing: bool, cells: seq<uint8>)
    ensures !withNull && withNothing && cells == [0, 0, 0, 0, 0, 0, 0, 0, 0, 0]
  {
    var a := new uint8[10](_ => 0);
    var rb := new RingBuffer.InitEmpty(a, 0x1000, 10);
    withNull := rb.WriteString([0x48], 0);
    ghost var d0 := a[..];
    withNothing := rb.WriteString([], 0x2000);
    RingWriteNothing(d0, 10, 0);
    cells := a[..];
  }

  /** Five cells with 0x00, 0x01 in cells 0 and 1 and both cursors at 2: four
      bytes moved in from a linear buffer wrap the write cursor to 1, and the
      last of them lands in cell 0. */
  method WriteCopyWithRollover() returns (written: bool, cells: seq<uint8>, w: uint16, r: uint16)
    ensures written && cells == [0x05, 0x01, 0x02, 0x03, 0x04] && w == 1 && r == 2
  {
    var a := new uint8[5](i requires 0 <= i < 5 => if i == 1 then 0x01 else 0);
    var rb := new RingBuffer.InitEmpty(a, 0x1000, 5);
    rb.writeIndex, rb.readIndex := 2, 2;
    var s := new uint8[4](i requires 0 <= i < 4 => (i + 2) as uint8);
    var src := new LinearBuffer(s, 0x2000, 4, 0, 4);
    ghost var d0 := a[..];
    assert d0 == [0, 0x01, 0, 0, 0];
    assert src.Unread() == [0x02, 0x03, 0x04, 0x05];
    assert FreeSize(rb.View()) == 4 && src.ToReadCount() == 4;
    FourFromCellTwo(d0);
    written := rb.WriteCopy(src, 4);
    cells, w, r := a[..], rb.writeIndex, rb.readIndex;
  }

  /** Four bytes written into a ring of five cells from cell 2: three at the tail
      and the last in cell 0. */
  lemma FourFromCellTwo(d: seq<uint8>)
    requires d == [0, 0x01, 0, 0, 0]
    ensures RingWrite(d, 5, 2, [0x02, 0x03, 0x04, 0x05]) == [0x05, 0x01, 0x02, 0x03, 0x04]
  {
    var e := RingWrite(d, 5, 2, [0x02, 0x03, 0x04, 0x05]);
    assert Dist(2, 0, 5) == 3 && Dist(2, 1, 5) == 4;
    assert e[0] == 0x05 && e[1] == 0x01;
  }

  /** RBUF_ReadCopyBlock on an empty ring is refused and leaves the read cursor at 0. */
  method ReadBlockFromEmpty() returns (read: bool, r: uint16)
    ensures !read && r == 0
  {
    var a := new uint8[5];
    var rb := new RingBuffer.InitEmpty(a, 0x1000, 5);
    var b := new uint8[2];
    var dst := new LinearBuffer(b, 0x2000, 2, 0, 0);
    read := rb.ReadCopyBlock(dst, 2);
    r := rb.readIndex;
  }

  /** The six bytes from cell 6 of a ring of ten cells holding 0x00, 0x11, ...,
      0x99: four from the tail, then two from the head. */
  lemma SixFromCellSix(d: seq<uint8>)
    requires |d| == 10 && forall i :: 0 <= i < 10 ==> d[i] == (0x11 * i) as uint8
    ensures Window(d, 10, 6, 6) == [0x66, 0x77, 0x88, 0x99, 0x00, 0x11]
  {
    var w := Window(d, 10, 6, 6);
    assert w[0] == d[6] && w[1] == d[7] && w[2] == d[8] && w[3] == d[9];
    assert w[4] == d[0] && w[5] == d[1];
  }

  /** Ten cells holding 0x00, 0x11, ..., 0x99 with the read cursor at 6 and the
      write cursor at 4: a raw read of six bytes into an empty linear buffer
      copies 0x66 .. 0x99 and then 0x00, 0x11 from the head, and leaves the read
      cursor at 2. */
  method ReadCopyRawWithRollover() returns (count: uint16, r: uint16, copied: seq<uint8>)
    ensures count == 6 && r == 2 && copied == [0x66, 0x77, 0x88, 0x99, 0x00, 0x11]
  {
    var a := new uint8[10](i requires 0 <= i < 10 => (0x11 * i) as uint8);
    var rb := new RingBuffer.InitEmpty(a, 0x1000, 10);
    rb.writeIndex, rb.readIndex := 4, 6;
    var b := new uint8[10];
    var buf := new LinearBuffer(b, 0x2000, 10, 0, 0);
    ghost var d := a[..];
    assert UsedSize(rb.View()) == 8;
    SixFromCellSix(d);
    WindowPrefix(d, 10, 6, 8, 6);
    count := rb.ReadCopyRaw(buf, 6);
    assert count == 6;
    r, copied := rb.readIndex, b[..count];
  }

  /** Five cells: two bytes moved in from a linear buffer and moved out again as
      a block arrive in order, and both cursors end at 2 with the ring empty. */
  method CopyBlocks() returns (copied: seq<uint8>, rb: RingBuffer)
    ensures fresh(rb) && fresh(rb.data) && rb.Valid() && rb.dataAddr == 0x1000
    ensures copied == [0xAA, 0x01] && rb.View() == Cursors(5, 2, 2)
  {
    rb := MoveInTwo();
    var b := new uint8[2];
    var dst := new LinearBuffer(b, 0x3000, 2, 0, 0);
    assert dst.FreeSize() == 2 && dst.Unread() == [];
    ghost var q := rb.Contents();
    var ok := rb.ReadCopyBlock(dst, 2);
    assert ok && dst.Unread() == q;
    copied := b[..];
  }

  /** Continuing from CopyBlocks: four bytes moved in from cell 2 of five wrap
      the write cursor to 1, and a block read of four takes them out in order
      across the end of the array, leaving the read cursor at 1. */
  method ReadBlockWithRollover() returns (copied: seq<uint8>, r: uint16)
    ensures copied == [0x02, 0x03, 0x04, 0x05] && r == 1
  {
    var rb := MoveInFourAcrossEnd();
    var b := new uint8[4];
    var dst := new LinearBuffer(b, 0x3000, 4, 0, 0);
    assert dst.FreeSize() == 4 && dst.Unread() == [];
    assert UsedSize(rb.View()) == 4 && ReadCursorAfter(rb.View(), 4) == 1;
    var ok := rb.ReadCopyBlock(dst, 4);
    assert ok && dst.Unread() == [0x02, 0x03, 0x04, 0x05];
    copied, r := b[..], rb.readIndex;
  }

  /** The first half of ReadBlockWithRollover: RBUF_WriteCopy of four bytes on the
      empty ring that CopyBlocks leaves, both cursors at 2. */
  method MoveInFourAcrossEnd() returns (rb: RingBuffer)
    ensures fresh(rb) && fresh(rb.data) && rb.Valid() && rb.dataAddr == 0x1000
    ensures rb.View() == Cursors(5, 1, 2) && rb.Contents() == [0x02, 0x03, 0x04, 0x05]
  {
    var first;
    first, rb := CopyBlocks();
    assert rb.Contents() == [];
    var w := new uint8[4](i requires 0 <= i < 4 => (i + 2) as uint8);
    var src := new LinearBuffer(w, 0x2000, 4, 0, 4);
    assert src.Unread() == [0x02, 0x03, 0x04, 0x05];
    assert FreeSize(rb.View()) == 4 && src.ToReadCount() == 4 && WriteCursorAfter(rb.View(), 4) == 1;
    var ok := rb.WriteCopy(src, 4);
    assert ok;
  }

  /** The first half of CopyBlocks: a fresh ring of five cells after RBUF_WriteCopy
      of two bytes from a full linear buffer. */
  method MoveInTwo() returns (rb: RingBuffer)
    ensures fresh(rb) && fresh(rb.data) && rb.Valid() && rb.dataAddr == 0x1000
    ensures rb.View() == Cursors(5, 2, 0) && rb.Contents() == [0xAA, 0x01]
  {
    var a := new uint8[5];
    rb := new RingBuffer.InitEmpty(a, 0x1000, 5);
    var w := new uint8[2](i requires 0 <= i < 2 => if i == 0 then 0xAA else 0x01);
    var src := new LinearBuffer(w, 0x2000, 2, 0, 2);
    assert src.Unread() == [0xAA, 0x01];
    var ok := rb.WriteCopy(src, 2);
    assert ok;
  }
}
