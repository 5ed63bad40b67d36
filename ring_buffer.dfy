/** RBUF_t, the byte ring buffer over caller-supplied storage, and the
    operations of ring_buffer.c that change it: the write path, the read path
    and the transfers to and from a linear buffer. */
module Ring {
  import opened Sizes
  import opened Memory
  import opened Layout
  import opened Accounting
  import opened Linear

  /** A write of bytes that fit appends them to the queue: the queue of the
      array after the ring write, under the advanced write cursor, is the old
      queue followed by the bytes. */
  lemma WriteAppendsToQueue(d: seq<uint8>, c: Cursors, s: seq<uint8>)
    requires c.Valid() && c.size <= |d| && |s| <= FreeSize(c)
    ensures var c' := Cursors(c.size, WriteCursorAfter(c, |s|), c.readIndex);
      Window(RingWrite(d, c.size, c.writeIndex, s), c.size, c.readIndex, UsedSize(c'))
        == Window(d, c.size, c.readIndex, UsedSize(c)) + s
  {
    if c.size == 0 {
      RingWriteNothing(d, c.size, c.writeIndex);
    } else {
      ModOneLap(c.writeIndex - c.readIndex, c.size);
      assert c.writeIndex == Wrap(c.readIndex + UsedSize(c), c.size);
      WriteExtendsWindow(d, c.size, c.readIndex, UsedSize(c), s);
    }
  }

  /** Storing one byte at the write cursor, as RBUF_WriteUint8 does, appends it
      to the queue. */
  lemma StoreAppendsToQueue(d: seq<uint8>, c: Cursors, x: uint8)
    requires c.Valid() && c.size <= |d| && FreeSize(c) >= 1
    ensures var c' := Cursors(c.size, WriteCursorAfter(c, 1), c.readIndex);
      Window(d[c.writeIndex := x], c.size, c.readIndex, UsedSize(c')) == Window(d, c.size, c.readIndex, UsedSize(c)) + [x]
  {
    RingWriteOne(d, c.size, c.writeIndex, x);
    WriteAppendsToQueue(d, c, [x]);
  }

  /** A read of n queued bytes splits the queue: the n bytes from the read cursor
      are its first n, and the queue under the advanced read cursor is the rest. */
  lemma ReadSplitsQueue(d: seq<uint8>, c: Cursors, n: uint16)
    requires c.Valid() && c.size <= |d| && n <= UsedSize(c)
    ensures var q := Window(d, c.size, c.readIndex, UsedSize(c));
      var c' := Cursors(c.size, c.writeIndex, ReadCursorAfter(c, n));
      Window(d, c.size, c.readIndex, n) == q[..n]
      && Window(d, c.size, c'.readIndex, UsedSize(c')) == q[n..]
  {
    WindowPrefix(d, c.size, c.readIndex, UsedSize(c), n);
    if c.size > 0 {
      assert ReadCursorAfter(c, n) == Wrap(c.readIndex + n, c.size);
      ReadShrinksWindow(d, c.size, c.readIndex, UsedSize(c), n);
    }
  }

  /** Proof step of the multi-byte writes: once the first `k` bytes of `s` are
      written from `w0`, leaving the cursor at `wk`, storing byte `k` at `wk`
      writes the first `k + 1` bytes, and `wk` advanced once more is `k + 1` cells
      past `w0`. */
  lemma RingWriteStep(d0: seq<uint8>, size: nat, w0: nat, s: seq<uint8>, k: nat, dk: seq<uint8>, wk: nat)
    requires size <= |d0| && w0 < size && k < |s| < size
    requires dk == RingWrite(d0, size, w0, s[..k]) && wk == Wrap(w0 + k, size)
    ensures dk[wk := s[k]] == RingWrite(d0, size, w0, s[..k + 1])
    ensures Wrap(wk + 1, size) == Wrap(w0 + k + 1, size)
  {
    RingWriteOne(dk, size, wk, s[k]);
    RingWriteAppend(d0, size, w0, s[..k], [s[k]]);
    assert s[..k] + [s[k]] == s[..k + 1];
  }

  /** Two single-byte writes in a row, from cursor `w0`, write both bytes. */
  lemma TwoByteWrites(d0: seq<uint8>, size: nat, w0: nat, s: seq<uint8>,
                      d1: seq<uint8>, w1: nat, d2: seq<uint8>, w2: nat)
    requires size <= |d0| && w0 < size && |s| == 2 < size
    requires d1 == d0[w0 := s[0]] && w1 == Wrap(w0 + 1, size)
    requires d2 == d1[w1 := s[1]] && w2 == Wrap(w1 + 1, size)
    ensures d2 == RingWrite(d0, size, w0, s) && w2 == Wrap(w0 + 2, size)
  {
    RingWriteNothing(d0, size, w0);
    assert s[..0] == [] && s[..2] == s;
    RingWriteStep(d0, size, w0, s, 0, d0, w0);
    RingWriteStep(d0, size, w0, s, 1, d1, w1);
  }

  /** Four single-byte writes in a row, from cursor `w0`, write all four bytes. */
  lemma FourByteWrites(d0: seq<uint8>, size: nat, w0: nat, s: seq<uint8>,
                       d1: seq<uint8>, w1: nat, d2: seq<uint8>, w2: nat,
                       d3: seq<uint8>, w3: nat, d4: seq<uint8>, w4: nat)
    requires size <= |d0| && w0 < size && |s| == 4 < size
    requires d1 == d0[w0 := s[0]] && w1 == Wrap(w0 + 1, size)
    requires d2 == d1[w1 := s[1]] && w2 == Wrap(w1 + 1, size)
    requires d3 == d2[w2 := s[2]] && w3 == Wrap(w2 + 1, size)
    requires d4 == d3[w3 := s[3]] && w4 == Wrap(w3 + 1, size)
    ensures d4 == RingWrite(d0, size, w0, s) && w4 == Wrap(w0 + 4, size)
  {
    RingWriteNothing(d0, size, w0);
    assert s[..0] == [] && s[..4] == s;
    RingWriteStep(d0, size, w0, s, 0, d0, w0);
    RingWriteStep(d0, size, w0, s, 1, d1, w1);
    RingWriteStep(d0, size, w0, s, 2, d2, w2);
    RingWriteStep(d0, size, w0, s, 3, d3, w3);
  }

  /** The first `k` bytes of the slice `d[r..w]` are `d[r..r + k]`, and the rest
      are `d[r + k..w]`. */
  lemma SliceOfSlice(d: seq<uint8>, r: nat, w: nat, k: nat)
    requires r + k <= w <= |d|
    ensures d[r..w][..k] == d[r..r + k] && d[r..w][k..] == d[r + k..w]
  {
  }

  /** Copying `s` to the write cursor of a linear buffer appends `s` to its
      unread bytes. */
  lemma SpliceAppends(d: seq<uint8>, r: nat, w: nat, s: seq<uint8>)
    requires r <= w && w + |s| <= |d|
    ensures Splice(d, w, s)[r..w + |s|] == d[r..w] + s
  {
    SpliceCells(d, w, s);
    var lhs, rhs := Splice(d, w, s)[r..w + |s|], d[r..w] + s;
    forall i | 0 <= i < |lhs| ensures lhs[i] == rhs[i] {
      if i < w - r {
        assert rhs[i] == d[r + i];
      } else {
        assert rhs[i] == s[i - (w - r)];
      }
    }
  }

  /** The memcpy calls of the write path: `s` is copied into the ring storage
      `ring` at the write cursor of `c` in one copy, or, when it reaches the end
      of the ring, in a tail copy of `size - w` bytes followed by a head copy of
      the rest from cell 0. */
  method CopyToRing(ring: array<uint8>, c: Cursors, s: seq<uint8>)
    requires c.Valid() && c.size <= ring.Length && |s| <= FreeSize(c)
    modifies ring
    ensures ring[..] == RingWrite(old(ring[..]), c.size, c.writeIndex, s)
  {
    ghost var d0 := ring[..];
    var n: uint16 := |s|;
    if !WillWriteRollover(c, n) {
      Memcpy(ring, c.writeIndex, s);
      ContiguousWrite(d0, c.size, c.writeIndex, s);
    } else {
      // the write rolls over
      var size1 := c.size - c.writeIndex;
      Memcpy(ring, c.writeIndex, s[..size1]);
      Memcpy(ring, 0, s[size1..]);
      TailHeadWrite(d0, c.size, c.writeIndex, s);
    }
  }

  /** The memcpy calls of the read path: the `n` bytes from the read cursor of
      `c` in the ring storage `ring` are copied to `dst` from `at`, in one copy,
      or, when they reach the end of the ring, in a tail copy from the read
      cursor followed by a head copy from cell 0. The rollover test is the
      corrected one. */
  method CopyFromRing(ring: array<uint8>, c: Cursors, n: uint16, dst: array<uint8>, at: uint16)
    requires ring != dst && c.Valid() && c.size <= ring.Length && n <= UsedSize(c)
    requires at as int + n as int <= dst.Length
    modifies dst
    ensures dst[..] == Splice(old(dst[..]), at, Window(old(ring[..]), c.size, c.readIndex, n))
  {
    ghost var d0, dd0 := ring[..], dst[..];
    if !WillReadRollover(c, n) {
      Memcpy(dst, at, ring[c.readIndex..c.readIndex + n]);
      ContiguousRead(d0, c.size, c.readIndex, n);
    } else {
      // the read rolls over
      var size1 := c.size - c.readIndex;
      var size2 := n - size1;
      var tail, head := ring[c.readIndex..c.readIndex + size1], ring[0..size2];
      Memcpy(dst, at, tail);
      ghost var dd1 := dst[..];
      Memcpy(dst, at + size1, head);
      TailHeadRead(d0, c.size, c.readIndex, n, dd0, at, dd1, dst[..]);
    }
  }

  class RingBuffer {
    var data: array<uint8>
    var dataAddr: nat  // address of `data`; 0 stands for a NULL pointer
    var size: uint16
    var writeIndex: uint16
    var readIndex: uint16

    /** The storage holds `size` cells and both cursors index them. */
    ghost predicate Valid()
      reads this
    {
      size <= data.Length && View().Valid()
    }

    /** The size and cursors, as the queries of the buffer read them. */
    function View(): Cursors
      reads this
    {
      Cursors(size, writeIndex, readIndex)
    }

    /** The queued bytes, oldest first. */
    ghost function Contents(): (s: seq<uint8>)
      reads this, data
      requires Valid()
      ensures |s| == UsedSize(View())
    {
      Window(data[..], size, readIndex, UsedSize(View()))
    }

    /** RBUF_InitEmpty: binds the storage and its size; both cursors start at 0. */
    constructor InitEmpty(data: array<uint8>, dataAddr: nat, size: uint16)
      requires size <= data.Length
      ensures Valid()
      ensures this.data == data && this.dataAddr == dataAddr && this.size == size
      ensures writeIndex == 0 && readIndex == 0
      ensures Contents() == []
    {
      this.data, this.dataAddr, this.size := data, dataAddr, size;
      writeIndex, readIndex := 0, 0;
    }

    /** RBUF_WriteUint8: stores the byte at the write cursor when a cell is free
        and the storage is not NULL, advancing the cursor one cell around the
        ring; otherwise changes nothing. */
    method WriteUint8(x: uint8) returns (written: bool)
      requires Valid()
      modifies this`writeIndex, data
      ensures Valid()
      ensures written <==> FreeSize(old(View())) >= 1 && dataAddr != 0
      ensures if written then
          data[..] == old(data[..])[old(writeIndex) := x] && writeIndex == Wrap(old(writeIndex) + 1, size)
          && FreeSize(View()) == FreeSize(old(View())) - 1
        else data[..] == old(data[..]) && View() == old(View())
    {
      written := false;
      if FreeSize(View()) >= 1 && dataAddr != 0 {
        if !WillWriteRollover(View(), 1) {
          data[writeIndex] := x;
          writeIndex := writeIndex + 1;
        } else {
          // the write rolls over
          data[writeIndex] := x;
          writeIndex := 0;
        }
        written := true;
      }
    }

    /** RBUF_WriteUint16: when two cells are free, writes the high byte and then
        the low byte; otherwise changes nothing. */
    method WriteUint16(v: uint16) returns (written: bool)
      requires Valid()
      modifies this`writeIndex, data
      ensures Valid()
      ensures written <==> FreeSize(old(View())) >= 2 && dataAddr != 0
      ensures written ==> data[..] == RingWrite(old(data[..]), size, old(writeIndex), Uint16Bytes(v))
      ensures written ==> writeIndex == Wrap(old(writeIndex) + 2, size)
      ensures !written ==> data[..] == old(data[..]) && writeIndex == old(writeIndex)
    {
      written := true;
      if FreeSize(View()) >= 2 {
        var bs := Uint16Bytes(v);
        ghost var d0: seq<uint8>, w0: nat := data[..], writeIndex;
        var hi := WriteUint8(bs[0]);
        ghost var d1: seq<uint8>, w1: nat := data[..], writeIndex;
        var lo := WriteUint8(bs[1]);
        written := written && hi && lo;
        if written {
          TwoByteWrites(d0, size, w0, bs, d1, w1, data[..], writeIndex);
        }
      } else {
        written := false;
      }
    }

    /** RBUF_WriteUint32: when four cells are free, writes the four bytes of the
        value most significant first; otherwise changes nothing. */
    method WriteUint32(v: uint32) returns (written: bool)
      requires Valid()
      modifies this`writeIndex, data
      ensures Valid()
      ensures written <==> FreeSize(old(View())) >= 4 && dataAddr != 0
      ensures written ==> data[..] == RingWrite(old(data[..]), size, old(writeIndex), Uint32Bytes(v))
      ensures written ==> writeIndex == Wrap(old(writeIndex) + 4, size)
      ensures !written ==> data[..] == old(data[..]) && writeIndex == old(writeIndex)
    {
      written := true;
      if FreeSize(View()) >= 4 {
        var bs := Uint32Bytes(v);
        ghost var d0: seq<uint8>, w0: nat := data[..], writeIndex;
        assert 4 < size as int <= |d0| && w0 < size as int;
        var b0 := WriteUint8(bs[0]);
        ghost var d1: seq<uint8>, w1: nat := data[..], writeIndex;
        var b1 := WriteUint8(bs[1]);
        ghost var d2: seq<uint8>, w2: nat := data[..], writeIndex;
        var b2 := WriteUint8(bs[2]);
        ghost var d3: seq<uint8>, w3: nat := data[..], writeIndex;
        var b3 := WriteUint8(bs[3]);
        written := written && b0 && b1 && b2 && b3;
        if dataAddr != 0 {
          FourByteWrites(d0, size, w0, bs, d1, w1, d2, w2, d3, w3, data[..], writeIndex);
        } else {
          // no store took place
          assert d1 == d0 && w1 == w0 && d2 == d0 && w2 == w0 && d3 == d0 && w3 == w0;
        }
      } else {
        written := false;
      }
    }

    /** The bulk write that RBUF_WriteString and RBUF_WriteCopy share once their
        guards pass: `s` is written into the ring from the write cursor, which
        moves past it, and is appended to the queue. */
    method CopyIn(s: seq<uint8>)
      requires Valid() && |s| <= FreeSize(View())
      modifies this`writeIndex, data
      ensures Valid()
      ensures data[..] == RingWrite(old(data[..]), size, old(writeIndex), s)
      ensures writeIndex == WriteCursorAfter(old(View()), |s|)
      ensures Contents() == old(Contents()) + s
    {
      ghost var d0, c0 := data[..], View();
      CopyToRing(data, View(), s);
      writeIndex := WriteCursorAfter(View(), |s|);
      WriteAppendsToQueue(d0, c0, s);
    }

    /** RBUF_WriteString: when the `|s|` bytes fit, neither pointer is NULL and the
        source region does not overlap the storage, appends them; otherwise
        changes nothing. */
    method WriteString(s: seq<uint8>, sAddr: nat) returns (written: bool)
      requires Valid() && |s| < 0x1_0000
      modifies this`writeIndex, data
      ensures Valid()
      ensures written <==>
        |s| <= FreeSize(old(View())) && dataAddr != 0 && sAddr != 0 && !Overlapping(dataAddr, sAddr, |s|)
      ensures written ==> data[..] == RingWrite(old(data[..]), size, old(writeIndex), s)
      ensures written ==> writeIndex == WriteCursorAfter(old(View()), |s|)
      ensures written ==> Contents() == old(Contents()) + s
      ensures !written ==> data[..] == old(data[..]) && writeIndex == old(writeIndex)
    {
      written := false;
      if FreeSize(View()) >= |s| && dataAddr != 0 && sAddr != 0 && !Overlapping(dataAddr, sAddr, |s|) {
        CopyIn(s);
        written := true;
      }
    }

    /** The transfer of RBUF_WriteCopy once its guards pass: the first `n` unread
        bytes of `src` are appended to the queue, and the read cursor of `src`
        moves past them. */
    method CopyInFrom(src: LinearBuffer, n: uint16)
      requires Valid() && src.Valid() && src.data != data
      requires n <= src.ToReadCount() && n <= FreeSize(View())
      modifies this`writeIndex, data, src`readIndex
      ensures Valid() && src.Valid()
      ensures data[..] == RingWrite(old(data[..]), size, old(writeIndex), old(src.Unread())[..n])
      ensures writeIndex == WriteCursorAfter(old(View()), n)
      ensures Contents() == old(Contents()) + old(src.Unread())[..n]
      ensures src.readIndex == old(src.readIndex) + n && src.Unread() == old(src.Unread())[n..]
    {
      SliceOfSlice(src.data[..], src.readIndex, src.writeIndex, n);
      CopyIn(src.data[src.readIndex..src.readIndex + n]);
      src.readIndex := src.readIndex + n;
    }

    /** RBUF_WriteCopy: moves the first `n` unread bytes of `src` into the ring and
        advances the source's read cursor past them. It does so only when the
        source's whole unread count, not just `n`, fits in the free cells, `n` does
        not exceed that count, no pointer is NULL and the regions do not overlap;
        otherwise it changes nothing. */
    method WriteCopy(src: LinearBuffer, n: uint16) returns (written: bool)
      requires Valid() && src.Valid() && src.data != data
      modifies this`writeIndex, data, src`readIndex
      ensures Valid() && src.Valid()
      ensures written <==>
        old(src.ToReadCount()) <= FreeSize(old(View())) && n <= old(src.ToReadCount())
        && dataAddr != 0 && src.dataAddr != 0 && !Overlapping(dataAddr, src.dataAddr, n)
      ensures written ==> data[..] == RingWrite(old(data[..]), size, old(writeIndex), old(src.Unread())[..n])
      ensures written ==> writeIndex == WriteCursorAfter(old(View()), n)
      ensures written ==> Contents() == old(Contents()) + old(src.Unread())[..n]
      ensures written ==> src.readIndex == old(src.readIndex) + n && src.Unread() == old(src.Unread())[n..]
      ensures !written ==>
        data[..] == old(data[..]) && writeIndex == old(writeIndex) && src.readIndex == old(src.readIndex)
    {
      var dstFree := FreeSize(View());
      var srcCount := src.ToReadCount();
      written := false;
      if dstFree >= srcCount && srcCount >= n {
        if dataAddr != 0 && src.dataAddr != 0 && !Overlapping(dataAddr, src.dataAddr, n) {
          CopyInFrom(src, n);
          written := true;
        }
      }
    }

    /** RBUF_ReadUint8: when a byte is queued and the storage is not NULL, returns
        the oldest byte and advances the read cursor modulo size; otherwise
        returns 0 and changes nothing. */
    method ReadUint8() returns (x: uint8)
      requires Valid()
      modifies this`readIndex
      ensures Valid()
      ensures old(Contents()) != [] && dataAddr != 0 ==>
        x == old(Contents())[0] && Contents() == old(Contents())[1..]
        && readIndex == Wrap(old(readIndex) + 1, size)
      ensures old(Contents()) == [] || dataAddr == 0 ==> x == 0 && readIndex == old(readIndex)
    {
      x := 0;
      if UsedSize(View()) >= 1 && dataAddr != 0 && size > 0 {
        ghost var c0 := View();
        x := data[readIndex];
        readIndex := (readIndex + 1) % size;
        WrapIsModulo(c0.readIndex + 1, size);
        ReadSplitsQueue(data[..], c0, 1);
        assert View() == Cursors(size, c0.writeIndex, ReadCursorAfter(c0, 1));
        WindowFirst(data[..], size, c0.readIndex, 1);
      }
    }

    /** The bulk read on the queue: the `n` oldest bytes leave the queue and are
        appended to the unread bytes of `dst`. */
    method CopyOut(dst: LinearBuffer, n: uint16)
      requires Valid() && dst.Valid() && dst.data != data
      requires n <= UsedSize(View()) && n <= dst.FreeSize()
      modifies this`readIndex, dst`writeIndex, dst.data
      ensures Valid() && dst.Valid()
      ensures readIndex == ReadCursorAfter(old(View()), n)
      ensures Contents() == old(Contents())[n..]
      ensures dst.writeIndex == old(dst.writeIndex) + n
      ensures dst.data[..] == Splice(old(dst.data[..]), old(dst.writeIndex), old(Contents())[..n])
      ensures dst.Unread() == old(dst.Unread()) + old(Contents())[..n]
    {
      ghost var d0, c0, dd0, dw0 := data[..], View(), dst.data[..], dst.writeIndex;
      CopyFromRing(data, View(), n, dst.data, dst.writeIndex);
      readIndex := ReadCursorAfter(View(), n);
      dst.writeIndex := dst.writeIndex + n;
      ReadSplitsQueue(d0, c0, n);
      SpliceAppends(dd0, dst.readIndex, dw0, Window(d0, size, c0.readIndex, n));
    }

    /** RBUF_ReadCopyBlock: moves the `n` oldest bytes to the write cursor of `dst`
        when neither storage is NULL, `n` bytes are queued and the whole queue,
        not just `n` bytes, fits in the free cells of `dst`; otherwise changes
        nothing. There is no overlap check. */
    method ReadCopyBlock(dst: LinearBuffer, n: uint16) returns (read: bool)
      requires Valid() && dst.Valid() && dst.data != data
      modifies this`readIndex, dst`writeIndex, dst.data
      ensures Valid() && dst.Valid()
      ensures read <==>
        dst.dataAddr != 0 && dataAddr != 0
        && UsedSize(old(View())) <= old(dst.FreeSize()) && n <= UsedSize(old(View()))
      ensures read ==> Contents() == old(Contents())[n..]
      ensures read ==> readIndex == ReadCursorAfter(old(View()), n)
      ensures read ==> dst.writeIndex == old(dst.writeIndex) + n
      ensures read ==> dst.data[..] == Splice(old(dst.data[..]), old(dst.writeIndex), old(Contents())[..n])
      ensures read ==> dst.Unread() == old(dst.Unread()) + old(Contents())[..n]
      ensures !read ==>
        readIndex == old(readIndex) && dst.writeIndex == old(dst.writeIndex) && dst.data[..] == old(dst.data[..])
    {
      var srcToRead := UsedSize(View());
      var dstFree := dst.FreeSize();
      read := false;
      if dst.dataAddr != 0 && dataAddr != 0 {
        if dstFree >= srcToRead && srcToRead >= n {
          CopyOut(dst, n);
          read := true;
        }
      }
    }

    /** RBUF_ReadCopyRaw: moves as many of the oldest bytes as it can, the least of
        the queued count, the free cells of `dst` and `n`, and returns that count.
        It moves nothing and returns 0 when a storage is NULL or the two regions
        overlap over `n` bytes. */
    method ReadCopyRaw(dst: LinearBuffer, n: uint16) returns (count: uint16)
      requires Valid() && dst.Valid() && dst.data != data
      modifies this`readIndex, dst`writeIndex, dst.data
      ensures Valid() && dst.Valid()
      ensures count == if dst.dataAddr != 0 && dataAddr != 0 && !Overlapping(dst.dataAddr, dataAddr, n)
                       then Min(Min(UsedSize(old(View())), old(dst.FreeSize())), n) else 0
      ensures Contents() == old(Contents())[count..]
      ensures readIndex == ReadCursorAfter(old(View()), count)
      ensures dst.writeIndex == old(dst.writeIndex) + count
      ensures dst.data[..] == Splice(old(dst.data[..]), old(dst.writeIndex), old(Contents())[..count])
      ensures dst.Unread() == old(dst.Unread()) + old(Contents())[..count]
    {
      var srcToRead := UsedSize(View());
      var dstFree := dst.FreeSize();
      var toRead := Min(srcToRead, dstFree);
      toRead := Min(toRead, n);
      count := 0;
      if dst.dataAddr != 0 && dataAddr != 0 && !Overlapping(dst.dataAddr, dataAddr, n) {
        CopyOut(dst, toRead);
        count := toRead;
      } else {
        assert Splice(dst.data[..], dst.writeIndex, []) == dst.data[..];
        assert old(Contents())[..0] == [] && old(Contents())[0..] == old(Contents());
      }
    }
  }
}
