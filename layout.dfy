/** How bytes sit in the backing array of a ring of `size` cells: the queued
    bytes in FIFO order (Window), the array after a wrapping write (RingWrite),
    and how the two-segment copies of the source realise both. These are
    specification functions on sequences; the class in module Ring is proved
    against them. */
module Layout {
  import opened Sizes
  import opened Memory

  /** Reduction modulo `m` of a number less than one lap away from `0 .. m - 1`. */
  lemma ModOneLap(x: int, m: int)
    ensures 0 < m && -m <= x < 2 * m ==>
      x % m == if x < 0 then x + m else if x < m then x else x - m
  {
  }

  /** Reduction modulo `m` keeps exactly the numbers below `m`. */
  lemma ModKeepsBelow(x: nat, m: nat)
    ensures m > 0 ==> (x % m == x <==> x < m)
  {
  }

  /** Position `x`, at most one lap past the end, folded back into the ring. */
  function Wrap(x: nat, size: nat): (p: nat)
    requires x < 2 * size
    ensures p < size && (p == x || p + size == x)
  {
    if x < size then x else x - size
  }

  /** Folding back one lap is reduction modulo the size, the `%` of the source. */
  lemma WrapIsModulo(x: nat, size: nat)
    requires x < 2 * size
    ensures Wrap(x, size) == x % size
  {
    ModOneLap(x, size);
  }

  /** Forward distance from cursor `from` to cell `p` around the ring. */
  function Dist(from: nat, p: nat, size: nat): (k: nat)
    requires from < size && p < size
    ensures k < size && Wrap(from + k, size) == p
  {
    if p >= from then p - from else p + size - from
  }

  /** The `n` bytes found in ring order from cursor `r` onward. */
  function Window(d: seq<uint8>, size: nat, r: nat, n: nat): (s: seq<uint8>)
    requires size <= |d| && n <= size && (n > 0 ==> r < size)
    ensures |s| == n
  {
    seq(n, i => if 0 <= i < n then d[Wrap(r + i, size)] else 0)
  }

  /** The array `d` after `s` is written into the ring from cursor `w` onward,
      continuing at cell 0 after the last cell; every other cell keeps its byte. */
  function RingWrite(d: seq<uint8>, size: nat, w: nat, s: seq<uint8>): (r: seq<uint8>)
    requires size <= |d| && |s| <= size && (|s| > 0 ==> w < size)
    ensures |r| == |d|
  {
    seq(|d|, p => if 0 <= p < |d| then
      (if |s| > 0 && p < size && Dist(w, p, size) < |s| then s[Dist(w, p, size)] else d[p]) else 0)
  }

  /** The first byte of a non-empty window is the one at the cursor. */
  lemma WindowFirst(d: seq<uint8>, size: nat, r: nat, n: nat)
    requires size <= |d| && 0 < n <= size && r < size
    ensures Window(d, size, r, n)[0] == d[r]
  {
    assert Wrap(r + 0, size) == r;
  }

  /** Writing nothing leaves the array as it is. */
  lemma RingWriteNothing(d: seq<uint8>, size: nat, w: nat)
    requires size <= |d|
    ensures RingWrite(d, size, w, []) == d
  {
    var r := RingWrite(d, size, w, []);
    assert forall p :: 0 <= p < |d| ==> r[p] == d[p];
  }

  /** A one-byte write stores at the cursor and nowhere else. */
  lemma RingWriteOne(d: seq<uint8>, size: nat, w: nat, x: uint8)
    requires size <= |d| && w < size
    ensures RingWrite(d, size, w, [x]) == d[w := x]
  {
    var lhs := RingWrite(d, size, w, [x]);
    forall p | 0 <= p < |d| ensures lhs[p] == d[w := x][p] {
      if p < size && p != w {
        assert Dist(w, p, size) > 0;
      }
    }
  }

  /** The first `n` bytes of a window are the window of length `n`. */
  lemma WindowPrefix(d: seq<uint8>, size: nat, r: nat, used: nat, n: nat)
    requires size <= |d| && used <= size && (used > 0 ==> r < size) && n <= used
    ensures Window(d, size, r, n) == Window(d, size, r, used)[..n]
  {
  }

  /** Writing bytes at the end of the queued window extends the window by
      exactly those bytes: the bytes already queued are not overwritten. */
  lemma WriteExtendsWindow(d: seq<uint8>, size: nat, r: nat, used: nat, s: seq<uint8>)
    requires size <= |d| && r < size && used + |s| < size
    ensures Window(RingWrite(d, size, Wrap(r + used, size), s), size, r, used + |s|)
         == Window(d, size, r, used) + s
  {
    var w := Wrap(r + used, size);
    var d' := RingWrite(d, size, w, s);
    var lhs, rhs := Window(d', size, r, used + |s|), Window(d, size, r, used) + s;
    forall i | 0 <= i < used + |s| ensures lhs[i] == rhs[i] {
      var p := Wrap(r + i, size);
      if i < used {
        assert Dist(w, p, size) == size - used + i;
      } else {
        assert Dist(w, p, size) == i - used;
      }
    }
  }

  /** Taking `n` bytes off the front of the window leaves the window that starts
      `n` cells further on. */
  lemma ReadShrinksWindow(d: seq<uint8>, size: nat, r: nat, used: nat, n: nat)
    requires size <= |d| && r < size && used < size && n <= used
    ensures Window(d, size, Wrap(r + n, size), used - n) == Window(d, size, r, used)[n..]
  {
    var lhs, rhs := Window(d, size, Wrap(r + n, size), used - n), Window(d, size, r, used)[n..];
    forall i | 0 <= i < used - n ensures lhs[i] == rhs[i] {
      assert Wrap(Wrap(r + n, size) + i, size) == Wrap(r + n + i, size);
    }
  }

  /** Reading everything back from an empty ring whose cursors sit at `w` after
      writing `s` there yields `s`, wherever the write wrapped. */
  lemma WriteThenReadRoundTrip(d: seq<uint8>, size: nat, w: nat, s: seq<uint8>)
    requires size <= |d| && w < size && |s| < size
    ensures Window(RingWrite(d, size, w, s), size, w, |s|) == s
  {
    WriteExtendsWindow(d, size, w, 0, s);
    assert Window(d, size, w, 0) == [];
  }

  /** A write that ends before the last cell is one contiguous memcpy at `w`. */
  lemma ContiguousWrite(d: seq<uint8>, size: nat, w: nat, s: seq<uint8>)
    requires size <= |d| && w + |s| < size
    ensures Splice(d, w, s) == RingWrite(d, size, w, s)
  {
    var lhs, rhs := Splice(d, w, s), RingWrite(d, size, w, s);
    SpliceCells(d, w, s);
    forall p | 0 <= p < |d| ensures lhs[p] == rhs[p] {
      if |s| > 0 && p < size {
        assert w <= p < w + |s| <==> Dist(w, p, size) < |s|;
      }
    }
  }

  /** A write that reaches the end of the array is the split copy of the source:
      `size - w` bytes at the tail from `w`, then the rest at the head from 0. */
  lemma TailHeadWrite(d: seq<uint8>, size: nat, w: nat, s: seq<uint8>)
    requires size <= |d| && w <= size && |s| <= size && w + |s| >= size && (|s| > 0 ==> w < size)
    ensures Splice(Splice(d, w, s[..size - w]), 0, s[size - w..]) == RingWrite(d, size, w, s)
  {
    var size1 := size - w;
    var lhs, rhs := Splice(Splice(d, w, s[..size1]), 0, s[size1..]), RingWrite(d, size, w, s);
    SpliceCells(d, w, s[..size1]);
    SpliceCells(Splice(d, w, s[..size1]), 0, s[size1..]);
    forall p | 0 <= p < |d| ensures lhs[p] == rhs[p] {
      if p < |s| - size1 {
        assert lhs[p] == s[size1 + p];
        assert Dist(w, p, size) == p + size1;
      } else if w <= p < size {
        assert lhs[p] == s[p - w];
        assert Dist(w, p, size) == p - w;
      } else {
        assert lhs[p] == d[p];
      }
    }
  }

  /** Writing `s` and then `t` right after it is writing `s + t`. */
  lemma RingWriteAppend(d: seq<uint8>, size: nat, w: nat, s: seq<uint8>, t: seq<uint8>)
    requires size <= |d| && w < size && |s| + |t| < size
    ensures RingWrite(RingWrite(d, size, w, s), size, Wrap(w + |s|, size), t)
         == RingWrite(d, size, w, s + t)
  {
    var w' := Wrap(w + |s|, size);
    var lhs, rhs := RingWrite(RingWrite(d, size, w, s), size, w', t), RingWrite(d, size, w, s + t);
    forall p | 0 <= p < |d| ensures lhs[p] == rhs[p] {
      if p < size {
        var k := Dist(w, p, size);
        if k < |s| {
          assert Dist(w', p, size) == size - |s| + k;
        } else {
          assert Dist(w', p, size) == k - |s|;
        }
      }
    }
  }

  /** A read that stays inside the array copies one contiguous segment from `r`. */
  lemma ContiguousRead(d: seq<uint8>, size: nat, r: nat, n: nat)
    requires size <= |d| && r + n <= size && n <= size
    ensures d[r..r + n] == Window(d, size, r, n)
  {
    var lhs, rhs := d[r..r + n], Window(d, size, r, n);
    forall i | 0 <= i < n ensures lhs[i] == rhs[i] {
      assert lhs[i] == d[r + i];
    }
  }

  /** A read that reaches the end of the array is the split copy: the tail
      from `r` to the end copied to `at` in `dd0`, then the head from cell 0
      copied right after it, land as the window does. */
  lemma TailHeadRead(d: seq<uint8>, size: nat, r: nat, n: nat,
                     dd0: seq<uint8>, at: nat, dd1: seq<uint8>, dd2: seq<uint8>)
    requires size <= |d| && r <= size && n <= size && r + n >= size && (n > 0 ==> r < size)
    requires at + n <= |dd0|
    requires dd1 == Splice(dd0, at, d[r..size])
    requires dd2 == Splice(dd1, at + (size - r), d[..n - (size - r)])
    ensures dd2 == Splice(dd0, at, Window(d, size, r, n))
  {
    var tail, head := d[r..size], d[..n - (size - r)];
    forall i | 0 <= i < n ensures (tail + head)[i] == Window(d, size, r, n)[i] {
      assert Window(d, size, r, n)[i] == d[Wrap(r + i, size)];
      if i < size - r {
        assert (tail + head)[i] == tail[i] == d[r + i];
      } else {
        assert (tail + head)[i] == head[i - (size - r)] == d[i - (size - r)];
      }
    }
    assert tail + head == Window(d, size, r, n);
    SpliceAdjacent(dd0, at, tail, head);
  }
}
