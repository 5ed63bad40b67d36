/** Byte regions as the ring buffer sees them: the address-range overlap test
    that guards the bulk copies, and memcpy into an array. Addresses are
    integers; address 0 stands for a NULL pointer. */
module Memory {
  import opened Sizes

  /** Address `a` lies in the `length`-byte region that starts at `start`. */
  predicate InRegion(a: int, start: int, length: int)
  {
    start <= a < start + length
  }

  /** Rbuf_is_memory_overlapping: whether the `length`-byte regions starting at
      `dest` and at `src` intersect. A NULL address never overlaps. */
  function Overlapping(dest: nat, src: nat, length: nat): (overlap: bool)
    ensures overlap ==> dest != 0 && src != 0 && length > 0
  {
    if dest != 0 && src != 0 then
      var destEnd, srcEnd := dest + length, src + length;
      (dest >= src && dest < srcEnd) || (src >= dest && src < destEnd)
    else
      false
  }

  /** The two start-point comparisons of the overlap test say exactly that the
      regions share an address; the test is symmetric in its two pointers. */
  lemma OverlappingIffSharedAddress(dest: nat, src: nat, length: nat)
    ensures Overlapping(dest, src, length) <==>
      dest != 0 && src != 0 && exists a :: InRegion(a, dest, length) && InRegion(a, src, length)
    ensures Overlapping(dest, src, length) == Overlapping(src, dest, length)
  {
    if dest != 0 && src != 0 && Overlapping(dest, src, length) {
      var a := if dest >= src then dest else src;
      assert InRegion(a, dest, length) && InRegion(a, src, length);
    }
  }

  /** `d` with the cells `at .. at + |s| - 1` replaced by `s`: the array after
      `memcpy(&d[at], s, |s|)`. */
  function Splice(d: seq<uint8>, at: nat, s: seq<uint8>): (r: seq<uint8>)
    requires at + |s| <= |d|
    ensures |r| == |d|
  {
    d[..at] + s + d[at + |s|..]
  }

  /** Cell by cell, a splice holds the copied bytes at `at .. at + |s| - 1` and
      the old bytes everywhere else. */
  lemma SpliceCells(d: seq<uint8>, at: nat, s: seq<uint8>)
    requires at + |s| <= |d|
    ensures forall i :: 0 <= i < |d| ==> Splice(d, at, s)[i] == if at <= i < at + |s| then s[i - at] else d[i]
  {
    var r := Splice(d, at, s);
    forall i | 0 <= i < |d| ensures r[i] == if at <= i < at + |s| then s[i - at] else d[i] {
      if i < at {
        assert r[i] == d[..at][i];
      } else if i < at + |s| {
        assert r[i] == (d[..at] + s)[i];
      }
    }
  }

  /** Two adjacent copies are one copy of the concatenation. */
  lemma SpliceAdjacent(d: seq<uint8>, at: nat, x: seq<uint8>, y: seq<uint8>)
    requires at + |x| + |y| <= |d|
    ensures Splice(Splice(d, at, x), at + |x|, y) == Splice(d, at, x + y)
  {
    var lhs, rhs := Splice(Splice(d, at, x), at + |x|, y), Splice(d, at, x + y);
    SpliceCells(d, at, x);
    SpliceCells(Splice(d, at, x), at + |x|, y);
    SpliceCells(d, at, x + y);
    forall i | 0 <= i < |d| ensures lhs[i] == rhs[i] {
      if at <= i < at + |x| {
        assert (x + y)[i - at] == x[i - at];
      } else if at + |x| <= i < at + |x| + |y| {
        assert (x + y)[i - at] == y[i - at - |x|];
      }
    }
  }

  /** memcpy(&dst[at], src, |src|): the source is a value, so it cannot alias `dst`. */
  method Memcpy(dst: array<uint8>, at: nat, src: seq<uint8>)
    requires at + |src| <= dst.Length
    modifies dst
    ensures dst[..] == Splice(old(dst[..]), at, src)
  {
    forall i | 0 <= i < |src| {
      dst[at + i] := src[i];
    }
    SpliceCells(old(dst[..]), at, src);
    assert forall i :: 0 <= i < dst.Length ==> dst[..][i] == Splice(old(dst[..]), at, src)[i];
  }
}
