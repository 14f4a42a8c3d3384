/** The cells of a ring and the bytes they hold between two unbounded positions. */
module RingCells {
  import opened MachineInts

  /** The cell that holds the byte at stream position `i`: `i` modulo the ring size, written
      by repeated subtraction so that reasoning about cells stays linear. */
  function Cell(i: nat, size: nat): (c: nat)
    ensures size > 0 ==> c < size
  {
    if size == 0 then 0
    else if i < size then i
    else Cell(i - size, size)
  }

  lemma {:induction false} CellIsMod(i: nat, size: nat)
    requires size > 0
    ensures Cell(i, size) == i % size
  {
    if i < size {
      DivModUnique(i, size, 0, i);
    } else {
      CellIsMod(i - size, size);
      ModAddMultiple(i - size, size, 1);
    }
  }

  /** Advancing by at most one turn wraps at most once. */
  lemma {:induction false} CellStep(base: nat, i: nat, size: nat)
    requires size > 0 && i <= size
    ensures Cell(base + i, size) ==
            if Cell(base, size) + i < size then Cell(base, size) + i else Cell(base, size) + i - size
  {
    if base >= size {
      CellStep(base - size, i, size);
    }
  }

  /** Positions less than one turn apart share a cell only if they are equal. */
  lemma CellInjective(a: nat, b: nat, size: nat)
    requires size > 0 && a <= b < a + size && Cell(a, size) == Cell(b, size)
    ensures a == b
  {
    CellStep(a, b - a, size);
  }

  /** The cell a 32-bit counter stands for: `counter & (size - 1)` in the code. */
  function Offset(counter: int, size: nat): nat {
    Cell(U32(counter), size)
  }

  /** The mask of the code, on the counter as it is kept, is the cell of the unbounded position. */
  lemma OffsetOfCounter(count: nat, size: nat)
    requires 0 < size <= TWO_30 && IsPow2(size)
    ensures AndS32(S32(count), size - 1) == Offset(S32(count), size) == Cell(count, size)
  {
    MaskedCounter(count, size);
    CellIsMod(count, size);
    CellIsMod(U32(S32(count)), size);
    S32Congruent(count, size);
  }

  /** The bytes at stream positions `lo..hi`. */
  function Window(cells: seq<Byte>, lo: nat, hi: nat): (w: seq<Byte>)
    requires lo <= hi && (|cells| > 0 || lo == hi)
    ensures |w| == hi - lo
    ensures forall i :: 0 <= i < |w| ==> w[i] == cells[Cell(lo + i, |cells|)]
  {
    seq(hi - lo, i requires 0 <= i < hi - lo => cells[Cell(lo + i, |cells|)])
  }

  /** `cells'` is `cells` with the bytes `data` stored at stream positions `w` and up. */
  ghost predicate Stored(cells: seq<Byte>, cells': seq<Byte>, w: nat, data: seq<Byte>) {
    && |cells| == |cells'| > 0
    && (forall j :: w <= j < w + |data| ==> cells'[Cell(j, |cells|)] == data[j - w])
    && (forall p :: 0 <= p < |cells| && cells'[p] != cells[p] ==>
          exists j :: w <= j < w + |data| && p == Cell(j, |cells|))
  }

  /** Storing bytes at the end of a window appends them and disturbs nothing queued. */
  lemma WindowAppend(cells: seq<Byte>, cells': seq<Byte>, r: nat, w: nat, data: seq<Byte>)
    requires Stored(cells, cells', w, data)
    requires r <= w && w + |data| <= r + |cells|
    ensures Window(cells', r, w + |data|) == Window(cells, r, w) + data
  {
    var a, b := Window(cells', r, w + |data|), Window(cells, r, w) + data;
    forall k | 0 <= k < |a|
      ensures a[k] == b[k]
    {
      if k < w - r {
        StoredKeeps(cells, cells', w, data, r + k);
      }
    }
  }

  lemma StoredKeeps(cells: seq<Byte>, cells': seq<Byte>, w: nat, data: seq<Byte>, q: nat)
    requires Stored(cells, cells', w, data)
    requires q < w && w + |data| <= q + |cells|
    ensures cells'[Cell(q, |cells|)] == cells[Cell(q, |cells|)]
  {
    var p := Cell(q, |cells|);
    if cells'[p] != cells[p] {
      var j :| w <= j < w + |data| && p == Cell(j, |cells|);
      CellInjective(q, j, |cells|);
    }
  }

  /** Dropping the first `n` positions of a window. */
  lemma WindowDrop(cells: seq<Byte>, r: nat, n: nat, w: nat)
    requires r + n <= w && |cells| > 0
    ensures Window(cells, r, w)[..n] == Window(cells, r, r + n)
    ensures Window(cells, r, w)[n..] == Window(cells, r + n, w)
  {
    var a, b := Window(cells, r, w)[n..], Window(cells, r + n, w);
    forall k | 0 <= k < |b|
      ensures a[k] == b[k]
    {
      assert r + (n + k) == (r + n) + k;
    }
  }

  /** A window that does not wrap is a slice. */
  lemma WindowIsSlice(cells: seq<Byte>, r: nat, n: nat)
    requires |cells| > 0 && Cell(r, |cells|) + n <= |cells|
    ensures Window(cells, r, r + n) == cells[Cell(r, |cells|)..Cell(r, |cells|) + n]
  {
    var off := Cell(r, |cells|);
    var a, b := Window(cells, r, r + n), cells[off..off + n];
    forall k | 0 <= k < |a|
      ensures a[k] == b[k]
    {
      CellStep(r, k, |cells|);
      assert a[k] == cells[off + k];
    }
  }

  /** Extending a window by cells that do not wrap appends a slice. */
  lemma WindowExtend(cells: seq<Byte>, r: nat, w: nat, n: nat)
    requires |cells| > 0 && r <= w && Cell(w, |cells|) + n <= |cells|
    ensures Window(cells, r, w + n) ==
            Window(cells, r, w) + cells[Cell(w, |cells|)..Cell(w, |cells|) + n]
  {
    WindowIsSlice(cells, w, n);
    WindowDrop(cells, r, w - r, w + n);
    var all := Window(cells, r, w + n);
    assert all == all[..w - r] + all[w - r..];
  }

  /** A window of at most one turn is two slices, the second from cell 0. */
  lemma WindowIsTwoSlices(cells: seq<Byte>, r: nat, n: nat)
    requires |cells| > 0 && n <= |cells|
    ensures var off := Cell(r, |cells|);
            var l := Min(n, |cells| - off);
            Window(cells, r, r + n) == cells[off..off + l] + cells[..n - l]
  {
    var off := Cell(r, |cells|);
    var l := Min(n, |cells| - off);
    var a, b := Window(cells, r, r + n), cells[off..off + l] + cells[..n - l];
    hide Cell, Window;
    forall k | 0 <= k < |a|
      ensures a[k] == b[k]
    {
      CellStep(r, k, |cells|);
      TwoSlicesAt(cells, off, l, n, k);
    }
  }

  lemma TwoSlicesAt(cells: seq<Byte>, off: nat, l: nat, n: nat, k: nat)
    requires off < |cells| && k < n <= |cells| && l == Min(n, |cells| - off)
    ensures (cells[off..off + l] + cells[..n - l])[k] == cells[if k < l then off + k else off + k - |cells|]
  {
  }

  /** Two slice copies, the first at the cell of `w` and the second from cell 0, store `data`
      at the positions from `w` on. */
  lemma TwoSlicesStore(cells: seq<Byte>, w: nat, data: seq<Byte>, cells': seq<Byte>)
    requires |cells'| == |cells| > 0 && |data| <= |cells|
    requires var off := Cell(w, |cells|);
             var l := Min(|data|, |cells| - off);
             forall p :: 0 <= p < |cells| ==>
               cells'[p] == if p < |data| - l then data[l + p]
                            else if off <= p < off + l then data[p - off] else cells[p]
    ensures Stored(cells, cells', w, data)
  {
    hide Cell;
    var off := Cell(w, |cells|);
    var l := Min(|data|, |cells| - off);
    forall j | w <= j < w + |data|
      ensures cells'[Cell(j, |cells|)] == data[j - w]
    {
      CellStep(w, j - w, |cells|);
    }
    forall p | 0 <= p < |cells| && cells'[p] != cells[p]
      ensures exists j :: w <= j < w + |data| && p == Cell(j, |cells|)
    {
      var i := if p < |data| - l then l + p else p - off;
      CellStep(w, i, |cells|);
      assert p == Cell(w + i, |cells|);
    }
  }
}

/** The byte ring of CircularBuffer.h: a power-of-two array, two free-running 32-bit counters. */
module CircularBuffers {
  import opened MachineInts
  import opened RingCells

  /** The result of the zero-copy calls: a null pointer, or `len` cells from cell `off`. */
  datatype View = Null | View(off: nat, len: nat)

  /** Where TryReadBuff leaves the bytes: nowhere, in the ring, or in the caller's buffer. */
  datatype Peek = NoData | InRing(off: nat) | InCallerBuffer

  class CircularBuffer {
    const buff: array<Byte>
    const size: int
    const mask: int
    var wcount: int
    var rcount: int
    // The bytes ever written and ever read, not reduced modulo 2^32.
    ghost var written: nat
    ghost var consumed: nat

    ghost predicate Valid()
      reads this
    {
      && size == buff.Length && mask == size - 1
      && (size == 0 || IsPow2(size)) && size <= TWO_30
      && wcount == S32(written) && rcount == S32(consumed)
      && consumed <= written <= consumed + size
      && (size == 0 ==> written == 0)
    }

    /** The queued bytes, oldest first. */
    ghost function Contents(): (s: seq<Byte>)
      requires Valid()
      reads this, buff
      ensures |s| == written - consumed
    {
      Window(buff[..], consumed, written)
    }

    constructor (n: int)
      requires 0 <= n <= TWO_30 && (n == 0 || IsPow2(n))
      ensures Valid() && fresh(buff) && size == n && Contents() == []
    {
      size, mask := n, n - 1;
      wcount, rcount, written, consumed := 0, 0, 0, 0;
      buff := new Byte[n];
    }

    method GetUnUsed() returns (n: int)
      requires Valid()
      ensures n == size - |Contents()|
    {
      WrappedDifference(written, consumed);
      n := S32(size - S32(wcount - rcount));
    }

    method DataSize() returns (n: int)
      requires Valid()
      ensures n == |Contents()|
    {
      WrappedDifference(written, consumed);
      n := S32(wcount - rcount);
    }

    /** `counter & mask` is the cell of the unbounded position the counter stands for. */
    lemma Masked(count: nat)
      requires Valid() && (size == 0 ==> count == 0)
      ensures AndS32(S32(count), mask) == Cell(count, size)
    {
      if size > 0 {
        MaskedCounter(count, size);
        CellIsMod(count, size);
      }
    }

    /** The two `memcpy` calls into the ring, at the masked write counter and at cell 0. */
    method CopyIn(data: seq<Byte>)
      requires Valid() && |data| <= size - |Contents()|
      modifies buff
      ensures size > 0 ==> Stored(old(buff[..]), buff[..], written, data)
      ensures Valid() && Contents() == old(Contents())
    {
      hide Window, IsPow2, AndS32, S32, Stored;
      var off := AndS32(wcount, mask);
      Masked(written);
      var n := |data|;
      var l := Min(n, size - off);
      ghost var before := buff[..];
      forall i | 0 <= i < l {
        buff[off + i] := data[i];
      }
      forall i | 0 <= i < n - l {
        buff[i] := data[l + i];
      }
      if size > 0 {
        TwoSlicesStore(before, written, data, buff[..]);
        KeepsWindow(before, buff[..], data);
      }
    }

    lemma KeepsWindow(cells: seq<Byte>, cells': seq<Byte>, data: seq<Byte>)
      requires Valid() && size > 0 && written + |data| <= consumed + size
      requires |cells| == size && Stored(cells, cells', written, data)
      ensures Window(cells', consumed, written) == Window(cells, consumed, written)
      ensures Window(cells', consumed, written + |data|) == Window(cells, consumed, written) + data
    {
      assert |cells'| == size;
      hide Window, Cell, Stored, IsPow2, S32;
      WindowAppend(cells, cells', consumed, written, data);
      WindowDrop(cells', consumed, written - consumed, written + |data|);
      var queued := Window(cells, consumed, written);
      assert (queued + data)[..written - consumed] == queued;
    }

    /** `wcount += n`. */
    method Publish(n: nat)
      requires Valid() && n <= size - |Contents()|
      modifies this`wcount, this`written
      ensures Valid() && written == old(written) + n && consumed == old(consumed)
      ensures Contents() == Window(buff[..], consumed, old(written) + n)
    {
      WrappedSum(written, n);
      wcount := S32(wcount + n);
      written := written + n;
    }

    /** Queues the longest prefix of the first `len` bytes that fits. */
    method Write(buffer: seq<Byte>, len: int) returns (n: int)
      requires Valid() && 0 <= len <= |buffer| && len < TWO_31
      modifies this`wcount, this`written, buff
      ensures Valid() && consumed == old(consumed)
      ensures n == Min(len, size - |old(Contents())|)
      ensures Contents() == old(Contents()) + buffer[..n]
    {
      n := GetUnUsed();
      if len <= n {
        n := len;
      }
      ghost var before := buff[..];
      CopyIn(buffer[..n]);
      if size > 0 {
        KeepsWindow(before, buff[..], buffer[..n]);
      }
      Publish(n);
    }

    /** The longest contiguous run of free cells that starts where the next byte goes. */
    method GetCanWriteBuff() returns (v: View)
      requires Valid()
      ensures v.Null? <==> |Contents()| == size
      ensures v.View? ==>
                && v.off == Cell(written, size) && v.off + v.len <= size
                && 0 < v.len <= size - |Contents()|
                && (v.len == size - |Contents()| || v.off + v.len == size)
    {
      var free := GetUnUsed();
      if 0 == free {
        return Null;
      }
      var realW := AndS32(wcount, mask);
      var realR := AndS32(rcount, mask);
      Masked(written);
      Masked(consumed);
      if size > 0 {
        CellStep(consumed, written - consumed, size);
      }
      v := if realW >= realR then View(realW, size - realW) else View(realW, realR - realW);
    }

    /** The caller filling cells of a view it was given: nothing queued changes. */
    method FillView(v: View, data: seq<Byte>)
      requires Valid() && v.View? && |data| <= v.len
      requires v.off == Cell(written, size) && v.off + v.len <= size && v.len <= size - |Contents()|
      modifies buff
      ensures Valid() && Contents() == old(Contents())
      ensures buff[v.off..v.off + |data|] == data
    {
      ghost var before := buff[..];
      forall i | 0 <= i < |data| {
        buff[v.off + i] := data[i];
      }
      if size > 0 {
        TwoSlicesStore(before, written, data, buff[..]);
        KeepsWindow(before, buff[..], data);
      }
    }

    /** Queues the `n` bytes already stored in the cells of the view. */
    method WriteBuff(n: int)
      requires Valid() && 0 <= n <= size - |Contents()|
      modifies this`wcount, this`written
      ensures Valid() && consumed == old(consumed)
      ensures var off := Cell(old(written), size);
              off + n <= size ==> Contents() == old(Contents()) + buff[off..off + n]
      ensures |Contents()| == |old(Contents())| + n && old(Contents()) <= Contents()
    {
      hide Window, Cell, IsPow2;
      Publish(n);
      if size > 0 {
        WindowDrop(buff[..], consumed, old(written) - consumed, written);
        if Cell(old(written), size) + n <= size {
          WindowExtend(buff[..], consumed, old(written), n);
        }
      }
    }

    /** The longest contiguous run of queued bytes that starts at the oldest. */
    method GetCanReadBuff() returns (v: View)
      requires Valid()
      ensures v.Null? <==> Contents() == []
      ensures v.View? ==>
                && v.off + v.len <= size && 0 < v.len <= |Contents()|
                && buff[v.off..v.off + v.len] == Contents()[..v.len]
                && (v.len == |Contents()| || v.off + v.len == size)
    {
      WrappedDifference(written, consumed);
      SameCounter(written, consumed);
      hide Window, Cell, IsPow2, AndS32, S32;
      if rcount == wcount {
        return Null;
      }
      var realW := AndS32(wcount, mask);
      var realR := AndS32(rcount, mask);
      Masked(written);
      Masked(consumed);
      if size > 0 {
        CellStep(consumed, written - consumed, size);
      }
      v := if realW > realR then View(realR, S32(wcount - rcount)) else View(realR, size - realR);
      WindowIsSlice(buff[..], consumed, v.len);
      WindowDrop(buff[..], consumed, v.len, written);
    }

    /** Drops the `n` oldest bytes (the one-argument `Read`). */
    method Consume(n: int)
      requires Valid() && 0 <= n <= |Contents()|
      modifies this`rcount, this`consumed
      ensures Valid() && Contents() == old(Contents())[n..]
    {
      if size > 0 {
        WindowDrop(buff[..], consumed, n, written);
      }
      WrappedSum(consumed, n);
      rcount := S32(rcount + n);
      consumed := consumed + n;
    }

    /** Two `memcpy` calls: `l` bytes from cell `off`, the rest of the `n` from cell 0. */
    method CopyTwo(out: array<Byte>, off: nat, l: nat, n: nat)
      requires off + l <= buff.Length && l <= n <= l + buff.Length && n <= out.Length && out != buff
      modifies out
      ensures out[..n] == buff[..][off..off + l] + buff[..][..n - l] && out[n..] == old(out[n..])
    {
      forall i | 0 <= i < l {
        out[i] := buff[off + i];
      }
      forall i | 0 <= i < n - l {
        out[l + i] := buff[i];
      }
      assert out[..l] == buff[..][off..off + l];
      assert out[l..n] == buff[..][..n - l];
      assert out[..n] == out[..l] + out[l..n];
    }

    method CopyOut(out: array<Byte>, n: nat)
      requires Valid() && n <= |Contents()| && n <= out.Length && out != buff
      modifies out
      ensures out[..n] == Contents()[..n] && out[n..] == old(out[n..])
    {
      hide Window, Cell, IsPow2, AndS32, S32;
      var off := AndS32(rcount, mask);
      Masked(consumed);
      OldestBytes(n);
      CopyTwo(out, off, Min(n, size - off), n);
    }

    lemma OldestBytes(n: nat)
      requires Valid() && n <= |Contents()|
      ensures var off := Cell(consumed, size);
              var l := Min(n, size - off);
              && off + l <= size && l <= n <= l + size
              && Contents()[..n] == buff[..][off..off + l] + buff[..][..n - l]
    {
      var cells := buff[..];
      var off := Cell(consumed, size);
      var l := Min(n, size - off);
      if size > 0 {
        WindowIsTwoSlices(cells, consumed, n);
        WindowDrop(cells, consumed, n, written);
      }
    }

    /** Makes the first `len` queued bytes readable without consuming them. */
    method TryReadBuff(out: array<Byte>, len: int) returns (p: Peek)
      requires Valid() && 0 <= len <= out.Length && out != buff
      modifies out
      ensures p.NoData? <==> |Contents()| < len
      ensures p.InCallerBuffer? ==> out[..len] == Contents()[..len] && out[len..] == old(out[len..])
      ensures p.InRing? ==> p.off + len <= size && buff[p.off..p.off + len] == Contents()[..len]
      ensures !p.InCallerBuffer? ==> out[..] == old(out[..])
    {
      var data := DataSize();
      if data < len {
        return NoData;
      }
      var realW := AndS32(wcount, mask);
      var realR := AndS32(rcount, mask);
      Masked(written);
      Masked(consumed);
      if realW > realR {
        if size > 0 {
          CellStep(consumed, written - consumed, size);
        }
        WindowIsSlice(buff[..], consumed, len);
        WindowDrop(buff[..], consumed, len, written);
        p := InRing(realR);
      } else {
        CopyOut(out, len);
        p := InCallerBuffer;
      }
    }

    /** Moves the oldest bytes, at most `len`, into the caller's buffer. */
    method Read(out: array<Byte>, len: int) returns (n: int)
      requires Valid() && 0 <= len <= out.Length && out != buff
      modifies this`rcount, this`consumed, out
      ensures Valid()
      ensures n == Min(len, |old(Contents())|)
      ensures out[..n] == old(Contents())[..n] && out[n..] == old(out[n..])
      ensures Contents() == old(Contents())[n..]
    {
      var l := DataSize();
      if l == 0 {
        return 0;
      }
      n := if len > l then l else len;
      CopyOut(out, n);
      Consume(n);
    }
  }

  /** RoundupPowerOf2 as written: the seed is -32768 and the shift is arithmetic. For an
      argument below 2^15 the result is the intended power of two, negated. */
  method RoundupPowerOf2(num: int) returns (r: int)
    requires IsS32(num) && num != 0
    ensures r == if U32(num) < TWO_15 then -2 * HighBit(U32(num)) else -2 * TWO_15
  {
    var temp := -TWO_15;
    ghost var p, u := TWO_15, U32(num);
    NonZeroU32(num);
    TwoTo15IsPow2();
    var hit := MaskHits(temp, num, p);
    while !hit
      invariant 0 < p <= TWO_15 && temp == 0 - p && IsPow2(p)
      invariant hit <==> p <= u
      invariant p == TWO_15 || u < Min(2 * p, TWO_15)
      decreases p
    {
      HalvePow2(p);
      p := p / 2;
      temp := temp / 2;
      hit := MaskHits(temp, num, p);
    }
    S32Small(temp * 2);
    r := S32(temp * 2);
    if u < TWO_15 {
      HighBitUnique(u, p);
    }
  }

  lemma NonZeroU32(num: int)
    requires IsS32(num) && num != 0
    ensures U32(num) > 0
  {
  }

  /** `temp & num` for the mask `temp == -p`. */
  method MaskHits(temp: int, num: int, ghost p: int) returns (hit: bool)
    requires 0 < p <= TWO_15 && IsPow2(p) && temp == 0 - p
    ensures hit <==> p <= U32(num)
  {
    HighBits(num, p);
    hit := AndS32(temp, num) != 0;
  }

  lemma TwoTo15IsPow2()
    ensures IsPow2(TWO_15)
  {
    assert IsPow2(0x80);
    Pow2Times16(0x80);
    Pow2Times16(0x800);
  }

  lemma HalvePow2(p: nat)
    requires IsPow2(p) && p > 1
    ensures p % 2 == 0 && IsPow2(p / 2)
  {
  }

  lemma HighBits(num: int, p: int)
    requires 0 < p <= TWO_15 && IsPow2(p)
    ensures AndS32(0 - p, num) == 0 <==> U32(num) < p
  {
    NegatedU32(p);
    HighBitsOf(U32(num), p);
  }

  lemma NegatedU32(p: int)
    requires 0 < p <= TWO_15
    ensures U32(0 - p) == TWO_32 - p
  {
  }

  lemma HighBitsOf(u: nat, p: nat)
    requires u < TWO_32 && 0 < p <= TWO_15 && IsPow2(p)
    ensures S32(BitAnd(TWO_32 - p, u)) == 0 <==> u < p
  {
    TwoTo32IsPow2();
    HighMask(TWO_32, p, u);
    ModRange(u, p);
    if u < p {
      DivModUnique(u, p, 0, u);
    }
    S32Zero(u - u % p);
  }

  lemma S32Zero(x: nat)
    requires x < TWO_32
    ensures S32(x) == 0 <==> x == 0
  {
  }

  lemma {:induction false} HighBitUnique(n: nat, p: nat)
    requires n > 0 && IsPow2(p) && p <= n < 2 * p
    ensures HighBit(n) == p
  {
    if n > 1 {
      assert p % 2 == 0;
      HighBitUnique(n / 2, p / 2);
    }
  }

  /** The constructor as written: a buffer comes out exactly for size 0 and positive powers of
      two; every other size is rounded to a negative one, and the array allocation throws. */
  method Create(size: int) returns (b: CircularBuffer?)
    requires IsS32(size)
    ensures b != null <==> size == 0 || (size > 0 && IsPow2(size))
    ensures b != null ==> fresh(b) && b.Valid() && fresh(b.buff) && b.size == size && b.Contents() == []
  {
    var s := size;
    if size > 0 {
      ClearLowestBit(size);
      PositiveS32And(size);
    }
    if AndS32(size, S32(size - 1)) != 0 {
      s := RoundupPowerOf2(size);
    }
    if s < 0 {
      return null;
    }
    if s > TWO_30 {
      AboveTwo30(s);
    }
    b := new CircularBuffer(s);
  }

  lemma PositiveS32And(n: int)
    requires 0 < n < TWO_31
    ensures AndS32(n, S32(n - 1)) == BitAnd(n, n - 1)
  {
    AndBound(n, n - 1);
    S32Small(BitAnd(n, n - 1));
    S32Small(n - 1);
    U32Small(n);
    U32Small(n - 1);
    hide S32, U32, BitAnd;
  }

  lemma {:induction false} AndBound(a: nat, b: nat)
    ensures BitAnd(a, b) <= a
  {
    if a > 0 && b > 0 {
      AndBound(a / 2, b / 2);
    }
  }

  /** No power of two lies strictly between 2^30 and 2^31. */
  lemma AboveTwo30(n: nat)
    requires TWO_30 < n < TWO_31
    ensures !IsPow2(n)
  {
    if IsPow2(n) {
      TwoTo30IsPow2();
      PowersDivide(TWO_30, n);
    }
  }

  lemma TwoTo30IsPow2()
    ensures IsPow2(TWO_30)
  {
    TwoTo32IsPow2();
    assert IsPow2(TWO_32 / 2);
    assert IsPow2(TWO_31 / 2);
  }
}
