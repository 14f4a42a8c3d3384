/** One writer and one reader running on the same CircularBuffer, interleaved between every
    two accesses to shared memory: the sampling of the other side's counter, each byte of each
    `memcpy` (in any order), and the publication of the own counter. Sequentially consistent. */
module RingProtocol {
  import opened MachineInts
  import opened RingCells

  /** Where the writing thread is, with the locals of the call it is in. */
  datatype Writer =
    | WIdle
    | WCopying(data: seq<Byte>, off: int, first: int, done: set<nat>)  // inside Write
    | WChecked                                                         // GetCanWriteBuff, room seen
    | WView(off: int, len: int)                                        // holds a span of free cells

  /** Where the reading thread is. */
  datatype Reader =
    | RIdle
    | RCopying(len: nat, off: int, first: int, got: map<nat, Byte>, peek: bool)  // Read or TryReadBuff
    | RChecked                            // GetCanReadBuff, data seen
    | RSampled(realW: int, sampled: nat)  // after its second sample; `sampled` is its unbounded value
    | RView(off: int, span: int)          // holds a span of filled cells
    | TChecked(len: nat)                  // TryReadBuff, enough data seen
    | TInRing(off: int, len: nat)         // TryReadBuff answered with a pointer into the ring

  /** Shared memory, both threads, and the streams published and consumed so far. `fault` records
      an access outside the cells. */
  datatype Ring = Ring(cells: seq<Byte>, wcount: int, rcount: int, writer: Writer, reader: Reader,
                       written: seq<Byte>, read: seq<Byte>, fault: bool)

  datatype Action =
    | BeginWrite(data: seq<Byte>) | CopyInByte(i: nat) | PublishWrite
    | CheckWriteView | SizeWriteView | FillByte(i: nat, b: Byte) | CommitWriteView(n: nat)
    | BeginRead(len: nat) | CopyOutByte(i: nat) | PublishRead
    | CheckReadView | SampleReadView | SizeReadView | ConsumeReadView(n: nat)
    | BeginPeek(len: nat) | BranchPeek | EndPeek | ConsumePeeked(n: nat)

  function Size(s: Ring): nat {
    |s.cells|
  }

  /** `count & _mask`; OffsetOfCounter relates it to the bitwise operation. */
  function Masked(count: int, s: Ring): int {
    Offset(count, |s.cells|)
  }

  function Queued(s: Ring): int {
    S32(s.wcount - s.rcount)
  }

  function Take(data: seq<Byte>, n: int): seq<Byte> {
    if 0 <= n <= |data| then data[..n] else data
  }

  /** The cell a two-part `memcpy` uses for byte `i`. */
  function CopyCell(off: int, first: int, i: nat): int {
    if i < first then off + i else i - first
  }

  function Store(s: Ring, p: int, b: Byte): Ring {
    if 0 <= p < |s.cells| then s.(cells := s.cells[p := b]) else s.(fault := true)
  }

  // One function per step, in the arithmetic of the code

  function BeginWriteStep(s: Ring, data: seq<Byte>): Ring {
    var n := Min(|data|, S32(Size(s) - Queued(s)));
    var off := Masked(s.wcount, s);
    s.(writer := WCopying(Take(data, n), off, Min(n, Size(s) - off), {}))
  }

  function CopyInByteStep(s: Ring, i: nat): Ring
    requires s.writer.WCopying? && i < |s.writer.data|
  {
    var w := s.writer;
    Store(s, CopyCell(w.off, w.first, i), w.data[i]).(writer := w.(done := w.done + {i}))
  }

  function PublishWriteStep(s: Ring): Ring
    requires s.writer.WCopying?
  {
    s.(wcount := S32(s.wcount + |s.writer.data|), writer := WIdle, written := s.written + s.writer.data)
  }

  function CheckWriteViewStep(s: Ring): Ring {
    if 0 == S32(Size(s) - Queued(s)) then s else s.(writer := WChecked)
  }

  function SizeWriteViewStep(s: Ring): Ring {
    var realW, realR := Masked(s.wcount, s), Masked(s.rcount, s);
    s.(writer := WView(realW, if realW >= realR then Size(s) - realW else realR - realW))
  }

  function CommitWriteViewStep(s: Ring, n: nat): Ring
    requires s.writer.WView?
  {
    var off := s.writer.off;
    if 0 <= off && off + n <= Size(s)
    then s.(wcount := S32(s.wcount + n), writer := WIdle, written := s.written + s.cells[off..off + n])
    else s.(fault := true)
  }

  function BeginReadStep(s: Ring, len: nat): Ring {
    var l := Queued(s);
    if l == 0 then s
    else
      var n := if len > l then (if l > 0 then l else 0) else len;
      var off := Masked(s.rcount, s);
      s.(reader := RCopying(n, off, Min(n, Size(s) - off), map[], false))
  }

  function CopyOutByteStep(s: Ring, i: nat): Ring
    requires s.reader.RCopying?
  {
    var r := s.reader;
    var p := CopyCell(r.off, r.first, i);
    if 0 <= p < Size(s) then s.(reader := r.(got := r.got[i := s.cells[p]])) else s.(fault := true)
  }

  function PublishReadStep(s: Ring): Ring
    requires s.reader.RCopying? && forall i: nat :: i < s.reader.len ==> i in s.reader.got
  {
    var r := s.reader;
    if r.peek then s.(reader := RIdle)
    else s.(rcount := S32(s.rcount + r.len), reader := RIdle,
            read := s.read + seq(r.len, i requires i in r.got => r.got[i]))
  }

  function CheckReadViewStep(s: Ring): Ring {
    if s.rcount == s.wcount then s else s.(reader := RChecked)
  }

  function SampleReadViewStep(s: Ring): Ring {
    s.(reader := RSampled(Masked(s.wcount, s), |s.written|))
  }

  function SizeReadViewStep(s: Ring): Ring
    requires s.reader.RSampled?
  {
    var realR := Masked(s.rcount, s);
    s.(reader := RView(realR, if s.reader.realW > realR then Queued(s) else Size(s) - realR))
  }

  function ConsumeReadViewStep(s: Ring, n: nat): Ring
    requires s.reader.RView?
  {
    var off := s.reader.off;
    if 0 <= off && off + n <= Size(s)
    then s.(rcount := S32(s.rcount + n), reader := RIdle, read := s.read + s.cells[off..off + n])
    else s.(fault := true)
  }

  function BeginPeekStep(s: Ring, len: nat): Ring {
    if Queued(s) < len then s else s.(reader := TChecked(len))
  }

  function BranchPeekStep(s: Ring): Ring
    requires s.reader.TChecked?
  {
    var realW, realR := Masked(s.wcount, s), Masked(s.rcount, s);
    if realW > realR then s.(reader := TInRing(realR, s.reader.len))
    else s.(reader := RCopying(s.reader.len, realR, Min(s.reader.len, Size(s) - realR), map[], true))
  }

  /** The one-argument Read after TryReadBuff has answered, with a pointer or with a copy. */
  function ConsumePeekedStep(s: Ring, n: nat): Ring
    requires s.reader.TInRing? || (s.reader.RCopying? && forall i: nat :: i < n ==> i in s.reader.got)
  {
    var r := s.reader;
    if r.RCopying? then ConsumeBytes(s, seq(n, i requires i in r.got => r.got[i]))
    else if 0 <= r.off && r.off + n <= Size(s) then ConsumeBytes(s, s.cells[r.off..r.off + n])
    else s.(fault := true)
  }

  function ConsumeBytes(s: Ring, bytes: seq<Byte>): Ring {
    s.(rcount := S32(s.rcount + |bytes|), reader := RIdle, read := s.read + bytes)
  }

  /** Who may act: the thread is at the right point, and its caller keeps to the span it got. */
  predicate Enabled(s: Ring, a: Action) {
    match a
    case BeginWrite(_) => s.writer.WIdle?
    case CopyInByte(i) => s.writer.WCopying? && i < |s.writer.data| && i !in s.writer.done
    case PublishWrite => s.writer.WCopying? && forall i: nat :: i < |s.writer.data| ==> i in s.writer.done
    case CheckWriteView => s.writer.WIdle?
    case SizeWriteView => s.writer.WChecked?
    case FillByte(i, _) => s.writer.WView? && i < s.writer.len
    case CommitWriteView(n) => s.writer.WView? && n <= s.writer.len
    case BeginRead(_) => s.reader.RIdle?
    case CopyOutByte(i) => s.reader.RCopying? && i < s.reader.len && i !in s.reader.got
    case PublishRead => s.reader.RCopying? && forall i: nat :: i < s.reader.len ==> i in s.reader.got
    case CheckReadView => s.reader.RIdle?
    case SampleReadView => s.reader.RChecked?
    case SizeReadView => s.reader.RSampled?
    case ConsumeReadView(n) => s.reader.RView? && n <= s.reader.span
    case BeginPeek(_) => s.reader.RIdle?
    case BranchPeek => s.reader.TChecked?
    case EndPeek => s.reader.TInRing?
    case ConsumePeeked(n) =>
      || (s.reader.TInRing? && n <= s.reader.len)
      || (s.reader.RCopying? && s.reader.peek && n <= s.reader.len
          && forall i: nat :: i < s.reader.len ==> i in s.reader.got)
  }

  function Apply(s: Ring, a: Action): Ring
    requires Enabled(s, a)
  {
    match a
    case BeginWrite(data) => BeginWriteStep(s, data)
    case CopyInByte(i) => CopyInByteStep(s, i)
    case PublishWrite => PublishWriteStep(s)
    case CheckWriteView => CheckWriteViewStep(s)
    case SizeWriteView => SizeWriteViewStep(s)
    case FillByte(i, b) => Store(s, s.writer.off + i, b)
    case CommitWriteView(n) => CommitWriteViewStep(s, n)
    case BeginRead(len) => BeginReadStep(s, len)
    case CopyOutByte(i) => CopyOutByteStep(s, i)
    case PublishRead => PublishReadStep(s)
    case CheckReadView => CheckReadViewStep(s)
    case SampleReadView => SampleReadViewStep(s)
    case SizeReadView => SizeReadViewStep(s)
    case ConsumeReadView(n) => ConsumeReadViewStep(s, n)
    case BeginPeek(len) => BeginPeekStep(s, len)
    case BranchPeek => BranchPeekStep(s)
    case EndPeek => s.(reader := RIdle)
    case ConsumePeeked(n) => ConsumePeekedStep(s, n)
  }

  // The invariant

  ghost predicate SharedInv(s: Ring) {
    && 0 < |s.cells| <= TWO_30 && IsPow2(|s.cells|)
    && !s.fault
    && s.wcount == S32(|s.written|) && s.rcount == S32(|s.read|)
    && |s.read| <= |s.written| <= |s.read| + |s.cells|
    && s.read == s.written[..|s.read|]
    && Window(s.cells, |s.read|, |s.written|) == s.written[|s.read|..]
  }

  ghost predicate WriterInv(s: Ring)
    requires |s.cells| > 0 && |s.written| <= |s.read| + |s.cells|
  {
    var w, size := |s.written|, |s.cells|;
    match s.writer
    case WIdle => true
    case WCopying(data, off, first, done) =>
      && w + |data| <= |s.read| + size
      && off == Cell(w, size) && first == Min(|data|, size - off)
      && forall i :: i in done ==> i < |data| && s.cells[Cell(w + i, size)] == data[i]
    case WChecked => w < |s.read| + size
    case WView(off, len) =>
      && off == Cell(w, size) && 0 < len && off + len <= size && w + len <= |s.read| + size
  }

  ghost predicate ReaderInv(s: Ring)
    requires |s.cells| > 0
  {
    var r, w, size := |s.read|, |s.written|, |s.cells|;
    match s.reader
    case RIdle => true
    case RCopying(len, off, first, got, _) =>
      && r + len <= w
      && off == Cell(r, size) && first == Min(len, size - off)
      && forall i :: i in got ==> i < len && got[i] == s.written[r + i]
    case RChecked => r < w
    case RSampled(realW, sampled) => r < sampled <= w && realW == Cell(sampled, size)
    case RView(off, span) => off == Cell(r, size) && 0 < span && r + Min(span, size - off) <= w
    case TChecked(len) => r + len <= w
    case TInRing(off, len) => off == Cell(r, size) && off + len <= size && r + len <= w
  }

  ghost predicate Inv(s: Ring) {
    SharedInv(s) && WriterInv(s) && ReaderInv(s)
  }

  predicate Init(s: Ring) {
    && 0 < |s.cells| <= TWO_30 && IsPow2(|s.cells|)
    && s == Ring(s.cells, 0, 0, WIdle, RIdle, [], [], false)
  }

  lemma Counters(s: Ring)
    requires SharedInv(s)
    ensures Queued(s) == |s.written| - |s.read|
    ensures S32(Size(s) - Queued(s)) == Size(s) - Queued(s)
    ensures Masked(s.wcount, s) == Cell(|s.written|, Size(s))
    ensures Masked(s.rcount, s) == Cell(|s.read|, Size(s))
    ensures s.rcount == s.wcount <==> |s.written| == |s.read|
  {
    WrappedDifference(|s.written|, |s.read|);
    SameCounter(|s.written|, |s.read|);
    S32Small(Size(s) - (|s.written| - |s.read|));
    hide S32, AndS32, Cell, U32;
    OffsetOfCounter(|s.written|, |s.cells|);
    OffsetOfCounter(|s.read|, |s.cells|);
  }

  lemma CopyCellIsCell(base: nat, off: int, first: int, n: nat, i: nat, size: nat)
    requires size > 0 && i < n <= size && off == Cell(base, size) && first == Min(n, size - off)
    ensures CopyCell(off, first, i) == Cell(base + i, size)
  {
    CellStep(base, i, size);
  }

  /** Storing one byte at a free position: nothing queued and nothing already copied changes. */
  lemma StoreFree(s: Ring, k: nat, b: Byte)
    requires Inv(s) && |s.written| + k < |s.read| + Size(s)
    ensures var s' := Store(s, Cell(|s.written| + k, Size(s)), b);
            && SharedInv(s') && ReaderInv(s')
            && s' == s.(cells := s'.cells) && |s'.cells| == |s.cells|
            && s'.cells[Cell(|s.written| + k, Size(s))] == b
            && forall j :: |s.written| <= j < |s.read| + Size(s) && j != |s.written| + k ==>
                 s'.cells[Cell(j, Size(s))] == s.cells[Cell(j, Size(s))]
  {
    hide Cell;
    var w, size := |s.written|, Size(s);
    var s' := Store(s, Cell(w + k, size), b);
    forall j | |s.read| <= j < |s.read| + size && j != w + k
      ensures Cell(j, size) != Cell(w + k, size)
    {
      if Cell(j, size) == Cell(w + k, size) {
        CellInjective(Min(j, w + k), if j < w + k then w + k else j, size);
      }
    }
    assert Window(s'.cells, |s.read|, w) == Window(s.cells, |s.read|, w);
  }

  // Each action keeps the invariant

  /** The writer sampling the reader's counter. */
  lemma WriterSamplingKeeps(s: Ring, a: Action)
    requires Inv(s) && Enabled(s, a) && (a.BeginWrite? || a.CheckWriteView?)
    ensures Inv(Apply(s, a))
  {
    hide Cell;
    Counters(s);
    var s' := Apply(s, a);
    assert s' == s.(writer := s'.writer);
    assert WriterInv(s');
  }

  /** The reader sampling the writer's counter. */
  lemma ReaderSamplingKeeps(s: Ring, a: Action)
    requires Inv(s) && Enabled(s, a)
    requires a.BeginRead? || a.CheckReadView? || a.SampleReadView? || a.BeginPeek? || a.BranchPeek? || a.EndPeek?
    ensures Inv(Apply(s, a))
  {
    hide Cell, Window, IsPow2, S32;
    Counters(s);
    CellStep(|s.read|, |s.written| - |s.read|, Size(s));
    var s' := Apply(s, a);
    assert s' == s.(reader := s'.reader);
    assert ReaderInv(s');
  }

  lemma SizeWriteViewKeeps(s: Ring)
    requires Inv(s) && Enabled(s, SizeWriteView)
    ensures Inv(SizeWriteViewStep(s))
  {
    hide Cell;
    Counters(s);
    CellStep(|s.read|, |s.written| - |s.read|, Size(s));
    assert WriterInv(SizeWriteViewStep(s));
  }

  lemma SizeReadViewKeeps(s: Ring)
    requires Inv(s) && Enabled(s, SizeReadView)
    ensures Inv(SizeReadViewStep(s))
  {
    hide Cell;
    Counters(s);
    CellStep(|s.read|, s.reader.sampled - |s.read|, Size(s));
    assert ReaderInv(SizeReadViewStep(s));
  }

  lemma CopyInByteKeeps(s: Ring, i: nat)
    requires Inv(s) && Enabled(s, CopyInByte(i))
    ensures Inv(CopyInByteStep(s, i))
  {
    hide Cell;
    var w := s.writer;
    CopyCellIsCell(|s.written|, w.off, w.first, |w.data|, i, Size(s));
    StoreFree(s, i, w.data[i]);
    var t := Store(s, Cell(|s.written| + i, Size(s)), w.data[i]);
    var s' := t.(writer := w.(done := w.done + {i}));
    hide SharedInv, ReaderInv, Window, Store;
    forall k | k in w.done + {i}
      ensures k < |w.data| && t.cells[Cell(|s.written| + k, Size(s))] == w.data[k]
    {
      assert k != i ==> s.cells[Cell(|s.written| + k, Size(s))] == w.data[k];
    }
    SameButWriter(t, s');
  }

  /** The shared part and the reader's part do not depend on the writer. */
  lemma SameButWriter(t: Ring, t': Ring)
    requires SharedInv(t) && ReaderInv(t) && t' == t.(writer := t'.writer)
    ensures SharedInv(t') && ReaderInv(t')
  {
  }

  lemma FillByteKeeps(s: Ring, i: nat, b: Byte)
    requires Inv(s) && Enabled(s, FillByte(i, b))
    ensures Inv(Store(s, s.writer.off + i, b))
  {
    hide Cell;
    CellStep(|s.written|, i, Size(s));
    StoreFree(s, i, b);
  }

  /** Publishing bytes that are in the free cells next to the queue. */
  lemma AppendWritten(s: Ring, data: seq<Byte>, s': Ring)
    requires Inv(s) && |s.written| + |data| <= |s.read| + Size(s)
    requires s' == s.(wcount := S32(s.wcount + |data|), writer := WIdle, written := s.written + data)
    requires Window(s.cells, |s.read|, |s.written| + |data|) == Window(s.cells, |s.read|, |s.written|) + data
    ensures Inv(s')
  {
    hide Cell;
    WrappedSum(|s.written|, |data|);
    assert s'.written[|s.read|..] == s.written[|s.read|..] + data;
    assert s'.written[..|s.read|] == s.written[..|s.read|];
  }

  lemma PublishWriteKeeps(s: Ring)
    requires Inv(s) && Enabled(s, PublishWrite)
    ensures Inv(PublishWriteStep(s))
  {
    hide Cell;
    var data := s.writer.data;
    forall j | |s.written| <= j < |s.written| + |data|
      ensures s.cells[Cell(j, Size(s))] == data[j - |s.written|]
    {
      var i: nat := j - |s.written|;
      assert i in s.writer.done;
    }
    assert Stored(s.cells, s.cells, |s.written|, data);
    WindowAppend(s.cells, s.cells, |s.read|, |s.written|, data);
    AppendWritten(s, data, PublishWriteStep(s));
  }

  lemma CommitWriteViewKeeps(s: Ring, n: nat)
    requires Inv(s) && Enabled(s, CommitWriteView(n))
    ensures Inv(CommitWriteViewStep(s, n))
  {
    hide Cell;
    WindowExtend(s.cells, |s.read|, |s.written|, n);
    var off := s.writer.off;
    hide Inv, Window;
    AppendWritten(s, s.cells[off..off + n], CommitWriteViewStep(s, n));
  }

  lemma CopyOutByteKeeps(s: Ring, i: nat)
    requires Inv(s) && Enabled(s, CopyOutByte(i))
    ensures Inv(CopyOutByteStep(s, i))
  {
    hide Cell;
    var r := s.reader;
    CopyCellIsCell(|s.read|, r.off, r.first, r.len, i, Size(s));
    assert Window(s.cells, |s.read|, |s.written|)[i] == s.written[|s.read| + i];
    hide Window, IsPow2, S32, CopyCell, SharedInv, WriterInv;
    assert ReaderInv(CopyOutByteStep(s, i));
    SameButReader(s, CopyOutByteStep(s, i));
  }

  /** The shared part and the writer's part do not depend on the reader. */
  lemma SameButReader(t: Ring, t': Ring)
    requires SharedInv(t) && WriterInv(t) && t' == t.(reader := t'.reader)
    ensures SharedInv(t') && WriterInv(t')
  {
  }

  /** Consuming the oldest bytes. */
  lemma DropOldest(s: Ring, n: nat, s': Ring)
    requires Inv(s) && |s.read| + n <= |s.written|
    requires s' == s.(rcount := S32(s.rcount + n), reader := RIdle,
                      read := s.read + s.written[|s.read|..|s.read| + n])
    ensures Inv(s')
  {
    hide Cell;
    WrappedSum(|s.read|, n);
    WindowDrop(s.cells, |s.read|, n, |s.written|);
    assert s'.read == s.written[..|s.read| + n];
    assert s.written[|s.read|..][n..] == s.written[|s.read| + n..];
  }

  lemma PublishReadKeeps(s: Ring)
    requires Inv(s) && Enabled(s, PublishRead)
    ensures Inv(PublishReadStep(s))
  {
    hide Cell;
    var r := s.reader;
    if !r.peek {
      var bytes := seq(r.len, i requires i in r.got => r.got[i]);
      assert bytes == s.written[|s.read|..|s.read| + r.len];
      DropOldest(s, r.len, PublishReadStep(s));
    }
  }

  lemma ConsumeReadViewKeeps(s: Ring, n: nat)
    requires Inv(s) && Enabled(s, ConsumeReadView(n)) && Careful(s, ConsumeReadView(n))
    ensures Inv(ConsumeReadViewStep(s, n))
  {
    hide Cell;
    var r := |s.read|;
    WindowIsSlice(s.cells, r, n);
    WindowDrop(s.cells, r, n, |s.written|);
    assert s.written[r..][..n] == s.written[r..r + n];
    DropOldest(s, n, ConsumeReadViewStep(s, n));
  }

  lemma ConsumePeekedKeeps(s: Ring, n: nat)
    requires Inv(s) && Enabled(s, ConsumePeeked(n))
    ensures Inv(ConsumePeekedStep(s, n))
  {
    hide Cell, Inv, Window, S32, IsPow2;
    ConsumePeekedIs(s, n);
    DropOldest(s, n, ConsumePeekedStep(s, n));
  }

  /** What is consumed are the oldest bytes. */
  lemma ConsumePeekedIs(s: Ring, n: nat)
    requires Inv(s) && Enabled(s, ConsumePeeked(n))
    ensures |s.read| + n <= |s.written|
    ensures ConsumePeekedStep(s, n) == ConsumeBytes(s, s.written[|s.read|..|s.read| + n])
  {
    hide Cell, Window, S32, IsPow2;
    PeekSeesFront(s);
    var front := s.written[|s.read|..|s.read| + n];
    if s.reader.TInRing? {
      var off, len := s.reader.off, s.reader.len;
      assert s.cells[off..off + n] == s.cells[off..off + len][..n];
      assert s.written[|s.read|..|s.read| + len][..n] == front;
    } else {
      assert seq(n, i requires i in s.reader.got => s.reader.got[i]) == front;
    }
  }

  /** The reader does not read past the end of the ring through a span it was given. */
  predicate Careful(s: Ring, a: Action) {
    a.ConsumeReadView? && s.reader.RView? ==> s.reader.off + a.n <= |s.cells|
  }

  lemma StepKeepsInv(s: Ring, a: Action)
    requires Inv(s) && Enabled(s, a) && Careful(s, a)
    ensures Inv(Apply(s, a))
  {
    hide Cell;
    match a
    case CopyInByte(i) => CopyInByteKeeps(s, i);
    case PublishWrite => PublishWriteKeeps(s);
    case FillByte(i, b) => FillByteKeeps(s, i, b);
    case CommitWriteView(n) => CommitWriteViewKeeps(s, n);
    case CopyOutByte(i) => CopyOutByteKeeps(s, i);
    case PublishRead => PublishReadKeeps(s);
    case ConsumeReadView(n) => ConsumeReadViewKeeps(s, n);
    case ConsumePeeked(n) => ConsumePeekedKeeps(s, n);
    case SizeReadView => SizeReadViewKeeps(s);
    case BeginWrite(_) => WriterSamplingKeeps(s, a);
    case CheckWriteView => WriterSamplingKeeps(s, a);
    case SizeWriteView => SizeWriteViewKeeps(s);
    case _ => ReaderSamplingKeeps(s, a);
  }

  // Runs

  /** `steps` takes `s` to `t`, every step enabled. */
  ghost predicate Reaches(s: Ring, steps: seq<Action>, t: Ring)
    decreases |steps|
  {
    if steps == [] then s == t
    else Enabled(s, steps[0]) && Reaches(Apply(s, steps[0]), steps[1..], t)
  }

  /** As `Reaches`, and no step reads past the end of the ring through a span. */
  ghost predicate ReachesCarefully(s: Ring, steps: seq<Action>, t: Ring)
    decreases |steps|
  {
    if steps == [] then s == t
    else Enabled(s, steps[0]) && Careful(s, steps[0]) && ReachesCarefully(Apply(s, steps[0]), steps[1..], t)
  }

  lemma {:induction false} RunKeepsInv(s: Ring, steps: seq<Action>, t: Ring)
    requires Inv(s) && ReachesCarefully(s, steps, t)
    ensures Inv(t)
    decreases |steps|
  {
    if steps != [] {
      StepKeepsInv(s, steps[0]);
      RunKeepsInv(Apply(s, steps[0]), steps[1..], t);
    }
  }

  lemma {:induction false} FaultStays(s: Ring, steps: seq<Action>, t: Ring)
    requires s.fault && Reaches(s, steps, t)
    ensures t.fault
    decreases |steps|
  {
    if steps != [] {
      StepKeepsFault(s, steps[0]);
      FaultStays(Apply(s, steps[0]), steps[1..], t);
    }
  }

  lemma StepKeepsFault(s: Ring, a: Action)
    requires s.fault && Enabled(s, a)
    ensures Apply(s, a).fault
  {
  }

  /** An access leaves the ring exactly in runs in which the reader consumes bytes past its end
      through a span it was given; nothing else the two threads do can make one. */
  lemma {:induction false} FaultFreeIff(s: Ring, steps: seq<Action>, t: Ring)
    requires Inv(s) && Reaches(s, steps, t)
    ensures !t.fault <==> ReachesCarefully(s, steps, t)
    decreases |steps|
  {
    if steps != [] {
      var s' := Apply(s, steps[0]);
      if Careful(s, steps[0]) {
        StepKeepsInv(s, steps[0]);
        FaultFreeIff(s', steps[1..], t);
      } else {
        FaultStays(s', steps[1..], t);
      }
    }
  }

  /** The writer went past the end of the ring between the reader's second sample of its counter
      and the third: the bytes seen then ended before the end of the ring, the bytes queued now
      go on from its start. */
  predicate PassedTheEnd(s: Ring) {
    s.reader.RSampled? && s.reader.sampled - |s.read| < Size(s) - Masked(s.rcount, s) < |s.written| - |s.read|
  }

  /** A run in which the writer never does that between two samples of one GetCanReadBuff. */
  ghost predicate ReachesUnpassed(s: Ring, steps: seq<Action>, t: Ring)
    decreases |steps|
  {
    if steps == [] then s == t
    else
      && Enabled(s, steps[0]) && (steps[0].SizeReadView? ==> !PassedTheEnd(s))
      && ReachesUnpassed(Apply(s, steps[0]), steps[1..], t)
  }

  predicate SpanFits(s: Ring) {
    s.reader.RView? ==> s.reader.off + s.reader.span <= Size(s)
  }

  /** Whatever else the threads do, such a run stays inside the ring. */
  lemma {:induction false} UnpassedIsCareful(s: Ring, steps: seq<Action>, t: Ring)
    requires Inv(s) && SpanFits(s) && ReachesUnpassed(s, steps, t)
    ensures ReachesCarefully(s, steps, t)
    decreases |steps|
  {
    if steps != [] {
      var a := steps[0];
      StepKeepsInv(s, a);
      if a.SizeReadView? {
        ReadViewOverrunsIff(s);
      } else {
        OtherStepsKeepSpan(s, a);
      }
      UnpassedIsCareful(Apply(s, a), steps[1..], t);
    }
  }

  lemma OtherStepsKeepSpan(s: Ring, a: Action)
    requires Inv(s) && SpanFits(s) && Enabled(s, a) && !a.SizeReadView?
    ensures SpanFits(Apply(s, a))
  {
    hide Inv, Cell;
  }

  /** Conservation over every interleaving: as long as no access has left the ring, the bytes read,
      followed by the bytes in the ring, are the bytes written. And none ever leaves it unless the
      writer passes the end of the ring between two samples of one GetCanReadBuff. */
  lemma Conservation(s: Ring, steps: seq<Action>, t: Ring)
    requires Init(s) && Reaches(s, steps, t)
    ensures !t.fault ==> |t.read| <= |t.written| <= |t.read| + Size(s) && |t.cells| == Size(s)
    ensures !t.fault ==> t.cells != [] && t.read + Window(t.cells, |t.read|, |t.written|) == t.written
    ensures !t.fault <==> ReachesCarefully(s, steps, t)
    ensures ReachesUnpassed(s, steps, t) ==> !t.fault
  {
    FaultFreeIff(s, steps, t);
    if ReachesUnpassed(s, steps, t) {
      UnpassedIsCareful(s, steps, t);
    }
    if !t.fault {
      RunKeepsInv(s, steps, t);
      SizeNeverChanges(s, steps, t);
    }
  }

  lemma {:induction false} SizeNeverChanges(s: Ring, steps: seq<Action>, t: Ring)
    requires ReachesCarefully(s, steps, t)
    ensures |t.cells| == |s.cells|
    decreases |steps|
  {
    if steps != [] {
      SizeNeverChanges(Apply(s, steps[0]), steps[1..], t);
    }
  }

  // Who may touch which cell

  ghost predicate IsQueued(s: Ring, p: int)
    requires s.cells != []
  {
    exists j: nat :: |s.read| <= j < |s.written| && p == Cell(j, Size(s))
  }

  ghost predicate IsFree(s: Ring, p: int)
    requires s.cells != []
  {
    exists k: nat :: |s.written| <= k < |s.read| + Size(s) && p == Cell(k, Size(s))
  }

  /** The writer is copying into cell `p`, or holds it in its span. */
  ghost predicate WriterTouches(s: Ring, p: int) {
    match s.writer
    case WCopying(data, off, first, _) => exists i: nat :: i < |data| && p == CopyCell(off, first, i)
    case WView(off, len) => off <= p < off + len
    case _ => false
  }

  /** The reader is copying out of cell `p`, or holds it in its span. */
  ghost predicate ReaderTouches(s: Ring, p: int) {
    match s.reader
    case RCopying(len, off, first, _, _) => exists j: nat :: j < len && p == CopyCell(off, first, j)
    case RView(off, span) => off <= p < off + span && p < Size(s)
    case TInRing(off, len) => off <= p < off + len
    case _ => false
  }

  /** A cell is queued or free, never both. */
  lemma QueuedOrFree(s: Ring, p: int)
    requires Inv(s)
    ensures !(IsQueued(s, p) && IsFree(s, p))
  {
    hide Cell;
    if IsQueued(s, p) && IsFree(s, p) {
      var j: nat :| |s.read| <= j < |s.written| && p == Cell(j, Size(s));
      var k: nat :| |s.written| <= k < |s.read| + Size(s) && p == Cell(k, Size(s));
      CellInjective(j, k, Size(s));
    }
  }

  /** The writer touches free cells only, be the reader idle, copying or holding a span. */
  lemma WriterTouchesFree(s: Ring, p: int)
    requires Inv(s) && WriterTouches(s, p)
    ensures IsFree(s, p) && !IsQueued(s, p)
  {
    hide Cell;
    var w := s.writer;
    if w.WCopying? {
      var i: nat :| i < |w.data| && p == CopyCell(w.off, w.first, i);
      CopyCellIsCell(|s.written|, w.off, w.first, |w.data|, i, Size(s));
      assert p == Cell(|s.written| + i, Size(s));
    } else {
      CellStep(|s.written|, p - w.off, Size(s));
      assert p == Cell(|s.written| + (p - w.off), Size(s));
    }
    QueuedOrFree(s, p);
  }

  /** The reader touches queued cells only. */
  lemma ReaderTouchesQueued(s: Ring, p: int)
    requires Inv(s) && ReaderTouches(s, p)
    ensures IsQueued(s, p) && !IsFree(s, p)
  {
    hide Cell;
    var r := s.reader;
    if r.RCopying? {
      var j: nat :| j < r.len && p == CopyCell(r.off, r.first, j);
      CopyCellIsCell(|s.read|, r.off, r.first, r.len, j, Size(s));
      assert p == Cell(|s.read| + j, Size(s));
    } else {
      CellStep(|s.read|, p - r.off, Size(s));
      assert p == Cell(|s.read| + (p - r.off), Size(s));
    }
    QueuedOrFree(s, p);
  }

  /** So the two never touch the same cell. */
  lemma CopiesNeverOverlap(s: Ring, p: int)
    requires Inv(s)
    ensures !(WriterTouches(s, p) && ReaderTouches(s, p))
  {
    if WriterTouches(s, p) && ReaderTouches(s, p) {
      WriterTouchesFree(s, p);
      ReaderTouchesQueued(s, p);
    }
  }

  /** No step of either thread changes a queued cell, or one the reader touches. */
  lemma StepsChangeFreeCells(s: Ring, a: Action, p: nat)
    requires Inv(s) && Enabled(s, a) && p < Size(s)
    requires |Apply(s, a).cells| != Size(s) || Apply(s, a).cells[p] != s.cells[p]
    ensures WriterTouches(s, p) && !IsQueued(s, p) && !ReaderTouches(s, p)
  {
    assert a.CopyInByte? || a.FillByte?;
    assert WriterTouches(s, p);
    WriterTouchesFree(s, p);
    CopiesNeverOverlap(s, p);
  }

  /** What TryReadBuff hands out is the front of the queue, however the writer interleaves
      between its two samples: every byte copied so far, or the span it points to. */
  lemma PeekSeesFront(s: Ring)
    requires Inv(s)
    ensures s.reader.RCopying? ==> forall i :: i in s.reader.got ==>
              i < s.reader.len && |s.read| + i < |s.written| && s.reader.got[i] == s.written[|s.read| + i]
    ensures s.reader.TInRing? ==>
              && 0 <= s.reader.off && s.reader.off + s.reader.len <= Size(s)
              && |s.read| + s.reader.len <= |s.written|
              && s.cells[s.reader.off..s.reader.off + s.reader.len] == s.written[|s.read|..|s.read| + s.reader.len]
  {
    hide Cell;
    if s.reader.TInRing? {
      WindowIsSlice(s.cells, |s.read|, s.reader.len);
      WindowDrop(s.cells, |s.read|, s.reader.len, |s.written|);
      assert s.written[|s.read|..][..s.reader.len] == s.written[|s.read|..|s.read| + s.reader.len];
    }
  }

  // The span GetCanReadBuff computes from three samples

  /** The span leaves the ring exactly if the writer passed the end of the ring between the second
      sample and the third. */
  lemma ReadViewOverrunsIff(s: Ring)
    requires Inv(s) && s.reader.RSampled?
    ensures var v := SizeReadViewStep(s).reader;
            v.off + v.span > Size(s) <==> PassedTheEnd(s)
  {
    hide Cell;
    Counters(s);
    CellStep(|s.read|, s.reader.sampled - |s.read|, Size(s));
  }

  /** And whenever it did, taking the span and consuming all of it leaves the ring. */
  lemma PassingFaults(s: Ring)
    requires Inv(s) && PassedTheEnd(s)
    ensures var u := SizeReadViewStep(s);
            && u.reader.RView? && u.reader.span > 0
            && Enabled(u, ConsumeReadView(u.reader.span)) && Apply(u, ConsumeReadView(u.reader.span)).fault
  {
    hide Cell;
    ReadViewOverrunsIff(s);
    Counters(s);
    hide Inv, PassedTheEnd;
  }

  /** A span that stays in the ring holds the front of the queue, whatever was published since. */
  lemma ReadViewHoldsFront(s: Ring)
    requires Inv(s) && s.reader.RView? && SpanFits(s)
    ensures var off, span, r := s.reader.off, s.reader.span, |s.read|;
            && 0 <= off && 0 < span && r + span <= |s.written|
            && s.cells[off..off + span] == s.written[r..r + span]
  {
    hide Cell;
    var r, span := |s.read|, s.reader.span;
    WindowIsSlice(s.cells, r, span);
    WindowDrop(s.cells, r, span, |s.written|);
    assert s.written[r..][..span] == s.written[r..r + span];
  }

  /** With nothing published between the samples, the span fits and is the longest filled run. */
  lemma ReadViewOfOneSnapshot(s: Ring)
    requires Inv(s) && s.reader.RSampled? && s.reader.sampled == |s.written|
    ensures var v := SizeReadViewStep(s).reader;
            v.span == Min(|s.written| - |s.read|, Size(s) - v.off)
  {
    Counters(s);
    CellStep(|s.read|, |s.written| - |s.read|, Size(s));
  }

  /** The length from the second sample alone, without the third. */
  function SpanOfSecondSample(s: Ring): int
    requires s.reader.RSampled?
  {
    var realR := Masked(s.rcount, s);
    if s.reader.realW > realR then S32(S32(s.reader.sampled) - s.rcount) else Size(s) - realR
  }

  lemma SecondSampleLength(s: Ring)
    requires Inv(s) && s.reader.RSampled?
    ensures var off, span := Masked(s.rcount, s), SpanOfSecondSample(s);
            && span == Min(s.reader.sampled - |s.read|, Size(s) - off) > 0 && 0 <= off
  {
    hide Cell, Window, IsPow2;
    Counters(s);
    WrappedDifference(s.reader.sampled, |s.read|);
    CellStep(|s.read|, s.reader.sampled - |s.read|, Size(s));
  }

  /** Computed so, the span is right in every interleaving: it stays in the ring, ends where the
      sample saw the data end or at the end of the ring, and holds queued bytes only. */
  lemma SecondSampleSuffices(s: Ring)
    requires Inv(s) && s.reader.RSampled?
    ensures var off, span := Masked(s.rcount, s), SpanOfSecondSample(s);
            && span == Min(s.reader.sampled - |s.read|, Size(s) - off) > 0
            && 0 <= off && off + span <= Size(s) && |s.read| + span <= s.reader.sampled <= |s.written|
            && s.cells[off..off + span] == s.written[|s.read|..|s.read| + span]
  {
    hide Cell;
    SecondSampleLength(s);
    hide Window, S32, IsPow2, SpanOfSecondSample;
    var r, span := |s.read|, SpanOfSecondSample(s);
    Counters(s);
    WindowIsSlice(s.cells, r, span);
    WindowDrop(s.cells, r, span, |s.written|);
    assert s.written[r..][..span] == s.written[r..r + span];
  }

  /** GetCanWriteBuff also samples twice, but there a stale sample is harmless: its span is the
      longest free run at the moment of the second sample. */
  lemma WriteViewIsFree(s: Ring)
    requires Inv(s) && s.writer.WChecked?
    ensures var v := SizeWriteViewStep(s).writer;
            v.len == Min(|s.read| + Size(s) - |s.written|, Size(s) - v.off) > 0
  {
    Counters(s);
    CellStep(|s.read|, |s.written| - |s.read|, Size(s));
  }

  // A run that goes wrong

  lemma {:induction false} ReachesTrans(s: Ring, steps: seq<Action>, t: Ring, more: seq<Action>, u: Ring)
    requires Reaches(s, steps, t) && Reaches(t, more, u)
    ensures Reaches(s, steps + more, u)
    decreases |steps|
  {
    if steps == [] {
      assert steps + more == more;
    } else {
      ReachesTrans(Apply(s, steps[0]), steps[1..], t, more, u);
      assert (steps + more)[1..] == steps[1..] + more;
    }
  }

  /** One more step at the end of a run. */
  lemma AndThen(s: Ring, steps: seq<Action>, t: Ring, a: Action) returns (steps': seq<Action>, t': Ring)
    requires Reaches(s, steps, t) && Inv(t) && Enabled(t, a) && Careful(t, a)
    ensures t' == Apply(t, a) && Inv(t') && Reaches(s, steps', t')
  {
    hide Cell;
    t' := Apply(t, a);
    steps' := steps + [a];
    assert Reaches(t, [a], t') by {
      assert [a][1..] == [];
    }
    ReachesTrans(s, steps, t, [a], t');
    StepKeepsInv(t, a);
  }

  /** What the three steps of a zero-copy write do to the state. */
  lemma PutOnce(t: Ring, n: nat)
    requires Inv(t) && t.writer.WIdle?
    requires 0 < n <= Size(t) - Cell(|t.written|, Size(t)) && |t.written| + n <= |t.read| + Size(t)
    ensures var t1 := CheckWriteViewStep(t);
            && t1 == t.(writer := WChecked)
            && var t2 := SizeWriteViewStep(t1);
            && t2 == t.(writer := t2.writer) && t2.writer.WView? && n <= t2.writer.len
            && var t3 := CommitWriteViewStep(t2, n);
            && t3 == t.(wcount := t3.wcount, writer := WIdle, written := t3.written)
            && |t3.written| == |t.written| + n
  {
    hide Cell;
    Counters(t);
    WriteViewIsFree(t.(writer := WChecked));
  }

  /** The writer publishing `n` bytes through a span of free cells. */
  lemma PutBySpan(s: Ring, steps: seq<Action>, t: Ring, n: nat) returns (steps': seq<Action>, t': Ring)
    requires Reaches(s, steps, t) && Inv(t) && t.writer.WIdle?
    requires 0 < n <= Size(t) - Cell(|t.written|, Size(t)) && |t.written| + n <= |t.read| + Size(t)
    ensures Reaches(s, steps', t') && Inv(t')
    ensures |t'.written| == |t.written| + n && t'.read == t.read
    ensures |t'.cells| == |t.cells| && t'.writer == WIdle && t'.reader == t.reader
  {
    PutOnce(t, n);
    hide Inv, Reaches, Cell, CheckWriteViewStep, SizeWriteViewStep, CommitWriteViewStep;
    steps', t' := AndThen(s, steps, t, CheckWriteView);
    steps', t' := AndThen(s, steps', t', SizeWriteView);
    steps', t' := AndThen(s, steps', t', CommitWriteView(n));
  }

  /** What the three steps of a one-byte Read do to the state. */
  lemma ReadOneByte(t: Ring)
    requires Inv(t) && t.reader.RIdle? && |t.read| < |t.written|
    ensures Enabled(t, BeginRead(1))
    ensures var t1 := Apply(t, BeginRead(1));
            && Enabled(t1, CopyOutByte(0))
            && var t2 := Apply(t1, CopyOutByte(0));
            && Enabled(t2, PublishRead)
            && var t3 := Apply(t2, PublishRead);
            && t3 == t.(rcount := t3.rcount, reader := RIdle, read := t3.read) && |t3.read| == |t.read| + 1
  {
    Counters(t);
  }

  /** The reader taking one byte by Read. */
  lemma TakeOne(s: Ring, steps: seq<Action>, t: Ring) returns (steps': seq<Action>, t': Ring)
    requires Reaches(s, steps, t) && Inv(t) && t.reader.RIdle? && |t.read| < |t.written|
    ensures Reaches(s, steps', t') && Inv(t')
    ensures t'.written == t.written && |t'.read| == |t.read| + 1
    ensures |t'.cells| == |t.cells| && t'.reader == RIdle && t'.writer == t.writer
  {
    ReadOneByte(t);
    hide Inv, Reaches, Cell, Apply, Enabled;
    steps', t' := AndThen(s, steps, t, BeginRead(1));
    steps', t' := AndThen(s, steps', t', CopyOutByte(0));
    steps', t' := AndThen(s, steps', t', PublishRead);
  }

  /** The first two samples GetCanReadBuff takes, with data queued. */
  lemma SampleOnce(s: Ring, steps: seq<Action>, t: Ring) returns (steps': seq<Action>, t': Ring)
    requires Reaches(s, steps, t) && Inv(t) && t.reader.RIdle? && |t.read| < |t.written|
    ensures Reaches(s, steps', t') && Inv(t')
    ensures t' == t.(reader := RSampled(Cell(|t.written|, Size(t)), |t.written|))
  {
    Counters(t);
    hide Inv, Reaches, Cell;
    steps', t' := AndThen(s, steps, t, CheckReadView);
    steps', t' := AndThen(s, steps', t', SampleReadView);
  }

  /** The first half of the run below: two bytes written, one read, two samples taken. */
  lemma SampledAtTwo() returns (s: Ring, steps: seq<Action>, t: Ring)
    ensures Init(s) && Reaches(s, steps, t) && Inv(t)
    ensures |t.cells| == |s.cells| == 4 && t.writer == WIdle && t.reader == RSampled(2, 2)
    ensures |t.written| == 2 && |t.read| == 1
  {
    s := Ring([0, 0, 0, 0], 0, 0, WIdle, RIdle, [], [], false);
    FourCells(s);
    hide Inv, Reaches, Init;
    steps, t := PutBySpan(s, [], s, 2);
    steps, t := TakeOne(s, steps, t);
    steps, t := SampleOnce(s, steps, t);
  }

  lemma FourCells(s: Ring)
    requires s == Ring([0, 0, 0, 0], 0, 0, WIdle, RIdle, [], [], false)
    ensures Init(s) && Inv(s) && Reaches(s, [], s)
  {
    assert IsPow2(4);
  }

  /** In a ring of four cells: with two bytes queued and one consumed, the reader samples the
      writer at cell 2; three more bytes are published; the reader then takes a span of four
      cells from cell 1, one past the end, and reading it all faults. */
  lemma ReadViewCanOverrun() returns (s: Ring, steps: seq<Action>, t: Ring)
    ensures Init(s) && Reaches(s, steps, t) && Size(s) == 4
    ensures t.reader.RView? && t.reader.off + t.reader.span > Size(t) && t.reader.span > 0
    ensures Enabled(t, ConsumeReadView(t.reader.span)) && Apply(t, ConsumeReadView(t.reader.span)).fault
  {
    s, steps, t := SampledAtTwo();
    steps, t := PutBySpan(s, steps, t, 2);
    steps, t := PutBySpan(s, steps, t, 1);
    Counters(t);
    steps, t := AndThen(s, steps, t, SizeReadView);
  }
}
