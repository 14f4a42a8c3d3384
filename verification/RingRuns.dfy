/** What whole calls do when the two threads of RingProtocol interleave: how much a Write puts in
    the ring, a Read takes out and a peek shows, and what a caller stores through a span. */
module RingRuns {
  import opened MachineInts
  import opened RingCells
  import opened RingProtocol

  function Waiting(s: Ring): int {
    |s.written| - |s.read|
  }

  function Room(s: Ring): int {
    Size(s) - Waiting(s)
  }

  lemma RoomIs(s: Ring)
    requires Inv(s)
    ensures 0 <= Waiting(s) <= Size(s) && 0 <= Room(s) <= Size(s)
  {
  }

  /** A call goes on exactly if it can; otherwise it leaves everything as it is. */
  lemma GoesOnIff(s: Ring, len: nat)
    requires Inv(s)
    ensures s.writer.WIdle? ==>
              Apply(s, CheckWriteView) == if Room(s) > 0 then s.(writer := WChecked) else s
    ensures s.reader.RIdle? ==>
              && Apply(s, CheckReadView) == (if Waiting(s) > 0 then s.(reader := RChecked) else s)
              && (Apply(s, BeginRead(len)) == s <==> Waiting(s) == 0)
              && Apply(s, BeginPeek(len)) == (if len <= Waiting(s) then s.(reader := TChecked(len)) else s)
  {
    hide Cell, Window, IsPow2;
    Counters(s);
  }

  lemma {:induction false} Split(s: Ring, xs: seq<Action>, ys: seq<Action>, t: Ring) returns (u: Ring)
    requires Reaches(s, xs + ys, t)
    ensures Reaches(s, xs, u) && Reaches(u, ys, t)
    decreases |xs|
  {
    hide Apply, Enabled;
    if xs == [] {
      assert xs + ys == ys;
      u := s;
    } else {
      assert (xs + ys)[0] == xs[0] && (xs + ys)[1..] == xs[1..] + ys;
      u := Split(Apply(s, xs[0]), xs[1..], ys, t);
    }
  }

  lemma SplitEnds(s: Ring, first: Action, mid: seq<Action>, last: Action, t: Ring) returns (u: Ring)
    requires Reaches(s, [first] + mid + [last], t)
    ensures Enabled(s, first) && Reaches(Apply(s, first), mid, u) && Enabled(u, last) && t == Apply(u, last)
  {
    assert [first] + mid + [last] == [first] + (mid + [last]);
    assert ([first] + (mid + [last]))[1..] == mid + [last];
    u := Split(Apply(s, first), mid, [last], t);
    assert [last][1..] == [];
  }

  // Write

  /** Write copies the longest prefix that fits its sample of the free cells, and publishes it
      whole, whatever the reader does in between. */
  lemma WriteRun(s: Ring, data: seq<Byte>, mid: seq<Action>, t: Ring)
    requires Inv(s) && Reaches(s, [BeginWrite(data)] + mid + [PublishWrite], t) && PublishWrite !in mid
    ensures 0 <= Room(s) && t.written == s.written + data[..Min(|data|, Room(s))]
    ensures t.wcount == S32(s.wcount + Min(|data|, Room(s))) && t.writer == WIdle
    ensures !t.fault ==> Inv(t)
  {
    hide Inv, BeginWriteStep, Reaches, ReachesCarefully;
    var steps := [BeginWrite(data)] + mid + [PublishWrite];
    FaultFreeIff(s, steps, t);
    if !t.fault {
      RunKeepsInv(s, steps, t);
    }
    var u := SplitEnds(s, BeginWrite(data), mid, PublishWrite, t);
    BeginWriteTakes(s, data);
    CopyingStays(Apply(s, BeginWrite(data)), mid, u);
  }

  lemma BeginWriteTakes(s: Ring, data: seq<Byte>)
    requires Inv(s)
    ensures 0 <= Room(s)
    ensures var u := BeginWriteStep(s, data);
            && u.writer.WCopying? && u.writer.data == data[..Min(|data|, Room(s))] && u.writer.done == {}
            && u == s.(writer := u.writer)
  {
    hide Cell, Window, IsPow2;
    Counters(s);
  }

  lemma {:induction false} CopyingStays(s: Ring, mid: seq<Action>, t: Ring)
    requires s.writer.WCopying? && Reaches(s, mid, t) && PublishWrite !in mid
    ensures t.writer.WCopying? && t.writer.data == s.writer.data && t.written == s.written && t.wcount == s.wcount
    decreases |mid|
  {
    if mid != [] {
      CopyingStays(Apply(s, mid[0]), mid[1..], t);
    }
  }

  // Read

  /** Read takes the oldest bytes, as many as asked for or as its sample saw. */
  lemma ReadRun(s: Ring, len: nat, mid: seq<Action>, t: Ring)
    requires Inv(s) && Waiting(s) > 0
    requires Reaches(s, [BeginRead(len)] + mid + [PublishRead], t) && PublishRead !in mid
    ensures Inv(t) && t.reader == RIdle
    ensures t.read == s.written[..|s.read| + Min(len, Waiting(s))]
  {
    var u := SplitEnds(s, BeginRead(len), mid, PublishRead, t);
    StepKeepsInv(s, BeginRead(len));
    BeginReadTakes(s, len);
    hide Inv, BeginReadStep;
    TakingStays(Apply(s, BeginRead(len)), mid, u);
    StepKeepsInv(u, PublishRead);
    ReadIsWritten(s, t);
  }

  lemma BeginReadTakes(s: Ring, len: nat)
    requires Inv(s) && Waiting(s) > 0
    ensures var u := BeginReadStep(s, len);
            && u.reader.RCopying? && !u.reader.peek && u.reader.len == Min(len, Waiting(s)) && u.reader.got == map[]
            && u == s.(reader := u.reader)
  {
    hide Cell, Window, IsPow2;
    Counters(s);
  }

  lemma {:induction false} TakingStays(s: Ring, mid: seq<Action>, t: Ring)
    requires Inv(s) && s.reader.RCopying? && !s.reader.peek && Reaches(s, mid, t) && PublishRead !in mid
    ensures Inv(t) && t.reader.RCopying? && !t.reader.peek && t.reader.len == s.reader.len
    ensures t.read == s.read && s.written <= t.written
    decreases |mid|
  {
    hide Inv;
    if mid != [] {
      StepKeepsInv(s, mid[0]);
      TakingStays(Apply(s, mid[0]), mid[1..], t);
    }
  }

  /** The bytes read are the first of those written. */
  lemma ReadIsWritten(s: Ring, t: Ring)
    requires Inv(s) && Inv(t) && s.written <= t.written && |s.read| <= |t.read| <= |s.written|
    ensures t.read == s.written[..|t.read|]
  {
    hide Window, IsPow2, Cell;
  }

  // TryReadBuff

  /** The action ends what the reader is shown. */
  predicate EndsPeek(a: Action) {
    a.PublishRead? || a.EndPeek? || a.ConsumePeeked?
  }

  /** What TryReadBuff shows once it has answered. */
  ghost predicate Shows(s: Ring, bytes: seq<Byte>) {
    || (s.reader.TInRing? && s.reader.len == |bytes| && 0 <= s.reader.off && s.reader.off + |bytes| <= Size(s)
        && s.cells[s.reader.off..s.reader.off + |bytes|] == bytes)
    || (s.reader.RCopying? && s.reader.peek && s.reader.len == |bytes|
        && forall i :: 0 <= i < |bytes| ==> i in s.reader.got && s.reader.got[i] == bytes[i])
  }

  ghost predicate Answered(s: Ring) {
    || s.reader.TInRing?
    || (s.reader.RCopying? && s.reader.peek && forall i: nat :: i < s.reader.len ==> i in s.reader.got)
  }

  /** A peek for bytes that are there shows exactly them, in whatever way, and consumes nothing. */
  lemma PeekRun(s: Ring, len: nat, mid: seq<Action>, t: Ring)
    requires Inv(s) && len <= Waiting(s) && Reaches(s, [BeginPeek(len)] + mid, t)
    requires (forall a :: a in mid ==> !EndsPeek(a)) && Answered(t)
    ensures Inv(t) && t.read == s.read && Shows(t, s.written[|s.read|..|s.read| + len])
  {
    hide Inv, Reaches, Shows;
    var u := Split(s, [BeginPeek(len)], mid, t);
    OneStep(s, BeginPeek(len), u);
    GoesOnIff(s, len);
    StepKeepsInv(s, BeginPeek(len));
    PeekingStays(u, len, mid, t);
    ShowsFront(s, len, t);
  }

  lemma OneStep(s: Ring, a: Action, t: Ring)
    requires Reaches(s, [a], t)
    ensures Enabled(s, a) && t == Apply(s, a)
  {
    assert [a][1..] == [];
  }

  /** In a peek for `len` bytes. */
  ghost predicate Peeking(s: Ring, len: nat) {
    || (s.reader.TChecked? && s.reader.len == len)
    || (s.reader.TInRing? && s.reader.len == len)
    || (s.reader.RCopying? && s.reader.peek && s.reader.len == len)
  }

  lemma {:induction false} PeekingStays(s: Ring, len: nat, mid: seq<Action>, t: Ring)
    requires Inv(s) && Peeking(s, len) && Reaches(s, mid, t) && forall a :: a in mid ==> !EndsPeek(a)
    ensures Inv(t) && Peeking(t, len) && t.read == s.read && s.written <= t.written
    decreases |mid|
  {
    hide Inv;
    if mid != [] {
      StepKeepsInv(s, mid[0]);
      PeekingStep(s, len, mid[0]);
      PeekingStays(Apply(s, mid[0]), len, mid[1..], t);
    }
  }

  lemma PeekingStep(s: Ring, len: nat, a: Action)
    requires Peeking(s, len) && Enabled(s, a) && !EndsPeek(a)
    ensures Peeking(Apply(s, a), len) && Apply(s, a).read == s.read && s.written <= Apply(s, a).written
  {
  }

  lemma ShowsFront(s: Ring, len: nat, t: Ring)
    requires Inv(s) && Inv(t) && len <= Waiting(s) && t.read == s.read && s.written <= t.written
    requires Peeking(t, len) && Answered(t)
    ensures Shows(t, s.written[|s.read|..|s.read| + len])
  {
    PeekSeesFront(t);
    hide Inv;
    assert t.written[|s.read|..|s.read| + len] == s.written[|s.read|..|s.read| + len];
  }

  /** Ending a peek consumes nothing; the one-argument Read after it consumes that many bytes. */
  lemma AfterPeek(s: Ring, n: nat)
    requires Inv(s) && Answered(s)
    ensures s.reader.TInRing? ==> Apply(s, EndPeek) == s.(reader := RIdle)
    ensures s.reader.RCopying? ==> Apply(s, PublishRead) == s.(reader := RIdle)
    ensures n <= s.reader.len ==>
              var t := Apply(s, ConsumePeeked(n));
              Inv(t) && t.reader == RIdle && t.written == s.written && t.read == s.written[..|s.read| + n]
  {
    hide Inv;
    if n <= s.reader.len {
      PeekBounds(s);
      StepKeepsInv(s, ConsumePeeked(n));
      PeekedCount(s, n);
      ReadIsWritten(s, Apply(s, ConsumePeeked(n)));
    }
  }

  lemma PeekBounds(s: Ring)
    requires Inv(s) && Answered(s)
    ensures |s.read| + s.reader.len <= |s.written| && !s.fault && 0 <= s.reader.off
    ensures s.reader.TInRing? ==> s.reader.off + s.reader.len <= Size(s)
  {
  }

  lemma PeekedCount(s: Ring, n: nat)
    requires Answered(s) && n <= s.reader.len && 0 <= s.reader.off
    requires s.reader.TInRing? ==> s.reader.off + s.reader.len <= Size(s)
    ensures var t := Apply(s, ConsumePeeked(n));
            t.reader == RIdle && t.written == s.written && |t.read| == |s.read| + n
  {
  }

  // Spans

  /** What a caller's stores make of its span. */
  function Filled(view: seq<Byte>, steps: seq<Action>): (filled: seq<Byte>)
    ensures |filled| == |view|
    decreases |steps|
  {
    if steps == [] then view
    else
      var a := steps[0];
      Filled(if a.FillByte? && a.i < |view| then view[a.i := a.b] else view, steps[1..])
  }

  /** Writing through a span publishes what the caller stored there, whatever the reader does. */
  lemma FillRun(s: Ring, mid: seq<Action>, n: nat, t: Ring)
    requires Inv(s) && s.writer.WView? && Reaches(s, mid + [CommitWriteView(n)], t)
    requires forall a :: a in mid ==> !a.CommitWriteView?
    ensures var off, len := s.writer.off, s.writer.len;
            && 0 <= off && 0 <= len && off + len <= Size(s) && n <= len
            && t.written == s.written + Filled(s.cells[off..off + len], mid)[..n] && t.writer == WIdle
  {
    var off, len := s.writer.off, s.writer.len;
    var u := Split(s, mid, [CommitWriteView(n)], t);
    OneStep(u, CommitWriteView(n), t);
    hide Inv;
    FillingStays(s, mid, u);
    assert u.cells[off..off + n] == u.cells[off..off + len][..n];
  }

  lemma {:induction false} FillingStays(s: Ring, mid: seq<Action>, t: Ring)
    requires s.writer.WView? && 0 <= s.writer.off && 0 <= s.writer.len && s.writer.off + s.writer.len <= Size(s)
    requires Reaches(s, mid, t) && forall a :: a in mid ==> !a.CommitWriteView?
    ensures t.writer == s.writer && t.written == s.written && Size(t) == Size(s)
    ensures var off, len := s.writer.off, s.writer.len;
            t.cells[off..off + len] == Filled(s.cells[off..off + len], mid)
    decreases |mid|
  {
    if mid != [] {
      FillStep(s, mid[0]);
      hide Apply;
      FillingStays(Apply(s, mid[0]), mid[1..], t);
    }
  }

  lemma FillStep(s: Ring, a: Action)
    requires s.writer.WView? && 0 <= s.writer.off && 0 <= s.writer.len && s.writer.off + s.writer.len <= Size(s)
    requires Enabled(s, a) && !a.CommitWriteView?
    ensures var t, off, len := Apply(s, a), s.writer.off, s.writer.len;
            && t.writer == s.writer && t.written == s.written && Size(t) == Size(s)
            && var view := s.cells[off..off + len];
               t.cells[off..off + len] == if a.FillByte? && a.i < |view| then view[a.i := a.b] else view
  {
  }

  /** Reading through a span consumes as many bytes as the caller says, the oldest ones. */
  lemma ConsumeRun(s: Ring, mid: seq<Action>, n: nat, t: Ring)
    requires Inv(s) && s.reader.RView? && SpanFits(s) && Reaches(s, mid + [ConsumeReadView(n)], t)
    requires forall a :: a in mid ==> !a.ConsumeReadView?
    ensures Inv(t) && n <= Waiting(s) && t.reader == RIdle && t.read == s.written[..|s.read| + n]
  {
    var u := Split(s, mid, [ConsumeReadView(n)], t);
    OneStep(u, ConsumeReadView(n), t);
    ReadViewHoldsFront(s);
    hide Inv;
    HoldingStays(s, mid, u);
    StepKeepsInv(u, ConsumeReadView(n));
    ReadIsWritten(s, t);
  }

  lemma {:induction false} HoldingStays(s: Ring, mid: seq<Action>, t: Ring)
    requires Inv(s) && s.reader.RView? && SpanFits(s) && Reaches(s, mid, t)
    requires forall a :: a in mid ==> !a.ConsumeReadView?
    ensures Inv(t) && t.reader == s.reader && t.read == s.read && s.written <= t.written && Size(t) == Size(s)
    decreases |mid|
  {
    hide Inv;
    if mid != [] {
      StepKeepsInv(s, mid[0]);
      HoldingStays(Apply(s, mid[0]), mid[1..], t);
    }
  }

  // Every call can be completed

  /** Alone, a Write comes to its end, and has put in all that fits. */
  lemma WriteOnce(s: Ring, data: seq<Byte>) returns (steps: seq<Action>, t: Ring)
    requires Inv(s) && s.writer.WIdle?
    ensures Reaches(s, steps, t) && Inv(t) && t.writer == WIdle && t.reader == s.reader && t.read == s.read
    ensures 0 <= Room(s) && t.written == s.written + data[..Min(|data|, Room(s))]
  {
    hide Inv, Reaches, BeginWriteStep;
    NoSteps(s);
    BeginWriteTakes(s, data);
    var u;
    steps, u := AndThen(s, [], s, BeginWrite(data));
    steps, u := CopyFrom(s, steps, u, 0);
    PublishIs(u);
    steps, t := AndThen(s, steps, u, PublishWrite);
  }

  lemma NoSteps(s: Ring)
    ensures Reaches(s, [], s)
  {
  }

  lemma PublishIs(s: Ring)
    requires s.writer.WCopying? && Enabled(s, PublishWrite)
    ensures var t := Apply(s, PublishWrite);
            && t.writer == WIdle && t.reader == s.reader && t.read == s.read
            && t.written == s.written + s.writer.data
  {
  }

  /** The first `i` bytes are copied in. */
  ghost predicate CopiedIn(s: Ring, i: nat) {
    s.writer.WCopying? && i <= |s.writer.data| && forall j: nat :: j in s.writer.done <==> j < i
  }

  lemma CopyStep(s: Ring, i: nat)
    requires CopiedIn(s, i) && i < |s.writer.data|
    ensures Enabled(s, CopyInByte(i)) && Careful(s, CopyInByte(i))
    ensures var t := Apply(s, CopyInByte(i));
            && CopiedIn(t, i + 1) && t.writer.data == s.writer.data
            && t.reader == s.reader && t.read == s.read && t.written == s.written
  {
  }

  lemma {:induction false} CopyFrom(s: Ring, steps: seq<Action>, u: Ring, i: nat)
    returns (steps': seq<Action>, t: Ring)
    requires Reaches(s, steps, u) && Inv(u) && CopiedIn(u, i)
    ensures Reaches(s, steps', t) && Inv(t) && CopiedIn(t, |u.writer.data|) && t.writer.data == u.writer.data
    ensures t.reader == u.reader && t.read == u.read && t.written == u.written && Enabled(t, PublishWrite)
    decreases |u.writer.data| - i
  {
    hide Inv, Reaches, Apply;
    if i == |u.writer.data| {
      return steps, u;
    }
    CopyStep(u, i);
    var v;
    steps', v := AndThen(s, steps, u, CopyInByte(i));
    steps', t := CopyFrom(s, steps', v, i + 1);
  }

  /** Alone, a Read comes to its end. */
  lemma ReadOnce(s: Ring, len: nat) returns (steps: seq<Action>, t: Ring)
    requires Inv(s) && s.reader.RIdle? && Waiting(s) > 0
    ensures Reaches(s, steps, t) && Inv(t) && t.reader == RIdle && t.writer == s.writer && t.written == s.written
    ensures t.read == s.written[..|s.read| + Min(len, Waiting(s))]
  {
    hide Inv, Reaches, BeginReadStep;
    NoSteps(s);
    BeginReadTakes(s, len);
    var u;
    steps, u := AndThen(s, [], s, BeginRead(len));
    steps, u := TakeFrom(s, steps, u, 0);
    TakenIs(u);
    steps, t := AndThen(s, steps, u, PublishRead);
    ReadIsWritten(s, t);
  }

  lemma TakenIs(s: Ring)
    requires Inv(s) && s.reader.RCopying? && !s.reader.peek && Enabled(s, PublishRead)
    ensures var t := Apply(s, PublishRead);
            && t.reader == RIdle && t.writer == s.writer && t.written == s.written
            && |t.read| == |s.read| + s.reader.len <= |s.written|
  {
  }

  /** The first `i` bytes are copied out. */
  ghost predicate CopiedOut(s: Ring, i: nat) {
    s.reader.RCopying? && i <= s.reader.len && forall j: nat :: j in s.reader.got <==> j < i
  }

  lemma TakeStep(s: Ring, i: nat)
    requires Inv(s) && CopiedOut(s, i) && i < s.reader.len
    ensures Enabled(s, CopyOutByte(i)) && Careful(s, CopyOutByte(i))
    ensures var t := Apply(s, CopyOutByte(i));
            && CopiedOut(t, i + 1) && t.reader.len == s.reader.len && t.reader.peek == s.reader.peek
            && t.writer == s.writer && t.read == s.read && t.written == s.written
  {
    CopyCellIsCell(|s.read|, s.reader.off, s.reader.first, s.reader.len, i, Size(s));
  }

  lemma {:induction false} TakeFrom(s: Ring, steps: seq<Action>, u: Ring, i: nat)
    returns (steps': seq<Action>, t: Ring)
    requires Reaches(s, steps, u) && Inv(u) && CopiedOut(u, i)
    ensures Reaches(s, steps', t) && Inv(t) && CopiedOut(t, u.reader.len)
    ensures t.reader.len == u.reader.len && t.reader.peek == u.reader.peek
    ensures t.writer == u.writer && t.read == u.read && t.written == u.written && Enabled(t, PublishRead)
    decreases u.reader.len - i
  {
    hide Inv, Reaches, Apply;
    if i == u.reader.len {
      return steps, u;
    }
    TakeStep(u, i);
    var v;
    steps', v := AndThen(s, steps, u, CopyOutByte(i));
    steps', t := TakeFrom(s, steps', v, i + 1);
  }

  /** Alone, TryReadBuff answers when the bytes are there, and shows them. */
  lemma PeekOnce(s: Ring, len: nat) returns (steps: seq<Action>, t: Ring)
    requires Inv(s) && s.reader.RIdle? && len <= Waiting(s)
    ensures Reaches(s, steps, t) && Inv(t) && Answered(t) && Shows(t, s.written[|s.read|..|s.read| + len])
    ensures t.writer == s.writer && t.read == s.read && t.written == s.written
  {
    hide Inv, Reaches, Shows;
    NoSteps(s);
    GoesOnIff(s, len);
    var u;
    steps, u := AndThen(s, [], s, BeginPeek(len));
    BranchIs(u, len);
    steps, t := AndThen(s, steps, u, BranchPeek);
    if t.reader.RCopying? {
      steps, t := TakeFrom(s, steps, t, 0);
    }
    ShowsFront(s, len, t);
  }

  lemma BranchIs(s: Ring, len: nat)
    requires s.reader.TChecked? && s.reader.len == len
    ensures var t := Apply(s, BranchPeek);
            && Peeking(t, len) && (t.reader.TInRing? || CopiedOut(t, 0))
            && t.writer == s.writer && t.read == s.read && t.written == s.written
  {
  }

  /** Alone, a caller can fill the whole span it is given and publish that. */
  lemma FillOnce(s: Ring, bytes: seq<Byte>) returns (steps: seq<Action>, t: Ring)
    requires Inv(s) && s.writer.WIdle?
    requires 0 < |bytes| <= Min(Room(s), Size(s) - Cell(|s.written|, Size(s)))
    ensures Reaches(s, steps, t) && Inv(t) && t.writer == WIdle && t.reader == s.reader && t.read == s.read
    ensures t.written == s.written + bytes
  {
    hide Inv, Reaches, CheckWriteViewStep, SizeWriteViewStep, CommitWriteViewStep, Cell;
    NoSteps(s);
    PutOnce(s, |bytes|);
    var u;
    steps, u := AndThen(s, [], s, CheckWriteView);
    steps, u := AndThen(s, steps, u, SizeWriteView);
    HeldSpan(u);
    steps, u := StoreFrom(s, steps, u, bytes, 0);
    CommitIs(u, bytes);
    steps, t := AndThen(s, steps, u, CommitWriteView(|bytes|));
  }

  lemma HeldSpan(s: Ring)
    requires Inv(s) && s.writer.WView?
    ensures 0 <= s.writer.off && 0 < s.writer.len && s.writer.off + s.writer.len <= Size(s)
  {
  }

  /** The first `i` of these bytes are stored in the span. */
  ghost predicate StoredIn(s: Ring, bytes: seq<Byte>, i: nat) {
    && s.writer.WView? && 0 <= s.writer.off && i <= |bytes| <= s.writer.len
    && s.writer.off + s.writer.len <= Size(s) && s.cells[s.writer.off..s.writer.off + i] == bytes[..i]
  }

  lemma StoreStep(s: Ring, bytes: seq<Byte>, i: nat)
    requires StoredIn(s, bytes, i) && i < |bytes|
    ensures Enabled(s, FillByte(i, bytes[i])) && Careful(s, FillByte(i, bytes[i]))
    ensures var t := Apply(s, FillByte(i, bytes[i]));
            && StoredIn(t, bytes, i + 1) && t.writer == s.writer
            && t.reader == s.reader && t.read == s.read && t.written == s.written
  {
    var t, off := Apply(s, FillByte(i, bytes[i])), s.writer.off;
    assert t.cells[off..off + i + 1] == s.cells[off..off + i] + [bytes[i]];
  }

  lemma {:induction false} StoreFrom(s: Ring, steps: seq<Action>, u: Ring, bytes: seq<Byte>, i: nat)
    returns (steps': seq<Action>, t: Ring)
    requires Reaches(s, steps, u) && Inv(u) && StoredIn(u, bytes, i)
    ensures Reaches(s, steps', t) && Inv(t) && StoredIn(t, bytes, |bytes|) && t.writer == u.writer
    ensures t.reader == u.reader && t.read == u.read && t.written == u.written
    decreases |bytes| - i
  {
    hide Inv, Reaches, Apply, Enabled, Careful;
    if i == |bytes| {
      return steps, u;
    }
    StoreStep(u, bytes, i);
    var v;
    steps', v := AndThen(s, steps, u, FillByte(i, bytes[i]));
    steps', t := StoreFrom(s, steps', v, bytes, i + 1);
  }

  lemma CommitIs(s: Ring, bytes: seq<Byte>)
    requires StoredIn(s, bytes, |bytes|)
    ensures Enabled(s, CommitWriteView(|bytes|))
    ensures var t := Apply(s, CommitWriteView(|bytes|));
            && t.writer == WIdle && t.reader == s.reader && t.read == s.read && t.written == s.written + bytes
  {
    assert bytes[..|bytes|] == bytes;
  }
}
