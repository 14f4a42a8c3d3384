/** RedisHelper.cpp and the pipeline of RedisMgr.cpp: the partial-send loop and the reply loops over
    a hiredis context. What the kernel answers is a script: one event per call of `send` and one
    per `redisBufferRead`; a call left without an event is still waiting. */
module RedisWrapper {
  import opened MachineInts
  import opened Decimal
  import opened Resp
  import opened RedisCmdBuilders

  const REDIS_OK := 0
  const REDIS_ERR := -1
  const REDIS_ERR_IO := 1
  const REDIS_ERR_EOF := 3
  const REDIS_ERR_PROTOCOL := 4

  /** `send`: takes at most `n` bytes, or fails with EWOULDBLOCK, EINTR or another error. */
  datatype SendEvent = Accepts(n: nat) | WouldBlock | Interrupted | SendFails

  /** `redisBufferRead`: some bytes arrive, or the read fails. */
  datatype ReadEvent = Arrives(bytes: Bytes) | ReadFails

  /** How a call ends: with a code, still waiting for the kernel, or by touching memory in front
      of the builder's buffer. */
  datatype Ret = Returned(code: int) | Waiting | OutOfBounds

  class RedisContext {
    var err: int
    var blocking: bool                // flags & REDIS_BLOCK
    var obuf: RedisCmdBuilder?        // the builder obuf points into ...
    var off: int                      // ... and the offset
    ghost var wire: Bytes             // every byte handed to the kernel so far
    var reader: Bytes                 // received and not yet parsed

    constructor (blocking: bool)
      ensures err == 0 && this.blocking == blocking && obuf == null && wire == [] && reader == []
    {
      err, this.blocking, obuf, off, wire, reader := 0, blocking, null, 0, [], [];
    }
  }

  /** A send that failed in a way the loop takes for "try again". */
  predicate Transient(e: SendEvent, blocking: bool) {
    e.Interrupted? || (e.WouldBlock? && !blocking)
  }

  function Transients(es: seq<SendEvent>, blocking: bool): nat {
    if es == [] then 0
    else Transients(es[..|es| - 1], blocking) + if Transient(es[|es| - 1], blocking) then 1 else 0
  }

  lemma TransientsSnoc(es: seq<SendEvent>, k: nat, blocking: bool)
    requires k < |es|
    ensures Transients(es[..k + 1], blocking) ==
            Transients(es[..k], blocking) + if Transient(es[k], blocking) then 1 else 0
  {
    assert es[..k + 1][..k] == es[..k];
  }

  lemma {:induction false} TransientsAdd(xs: seq<SendEvent>, ys: seq<SendEvent>, blocking: bool)
    ensures Transients(xs + ys, blocking) == Transients(xs, blocking) + Transients(ys, blocking)
  {
    if ys == [] {
      assert xs + [] == xs;
    } else {
      TransientsAdd(xs, ys[..|ys| - 1], blocking);
      assert (xs + ys)[..|xs + ys| - 1] == xs + ys[..|ys| - 1];
    }
  }

  /** They are the interrupted calls and, on a non-blocking socket, the ones that would block. */
  lemma {:induction false} TransientsAre(es: seq<SendEvent>, blocking: bool)
    ensures Transients(es, blocking) == multiset(es)[Interrupted] + if blocking then 0 else multiset(es)[WouldBlock]
  {
    if es != [] {
      TransientsAre(es[..|es| - 1], blocking);
      assert es == es[..|es| - 1] + [es[|es| - 1]];
    }
  }

  lemma NoTransients(es: seq<SendEvent>, blocking: bool)
    ensures Transients(es[..0], blocking) == 0
  {
  }

  /** The bytes at the cursor are the next of those to be sent. */
  lemma NextBytes(before: Bytes, todo: Bytes, all: Bytes, cmd: Bytes, at: nat, sent: nat, n: nat)
    requires |cmd| == |all| && at + |todo| <= |all| && todo == all[at..at + |todo|]
    requires cmd[at..] == all[at..] && sent + n <= |todo|
    ensures (before + todo[..sent]) + cmd[at + sent..at + sent + n] == before + todo[..sent + n]
  {
    var next, rest := cmd[at + sent..at + sent + n], todo[sent..sent + n];
    forall k | 0 <= k < n
      ensures next[k] == rest[k]
    {
      assert next[k] == cmd[at..][sent + k] && rest[k] == all[at..][sent + k];
    }
    assert next == rest;
    assert todo[..sent] + rest == todo[..sent + n];
  }

  lemma Conserved(before: Bytes, todo: Bytes, sent: nat)
    requires sent <= |todo|
    ensures (before + todo[..sent]) + todo[|todo| - (|todo| - sent)..] == before + todo
    ensures sent == 0 ==> before + todo[..sent] == before
    ensures sent == |todo| ==> before + todo[..sent] == before + todo
  {
    assert todo[..sent] + todo[sent..] == todo;
    assert todo[..0] == [];
  }

  /** `*len = v` on the slot right before offset `at`. */
  function PutSlot(cmd: Bytes, at: nat, v: int): (r: Bytes)
    requires 4 <= at <= |cmd|
    ensures |r| == |cmd| && r[at..] == cmd[at..] && r[..at - 4] == cmd[..at - 4]
    ensures IsS32(v) ==> Slot(r, at) == v
  {
    var r := cmd[..at - 4] + Int32Bytes(v) + cmd[at..];
    assert r[at - 4..at] == Int32Bytes(v);
    assert IsS32(v) ==> Slot(r, at) == v by {
      if IsS32(v) {
        SlotHolds(r, at, v);
      }
    }
    r
  }

  /** The context points at a buffer whose slot counts bytes that are there. */
  ghost predicate Pointed(c: RedisContext)
    reads c, c.obuf
  {
    && c.obuf != null && 4 <= c.off <= |c.obuf.cmd| < TWO_31 - 1
    && 0 <= Slot(c.obuf.cmd, c.off) <= |c.obuf.cmd| - c.off
  }

  /** What the slot says is still to be sent. */
  ghost function Pending(c: RedisContext): Bytes
    requires Pointed(c)
    reads c, c.obuf
  {
    c.obuf.cmd[c.off..c.off + Slot(c.obuf.cmd, c.off)]
  }

  /** The first `k` calls of `send` each take at least a byte. */
  predicate Progressing(sends: seq<SendEvent>, k: nat) {
    k <= |sends| && forall i :: 0 <= i < k ==> sends[i].Accepts? && sends[i].n > 0
  }

  /** A send that failed for good. */
  predicate Fatal(e: SendEvent, blocking: bool) {
    !e.Accepts? && !Transient(e, blocking)
  }

  /** How the send loop ends, how many events it has used, and what is left in the slot. */
  datatype SendEnd = SendEnd(ret: Ret, used: nat, left: int)

  /** What the script of events makes of `len` bytes pending from the `k`-th event on, when the
      cursor is `room - len` bytes behind the start of the buffer. */
  function SendFrom(sends: seq<SendEvent>, k: nat, blocking: bool, room: int, len: int): (s: SendEnd)
    requires k <= |sends|
    ensures k <= s.used <= |sends|
    decreases |sends| - k
  {
    if len <= 0 then SendEnd(Returned(REDIS_OK), k, len)
    else if len > room then SendEnd(OutOfBounds, k, len)
    else if k == |sends| then SendEnd(Waiting, k, len)
    else if Fatal(sends[k], blocking) then SendEnd(Returned(REDIS_ERR), k + 1, len)
    else SendFrom(sends, k + 1, blocking, room, len - if sends[k].Accepts? then Min(sends[k].n, len) else -1)
  }

  /** An error has a cause, waiting means that no event is left, and nothing is left unsent only if
      it ended well. */
  lemma {:induction false} SendFromEnds(sends: seq<SendEvent>, k: nat, blocking: bool, room: int, len: int)
    requires k <= |sends| && 0 <= len
    ensures var s := SendFrom(sends, k, blocking, room, len);
            && k <= s.used <= |sends| && 0 <= s.left
            && s.ret in {Returned(REDIS_OK), Returned(REDIS_ERR), Waiting, OutOfBounds}
            && (s.ret == Returned(REDIS_OK) <==> s.left == 0)
            && (s.ret == Returned(REDIS_ERR) ==> k < s.used && Fatal(sends[s.used - 1], blocking))
            && (forall i :: k <= i < s.used && Fatal(sends[i], blocking) ==>
                  i == s.used - 1 && s.ret == Returned(REDIS_ERR))
            && (0 < len <= room && k < |sends| ==> k < s.used)
            && (s.ret == Waiting ==> s.used == |sends|) && (s.ret == OutOfBounds ==> s.left > room)
    decreases |sends| - k
  {
    if 0 < len <= room && k < |sends| && !Fatal(sends[k], blocking) {
      SendFromEnds(sends, k + 1, blocking, room, len - if sends[k].Accepts? then Min(sends[k].n, len) else -1);
    }
  }

  /** While every send makes progress, sends and bytes left never exceed the bytes there were; as
      many sends as there are bytes suffice. */
  lemma {:induction false} SendFromProgress(sends: seq<SendEvent>, k: nat, blocking: bool, room: int, len: int)
    requires k <= |sends| && 0 <= len <= room
    ensures var s := SendFrom(sends, k, blocking, room, len);
            && (Progressing(sends, s.used) ==> s.used + s.left <= k + len)
            && (Progressing(sends, k + len) ==> s.ret == Returned(REDIS_OK) && s.used <= k + len)
    decreases |sends| - k
  {
    if 0 < len && k < |sends| && !Fatal(sends[k], blocking) {
      var len' := len - if sends[k].Accepts? then Min(sends[k].n, len) else -1;
      if sends[k].Accepts? {
        SendFromProgress(sends, k + 1, blocking, room, len');
      }
      SendFromEnds(sends, k + 1, blocking, room, len');
    }
  }

  /** What the kernel offers to take, from the `k`-th call on. */
  function Offered(sends: seq<SendEvent>, k: nat): nat
    requires k <= |sends|
    decreases |sends| - k
  {
    if k == |sends| then 0 else Offered(sends, k + 1) + if sends[k].Accepts? then sends[k].n else 0
  }

  /** If no call fails, as much goes out as the kernel offers to take, at most what there is. */
  lemma {:induction false} SendFromAccepts(sends: seq<SendEvent>, k: nat, blocking: bool, room: int, len: int)
    requires k <= |sends| && 0 <= len <= room && forall i :: k <= i < |sends| ==> sends[i].Accepts?
    ensures var s := SendFrom(sends, k, blocking, room, len);
            s.left == len - Min(len, Offered(sends, k)) && s.ret == if s.left == 0 then Returned(REDIS_OK) else Waiting
    decreases |sends| - k
  {
    if 0 < len && k < |sends| {
      SendFromAccepts(sends, k + 1, blocking, room, len - Min(sends[k].n, len));
    }
  }

  /** The same from the rest of the script. */
  lemma {:induction false} SendFromRest(sends: seq<SendEvent>, k: nat, j: nat, blocking: bool, room: int, len: int)
    requires k + j <= |sends|
    ensures var s := SendFrom(sends[k..], j, blocking, room, len);
            SendFrom(sends, k + j, blocking, room, len) == s.(used := k + s.used)
    decreases |sends| - k - j
  {
    if 0 < len <= room && k + j < |sends| && !Fatal(sends[k + j], blocking) {
      SendFromRest(sends, k, j + 1, blocking, room,
                   len - if sends[k + j].Accepts? then Min(sends[k + j].n, len) else -1);
    }
  }

  /** The send loop. `t` counts the transient failures it saw; each moves the cursor back by one
      and the slot up by one. Without them the bytes on the wire, followed by the bytes still
      pending, are always the bytes that were to be sent; when the loop ends well the wire has
      grown by the whole command plus one byte for each transient failure. While every send makes
      progress the pending length is the measure: as many sends as there are bytes suffice. */
  method RedisBufferWriteInner(c: RedisContext, sends: seq<SendEvent>)
    returns (ret: Ret, used: nat, ghost t: nat)
    requires Pointed(c)
    modifies c`err, c`off, c`wire, c.obuf`cmd
    ensures used <= |sends| && t == Transients(sends[..used], c.blocking)
    ensures |c.obuf.cmd| == |old(c.obuf.cmd)| && c.obuf.cmd[old(c.off)..] == old(c.obuf.cmd[c.off..])
    ensures c.obuf.cmd[..old(c.off) - 4] == old(c.obuf.cmd[..c.off - 4])
    ensures old(c.err) != 0 ==> c.err == old(c.err)
    ensures old(c.err) != 0 ==>
              ret == Returned(REDIS_ERR) && used == 0 == t && c.wire == old(c.wire) && c.obuf.cmd == old(c.obuf.cmd)
    ensures ret == Returned(REDIS_OK) ==>
              && old(c.err) == 0 == c.err && Slot(c.obuf.cmd, old(c.off)) == 0
              && |c.wire| == |old(c.wire)| + |old(Pending(c))| + t
              && (t == 0 <==> c.wire == old(c.wire) + old(Pending(c)))
    ensures ret == Returned(REDIS_ERR) && old(c.err) == 0 ==> c.err == REDIS_ERR_IO
    ensures ret == Waiting ==> c.err == 0 && used == |sends|
    ensures ret == OutOfBounds ==> c.err == 0
    ensures ret in {Returned(REDIS_OK), Returned(REDIS_ERR), Waiting, OutOfBounds}
    ensures t == 0 ==> ret != OutOfBounds
    ensures t == 0 ==> var left := Slot(c.obuf.cmd, old(c.off));
              && 0 <= left <= |old(Pending(c))|
              && c.wire + old(Pending(c))[|old(Pending(c))| - left..] == old(c.wire) + old(Pending(c))
              && c.wire <= old(c.wire) + old(Pending(c))
    ensures var left := Slot(c.obuf.cmd, old(c.off));
            0 <= left && |c.wire| + left == |old(c.wire)| + |old(Pending(c))| + t
    ensures old(c.err) == 0 && Progressing(sends, used) ==>
              used + Slot(c.obuf.cmd, old(c.off)) <= |old(Pending(c))|
    ensures old(c.err) == 0 && Progressing(sends, |old(Pending(c))|) ==> ret == Returned(REDIS_OK)
    ensures old(c.err) == 0 ==>
              SendEnd(ret, used, Slot(c.obuf.cmd, old(c.off))) ==
              SendFrom(sends, 0, c.blocking, old(c.off) + |old(Pending(c))|, |old(Pending(c))|)
    ensures ret == Returned(REDIS_ERR) && old(c.err) == 0 ==> used > 0 && Fatal(sends[used - 1], c.blocking)
    ensures forall i :: 0 <= i < used && (sends[i].SendFails? || (sends[i].WouldBlock? && c.blocking)) ==>
              i == used - 1 && ret == Returned(REDIS_ERR)
    ensures ret == Returned(REDIS_ERR) && old(c.err) == 0 ==>
              used > 0 && (sends[used - 1].SendFails? || (sends[used - 1].WouldBlock? && c.blocking))
    ensures t == multiset(sends[..used])[Interrupted] + if c.blocking then 0 else multiset(sends[..used])[WouldBlock]
    ensures old(c.err) == 0 && |old(Pending(c))| > 0 && sends != [] ==> used > 0
    ensures used == 1 && ret == Returned(REDIS_ERR) ==> c.wire == old(c.wire)
    ensures old(c.err) == 0 && (forall i :: 0 <= i < |sends| ==> sends[i].Accepts?) ==>
              Slot(c.obuf.cmd, old(c.off)) == |old(Pending(c))| - Min(|old(Pending(c))|, Offered(sends, 0))
  {
    hide Slot, Transients, Progressing, SendFrom, Fatal, Offered, Pending, Pointed, WroteOut;
    PointedSays(c);
    ghost var todo, before, at, sound := Pending(c), c.wire, c.off, c.err == 0;
    ret, used, t := SendPending(c, sends);
    NoTransients(sends, c.blocking);
    if sound {
      WroteOutMeans(todo, before, at, sends, c.blocking, c.wire, ret, used, t, Slot(c.obuf.cmd, at));
    } else {
      NothingOut(todo, before, sends);
    }
  }

  /** The call on the values: what was to be sent, the wire before and after, and the script. */
  ghost predicate WroteOut(todo: Bytes, before: Bytes, at: nat, sends: seq<SendEvent>, blocking: bool,
                           wire: Bytes, ret: Ret, used: nat, t: nat, left: int)
  {
    && SendEnd(ret, used, left) == SendFrom(sends, 0, blocking, at + |todo|, |todo|)
    && used <= |sends| && t == Transients(sends[..used], blocking)
    && 0 <= left && |wire| + left == |before| + |todo| + t && (ret == OutOfBounds ==> t > 0)
    && (t == 0 ==> left <= |todo| && wire + todo[|todo| - left..] == before + todo && wire <= before + todo)
    && (left == 0 ==> (t == 0 <==> wire == before + todo))
  }

  lemma WroteOutMeans(todo: Bytes, before: Bytes, at: nat, sends: seq<SendEvent>, blocking: bool,
                      wire: Bytes, ret: Ret, used: nat, t: nat, left: int)
    requires WroteOut(todo, before, at, sends, blocking, wire, ret, used, t, left)
    ensures used <= |sends| && t == Transients(sends[..used], blocking) && 0 <= left
    ensures SendEnd(ret, used, left) == SendFrom(sends, 0, blocking, at + |todo|, |todo|)
    ensures ret in {Returned(REDIS_OK), Returned(REDIS_ERR), Waiting, OutOfBounds}
    ensures ret == Returned(REDIS_OK) ==>
              left == 0 && |wire| == |before| + |todo| + t && (t == 0 <==> wire == before + todo)
    ensures (ret == Waiting ==> used == |sends|) && (t == 0 ==> ret != OutOfBounds)
    ensures t == 0 ==>
              left <= |todo| && wire + todo[|todo| - left..] == before + todo && wire <= before + todo
    ensures |wire| + left == |before| + |todo| + t
    ensures Progressing(sends, used) ==> used + left <= |todo|
    ensures Progressing(sends, |todo|) ==> ret == Returned(REDIS_OK)
    ensures ret == Returned(REDIS_ERR) ==>
              && used > 0 && Fatal(sends[used - 1], blocking)
              && (sends[used - 1].SendFails? || (sends[used - 1].WouldBlock? && blocking))
    ensures forall i :: 0 <= i < used && (sends[i].SendFails? || (sends[i].WouldBlock? && blocking)) ==>
              i == used - 1 && ret == Returned(REDIS_ERR)
    ensures t == multiset(sends[..used])[Interrupted] + if blocking then 0 else multiset(sends[..used])[WouldBlock]
    ensures |todo| > 0 && sends != [] ==> used > 0
    ensures used == 1 && ret == Returned(REDIS_ERR) ==> wire == before
    ensures (forall i :: 0 <= i < |sends| ==> sends[i].Accepts?) ==> left == |todo| - Min(|todo|, Offered(sends, 0))
  {
    hide Transients, Progressing, SendFrom, Fatal, Offered, WroteOut;
    SendMeans(sends, blocking, at + |todo|, |todo|);
    WroteOutSays(todo, before, at, sends, blocking, wire, ret, used, t, left);
  }

  lemma WroteOutSays(todo: Bytes, before: Bytes, at: nat, sends: seq<SendEvent>, blocking: bool,
                     wire: Bytes, ret: Ret, used: nat, t: nat, left: int)
    requires WroteOut(todo, before, at, sends, blocking, wire, ret, used, t, left)
    ensures SendEnd(ret, used, left) == SendFrom(sends, 0, blocking, at + |todo|, |todo|)
    ensures used <= |sends| && t == Transients(sends[..used], blocking) && 0 <= left
    ensures |wire| + left == |before| + |todo| + t && (t == 0 ==> ret != OutOfBounds)
    ensures t == 0 ==>
              left <= |todo| && wire + todo[|todo| - left..] == before + todo && wire <= before + todo
    ensures left == 0 ==> (t == 0 <==> wire == before + todo)
    ensures used == 1 && Fatal(sends[0], blocking) && left == |todo| ==> wire == before
  {
    hide Transients, SendFrom, Fatal;
    if used == 1 && Fatal(sends[0], blocking) {
      OnlyFatal(sends, blocking);
    }
  }

  lemma OnlyFatal(sends: seq<SendEvent>, blocking: bool)
    requires sends != [] && Fatal(sends[0], blocking)
    ensures Transients(sends[..1], blocking) == 0
  {
    assert sends[..1][..0] == [];
  }

  lemma NothingOut(todo: Bytes, before: Bytes, sends: seq<SendEvent>)
    ensures before + todo[|todo| - |todo|..] == before + todo && before <= before + todo
    ensures |multiset(sends[..0])| == 0
  {
  }

  /** The call, with what it does on a sound context put together. */
  method SendPending(c: RedisContext, sends: seq<SendEvent>)
    returns (ret: Ret, used: nat, ghost t: nat)
    requires Pointed(c)
    modifies c`err, c`off, c`wire, c.obuf`cmd
    ensures c.obuf != null && 4 <= old(c.off) <= |c.obuf.cmd| == |old(c.obuf.cmd)|
    ensures c.obuf.cmd[old(c.off)..] == old(c.obuf.cmd[c.off..])
    ensures c.obuf.cmd[..old(c.off) - 4] == old(c.obuf.cmd[..c.off - 4])
    ensures old(c.err) != 0 ==>
              && ret == Returned(REDIS_ERR) && used == 0 == t && c.err == old(c.err)
              && c.wire == old(c.wire) && c.obuf.cmd == old(c.obuf.cmd)
    ensures old(c.err) == 0 ==>
              && c.err == (if ret == Returned(REDIS_ERR) then REDIS_ERR_IO else 0)
              && WroteOut(old(Pending(c)), old(c.wire), old(c.off), sends, c.blocking,
                          c.wire, ret, used, t, Slot(c.obuf.cmd, old(c.off)))
  {
    hide Slot, Transients, Sending, SendFrom, Pending, Pointed, WroteOut;
    PointedSays(c);
    var at, b: RedisCmdBuilder := c.off, c.obuf;
    ghost var todo, all, before := Pending(c), b.cmd, c.wire;
    Starting(all, at, todo, before, Slot(b.cmd, at));
    if c.err != 0 {
      return Returned(REDIS_ERR), 0, 0;
    }
    ghost var len;
    ret, used, t, len := SendLoop(c, b, at, sends, all, todo, before);
    Stopped(all, at, todo, before, b.cmd, c.off, c.wire, len, t);
    LoopWroteOut(todo, before, at, sends, c.blocking, c.wire, ret, used, t, len, c.off);
  }

  lemma LoopWroteOut(todo: Bytes, before: Bytes, at: nat, sends: seq<SendEvent>, blocking: bool,
                     wire: Bytes, ret: Ret, used: nat, t: nat, left: int, off: int)
    requires SendEnd(ret, used, left) == SendFrom(sends, 0, blocking, at + |todo|, |todo|)
    requires used <= |sends| && t == Transients(sends[..used], blocking)
    requires 0 <= left && |wire| + left == |before| + |todo| + t && (t == 0 ==> off >= 0)
    requires ret == OutOfBounds ==> off < 0
    requires t == 0 ==> left <= |todo| && wire + todo[|todo| - left..] == before + todo && wire <= before + todo
    requires left == 0 ==> (t == 0 <==> wire == before + todo)
    ensures WroteOut(todo, before, at, sends, blocking, wire, ret, used, t, left)
  {
  }

  lemma PointedSays(c: RedisContext)
    requires Pointed(c)
    ensures c.obuf != null
    ensures var cmd, at := c.obuf.cmd, c.off;
            && 4 <= at && |Pending(c)| == Slot(cmd, at) && at + |Pending(c)| <= |cmd| < TWO_31 - 1
            && Pending(c) == cmd[at..at + |Pending(c)|]
  {
  }

  /** What a script of events says of the call, in terms of the events. */
  lemma SendMeans(sends: seq<SendEvent>, blocking: bool, room: int, len: int)
    requires 0 <= len <= room
    ensures var s := SendFrom(sends, 0, blocking, room, len);
            && s.used <= |sends| && 0 <= s.left
            && s.ret in {Returned(REDIS_OK), Returned(REDIS_ERR), Waiting, OutOfBounds}
            && (s.ret == Returned(REDIS_OK) <==> s.left == 0)
            && (s.ret == Returned(REDIS_ERR) ==>
                  && s.used > 0 && Fatal(sends[s.used - 1], blocking)
                  && (sends[s.used - 1].SendFails? || (sends[s.used - 1].WouldBlock? && blocking)))
            && (forall i :: 0 <= i < s.used && (sends[i].SendFails? || (sends[i].WouldBlock? && blocking)) ==>
                  i == s.used - 1 && s.ret == Returned(REDIS_ERR))
            && Transients(sends[..s.used], blocking) ==
               multiset(sends[..s.used])[Interrupted] + (if blocking then 0 else multiset(sends[..s.used])[WouldBlock])
            && (len > 0 && sends != [] ==> s.used > 0) && (s.ret == Waiting ==> s.used == |sends|)
            && (s.used == 1 && s.ret == Returned(REDIS_ERR) ==> s.left == len)
            && (Progressing(sends, s.used) ==> s.used + s.left <= len)
            && (Progressing(sends, len) ==> s.ret == Returned(REDIS_OK))
            && ((forall i :: 0 <= i < |sends| ==> sends[i].Accepts?) ==> s.left == len - Min(len, Offered(sends, 0)))
  {
    SendFromEnds(sends, 0, blocking, room, len);
    SendFromProgress(sends, 0, blocking, room, len);
    var s := SendFrom(sends, 0, blocking, room, len);
    TransientsAre(sends[..s.used], blocking);
    if forall i :: 0 <= i < |sends| ==> sends[i].Accepts? {
      SendFromAccepts(sends, 0, blocking, room, len);
    }
    hide Transients, Progressing, Offered;
  }

  /** The loop of redisBufferWriteInner. */
  method SendLoop(c: RedisContext, b: RedisCmdBuilder, at: nat, sends: seq<SendEvent>,
                  ghost all: Bytes, ghost todo: Bytes, ghost before: Bytes)
    returns (ret: Ret, used: nat, ghost t: nat, ghost left: int)
    requires c.obuf == b && c.err == 0 && 4 <= at <= |b.cmd|
    requires Sending(all, at, todo, before, b.cmd, c.off, c.wire, Slot(b.cmd, at), 0) && Slot(b.cmd, at) == |todo|
    modifies c`err, c`off, c`wire, b`cmd
    ensures used <= |sends| && t == Transients(sends[..used], c.blocking)
    ensures Sending(all, at, todo, before, b.cmd, c.off, c.wire, left, t)
    ensures SendEnd(ret, used, left) == SendFrom(sends, 0, c.blocking, at + |todo|, |todo|)
    ensures c.err == if ret == Returned(REDIS_ERR) then REDIS_ERR_IO else 0
    ensures ret == OutOfBounds ==> c.off < 0
  {
    hide Slot, PutSlot, Int32Bytes, Transients, Sending;
    used, t := 0, 0;
    NoTransients(sends, c.blocking);
    ghost var run := SendFrom(sends, 0, c.blocking, at + |todo|, |todo|);
    var len := Slot(b.cmd, at);
    ret := Returned(REDIS_OK);
    while len > 0
      invariant ret == Returned(REDIS_OK)
      invariant c.obuf == b && c.err == 0 && c.blocking == old(c.blocking)
      invariant used <= |sends| && t == Transients(sends[..used], c.blocking)
      invariant Sending(all, at, todo, before, b.cmd, c.off, c.wire, len, t)
      invariant run == SendFrom(sends, used, c.blocking, at + |todo|, len)
      decreases |sends| - used
    {
      InBounds(all, at, todo, before, b.cmd, c.off, c.wire, len, t);
      if c.off < 0 {
        ret := OutOfBounds;
        break;
      }
      if used == |sends| {
        ret := Waiting;
        break;
      }
      TransientsSnoc(sends, used, c.blocking);
      ghost var cmd, off, wire := b.cmd, c.off, c.wire;
      var nwritten, fatal := SendOnce(c, b, at, len, sends[used]);
      used := used + 1;
      if fatal {
        ret := Returned(REDIS_ERR);
        break;
      }
      SentMore(all, at, todo, before, cmd, off, wire, len, t, b.cmd, c.off, c.wire, nwritten);
      t := t + if nwritten < 0 then 1 else 0;
      len := len - nwritten;
    }
    left := len;
  }

  /** Where the send loop is: `len` bytes pending at the cursor, and on the wire what the cursor
      has passed, plus one byte for each of the `t` steps back. */
  ghost predicate Sending(all: Bytes, at: nat, todo: Bytes, before: Bytes,
                          cmd: Bytes, off: int, wire: Bytes, len: int, t: nat)
  {
    && 4 <= at <= |all| && at + |todo| <= |all| < TWO_31 - 1 && todo == all[at..at + |todo|]
    && |cmd| == |all| && cmd[at..] == all[at..] && cmd[..at - 4] == all[..at - 4]
    && Slot(cmd, at) == len && 0 <= len && off + len == at + |todo| && -1 <= off
    && var sent := |todo| - len + t;
       0 <= sent && |wire| == |before| + sent && (t == 0 ==> wire == before + todo[..sent])
  }

  lemma Starting(all: Bytes, at: nat, todo: Bytes, before: Bytes, len: int)
    requires 4 <= at <= |all| && at + |todo| <= |all| < TWO_31 - 1 && todo == all[at..at + |todo|]
    requires Slot(all, at) == len == |todo|
    ensures Sending(all, at, todo, before, all, at, before, len, 0)
  {
    assert before + todo[..0] == before;
  }

  lemma InBounds(all: Bytes, at: nat, todo: Bytes, before: Bytes,
                 cmd: Bytes, off: int, wire: Bytes, len: int, t: nat)
    requires Sending(all, at, todo, before, cmd, off, wire, len, t)
    ensures 4 <= at <= |cmd| < TWO_31 - 1 && Slot(cmd, at) == len && off + len <= |cmd|
    ensures off + len == at + |todo|
  {
  }

  /** One more call of `send` that was not fatal. */
  lemma SentMore(all: Bytes, at: nat, todo: Bytes, before: Bytes,
                 cmd: Bytes, off: int, wire: Bytes, len: int, t: nat,
             cmd': Bytes, off': int, wire': Bytes, nwritten: int)
    requires Sending(all, at, todo, before, cmd, off, wire, len, t) && 0 <= off && 0 < len
    requires -1 <= nwritten <= len && off' == off + nwritten && |cmd'| == |cmd|
    requires cmd'[at..] == cmd[at..] && cmd'[..at - 4] == cmd[..at - 4] && Slot(cmd', at) == len - nwritten
    requires off + len <= |cmd| && wire' == wire + if nwritten >= 0 then cmd[off..off + nwritten] else []
    ensures Sending(all, at, todo, before, cmd', off', wire', len - nwritten, t + if nwritten < 0 then 1 else 0)
  {
    if t == 0 && nwritten >= 0 {
      NextBytes(before, todo, all, cmd, at, |todo| - len, nwritten);
    }
  }

  /** What the loop leaves behind, wherever it stops. */
  lemma Stopped(all: Bytes, at: nat, todo: Bytes, before: Bytes,
                cmd: Bytes, off: int, wire: Bytes, len: int, t: nat)
    requires Sending(all, at, todo, before, cmd, off, wire, len, t)
    ensures |cmd| == |all| && cmd[at..] == all[at..] && cmd[..at - 4] == all[..at - 4]
    ensures Slot(cmd, at) == len >= 0 && |wire| + len == |before| + |todo| + t
    ensures t == 0 ==> off >= 0 && 0 <= len <= |todo| && wire + todo[|todo| - len..] == before + todo
    ensures t == 0 ==> wire <= before + todo
    ensures len == 0 ==> |wire| == |before| + |todo| + t && (t == 0 <==> wire == before + todo)
  {
    if t == 0 {
      Conserved(before, todo, |todo| - len);
      PrefixOfStep(before, wire, todo, len);
    }
  }

  /** One call of `send` and the updates of `*len` and `obuf` that follow it. */
  method SendOnce(c: RedisContext, b: RedisCmdBuilder, at: nat, len: int, event: SendEvent)
    returns (nwritten: int, fatal: bool)
    requires c.obuf == b && 4 <= at <= |b.cmd| < TWO_31 - 1 && Slot(b.cmd, at) == len
    requires 0 < len && 0 <= c.off && c.off + len <= |b.cmd|
    modifies c`err, c`off, c`wire, b`cmd
    ensures fatal <==> event.SendFails? || (event.WouldBlock? && c.blocking)
    ensures fatal ==> c.err == REDIS_ERR_IO && c.off == old(c.off) && c.wire == old(c.wire) && b.cmd == old(b.cmd)
    ensures !fatal ==>
              && c.err == old(c.err) && nwritten == (if event.Accepts? then Min(event.n, len) else -1)
              && c.off == old(c.off) + nwritten && |b.cmd| == |old(b.cmd)| && Slot(b.cmd, at) == len - nwritten
              && b.cmd[at..] == old(b.cmd[at..]) && b.cmd[..at - 4] == old(b.cmd[..at - 4])
    ensures !fatal ==>
              c.wire == old(c.wire) + if nwritten >= 0 then old(b.cmd[c.off..c.off + Min(event.n, len)]) else []
  {
    nwritten, fatal := -1, false;
    if event.Accepts? {
      nwritten := Min(event.n, len);
      c.wire := c.wire + b.cmd[c.off..c.off + nwritten];
    } else if !Transient(event, c.blocking) {
      c.err := REDIS_ERR_IO;
      return nwritten, true;
    } else {
      assert c.wire + [] == c.wire;
    }
    b.cmd := PutSlot(b.cmd, at, len - nwritten);
    c.off := c.off + nwritten;
  }

  // Receiving

  /** The bytes the first reads bring. */
  function Received(arrivals: seq<ReadEvent>): Bytes {
    if arrivals == [] then []
    else
      var last := arrivals[|arrivals| - 1];
      Received(arrivals[..|arrivals| - 1]) + if last.Arrives? then last.bytes else []
  }

  lemma ReceivedSnoc(r0: Bytes, arrivals: seq<ReadEvent>, k: nat)
    requires k < |arrivals|
    ensures r0 + Received(arrivals[..k + 1]) ==
            (r0 + Received(arrivals[..k])) + if arrivals[k].Arrives? then arrivals[k].bytes else []
    ensures !arrivals[k].Arrives? ==> Received(arrivals[..k + 1]) == Received(arrivals[..k])
  {
    assert arrivals[..k + 1][..k] == arrivals[..k];
  }

  lemma NothingReceived(r0: Bytes, arrivals: seq<ReadEvent>)
    ensures r0 + Received(arrivals[..0]) == r0
  {
    assert r0 + [] == r0;
  }

  /** `redisBufferRead`. */
  method RedisBufferRead(c: RedisContext, event: ReadEvent) returns (code: int)
    modifies c`err, c`reader
    ensures code == REDIS_OK <==> old(c.err) == 0 && event.Arrives?
    ensures code == REDIS_OK ==> c.reader == old(c.reader) + event.bytes && c.err == 0
    ensures code != REDIS_OK ==> code == REDIS_ERR && c.reader == old(c.reader) && c.err != 0
  {
    if c.err != 0 {
      return REDIS_ERR;
    }
    if event.ReadFails? {
      c.err := REDIS_ERR_EOF;
      return REDIS_ERR;
    }
    c.reader := c.reader + event.bytes;
    code := REDIS_OK;
  }

  /** `redisGetReplyFromReader`: a reply, none yet, or a protocol error. */
  method RedisGetReplyFromReader(c: RedisContext) returns (code: int, aux: Option<Reply>)
    modifies c`err, c`reader
    ensures code == REDIS_ERR <==> ParseReply(old(c.reader)).Bad?
    ensures code != REDIS_ERR ==> code == REDIS_OK && c.err == old(c.err)
    ensures code == REDIS_ERR ==> c.err == REDIS_ERR_PROTOCOL && aux == None
    ensures aux.Some? <==> ParseReply(old(c.reader)).Done?
    ensures aux.Some? ==> ParseReply(old(c.reader)) == Done(aux.value, c.reader)
    ensures aux.None? ==> c.reader == old(c.reader)
  {
    match ParseReply(c.reader)
    case More => return REDIS_OK, None;
    case Bad =>
      c.err := REDIS_ERR_PROTOCOL;
      return REDIS_ERR, None;
    case Done(v, rest) =>
      c.reader := rest;
      return REDIS_OK, Some(v);
  }

  /** What reading `n` replies makes of a script of arrivals when it reads at least `least` times:
      the replies are the next of the stream and what follows them is kept; it stops with the first
      arrival that decides, at an error that has a cause, or when nothing more arrives. */
  ghost predicate Collected(reader: Bytes, arrivals: seq<ReadEvent>, n: nat, least: nat,
                            ret: Ret, replies: seq<Reply>, used: nat, reader': Bytes, err': int)
  {
    && used <= |arrivals| && ret in {Returned(REDIS_OK), Returned(REDIS_ERR), Waiting}
    && ParseMany(reader + Received(arrivals[..used]), |replies|) == Done(replies, reader')
    && |replies| <= n && (ret == Returned(REDIS_OK) <==> |replies| == n) && (ret == Returned(REDIS_ERR) <==> err' != 0)
    && (ret == Returned(REDIS_OK) ==> used >= least)
    && (used > least ==> ParseMany(reader + Received(arrivals[..used - 1]), n).More?)
    && (forall i :: 0 <= i < used && !arrivals[i].Arrives? ==> i == used - 1 && ret == Returned(REDIS_ERR))
    && (ret == Returned(REDIS_ERR) ==>
          (used >= least && ParseReply(reader').Bad?) || (used > 0 && arrivals[used - 1].ReadFails?))
    && (ret == Waiting ==> used == |arrivals| && (used < least || ParseReply(reader').More?))
  }

  function Replied(reply: Option<Reply>): seq<Reply> {
    if reply.Some? then [reply.value] else []
  }

  /** One reply, or none, as a list of replies. */
  lemma OneReply(s: Bytes)
    ensures ParseMany(s, 0) == Done([], s)
    ensures ParseReply(s).Done? ==> ParseMany(s, 1) == Done([ParseReply(s).value], ParseReply(s).rest)
    ensures ParseReply(s).More? ==> ParseMany(s, 1) == More
  {
    hide ParseReply;
    var p := ParseReply(s);
    if p.Done? {
      assert ParseMany(p.rest, 0) == Done([], p.rest);
      assert [p.value] + [] == [p.value];
    }
  }

  /** The loop "read until there is a reply": it reads at least once, even if a whole reply is
      already there, and never once more than it has to. */
  method ReadUntilReply(c: RedisContext, arrivals: seq<ReadEvent>) returns (ret: Ret, reply: Option<Reply>, used: nat)
    requires c.err == 0
    modifies c`err, c`reader
    ensures used <= |arrivals| && ret in {Returned(REDIS_OK), Returned(REDIS_ERR), Waiting}
    ensures ret == Returned(REDIS_OK) <==> reply.Some?
    ensures reply.Some? ==>
              && used > 0 && c.err == 0
              && ParseReply(old(c.reader) + Received(arrivals[..used])) == Done(reply.value, c.reader)
              && (used > 1 ==> ParseReply(old(c.reader) + Received(arrivals[..used - 1])).More?)
    ensures used > 1 ==> ParseReply(old(c.reader) + Received(arrivals[..used - 1])).More?
    ensures forall i :: 0 <= i < used && !arrivals[i].Arrives? ==> i == used - 1 && ret == Returned(REDIS_ERR)
    ensures reply.None? ==> c.reader == old(c.reader) + Received(arrivals[..used])
    ensures ret == Waiting ==> used == |arrivals| && (used > 0 ==> ParseReply(c.reader).More?)
    ensures ret == Returned(REDIS_ERR) <==> c.err != 0
    ensures ret == Returned(REDIS_ERR) ==>
              c.err != 0 && used > 0 && (ParseReply(c.reader).Bad? || arrivals[used - 1].ReadFails?)
  {
    hide ParseReply, Received;
    used := 0;
    NothingReceived(c.reader, arrivals);
    while true
      invariant used <= |arrivals|
      invariant c.reader == old(c.reader) + Received(arrivals[..used])
      invariant used > 0 ==> ParseReply(c.reader).More?
      invariant used > 1 ==> ParseReply(old(c.reader) + Received(arrivals[..used - 1])).More?
      invariant c.err == 0 && forall i :: 0 <= i < used ==> arrivals[i].Arrives?
      decreases |arrivals| - used
    {
      if used == |arrivals| {
        return Waiting, None, used;
      }
      ReceivedSnoc(old(c.reader), arrivals, used);
      var code := RedisBufferRead(c, arrivals[used]);
      used := used + 1;
      if code == REDIS_ERR {
        return Returned(REDIS_ERR), None, used;
      }
      ghost var soFar := c.reader;
      assert soFar == old(c.reader) + Received(arrivals[..used]);
      code, reply := RedisGetReplyFromReader(c);
      if code == REDIS_ERR {
        return Returned(REDIS_ERR), None, used;
      }
      if reply.Some? {
        return Returned(REDIS_OK), reply, used;
      }
    }
  }

  /** One command, one reply. */
  method RedisGetReplyInner(c: RedisContext, sends: seq<SendEvent>, arrivals: seq<ReadEvent>)
    returns (ret: Ret, reply: Option<Reply>, usedSends: nat, used: nat, ghost t: nat)
    requires Pointed(c)
    modifies c`err, c`off, c`wire, c`reader, c.obuf`cmd
    ensures usedSends <= |sends| && used <= |arrivals| && t == Transients(sends[..usedSends], c.blocking)
    ensures ret in {Returned(REDIS_OK), Returned(REDIS_ERR), Waiting, OutOfBounds}
    ensures ret == Returned(REDIS_OK) <==> reply.Some?
    ensures reply.Some? ==>
              && |c.wire| == |old(c.wire)| + |old(Pending(c))| + t
              && (t == 0 <==> c.wire == old(c.wire) + old(Pending(c)))
              && used > 0 && ParseReply(old(c.reader) + Received(arrivals[..used])) == Done(reply.value, c.reader)
    ensures ret == Returned(REDIS_ERR) ==> c.err != 0
    ensures old(c.err) != 0 ==>
              && ret == Returned(REDIS_ERR) && usedSends == used == t == 0
              && c.err == old(c.err) && c.wire == old(c.wire) && c.reader == old(c.reader)
    ensures old(c.err) == 0 ==>
              var s := SendFrom(sends, 0, c.blocking, old(c.off) + |old(Pending(c))|, |old(Pending(c))|);
              && usedSends == s.used && |c.wire| + s.left == |old(c.wire)| + |old(Pending(c))| + t
              && (t == 0 ==> c.wire <= old(c.wire) + old(Pending(c)))
              && (if s.ret == Returned(REDIS_OK)
                  then Collected(old(c.reader), arrivals, 1, 1, ret, Replied(reply), used, c.reader, c.err)
                  else && ret == s.ret && used == 0 && c.reader == old(c.reader)
                       && (c.err != 0 <==> ret == Returned(REDIS_ERR)))
  {
    hide SendFrom, Pending, Pointed, Slot, Transients, Progressing, ParseReply, Received, ParseMany;
    used, reply := 0, None;
    ret, usedSends, t := RedisBufferWriteInner(c, sends);
    if ret == Returned(REDIS_OK) {
      ghost var reader := c.reader;
      ret, reply, used := ReadUntilReply(c, arrivals);
      ReplyCollected(reader, arrivals, ret, reply, used, c.reader, c.err);
    }
  }

  lemma ReplyCollected(reader: Bytes, arrivals: seq<ReadEvent>, ret: Ret, reply: Option<Reply>, used: nat,
                       reader': Bytes, err': int)
    requires used <= |arrivals| && ret in {Returned(REDIS_OK), Returned(REDIS_ERR), Waiting}
    requires (ret == Returned(REDIS_OK) <==> reply.Some?) && (ret == Returned(REDIS_ERR) <==> err' != 0)
    requires reply.Some? ==>
               used > 0 && ParseReply(reader + Received(arrivals[..used])) == Done(reply.value, reader')
    requires used > 1 ==> ParseReply(reader + Received(arrivals[..used - 1])).More?
    requires forall i :: 0 <= i < used && !arrivals[i].Arrives? ==> i == used - 1 && ret == Returned(REDIS_ERR)
    requires reply.None? ==> reader' == reader + Received(arrivals[..used])
    requires ret == Waiting ==> used == |arrivals| && (used > 0 ==> ParseReply(reader').More?)
    requires ret == Returned(REDIS_ERR) ==>
               used > 0 && (ParseReply(reader').Bad? || arrivals[used - 1].ReadFails?)
    ensures Collected(reader, arrivals, 1, 1, ret, Replied(reply), used, reader', err')
  {
    OneReply(reader + Received(arrivals[..used]));
    if used > 1 {
      OneReply(reader + Received(arrivals[..used - 1]));
    }
    hide ParseReply, ParseMany, Received;
  }

  // The pipeline

  function Flatten(parts: seq<Bytes>): Bytes {
    if parts == [] then [] else Flatten(parts[..|parts| - 1]) + parts[|parts| - 1]
  }

  lemma FlattenSnoc(before: Bytes, parts: seq<Bytes>, k: nat)
    requires k < |parts|
    ensures (before + Flatten(parts[..k])) + parts[k] == before + Flatten(parts[..k + 1])
  {
    assert parts[..k + 1][..k] == parts[..k];
  }

  lemma {:induction false} FlattenPrefix(before: Bytes, parts: seq<Bytes>, k: nat)
    requires k <= |parts|
    ensures before + Flatten(parts[..k]) <= before + Flatten(parts)
    decreases |parts| - k
  {
    if k == |parts| {
      assert parts[..k] == parts;
    } else {
      FlattenSnoc(before, parts, k);
      FlattenPrefix(before, parts, k + 1);
    }
  }

  /** Different builders, each with its length slot in front of bytes that are there. */
  ghost predicate Loaded(builders: seq<RedisCmdBuilder>, payloads: seq<Bytes>, seeks: seq<nat>)
    reads builders
  {
    && |payloads| == |builders| == |seeks| && (forall i :: 0 <= i < |builders| ==> builders[i].seek == seeks[i])
    && (forall i, j :: 0 <= i < j < |builders| ==> builders[i] != builders[j])
    && (forall i :: 0 <= i < |builders| ==> builders[i].Sendable() && payloads[i] == builders[i].Payload())
  }

  /** How sending a batch ends: after the first `i` builders went out, with `left` of the next. */
  datatype BatchEnd = BatchEnd(ret: Ret, used: nat, i: nat, left: int)

  /** What the script of events makes of a batch from its `i`-th builder on. */
  function SendAllFrom(payloads: seq<Bytes>, seeks: seq<nat>, i: nat,
                       sends: seq<SendEvent>, k: nat, blocking: bool): (e: BatchEnd)
    requires i <= |payloads| == |seeks| && k <= |sends|
    ensures k <= e.used <= |sends| && i <= e.i <= |payloads|
    decreases |payloads| - i
  {
    if i == |payloads| then BatchEnd(Returned(REDIS_OK), k, i, 0)
    else
      var s := SendFrom(sends, k, blocking, seeks[i] + |payloads[i]|, |payloads[i]|);
      if s.ret == Returned(REDIS_OK) then SendAllFrom(payloads, seeks, i + 1, sends, s.used, blocking)
      else BatchEnd(s.ret, s.used, i, s.left)
  }

  /** The same on any context: on one in error the first builder already fails. */
  function BatchAs(err: int, payloads: seq<Bytes>, seeks: seq<nat>, sends: seq<SendEvent>, blocking: bool)
    : (e: BatchEnd)
    requires |payloads| == |seeks|
    ensures e.i <= |payloads|
  {
    if err == 0 then SendAllFrom(payloads, seeks, 0, sends, 0, blocking)
    else BatchEnd(Returned(if payloads == [] then REDIS_OK else REDIS_ERR), 0, 0, FirstLeft(payloads))
  }

  /** What a batch has left before anything is sent. */
  function FirstLeft(payloads: seq<Bytes>): nat {
    if payloads == [] then 0 else |payloads[0]|
  }

  /** How many bytes of the batch that is. */
  function PutOut(payloads: seq<Bytes>, e: BatchEnd): int
    requires e.i <= |payloads|
  {
    |Flatten(payloads[..e.i])| + if e.i < |payloads| then |payloads[e.i]| - e.left else 0
  }

  /** How many bytes the builders from the `i`-th on have to send. */
  function Later(payloads: seq<Bytes>, i: nat): nat
    requires i <= |payloads|
    decreases |payloads| - i
  {
    if i == |payloads| then 0 else |payloads[i]| + Later(payloads, i + 1)
  }

  lemma {:induction false} LaterIs(payloads: seq<Bytes>, i: nat)
    requires i <= |payloads|
    ensures Later(payloads, i) == |Flatten(payloads)| - |Flatten(payloads[..i])|
    decreases |payloads| - i
  {
    if i == |payloads| {
      assert payloads[..i] == payloads;
    } else {
      FlattenSnoc([], payloads, i);
      LaterIs(payloads, i + 1);
    }
  }

  lemma ProgressingLess(sends: seq<SendEvent>, j: nat, k: nat)
    requires j <= k && Progressing(sends, k)
    ensures Progressing(sends, j)
  {
  }

  /** An error has a cause; with as many sends that make progress as there are bytes, a batch goes
      out. */
  lemma {:induction false} SendAllFromEnds(payloads: seq<Bytes>, seeks: seq<nat>, i: nat,
                                           sends: seq<SendEvent>, k: nat, blocking: bool)
    requires i <= |payloads| == |seeks| && k <= |sends|
    ensures var e := SendAllFrom(payloads, seeks, i, sends, k, blocking);
            && e.ret in {Returned(REDIS_OK), Returned(REDIS_ERR), Waiting, OutOfBounds}
            && (e.ret == Returned(REDIS_OK) <==> e.i == |payloads|)
            && (e.ret == Returned(REDIS_ERR) ==> k < e.used && Fatal(sends[e.used - 1], blocking))
            && (e.ret == Waiting ==> e.used == |sends|)
    ensures Progressing(sends, k + Later(payloads, i)) ==>
              SendAllFrom(payloads, seeks, i, sends, k, blocking).ret == Returned(REDIS_OK)
    decreases |payloads| - i
  {
    if i < |payloads| {
      hide SendFrom, Progressing;
      var room, len := seeks[i] + |payloads[i]|, |payloads[i]|;
      SendFromEnds(sends, k, blocking, room, len);
      SendFromProgress(sends, k, blocking, room, len);
      var s := SendFrom(sends, k, blocking, room, len);
      SendAllFromEnds(payloads, seeks, i + 1, sends, s.used, blocking);
      if Progressing(sends, k + Later(payloads, i)) {
        ProgressingLess(sends, k + len, k + Later(payloads, i));
        ProgressingLess(sends, s.used + Later(payloads, i + 1), k + Later(payloads, i));
      }
    }
  }

  lemma SendAllNext(payloads: seq<Bytes>, seeks: seq<nat>, i: nat, sends: seq<SendEvent>, k: nat, blocking: bool)
    requires i < |payloads| == |seeks| && k <= |sends|
    ensures var s := SendFrom(sends, k, blocking, seeks[i] + |payloads[i]|, |payloads[i]|);
            var e := SendAllFrom(payloads, seeks, i, sends, k, blocking);
            if s.ret == Returned(REDIS_OK) then e == SendAllFrom(payloads, seeks, i + 1, sends, s.used, blocking)
            else && e == BatchEnd(s.ret, s.used, i, s.left)
                 && PutOut(payloads, e) == |Flatten(payloads[..i])| + |payloads[i]| - s.left
  {
  }

  lemma SendAllDone(payloads: seq<Bytes>, seeks: seq<nat>, sends: seq<SendEvent>, k: nat, blocking: bool)
    requires |payloads| == |seeks| && k <= |sends|
    ensures var e := SendAllFrom(payloads, seeks, |payloads|, sends, k, blocking);
            e == BatchEnd(Returned(REDIS_OK), k, |payloads|, 0) && PutOut(payloads, e) == |Flatten(payloads)|
  {
    assert payloads[..|payloads|] == payloads;
  }

  ghost function Cmds(builders: seq<RedisCmdBuilder>): (cmds: seq<Bytes>)
    reads builders
    ensures |cmds| == |builders| && forall j :: 0 <= j < |builders| ==> cmds[j] == builders[j].cmd
  {
    if builders == [] then [] else Cmds(builders[..|builders| - 1]) + [builders[|builders| - 1].cmd]
  }

  /** A builder that held `cmd`, with these bytes to send behind its slot, and whose slot says now
      that `left` are left. */
  ghost predicate Slotted(b: RedisCmdBuilder, cmd: Bytes, payload: Bytes, seek: nat, left: int)
    reads b
  {
    && b.commit && b.seek == seek && 4 <= seek && seek + |payload| <= |cmd| == |b.cmd| < TWO_31 - 1
    && payload == cmd[seek..seek + |payload|] && b.cmd[seek..] == cmd[seek..] && 0 <= left == Slot(b.cmd, seek)
  }

  /** The slots of a batch: of the first `i` builders nothing is left to send, of the next `left`
      bytes, and of the others everything. */
  ghost predicate Counted(builders: seq<RedisCmdBuilder>, cmds: seq<Bytes>, payloads: seq<Bytes>, seeks: seq<nat>,
                          i: nat, left: int)
    reads builders
  {
    && |cmds| == |payloads| == |seeks| == |builders|
    && (forall j, k :: 0 <= j < k < |builders| ==> builders[j] != builders[k])
    && (forall j :: 0 <= j < |builders| ==>
          Slotted(builders[j], cmds[j], payloads[j], seeks[j],
                  if j < i then 0 else if j == i then left else |payloads[j]|))
  }

  /** Sending every builder of a batch in turn. On a context in error nothing is sent. */
  method SendAll(c: RedisContext, builders: seq<RedisCmdBuilder>, sends: seq<SendEvent>,
                 ghost payloads: seq<Bytes>, ghost seeks: seq<nat>)
    returns (ret: Ret, used: nat, ghost t: nat)
    requires Loaded(builders, payloads, seeks)
    modifies c`err, c`off, c`wire, c`obuf, builders`cmd
    ensures used <= |sends| && t == Transients(sends[..used], c.blocking)
    ensures ret in {Returned(REDIS_OK), Returned(REDIS_ERR), Waiting, OutOfBounds}
    ensures ret == Returned(REDIS_OK) ==> |c.wire| == |old(c.wire)| + |Flatten(payloads)| + t
    ensures ret == Returned(REDIS_OK) ==> c.err == old(c.err) && (c.err == 0 || builders == [])
    ensures old(c.err) != 0 ==>
              && (ret == Returned(REDIS_ERR) <==> builders != []) && (ret == Returned(REDIS_OK) <==> builders == [])
              && used == 0 == t && c.err == old(c.err) && c.wire == old(c.wire)
    ensures ret == Returned(REDIS_OK) ==> (t == 0 <==> c.wire == old(c.wire) + Flatten(payloads))
    ensures t == 0 ==> c.wire <= old(c.wire) + Flatten(payloads)
    ensures ret == Returned(REDIS_ERR) <==> c.err != 0 && (old(c.err) == 0 || builders != [])
    ensures old(c.err) == 0 ==>
              var e := SendAllFrom(payloads, seeks, 0, sends, 0, c.blocking);
              ret == e.ret && used == e.used && |c.wire| == |old(c.wire)| + PutOut(payloads, e) + t
    ensures old(c.err) == 0 && Progressing(sends, |Flatten(payloads)|) ==> ret == Returned(REDIS_OK)
    ensures old(c.err) == 0 && ret == Returned(REDIS_ERR) ==> used > 0 && Fatal(sends[used - 1], c.blocking)
    ensures var e := BatchAs(old(c.err), payloads, seeks, sends, c.blocking);
            && ret == e.ret && Counted(builders, old(Cmds(builders)), payloads, seeks, e.i, e.left)
            && (t == 0 && e.i < |payloads| ==> e.left <= |payloads[e.i]|)
  {
    hide Loaded, SendAllFrom, PutOut, Flatten, Transients, Progressing, Fatal, SentAs, Counted, Cmds;
    ghost var before := c.wire;
    ret, used, t := SendEach(c, builders, sends, payloads, seeks);
    if old(c.err) == 0 {
      SentMeans(before, payloads, seeks, sends, c.blocking, c.wire, ret, used, t);
    } else {
      NothingSent(before, payloads, sends, c.blocking);
    }
  }

  lemma SentMeans(before: Bytes, payloads: seq<Bytes>, seeks: seq<nat>, sends: seq<SendEvent>, blocking: bool,
                  wire: Bytes, ret: Ret, used: nat, t: nat)
    requires |payloads| == |seeks| && SentAs(before, payloads, seeks, sends, blocking, wire, ret, used, t)
    ensures used <= |sends| && t == Transients(sends[..used], blocking)
    ensures ret == Returned(REDIS_OK) ==>
              |wire| == |before| + |Flatten(payloads)| + t && (t == 0 <==> wire == before + Flatten(payloads))
    ensures t == 0 ==> wire <= before + Flatten(payloads)
    ensures var e := SendAllFrom(payloads, seeks, 0, sends, 0, blocking);
            ret == e.ret && used == e.used && |wire| == |before| + PutOut(payloads, e) + t
    ensures Progressing(sends, |Flatten(payloads)|) ==> ret == Returned(REDIS_OK)
    ensures ret == Returned(REDIS_ERR) ==> used > 0 && Fatal(sends[used - 1], blocking)
    ensures var e := SendAllFrom(payloads, seeks, 0, sends, 0, blocking);
            t == 0 && e.i < |payloads| ==> e.left <= |payloads[e.i]|
    ensures ret == Returned(REDIS_OK) && payloads == [] ==> wire == before
  {
    SendAllFromEnds(payloads, seeks, 0, sends, 0, blocking);
    LaterIs(payloads, 0);
    assert Flatten(payloads[..0]) == [];
  }

  lemma NothingSent(before: Bytes, payloads: seq<Bytes>, sends: seq<SendEvent>, blocking: bool)
    ensures Transients(sends[..0], blocking) == 0 && before <= before + Flatten(payloads)
    ensures payloads == [] ==> before == before + Flatten(payloads) && |Flatten(payloads)| == 0
  {
  }

  lemma LoadedCounts(builders: seq<RedisCmdBuilder>, payloads: seq<Bytes>, seeks: seq<nat>)
    requires Loaded(builders, payloads, seeks)
    ensures |payloads| == |builders| == |seeks|
    ensures Counted(builders, Cmds(builders), payloads, seeks, 0, FirstLeft(payloads))
  {
    var cmds := Cmds(builders);
    hide Slot, RedisCmdBuilder.Sendable, RedisCmdBuilder.Payload, Cmds, Slotted;
    forall j | 0 <= j < |builders|
      ensures Slotted(builders[j], cmds[j], payloads[j], seeks[j], |payloads[j]|)
    {
      SendableIsSlotted(builders[j]);
    }
  }

  lemma SendableIsSlotted(b: RedisCmdBuilder)
    requires b.Sendable()
    ensures Slotted(b, b.cmd, b.Payload(), b.seek, |b.Payload()|)
  {
    SlotSays(b);
    hide Slot, RedisCmdBuilder.Sendable, RedisCmdBuilder.Payload;
  }

  lemma SlottedSays(b: RedisCmdBuilder, cmd: Bytes, payload: Bytes, seek: nat)
    requires Slotted(b, cmd, payload, seek, |payload|)
    ensures b.Sendable() && b.Payload() == payload && b.seek == seek
  {
    SlotSays(b);
    hide Slot, RedisCmdBuilder.Sendable, RedisCmdBuilder.Payload;
    assert b.cmd[seek..seek + |payload|] == b.cmd[seek..][..|payload|];
    assert cmd[seek..seek + |payload|] == cmd[seek..][..|payload|];
  }

  /** How sending one builder on a sound context ended. */
  ghost predicate BuilderSent(before: Bytes, payload: Bytes, seek: nat, sends: seq<SendEvent>, blocking: bool,
                              wire: Bytes, ret: Ret, used: nat, t: nat, left: int)
  {
    && used <= |sends| && t == Transients(sends[..used], blocking)
    && SendEnd(ret, used, left) == SendFrom(sends, 0, blocking, seek + |payload|, |payload|)
    && |wire| + left == |before| + |payload| + t && (ret == Returned(REDIS_OK) ==> left == 0)
    && (t == 0 ==> wire <= before + payload && left <= |payload|)
    && (ret == Returned(REDIS_OK) ==> (t == 0 <==> wire == before + payload))
  }

  /** Sending the next builder of a batch. */
  method SendNext(c: RedisContext, b: RedisCmdBuilder, sends: seq<SendEvent>, ghost builders: seq<RedisCmdBuilder>,
                  ghost cmds: seq<Bytes>, ghost payloads: seq<Bytes>, ghost seeks: seq<nat>, ghost i: nat)
    returns (ret: Ret, used: nat, ghost t: nat, ghost left: int)
    requires i < |builders| == |payloads| == |seeks| && b == builders[i]
    requires Counted(builders, cmds, payloads, seeks, i, |payloads[i]|)
    modifies c`err, c`off, c`wire, c`obuf, b`cmd
    ensures used <= |sends| && ret in {Returned(REDIS_OK), Returned(REDIS_ERR), Waiting, OutOfBounds}
    ensures ret == Returned(REDIS_ERR) <==> c.err != 0
    ensures c.err != 0 || c.err == old(c.err)
    ensures old(c.err) != 0 ==>
              && ret == Returned(REDIS_ERR) && c.err == old(c.err) && c.wire == old(c.wire) && used == 0 == t
              && Counted(builders, cmds, payloads, seeks, i, |payloads[i]|)
    ensures old(c.err) == 0 ==>
              && BuilderSent(old(c.wire), payloads[i], seeks[i], sends, c.blocking, c.wire, ret, used, t, left)
              && Counted(builders, cmds, payloads, seeks, i, left)
  {
    SlottedSays(b, cmds[i], payloads[i], seeks[i]);
    hide SendFrom, Slot, Transients, RedisCmdBuilder.Sendable, RedisCmdBuilder.Payload;
    ret, used, t := SendBuilder(c, b, sends);
    left := Slot(b.cmd, b.seek);
    SendFromEnds(sends, 0, c.blocking, seeks[i] + |payloads[i]|, |payloads[i]|);
    assert Slotted(b, cmds[i], payloads[i], seeks[i], Slot(b.cmd, b.seek));
  }

  lemma CountedNext(builders: seq<RedisCmdBuilder>, cmds: seq<Bytes>, payloads: seq<Bytes>, seeks: seq<nat>, i: nat)
    requires i < |builders| && Counted(builders, cmds, payloads, seeks, i, 0)
    ensures |payloads| == |builders|
    ensures Counted(builders, cmds, payloads, seeks, i + 1, if i + 1 < |builders| then |payloads[i + 1]| else 0)
  {
    hide Slotted;
  }

  /** How sending a batch ended on a sound context. */
  ghost predicate SentAs(before: Bytes, payloads: seq<Bytes>, seeks: seq<nat>, sends: seq<SendEvent>, blocking: bool,
                         wire: Bytes, ret: Ret, used: nat, t: nat)
    requires |payloads| == |seeks|
  {
    var e := SendAllFrom(payloads, seeks, 0, sends, 0, blocking);
    && used <= |sends| && t == Transients(sends[..used], blocking)
    && ret == e.ret && used == e.used && |wire| == |before| + PutOut(payloads, e) + t
    && (t == 0 ==> wire <= before + Flatten(payloads)) && (t == 0 && e.i < |payloads| ==> e.left <= |payloads[e.i]|)
    && (ret == Returned(REDIS_OK) ==>
          |wire| == |before| + |Flatten(payloads)| + t && (t == 0 <==> wire == before + Flatten(payloads)))
  }

  /** The loop of it. */
  method SendEach(c: RedisContext, builders: seq<RedisCmdBuilder>, sends: seq<SendEvent>,
                  ghost payloads: seq<Bytes>, ghost seeks: seq<nat>)
    returns (ret: Ret, used: nat, ghost t: nat)
    requires Loaded(builders, payloads, seeks)
    modifies c`err, c`off, c`wire, c`obuf, builders`cmd
    ensures used <= |sends| && |payloads| == |builders| == |seeks|
    ensures ret in {Returned(REDIS_OK), Returned(REDIS_ERR), Waiting, OutOfBounds}
    ensures old(c.err) != 0 ==>
              && ret == Returned(if builders == [] then REDIS_OK else REDIS_ERR) && used == 0 == t
              && c.err == old(c.err) && c.wire == old(c.wire)
              && Counted(builders, old(Cmds(builders)), payloads, seeks, 0, FirstLeft(payloads))
    ensures old(c.err) == 0 ==>
              && (ret == Returned(REDIS_ERR) <==> c.err != 0)
              && SentAs(old(c.wire), payloads, seeks, sends, c.blocking, c.wire, ret, used, t)
              && var e := SendAllFrom(payloads, seeks, 0, sends, 0, c.blocking);
                 Counted(builders, old(Cmds(builders)), payloads, seeks, e.i, e.left)
  {
    hide Loaded, Flatten, Transients, SendFrom, SendAllFrom, PutOut, Counted, Cmds, SentSo, SentAs, BuilderSent;
    LoadedCounts(builders, payloads, seeks);
    var i := 0;
    used, t := 0, 0;
    ret := Returned(REDIS_OK);
    ghost var before, cmds, run := c.wire, Cmds(builders), SendAllFrom(payloads, seeks, 0, sends, 0, c.blocking);
    SentStart(before, payloads, seeks, sends, c.blocking);
    while i < |builders|
      invariant 0 <= i <= |builders| && c.blocking == old(c.blocking) && ret == Returned(REDIS_OK)
      invariant c.err == old(c.err) && (c.err == 0 || (i == 0 == used == t && c.wire == before)) && used <= |sends|
      invariant Counted(builders, cmds, payloads, seeks, i, if i < |builders| then |payloads[i]| else 0)
      invariant SentSo(before, payloads, seeks, sends, c.blocking, run, c.wire, i, used, t)
    {
      ghost var wire := c.wire;
      var u;
      ghost var t';
      ghost var left;
      ret, u, t', left := SendNext(c, builders[i], sends[used..], builders, cmds, payloads, seeks, i);
      if old(c.err) == 0 {
        SentStep(before, payloads, seeks, sends, c.blocking, run, wire, i, used, t, ret, u, t', left, c.wire);
      }
      used, t := used + u, t + t';
      if ret != Returned(REDIS_OK) {
        return;
      }
      CountedNext(builders, cmds, payloads, seeks, i);
      i := i + 1;
    }
    SentEnd(before, payloads, seeks, sends, c.blocking, run, c.wire, used, t);
  }

  /** Where sending a batch is after `i` builders. */
  ghost predicate SentSo(before: Bytes, payloads: seq<Bytes>, seeks: seq<nat>, sends: seq<SendEvent>, blocking: bool,
                         run: BatchEnd, wire: Bytes, i: nat, used: nat, t: nat)
  {
    && i <= |payloads| == |seeks| && used <= |sends| && t == Transients(sends[..used], blocking)
    && run == SendAllFrom(payloads, seeks, i, sends, used, blocking)
    && |wire| == |before| + |Flatten(payloads[..i])| + t
    && (t == 0 ==> wire == before + Flatten(payloads[..i]))
  }

  lemma SentStart(before: Bytes, payloads: seq<Bytes>, seeks: seq<nat>, sends: seq<SendEvent>, blocking: bool)
    requires |payloads| == |seeks|
    ensures SentSo(before, payloads, seeks, sends, blocking, SendAllFrom(payloads, seeks, 0, sends, 0, blocking),
                   before, 0, 0, 0)
    ensures payloads != [] ==> FirstLeft(payloads) == |payloads[0]|
    ensures payloads == [] ==> FirstLeft(payloads) == 0
  {
    NoTransients(sends, blocking);
    assert payloads[..0] == [] && before + [] == before;
  }

  lemma SentStep(before: Bytes, payloads: seq<Bytes>, seeks: seq<nat>, sends: seq<SendEvent>, blocking: bool,
                 run: BatchEnd, wire: Bytes, i: nat, used: nat, t: nat,
                 ret: Ret, u: nat, t': nat, left: int, wire': Bytes)
    requires SentSo(before, payloads, seeks, sends, blocking, run, wire, i, used, t)
    requires i < |payloads| == |seeks| && used <= |sends|
    requires BuilderSent(wire, payloads[i], seeks[i], sends[used..], blocking, wire', ret, u, t', left)
    ensures used + u <= |sends| && (ret == Returned(REDIS_OK) ==> left == 0)
    ensures ret == Returned(REDIS_OK) ==>
              SentSo(before, payloads, seeks, sends, blocking, run, wire', i + 1, used + u, t + t')
    ensures ret != Returned(REDIS_OK) && run == SendAllFrom(payloads, seeks, 0, sends, 0, blocking) ==>
              && run.i == i && run.left == left
              && SentAs(before, payloads, seeks, sends, blocking, wire', ret, used + u, t + t')
  {
    FlattenSnoc(before, payloads, i);
    FlattenSnoc([], payloads, i);
    FlattenPrefix(before, payloads, i + 1);
    SendFromRest(sends, used, 0, blocking, seeks[i] + |payloads[i]|, |payloads[i]|);
    SendFromEnds(sends[used..], 0, blocking, seeks[i] + |payloads[i]|, |payloads[i]|);
    SendAllNext(payloads, seeks, i, sends, used, blocking);
    SplitTransients(sends, used, u, blocking);
    if t + t' == 0 {
      PrefixOfPrefix(wire', wire + payloads[i], before + Flatten(payloads));
    }
    hide Flatten, Transients, SendFrom, SendAllFrom, PutOut, Fatal;
  }

  lemma SentEnd(before: Bytes, payloads: seq<Bytes>, seeks: seq<nat>, sends: seq<SendEvent>, blocking: bool,
                run: BatchEnd, wire: Bytes, used: nat, t: nat)
    requires SentSo(before, payloads, seeks, sends, blocking, run, wire, |payloads|, used, t)
    ensures run == BatchEnd(Returned(REDIS_OK), used, |payloads|, 0)
    ensures run == SendAllFrom(payloads, seeks, 0, sends, 0, blocking) ==>
              SentAs(before, payloads, seeks, sends, blocking, wire, Returned(REDIS_OK), used, t)
  {
    SendAllDone(payloads, seeks, sends, used, blocking);
    assert payloads[..|payloads|] == payloads;
  }

  /** Sending one builder of a batch. */
  method SendBuilder(c: RedisContext, b: RedisCmdBuilder, sends: seq<SendEvent>)
    returns (ret: Ret, used: nat, ghost t: nat)
    requires b.Sendable()
    modifies c`err, c`off, c`wire, c`obuf, b`cmd
    ensures used <= |sends| && t == Transients(sends[..used], c.blocking)
    ensures ret in {Returned(REDIS_OK), Returned(REDIS_ERR), Waiting, OutOfBounds}
    ensures ret == Returned(REDIS_OK) ==>
              && old(c.err) == 0 == c.err && |c.wire| == |old(c.wire)| + |old(b.Payload())| + t
              && (t == 0 <==> c.wire == old(c.wire) + old(b.Payload()))
              && b.Sendable() && b.Payload() == []
    ensures t == 0 ==> c.wire <= old(c.wire) + old(b.Payload())
    ensures ret == Returned(REDIS_ERR) <==> c.err != 0
    ensures old(c.err) != 0 ==> ret == Returned(REDIS_ERR) && c.err == old(c.err) && c.wire == old(c.wire) && t == 0
    ensures 4 <= b.seek <= |b.cmd| == |old(b.cmd)| && b.cmd[b.seek..] == old(b.cmd[b.seek..])
    ensures var left := Slot(b.cmd, b.seek);
            && 0 <= left && |c.wire| + left == |old(c.wire)| + |old(b.Payload())| + t
            && (t == 0 ==> left <= |old(b.Payload())| &&
                           c.wire + old(b.Payload())[|old(b.Payload())| - left..] == old(c.wire) + old(b.Payload()))
    ensures old(c.err) != 0 ==> used == 0
    ensures old(c.err) == 0 ==>
              SendEnd(ret, used, Slot(b.cmd, b.seek)) ==
              SendFrom(sends, 0, c.blocking, b.seek + |old(b.Payload())|, |old(b.Payload())|)
  {
    hide SendFrom, Slot, Transients, Pointed, Pending, Progressing, RedisCmdBuilder.Sendable, RedisCmdBuilder.Payload;
    SlotSays(b);
    c.obuf, c.off := b, b.seek;
    PointAt(c, b);
    ret, used, t := RedisBufferWriteInner(c, sends);
    SlotSays(b);
  }

  lemma SlotSays(b: RedisCmdBuilder)
    ensures b.Sendable() <==>
              b.commit && 4 <= b.seek <= |b.cmd| < TWO_31 - 1 && 0 <= Slot(b.cmd, b.seek) <= |b.cmd| - b.seek
    ensures b.Sendable() ==>
              && |b.Payload()| == Slot(b.cmd, b.seek)
              && b.Payload() == b.cmd[b.seek..b.seek + |b.Payload()|]
  {
  }

  lemma PointAt(c: RedisContext, b: RedisCmdBuilder)
    requires c.obuf == b && c.off == b.seek && b.Sendable()
    ensures Pointed(c) && Pending(c) == b.Payload() && |Pending(c)| == Slot(b.cmd, b.seek)
  {
  }

  lemma SplitTransients(sends: seq<SendEvent>, used: nat, u: nat, blocking: bool)
    requires used + u <= |sends|
    ensures u <= |sends[used..]|
    ensures Transients(sends[..used + u], blocking) ==
            Transients(sends[..used], blocking) + Transients(sends[used..][..u], blocking)
  {
    assert sends[..used + u] == sends[..used] + sends[used..][..u];
    TransientsAdd(sends[..used], sends[used..][..u], blocking);
  }

  /** A conserving partial send leaves a prefix of what a full send would have left. */
  lemma PrefixOfStep(wire: Bytes, wire': Bytes, part: Bytes, left: nat)
    requires left <= |part| && wire' + part[|part| - left..] == wire + part
    ensures wire' <= wire + part
  {
    assert wire' == (wire' + part[|part| - left..])[..|wire'|];
  }

  lemma PrefixOfPrefix(a: Bytes, b: Bytes, c: Bytes)
    requires a <= b <= c
    ensures a <= c
  {
  }

  /** Collecting `n` replies in order; each is appended, and what follows the last stays in the
      reader. However the stream is cut into arrivals, the result is what the grammar makes of
      the stream, and no arrival is waited for once the last reply is complete. */
  method CollectReplies(c: RedisContext, n: nat, vec: seq<Reply>, arrivals: seq<ReadEvent>)
    returns (ret: Ret, vec': seq<Reply>, used: nat)
    requires c.err == 0 || n == 0
    modifies c`err, c`reader
    ensures used <= |arrivals| && ret in {Returned(REDIS_OK), Returned(REDIS_ERR), Waiting}
    ensures ret == Returned(REDIS_ERR) ==> c.err != 0
    ensures ret != Returned(REDIS_ERR) ==> c.err == old(c.err)
    ensures |vec| <= |vec'| <= |vec| + n && vec' == vec + vec'[|vec|..]
    ensures ParseMany(old(c.reader) + Received(arrivals[..used]), |vec'| - |vec|) == Done(vec'[|vec|..], c.reader)
    ensures ret == Returned(REDIS_OK) <==> |vec'| == |vec| + n
    ensures n == 0 ==> used == 0 && vec' == vec && c.reader == old(c.reader)
    ensures ret == Returned(REDIS_OK) && used > 0 ==>
              ParseMany(old(c.reader) + Received(arrivals[..used - 1]), n).More?
    ensures ret == Waiting ==> used == |arrivals| && ParseReply(c.reader).More?
    ensures ret == Returned(REDIS_ERR) ==>
              ParseReply(c.reader).Bad? || (used > 0 && arrivals[used - 1].ReadFails?)
    ensures old(c.err) == 0 ==>
              Collected(old(c.reader), arrivals, n, 0, ret, vec'[|vec|..], used, c.reader, c.err)
  {
    hide ParseReply, Received, ParseMany;
    used, vec' := 0, vec;
    ParseNone(c.reader);
    ghost var got: seq<Reply> := [];
    ghost var r0 := c.reader;
    NothingReceived(r0, arrivals);
    var i := 0;
    while i < n
      invariant 0 <= i <= n && used <= |arrivals| && c.err == old(c.err)
      invariant vec' == vec + got && |got| == i
      invariant ParseMany(r0 + Received(arrivals[..used]), i) == Done(got, c.reader)
      invariant used > 0 ==> ParseMany(r0 + Received(arrivals[..used - 1]), n).More?
      invariant forall j :: 0 <= j < used ==> arrivals[j].Arrives?
      invariant n == 0 ==> used == 0 && c.reader == r0
    {
      ghost var stream, reader := r0 + Received(arrivals[..used]), c.reader;
      ParseManySnoc(stream, i, i + 1);
      ParseManySnoc(stream, i, n);
      var code, aux := RedisGetReplyFromReader(c);
      if code == REDIS_ERR {
        return Returned(REDIS_ERR), vec', used;
      }
      if aux.None? {
        var u;
        ret, aux, u := ReadUntilReply(c, arrivals[used..]);
        StreamGrows(r0, arrivals, used, u, i, n, got, reader);
        used := used + u;
        if aux.None? {
          return ret, vec', used;
        }
        ParseManySnoc(r0 + Received(arrivals[..used]), i, i + 1);
      }
      vec' := vec' + [aux.value];
      got := got + [aux.value];
      i := i + 1;
    }
    ret := Returned(REDIS_OK);
  }

  /** More arrivals leave the replies already read in place; and if the reader was short of the
      next reply until the last arrival, so was the whole collection. */
  lemma StreamGrows(r0: Bytes, arrivals: seq<ReadEvent>, used: nat, u: nat, i: nat, n: nat,
                    got: seq<Reply>, reader: Bytes)
    requires used + u <= |arrivals| && i < n
    requires ParseMany(r0 + Received(arrivals[..used]), i) == Done(got, reader)
    requires ParseReply(reader).More?
    ensures u <= |arrivals[used..]|
    ensures ParseMany(r0 + Received(arrivals[..used + u]), i) == Done(got, reader + Received(arrivals[used..][..u]))
    ensures u == 1 || (u > 1 && ParseReply(reader + Received(arrivals[used..][..u - 1])).More?) ==>
              ParseMany(r0 + Received(arrivals[..used + u - 1]), n).More?
  {
    hide ParseReply, ParseMany, Received;
    ReceivedSplit(r0, arrivals, used, u);
    ParseManyStable(r0 + Received(arrivals[..used]), i, Received(arrivals[used..][..u]));
    if u == 0 {
      return;
    }
    ReceivedSplit(r0, arrivals, used, u - 1);
    ParseManyStable(r0 + Received(arrivals[..used]), i, Received(arrivals[used..][..u - 1]));
    NothingReceived(reader, arrivals[used..]);
    ParseManySnoc(r0 + Received(arrivals[..used + u - 1]), i, n);
  }

  lemma {:induction false} ReceivedAdd(xs: seq<ReadEvent>, ys: seq<ReadEvent>)
    ensures Received(xs + ys) == Received(xs) + Received(ys)
  {
    if ys == [] {
      assert xs + [] == xs;
    } else {
      ReceivedAdd(xs, ys[..|ys| - 1]);
      assert (xs + ys)[..|xs + ys| - 1] == xs + ys[..|ys| - 1];
    }
  }

  lemma ReceivedSplit(r0: Bytes, arrivals: seq<ReadEvent>, used: nat, u: nat)
    requires used + u <= |arrivals|
    ensures u <= |arrivals[used..]|
    ensures r0 + Received(arrivals[..used + u]) ==
            (r0 + Received(arrivals[..used])) + Received(arrivals[used..][..u])
  {
    assert arrivals[..used + u] == arrivals[..used] + arrivals[used..][..u];
    ReceivedAdd(arrivals[..used], arrivals[used..][..u]);
  }

  /** `RedisMgr::pipelineSendAndGetReply`: every builder is sent, then one reply is collected
      for each. */
  method PipelineSendAndGetReply(c: RedisContext, builders: seq<RedisCmdBuilder>, vec: seq<Reply>,
                                 sends: seq<SendEvent>, arrivals: seq<ReadEvent>,
                                 ghost payloads: seq<Bytes>, ghost seeks: seq<nat>)
    returns (ret: Ret, vec': seq<Reply>, usedSends: nat, used: nat, ghost t: nat)
    requires Loaded(builders, payloads, seeks)
    modifies c`err, c`off, c`wire, c`obuf, c`reader, builders`cmd
    ensures ret == Returned(REDIS_ERR) ==> c.err != 0
    ensures old(c.err) != 0 ==>
              && ret == Returned(if builders == [] then REDIS_OK else REDIS_ERR)
              && c.err == old(c.err) && c.wire == old(c.wire) && c.reader == old(c.reader) && vec' == vec
    ensures usedSends <= |sends| && used <= |arrivals| && t == Transients(sends[..usedSends], c.blocking)
    ensures ret in {Returned(REDIS_OK), Returned(REDIS_ERR), Waiting, OutOfBounds}
    ensures t == 0 ==> c.wire <= old(c.wire) + Flatten(payloads)
    ensures |vec| <= |vec'| && vec' == vec + vec'[|vec|..]
    ensures ParseMany(old(c.reader) + Received(arrivals[..used]), |vec'| - |vec|) == Done(vec'[|vec|..], c.reader)
    ensures |vec'| <= |vec| + |builders|
    ensures ret == Returned(REDIS_OK) ==> |vec'| == |vec| + |builders|
    ensures ret == Returned(REDIS_OK) ==> (t == 0 <==> c.wire == old(c.wire) + Flatten(payloads))
    ensures ret == Returned(REDIS_OK) ==> |c.wire| == |old(c.wire)| + |Flatten(payloads)| + t
    ensures old(c.err) != 0 ==> usedSends == used == 0
    ensures old(c.err) == 0 ==>
              var e := SendAllFrom(payloads, seeks, 0, sends, 0, c.blocking);
              && usedSends == e.used && |c.wire| == |old(c.wire)| + PutOut(payloads, e) + t
              && (if e.ret == Returned(REDIS_OK)
                  then Collected(old(c.reader), arrivals, |builders|, 0, ret, vec'[|vec|..], used, c.reader, c.err)
                  else && ret == e.ret && used == 0 && c.reader == old(c.reader) && vec' == vec
                       && (c.err != 0 <==> ret == Returned(REDIS_ERR)))
    ensures old(c.err) == 0 && Progressing(sends, |Flatten(payloads)|) ==>
              Collected(old(c.reader), arrivals, |builders|, 0, ret, vec'[|vec|..], used, c.reader, c.err)
    ensures var e := BatchAs(old(c.err), payloads, seeks, sends, c.blocking);
            && Counted(builders, old(Cmds(builders)), payloads, seeks, e.i, e.left)
            && (t == 0 && e.i < |payloads| ==> e.left <= |payloads[e.i]|)
  {
    hide Loaded, SendAllFrom, Progressing, PutOut, Flatten, Transients, ParseMany, Received, Collected, Counted, Cmds;
    vec', used := vec, 0;
    NothingReceived(c.reader, arrivals);
    ParseNone(c.reader);
    ret, usedSends, t := SendAll(c, builders, sends, payloads, seeks);
    if ret == Returned(REDIS_OK) {
      ret, vec', used := CollectReplies(c, |builders|, vec, arrivals);
    }
  }

  /** If the stream that arrives is what a server prints for `n` replies, however it is cut into
      arrivals, exactly these replies are collected, in order, and what follows them is kept. */
  lemma PrintedCollected(rs: seq<Reply>, rest: Bytes, reader: Bytes, arrivals: seq<ReadEvent>, least: nat,
                         ret: Ret, replies: seq<Reply>, used: nat, reader': Bytes, err': int)
    requires Collected(reader, arrivals, |rs|, least, ret, replies, used, reader', err')
    requires AllPrintable(rs) && reader + Received(arrivals) == PrintAll(rs) + rest
    requires least <= |arrivals| && forall i :: 0 <= i < |arrivals| ==> arrivals[i].Arrives?
    ensures ret == Returned(REDIS_OK) && err' == 0 && replies == rs
    ensures reader' + Received(arrivals[used..]) == rest
  {
    hide ParseMany, ParseReply, PrintAll, AllPrintable, Received;
    var now, later := reader + Received(arrivals[..used]), Received(arrivals[used..]);
    WholeStream(reader, arrivals, used);
    ReadThrough(rs, rest, now, later, replies, reader');
    if |replies| < |rs| {
      assert false;
    }
  }

  lemma WholeStream(reader: Bytes, arrivals: seq<ReadEvent>, used: nat)
    requires used <= |arrivals|
    ensures reader + Received(arrivals) == (reader + Received(arrivals[..used])) + Received(arrivals[used..])
    ensures used == |arrivals| ==> Received(arrivals[used..]) == []
  {
    hide Received;
    assert arrivals == arrivals[..used] + arrivals[used..];
    ReceivedAdd(arrivals[..used], arrivals[used..]);
    Associative(reader, Received(arrivals[..used]), Received(arrivals[used..]));
    if used == |arrivals| {
      assert arrivals[used..] == arrivals[..0];
      NoneReceived(arrivals);
    }
  }

  lemma NoneReceived(arrivals: seq<ReadEvent>)
    ensures Received(arrivals[..0]) == []
  {
  }

  /** Part of such a stream: the replies read are the first of it, and with more to come the next
      one is not malformed, and incomplete only if something is still to arrive. */
  lemma ReadThrough(rs: seq<Reply>, rest: Bytes, now: Bytes, later: Bytes, replies: seq<Reply>, reader': Bytes)
    requires AllPrintable(rs) && now + later == PrintAll(rs) + rest
    requires |replies| <= |rs| && ParseMany(now, |replies|) == Done(replies, reader')
    ensures |replies| == |rs| ==> replies == rs && reader' + later == rest
    ensures |replies| < |rs| ==> !ParseReply(reader').Bad? && (later == [] ==> !ParseReply(reader').More?)
  {
    hide ParseMany, ParseReply, PrintAll, AllPrintable;
    RepliesParse(rs, rest);
    ParseManyStable(now, |replies|, later);
    if |replies| < |rs| {
      ParseManySnoc(now, |replies|, |rs|);
      if ParseReply(reader').Bad? {
        ParseManyStable(now, |rs|, later);
      }
      assert later == [] ==> now + later == now;
    }
  }

  /** Chunk independence: two ways of receiving prefixes of one stream that both complete `n`
      replies give the same replies and leave the same bytes to come. */
  lemma ChunkIndependent(stream: Bytes, a: Bytes, b: Bytes, n: nat)
    requires a <= stream && b <= stream && ParseMany(a, n).Done? && ParseMany(b, n).Done?
    ensures ParseMany(a, n).value == ParseMany(b, n).value
    ensures ParseMany(a, n).rest + stream[|a|..] == ParseMany(b, n).rest + stream[|b|..]
  {
    hide ParseMany, ParseReply;
    ParseManyStable(a, n, stream[|a|..]);
    ParseManyStable(b, n, stream[|b|..]);
    assert a + stream[|a|..] == stream == b + stream[|b|..];
  }

  /** What a server reads from the bytes of a batch of fresh builders: their commands, in order, if
      and only if every printed length is below 2^31. */
  lemma BatchParses(payloads: seq<Bytes>, cmds: seq<seq<Bytes>>, rest: Bytes)
    requires |payloads| == |cmds|
    requires forall i :: 0 <= i < |cmds| ==> payloads[i] == Encode(cmds[i])
    ensures var p := ParseMany(Flatten(payloads) + rest, |cmds|);
            && (AllFit(cmds) ==> p == Done(Commands(cmds), rest))
            && (p.Done? && p.value == Commands(cmds) ==> AllFit(cmds))
  {
    FlattenIsStream(payloads, cmds, |cmds|);
    assert payloads[..|cmds|] == payloads && cmds[..|cmds|] == cmds;
    StreamParses(cmds, rest);
  }

  lemma {:induction false} FlattenIsStream(payloads: seq<Bytes>, cmds: seq<seq<Bytes>>, k: nat)
    requires k <= |payloads| == |cmds|
    requires forall i :: 0 <= i < |cmds| ==> payloads[i] == Encode(cmds[i])
    ensures Flatten(payloads[..k]) == Stream(cmds[..k])
  {
    hide Encode;
    if k > 0 {
      FlattenIsStream(payloads, cmds, k - 1);
      FlattenSnoc([], payloads, k - 1);
      StreamAppend(cmds[..k - 1], cmds[k - 1]);
      assert cmds[..k] == cmds[..k - 1] + [cmds[k - 1]];
      assert payloads[..k][..k - 1] == payloads[..k - 1];
      hide Stream;
    }
  }

  lemma {:induction false} StreamAppend(cmds: seq<seq<Bytes>>, last: seq<Bytes>)
    ensures Stream(cmds + [last]) == Stream(cmds) + Encode(last)
  {
    hide Encode;
    if cmds == [] {
      assert [] + [last] == [last] && [last][1..] == [];
      assert Stream([]) == [];
      assert Stream([last]) == Encode(last) + Stream([]);
    } else {
      StreamAppend(cmds[1..], last);
      assert (cmds + [last])[1..] == cmds[1..] + [last];
      Associative(Encode(cmds[0]), Stream(cmds[1..]), Encode(last));
    }
  }

  lemma Associative(a: Bytes, b: Bytes, c: Bytes)
    ensures (a + b) + c == a + (b + c)
  {
  }
}
