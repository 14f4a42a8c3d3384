/** RedisMgr.cpp: executing commands on a connection, one at a time and in batches, and what the
    caller sees when that fails. */
module RedisExec {
  import opened Decimal
  import opened Resp
  import opened RedisCmdBuilders
  import opened RedisWrapper
  import opened RedisMgr

  // One command or batch, on the values of a context

  datatype Ctx = Ctx(err: int, wire: Bytes, reader: Bytes)

  ghost function Now(c: RedisContext): Ctx
    reads c
  {
    Ctx(c.err, c.wire, c.reader)
  }

  /** What a command or batch has to send, one payload and one reply for each builder. A single
      command reads at least once, a batch does not have to. */
  datatype Job = Job(payloads: seq<Bytes>, seeks: seq<nat>, least: nat)

  /** How it ended, the replies it brought, the events it used, its transient failures, and the
      context after it. */
  datatype Outcome = Outcome(inner: Ret, replies: seq<Reply>, sent: nat, used: nat, t: nat, after: Ctx)

  /** What a job makes of a context and of the two scripts of events. A context in error is left
      alone. Otherwise its bytes go out as far as the script lets them, and if all did, its replies
      are the next of the stream. */
  ghost predicate Step(blocking: bool, c: Ctx, job: Job, sends: seq<SendEvent>, arrivals: seq<ReadEvent>, o: Outcome)
    requires |job.payloads| == |job.seeks|
  {
    && o.sent <= |sends| && o.used <= |arrivals| && o.t == Transients(sends[..o.sent], blocking)
    && (c.err != 0 && job.payloads != [] ==> o == Outcome(Returned(REDIS_ERR), [], 0, 0, 0, c))
    && (c.err == 0 ==>
          var e := SendAllFrom(job.payloads, job.seeks, 0, sends, 0, blocking);
          && o.sent == e.used && |o.after.wire| == |c.wire| + PutOut(job.payloads, e) + o.t
          && (o.t == 0 ==> o.after.wire <= c.wire + Flatten(job.payloads))
          && (if e.ret == Returned(REDIS_OK)
              then Collected(c.reader, arrivals, |job.payloads|, job.least,
                             o.inner, o.replies, o.used, o.after.reader, o.after.err)
              else && o.inner == e.ret && o.replies == [] && o.used == 0 && o.after.reader == c.reader
                   && (o.after.err != 0 <==> o.inner == Returned(REDIS_ERR))))
  }

  /** What that means: it ends well exactly with one reply for each builder, all of its bytes are
      out then, and each reply is the next of the stream; an error stays in the context. */
  lemma StepMeans(blocking: bool, c: Ctx, job: Job, sends: seq<SendEvent>, arrivals: seq<ReadEvent>, o: Outcome)
    requires |job.payloads| == |job.seeks| && job.payloads != [] && Step(blocking, c, job, sends, arrivals, o)
    ensures o.inner in {Returned(REDIS_OK), Returned(REDIS_ERR), Waiting, OutOfBounds}
    ensures o.inner == Returned(REDIS_ERR) <==> o.after.err != 0
    ensures o.inner == Returned(REDIS_OK) ==>
              && c.err == 0 == o.after.err && |o.replies| == |job.payloads|
              && |o.after.wire| == |c.wire| + |Flatten(job.payloads)| + o.t
              && (o.t == 0 <==> o.after.wire == c.wire + Flatten(job.payloads))
    ensures o.used <= |arrivals|
    ensures o.inner == Returned(REDIS_OK) ==>
              ParseMany(c.reader + Received(arrivals[..o.used]), |o.replies|) == Done(o.replies, o.after.reader)
  {
    if c.err == 0 {
      SendAllFromEnds(job.payloads, job.seeks, 0, sends, 0, blocking);
      var e := SendAllFrom(job.payloads, job.seeks, 0, sends, 0, blocking);
      if e.ret == Returned(REDIS_OK) {
        assert job.payloads[..e.i] == job.payloads;
      }
      if o.t == 0 && o.inner == Returned(REDIS_OK) {
        FullPrefix(o.after.wire, c.wire + Flatten(job.payloads));
      }
    }
    hide SendAllFrom, Flatten, ParseMany, Received, Transients, Progressing, Later;
  }

  lemma FullPrefix(a: Bytes, b: Bytes)
    requires a <= b && |a| == |b|
    ensures a == b
  {
  }

  /** A single builder. */
  lemma OneBuilder(payload: Bytes, seek: nat, sends: seq<SendEvent>, blocking: bool)
    ensures Flatten([payload]) == payload
    ensures var s := SendFrom(sends, 0, blocking, seek + |payload|, |payload|);
            var e := SendAllFrom([payload], [seek], 0, sends, 0, blocking);
            && e.ret == s.ret && e.used == s.used
            && PutOut([payload], e) == |payload| - s.left
  {
    var s := SendFrom(sends, 0, blocking, seek + |payload|, |payload|);
    SendFromEnds(sends, 0, blocking, seek + |payload|, |payload|);
    SendAllNext([payload], [seek], 0, sends, 0, blocking);
    SendAllDone([payload], [seek], sends, s.used, blocking);
    assert [payload][..0] == [] && Flatten([]) == [] && [] + payload == payload;
    hide SendFrom, SendAllFrom;
  }

  /** `execCmd` up to its decision to retry. The callee returns REDIS_OK or REDIS_ERR, the test is
      for REDIS_ERR_IO, so it never retries, and the caller sees REDIS_OK without a reply whenever
      the command failed. On a context already in error nothing is sent. */
  method ExecCmd(c: RedisContext, b: RedisCmdBuilder, reSend: bool, sends: seq<SendEvent>, arrivals: seq<ReadEvent>)
    returns (ret: Ret, reply: Option<Reply>, retries: bool, ghost o: Outcome)
    requires b.Sendable()
    modifies c`err, c`off, c`wire, c`obuf, c`reader, b`cmd
    ensures !retries && ret == (if o.inner.Returned? then Returned(REDIS_OK) else o.inner)
    ensures o.replies == Replied(reply) && o.after == Now(c)
    ensures Step(c.blocking, old(Now(c)), Job([old(b.Payload())], [b.seek], 1), sends, arrivals, o)
    ensures reply.Some? <==> o.inner == Returned(REDIS_OK)
    ensures o.inner == Returned(REDIS_OK) ==> (o.t == 0 <==> c.wire == old(c.wire) + old(b.Payload()))
    ensures reply.Some? ==>
              && o.used <= |arrivals|
              && ParseReply(old(c.reader) + Received(arrivals[..o.used])) == Done(reply.value, c.reader)
    ensures old(c.err) != 0 ==> o.inner == Returned(REDIS_ERR) && ret == Returned(REDIS_OK) && Now(c) == old(Now(c))
  {
    hide SendFrom, SendAllFrom, PutOut, Pointed, Pending, Slot, Transients, ParseReply, Received, Collected, Flatten;
    hide RedisCmdBuilder.Sendable, RedisCmdBuilder.Payload;
    ghost var payload := b.Payload();
    OneBuilder(payload, b.seek, sends, c.blocking);
    c.obuf, c.off := b, b.seek;
    PointAt(c, b);
    var inner, u, v;
    ghost var t;
    inner, reply, u, v, t := RedisGetReplyInner(c, sends, arrivals);
    NoTransients(sends, c.blocking);
    retries := reSend && inner == Returned(REDIS_ERR_IO);
    ret := if inner.Returned? then Returned(REDIS_OK) else inner;
    o := Outcome(inner, Replied(reply), u, v, t, Now(c));
  }

  /** `pipelineSendAndGetReply` once, and what it leaves in the slots. */
  method Attempt(c: RedisContext, builders: seq<RedisCmdBuilder>, vecReply: seq<Reply>,
                 sends: seq<SendEvent>, arrivals: seq<ReadEvent>, ghost payloads: seq<Bytes>, ghost seeks: seq<nat>)
    returns (ret: Ret, vecReply': seq<Reply>, ghost o: Outcome)
    requires Loaded(builders, payloads, seeks)
    modifies c`err, c`off, c`wire, c`obuf, c`reader, builders`cmd
    ensures ret == o.inner && vecReply' == vecReply + o.replies && o.after == Now(c)
    ensures ret in {Returned(REDIS_OK), Returned(REDIS_ERR), Waiting, OutOfBounds}
    ensures Step(c.blocking, old(Now(c)), Job(payloads, seeks, 0), sends, arrivals, o)
    ensures ret == Returned(REDIS_OK) ==>
              |o.replies| == |builders| && (o.t == 0 <==> c.wire == old(c.wire) + Flatten(payloads))
    ensures o.used <= |arrivals| &&
            ParseMany(old(c.reader) + Received(arrivals[..o.used]), |o.replies|) == Done(o.replies, c.reader)
    ensures old(c.err) != 0 && builders != [] ==> ret == Returned(REDIS_ERR) && Now(c) == old(Now(c))
    ensures var e := BatchAs(old(c.err), payloads, seeks, sends, c.blocking);
            && Counted(builders, old(Cmds(builders)), payloads, seeks, e.i, e.left)
            && (o.t == 0 && e.i < |payloads| ==> e.left <= |payloads[e.i]|)
            && |c.wire| == |old(c.wire)| + PutOut(payloads, e) + o.t
  {
    hide Loaded, SendAllFrom, PutOut, Transients, ParseMany, Received, Collected, Flatten, Progressing, Counted, Cmds;
    var u, v;
    ghost var t;
    LoadedCounts(builders, payloads, seeks);
    PutOutFirst(payloads);
    ret, vecReply', u, v, t := PipelineSendAndGetReply(c, builders, vecReply, sends, arrivals, payloads, seeks);
    NoTransients(sends, c.blocking);
    o := Outcome(ret, vecReply'[|vecReply|..], u, v, t, Now(c));
  }

  lemma PutOutFirst(payloads: seq<Bytes>)
    ensures forall ret: Ret, used: nat :: PutOut(payloads, BatchEnd(ret, used, 0, FirstLeft(payloads))) == 0
  {
    assert payloads[..0] == [];
  }

  /** `batchExecCmd` likewise: what goes out is a prefix of the batch, what is appended are the
      first replies of the stream, and the caller is told nothing of an error. */
  method BatchExecCmd(c: RedisContext, builders: seq<RedisCmdBuilder>, vecReply: seq<Reply>, reSend: bool,
                      sends: seq<SendEvent>, arrivals: seq<ReadEvent>,
                      ghost payloads: seq<Bytes>, ghost seeks: seq<nat>)
    returns (ret: Ret, vecReply': seq<Reply>, retries: bool, ghost o: Outcome)
    requires Loaded(builders, payloads, seeks)
    modifies c`err, c`off, c`wire, c`obuf, c`reader, builders`cmd
    ensures !retries && ret == (if o.inner.Returned? then Returned(REDIS_OK) else o.inner)
    ensures vecReply' == vecReply + o.replies && o.after == Now(c)
    ensures Step(c.blocking, old(Now(c)), Job(payloads, seeks, 0), sends, arrivals, o)
    ensures o.inner == Returned(REDIS_OK) ==>
              |o.replies| == |builders| && (o.t == 0 <==> c.wire == old(c.wire) + Flatten(payloads))
    ensures o.used <= |arrivals| &&
            ParseMany(old(c.reader) + Received(arrivals[..o.used]), |o.replies|) == Done(o.replies, c.reader)
    ensures old(c.err) != 0 && builders != [] ==>
              o.inner == Returned(REDIS_ERR) && ret == Returned(REDIS_OK) && Now(c) == old(Now(c))
  {
    hide Loaded, Step, ParseMany, Received, Flatten, Counted, Cmds, BatchAs, PutOut;
    var inner;
    inner, vecReply', o := Attempt(c, builders, vecReply, sends, arrivals, payloads, seeks);
    retries := reSend && inner == Returned(REDIS_ERR_IO);
    ret := if inner.Returned? then Returned(REDIS_OK) else inner;
  }

  // One after another

  /** The context before the k-th of them. */
  function Before(os: seq<Outcome>, k: nat, c0: Ctx): Ctx
    requires k <= |os|
  {
    if k == 0 then c0 else os[k - 1].after
  }

  /** Each outcome is what its job makes of the context the one before it left, and only the last
      may be one that has not returned. */
  ghost predicate Run(blocking: bool, c0: Ctx, jobs: seq<Job>,
                      sends: nat -> seq<SendEvent>, arrivals: nat -> seq<ReadEvent>, os: seq<Outcome>)
  {
    |os| <= |jobs| && forall k :: 0 <= k < |os| ==> StepAt(blocking, c0, jobs, sends, arrivals, os, k)
  }

  ghost predicate StepAt(blocking: bool, c0: Ctx, jobs: seq<Job>,
                         sends: nat -> seq<SendEvent>, arrivals: nat -> seq<ReadEvent>, os: seq<Outcome>, k: nat)
    requires k < |os| <= |jobs|
  {
    && |jobs[k].payloads| == |jobs[k].seeks| && jobs[k].payloads != []
    && Step(blocking, Before(os, k, c0), jobs[k], sends(k), arrivals(k), os[k])
    && (k + 1 < |os| ==> os[k].inner.Returned?)
  }

  lemma RunMore(blocking: bool, c0: Ctx, jobs: seq<Job>, sends: nat -> seq<SendEvent>, arrivals: nat -> seq<ReadEvent>,
                os: seq<Outcome>, o: Outcome)
    requires Run(blocking, c0, jobs, sends, arrivals, os) && |os| < |jobs|
    requires os != [] ==> os[|os| - 1].inner.Returned?
    requires |jobs[|os|].payloads| == |jobs[|os|].seeks| && jobs[|os|].payloads != []
    requires Step(blocking, Before(os, |os|, c0), jobs[|os|], sends(|os|), arrivals(|os|), o)
    ensures Run(blocking, c0, jobs, sends, arrivals, os + [o]) && Before(os + [o], |os| + 1, c0) == o.after
  {
    hide Step, StepAt;
    var more := os + [o];
    forall k | 0 <= k < |more|
      ensures StepAt(blocking, c0, jobs, sends, arrivals, more, k)
    {
      StepKept(blocking, c0, jobs, sends, arrivals, os, o, k);
    }
  }

  lemma StepKept(blocking: bool, c0: Ctx, jobs: seq<Job>, sends: nat -> seq<SendEvent>, arrivals: nat -> seq<ReadEvent>,
                 os: seq<Outcome>, o: Outcome, k: nat)
    requires k <= |os| < |jobs| && (k < |os| ==> StepAt(blocking, c0, jobs, sends, arrivals, os, k))
    requires os != [] ==> os[|os| - 1].inner.Returned?
    requires |jobs[|os|].payloads| == |jobs[|os|].seeks| && jobs[|os|].payloads != []
    requires Step(blocking, Before(os, |os|, c0), jobs[|os|], sends(|os|), arrivals(|os|), o)
    ensures StepAt(blocking, c0, jobs, sends, arrivals, os + [o], k)
  {
    hide Step;
    assert Before(os + [o], k, c0) == Before(os, k, c0);
  }

  /** The k-th step of a run. */
  lemma RunStep(blocking: bool, c0: Ctx, jobs: seq<Job>, sends: nat -> seq<SendEvent>, arrivals: nat -> seq<ReadEvent>,
                os: seq<Outcome>, k: nat)
    requires Run(blocking, c0, jobs, sends, arrivals, os) && k < |os|
    ensures k < |jobs| && |jobs[k].payloads| == |jobs[k].seeks| && jobs[k].payloads != []
    ensures Step(blocking, Before(os, k, c0), jobs[k], sends(k), arrivals(k), os[k])
    ensures k + 1 < |os| ==> os[k].inner.Returned?
  {
    assert StepAt(blocking, c0, jobs, sends, arrivals, os, k);
  }

  /** Once the context is in error, from the start or by one that failed, every later one fails,
      uses no event, brings nothing, and leaves wire and reader as they are. */
  ghost predicate FailsOn(c0: Ctx, os: seq<Outcome>) {
    forall j, k :: 0 <= j <= k < |os| && Before(os, j, c0).err != 0 ==>
      os[k] == Outcome(Returned(REDIS_ERR), [], 0, 0, 0, Before(os, j, c0))
  }

  lemma {:induction false} RunFailsOn(blocking: bool, c0: Ctx, jobs: seq<Job>,
                                      sends: nat -> seq<SendEvent>, arrivals: nat -> seq<ReadEvent>, os: seq<Outcome>)
    requires Run(blocking, c0, jobs, sends, arrivals, os)
    ensures FailsOn(c0, os)
  {
    forall j, k | 0 <= j <= k < |os| && Before(os, j, c0).err != 0
      ensures os[k] == Outcome(Returned(REDIS_ERR), [], 0, 0, 0, Before(os, j, c0))
    {
      FailsAt(blocking, c0, jobs, sends, arrivals, os, j, k);
    }
  }

  lemma {:induction false} FailsAt(blocking: bool, c0: Ctx, jobs: seq<Job>,
                                   sends: nat -> seq<SendEvent>, arrivals: nat -> seq<ReadEvent>, os: seq<Outcome>,
                                   j: nat, k: nat)
    requires Run(blocking, c0, jobs, sends, arrivals, os) && j <= k < |os| && Before(os, j, c0).err != 0
    ensures os[k] == Outcome(Returned(REDIS_ERR), [], 0, 0, 0, Before(os, j, c0))
    decreases k
  {
    hide Run;
    RunStep(blocking, c0, jobs, sends, arrivals, os, k);
    if j < k {
      FailsAt(blocking, c0, jobs, sends, arrivals, os, j, k - 1);
    }
  }

  /** How many of them went well before the first that did not. */
  function Well(os: seq<Outcome>): (n: nat)
    ensures n <= |os| && (n < |os| ==> os[n].inner != Returned(REDIS_OK))
    ensures forall k :: 0 <= k < n ==> os[k].inner == Returned(REDIS_OK)
  {
    if os == [] || os[0].inner != Returned(REDIS_OK) then 0 else 1 + Well(os[1..])
  }

  function AllReplies(os: seq<Outcome>): seq<Reply> {
    if os == [] then [] else AllReplies(os[..|os| - 1]) + os[|os| - 1].replies
  }

  /** What the first `k` jobs have to send. */
  function ToSend(jobs: seq<Job>, k: nat): Bytes
    requires k <= |jobs|
  {
    if k == 0 then [] else ToSend(jobs, k - 1) + Flatten(jobs[k - 1].payloads)
  }

  /** What the first `k` outcomes received. */
  function Got(os: seq<Outcome>, arrivals: nat -> seq<ReadEvent>, k: nat): Bytes
    requires k <= |os|
  {
    if k == 0 then []
    else Got(os, arrivals, k - 1) +
         Received(if os[k - 1].used <= |arrivals(k - 1)| then arrivals(k - 1)[..os[k - 1].used] else arrivals(k - 1))
  }

  /** The transient failures of the first `k` outcomes. */
  function Failures(os: seq<Outcome>, k: nat): nat
    requires k <= |os|
  {
    if k == 0 then 0 else Failures(os, k - 1) + os[k - 1].t
  }

  /** From context `c0` to `c` these bytes went out, whole and once exactly without transient
      failures, and these replies are the first of the stream that was received. */
  ghost predicate Answered(c0: Ctx, sent: Bytes, received: Bytes, replies: seq<Reply>, t: nat, c: Ctx) {
    && |c.wire| == |c0.wire| + |sent| + t && (t == 0 <==> c.wire == c0.wire + sent)
    && ParseMany(c0.reader + received, |replies|) == Done(replies, c.reader)
  }

  lemma NothingAnswered(c0: Ctx)
    ensures Answered(c0, [], [], [], 0, c0)
  {
    assert c0.wire + [] == c0.wire && c0.reader + [] == c0.reader;
  }

  /** More goes out, more arrives, and the replies that follow are read. */
  lemma AnsweredMore(c0: Ctx, sent: Bytes, received: Bytes, replies: seq<Reply>, t: nat, c: Ctx,
                     payload: Bytes, more: Bytes, values: seq<Reply>, t': nat, c': Ctx)
    requires Answered(c0, sent, received, replies, t, c) && Answered(c, payload, more, values, t', c')
    ensures Answered(c0, sent + payload, received + more, replies + values, t + t', c')
  {
    WireMore(c0.wire, sent, c.wire, t, payload, c'.wire, t');
    RepliesMore(c0.reader, received, replies, c.reader, more, values, c'.reader);
    hide ParseMany;
  }

  lemma WireMore(wire: Bytes, sent: Bytes, wire1: Bytes, t1: nat, payload: Bytes, wire2: Bytes, t2: nat)
    requires |wire1| == |wire| + |sent| + t1 && (t1 == 0 <==> wire1 == wire + sent)
    requires |wire2| == |wire1| + |payload| + t2 && (t2 == 0 <==> wire2 == wire1 + payload)
    ensures |wire2| == |wire| + |sent + payload| + (t1 + t2)
    ensures t1 + t2 == 0 <==> wire2 == wire + (sent + payload)
  {
    if t1 + t2 == 0 {
      assert wire + (sent + payload) == (wire + sent) + payload;
    }
  }

  lemma RepliesMore(reader: Bytes, received: Bytes, before: seq<Reply>, rest: Bytes,
                    more: Bytes, values: seq<Reply>, rest': Bytes)
    requires ParseMany(reader + received, |before|) == Done(before, rest)
    requires ParseMany(rest + more, |values|) == Done(values, rest')
    ensures ParseMany(reader + (received + more), |before + values|) == Done(before + values, rest')
  {
    hide ParseMany;
    ParseManyStable(reader + received, |before|, more);
    assert reader + (received + more) == (reader + received) + more;
    ParseManyAdd(reader + (received + more), |before|, |values|);
  }

  /** Up to the first that did not go well, the jobs went out in order, and the replies are the first
      of the stream, in order. */
  lemma {:induction false} RunAnswered(blocking: bool, c0: Ctx, jobs: seq<Job>,
                                       sends: nat -> seq<SendEvent>, arrivals: nat -> seq<ReadEvent>, os: seq<Outcome>,
                                       n: nat)
    requires Run(blocking, c0, jobs, sends, arrivals, os) && n <= Well(os)
    ensures n <= |jobs|
    ensures Answered(c0, ToSend(jobs, n), Got(os, arrivals, n), AllReplies(os[..n]), Failures(os, n), Before(os, n, c0))
    decreases n
  {
    hide Run, Step, Answered, Flatten, Received, ParseMany;
    if n == 0 {
      NothingAnswered(c0);
      assert os[..0] == [];
      return;
    }
    var k: nat := n - 1;
    RunAnswered(blocking, c0, jobs, sends, arrivals, os, k);
    RunStep(blocking, c0, jobs, sends, arrivals, os, k);
    var before, o := Before(os, k, c0), os[k];
    StepMeans(blocking, before, jobs[k], sends(k), arrivals(k), o);
    var payload, more := Flatten(jobs[k].payloads), Received(arrivals(k)[..o.used]);
    StepAnswers(before, payload, more, o);
    AnsweredMore(c0, ToSend(jobs, k), Got(os, arrivals, k), AllReplies(os[..k]), Failures(os, k), before,
                 payload, more, o.replies, o.t, o.after);
    assert os[..n] == os[..k] + [o];
    RepliesNext(os[..k], o);
  }

  lemma StepAnswers(c: Ctx, payload: Bytes, more: Bytes, o: Outcome)
    requires |o.after.wire| == |c.wire| + |payload| + o.t && (o.t == 0 <==> o.after.wire == c.wire + payload)
    requires ParseMany(c.reader + more, |o.replies|) == Done(o.replies, o.after.reader)
    ensures Answered(c, payload, more, o.replies, o.t, o.after)
  {
  }

  lemma RepliesNext(os: seq<Outcome>, o: Outcome)
    ensures AllReplies(os + [o]) == AllReplies(os) + o.replies
  {
    assert (os + [o])[..|os|] == os;
  }

  /** One reply for each builder of the jobs that went well. */
  function Builders(jobs: seq<Job>, k: nat): nat
    requires k <= |jobs|
  {
    if k == 0 then 0 else Builders(jobs, k - 1) + |jobs[k - 1].payloads|
  }

  lemma {:induction false} RunReplies(blocking: bool, c0: Ctx, jobs: seq<Job>,
                                      sends: nat -> seq<SendEvent>, arrivals: nat -> seq<ReadEvent>, os: seq<Outcome>,
                                      n: nat)
    requires Run(blocking, c0, jobs, sends, arrivals, os) && n <= Well(os)
    ensures n <= |jobs| && |AllReplies(os[..n])| == Builders(jobs, n)
    decreases n
  {
    hide Run, Step, Flatten, Received, ParseMany;
    if n > 0 {
      var k: nat := n - 1;
      RunReplies(blocking, c0, jobs, sends, arrivals, os, k);
      RunStep(blocking, c0, jobs, sends, arrivals, os, k);
      StepMeans(blocking, Before(os, k, c0), jobs[k], sends(k), arrivals(k), os[k]);
      assert os[..n] == os[..k] + [os[k]];
      RepliesNext(os[..k], os[k]);
    }
  }

  // One command after another

  /** The commands of a caller, one at a time. */
  function Singles(payloads: seq<Bytes>, seeks: seq<nat>): (jobs: seq<Job>)
    requires |payloads| == |seeks|
    ensures |jobs| == |payloads|
  {
    seq(|payloads|, k requires 0 <= k < |payloads| => Job([payloads[k]], [seeks[k]], 1))
  }

  lemma SingleAt(payloads: seq<Bytes>, seeks: seq<nat>, k: nat)
    requires k < |payloads| == |seeks|
    ensures Singles(payloads, seeks)[k] == Job([payloads[k]], [seeks[k]], 1)
  {
  }

  lemma {:induction false} SinglesAre(payloads: seq<Bytes>, seeks: seq<nat>, n: nat)
    requires n <= |payloads| == |seeks|
    ensures ToSend(Singles(payloads, seeks), n) == Flatten(payloads[..n]) && Builders(Singles(payloads, seeks), n) == n
    decreases n
  {
    if n == 0 {
      assert payloads[..0] == [];
    } else {
      SinglesAre(payloads, seeks, n - 1);
      OneBuilder(payloads[n - 1], 0, [], true);
      assert payloads[..n][..n - 1] == payloads[..n - 1];
    }
  }

  /** What the caller saw of each command. */
  ghost predicate Reported(rets: seq<Ret>, replies: seq<Option<Reply>>, os: seq<Outcome>) {
    && |rets| == |replies| == |os|
    && forall k :: 0 <= k < |os| ==>
         && rets[k] == (if os[k].inner.Returned? then Returned(REDIS_OK) else os[k].inner)
         && os[k].replies == Replied(replies[k])
         && (replies[k].Some? <==> os[k].inner == Returned(REDIS_OK))
  }

  lemma ReportedMore(rets: seq<Ret>, replies: seq<Option<Reply>>, os: seq<Outcome>,
                     ret: Ret, reply: Option<Reply>, o: Outcome)
    requires Reported(rets, replies, os) && ret == (if o.inner.Returned? then Returned(REDIS_OK) else o.inner)
    requires o.replies == Replied(reply)
    requires reply.Some? <==> o.inner == Returned(REDIS_OK)
    ensures Reported(rets + [ret], replies + [reply], os + [o])
  {
  }

  /** The commands from the `i`-th on have not been sent. */
  ghost predicate Ready(bs: seq<RedisCmdBuilder>, payloads: seq<Bytes>, seeks: seq<nat>, i: nat)
    reads bs
  {
    && |payloads| == |bs| == |seeks| && NoRepeats(bs)
    && forall k :: i <= k < |bs| ==> bs[k].Sendable() && payloads[k] == bs[k].Payload() && bs[k].seek == seeks[k]
  }

  /** Where a caller is who started on context `c0`. */
  ghost predicate Standing(c: RedisContext, c0: Ctx, jobs: seq<Job>,
                           sends: nat -> seq<SendEvent>, arrivals: nat -> seq<ReadEvent>, os: seq<Outcome>)
    reads c
  {
    Run(c.blocking, c0, jobs, sends, arrivals, os) && Before(os, |os|, c0) == Now(c)
  }

  lemma NothingYet(c: RedisContext, jobs: seq<Job>, sends: nat -> seq<SendEvent>, arrivals: nat -> seq<ReadEvent>)
    ensures Standing(c, Now(c), jobs, sends, arrivals, []) && Reported([], [], [])
  {
  }

  lemma LoadedIsReady(bs: seq<RedisCmdBuilder>, payloads: seq<Bytes>, seeks: seq<nat>)
    requires Loaded(bs, payloads, seeks)
    ensures |payloads| == |bs| == |seeks| && Ready(bs, payloads, seeks, 0)
  {
  }

  /** What that means at the end: a context in error from the start stays as it is; up to the first
      that fails, what the jobs have to send went out in order, and one reply for each builder was
      read, in order; after it every other one fails and leaves the context alone. */
  lemma StandingMeans(c: RedisContext, c0: Ctx, jobs: seq<Job>,
                      sends: nat -> seq<SendEvent>, arrivals: nat -> seq<ReadEvent>, os: seq<Outcome>)
    requires Standing(c, c0, jobs, sends, arrivals, os)
    ensures FailsOn(c0, os) && (c0.err != 0 ==> Well(os) == 0 && Now(c) == c0)
    ensures var n := Well(os);
            && n <= |jobs| && |AllReplies(os[..n])| == Builders(jobs, n)
            && Answered(c0, ToSend(jobs, n), Got(os, arrivals, n), AllReplies(os[..n]),
                        Failures(os, n), Before(os, n, c0))
  {
    hide Run, Answered;
    RunFailsOn(c.blocking, c0, jobs, sends, arrivals, os);
    RunAnswered(c.blocking, c0, jobs, sends, arrivals, os, Well(os));
    RunReplies(c.blocking, c0, jobs, sends, arrivals, os, Well(os));
    if c0.err != 0 && os != [] {
      assert Before(os, 0, c0) == c0;
      assert os[0].inner == Returned(REDIS_ERR) && os[|os| - 1].after == c0;
    }
  }

  /** A caller executing one command after another. Up to the first that fails, the commands go out
      in order and the replies are those of the stream, in order. Nothing replaces the context, so
      after it every other command goes unsent and unanswered and is reported REDIS_OK. */
  method ExecInTurn(c: RedisContext, bs: seq<RedisCmdBuilder>, reSend: bool,
                    sends: nat -> seq<SendEvent>, arrivals: nat -> seq<ReadEvent>,
                    ghost payloads: seq<Bytes>, ghost seeks: seq<nat>)
    returns (finished: bool, rets: seq<Ret>, replies: seq<Option<Reply>>, ghost os: seq<Outcome>)
    requires Loaded(bs, payloads, seeks)
    modifies c`err, c`off, c`wire, c`obuf, c`reader, bs`cmd
    ensures (!finished ==> os != []) && (os != [] ==> (finished <==> os[|os| - 1].inner.Returned?))
    ensures finished ==> |os| == |bs|
    ensures Reported(rets, replies, os)
    ensures Standing(c, old(Now(c)), Singles(payloads, seeks), sends, arrivals, os)
    ensures FailsOn(old(Now(c)), os) && (old(c.err) != 0 ==> Well(os) == 0 && Now(c) == old(Now(c)))
    ensures var n := Well(os);
            && n <= |bs| && |AllReplies(os[..n])| == n
            && Answered(old(Now(c)), Flatten(payloads[..n]), Got(os, arrivals, n), AllReplies(os[..n]),
                        Failures(os, n), Before(os, n, old(Now(c))))
  {
    ghost var c0 := Now(c);
    hide Loaded, Reported, Standing, Answered, FailsOn, Singles, AllReplies, Flatten, ToSend, Builders, Got, Failures;
    finished, rets, replies, os := ExecEach(c, bs, reSend, sends, arrivals, payloads, seeks);
    StandingMeans(c, c0, Singles(payloads, seeks), sends, arrivals, os);
    SinglesAre(payloads, seeks, Well(os));
  }

  /** The loop of it. */
  method ExecEach(c: RedisContext, bs: seq<RedisCmdBuilder>, reSend: bool,
                  sends: nat -> seq<SendEvent>, arrivals: nat -> seq<ReadEvent>,
                  ghost payloads: seq<Bytes>, ghost seeks: seq<nat>)
    returns (finished: bool, rets: seq<Ret>, replies: seq<Option<Reply>>, ghost os: seq<Outcome>)
    requires Loaded(bs, payloads, seeks)
    modifies c`err, c`off, c`wire, c`obuf, c`reader, bs`cmd
    ensures |payloads| == |seeks| == |bs|
    ensures (!finished ==> os != []) && (os != [] ==> (finished <==> os[|os| - 1].inner.Returned?))
    ensures finished ==> |os| == |bs|
    ensures Reported(rets, replies, os)
    ensures Standing(c, old(Now(c)), Singles(payloads, seeks), sends, arrivals, os)
  {
    hide Ready, Loaded, NoRepeats, Reported, Standing, Singles, Replied;
    finished, rets, replies, os := true, [], [], [];
    LoadedIsReady(bs, payloads, seeks);
    ghost var c0, jobs := Now(c), Singles(payloads, seeks);
    NothingYet(c, jobs, sends, arrivals);
    while |rets| < |bs|
      invariant finished && |rets| == |os| <= |bs|
      invariant os != [] ==> os[|os| - 1].inner.Returned?
      invariant Ready(bs, payloads, seeks, |os|) && Reported(rets, replies, os)
      invariant Standing(c, c0, jobs, sends, arrivals, os)
      decreases |bs| - |rets|
    {
      var ret, reply;
      ghost var o;
      finished, ret, reply, o := ExecNext(c, bs[|rets|], reSend, sends, arrivals, |rets|, bs, payloads, seeks, os, c0);
      ReportedMore(rets, replies, os, ret, reply, o);
      rets, replies, os := rets + [ret], replies + [reply], os + [o];
      if !finished {
        break;
      }
    }
  }

  /** The next command of the caller. */
  method ExecNext(c: RedisContext, b: RedisCmdBuilder, reSend: bool,
                  sends: nat -> seq<SendEvent>, arrivals: nat -> seq<ReadEvent>, k: nat,
                  ghost bs: seq<RedisCmdBuilder>, ghost payloads: seq<Bytes>, ghost seeks: seq<nat>,
                  ghost os: seq<Outcome>, ghost c0: Ctx)
    returns (finished: bool, ret: Ret, reply: Option<Reply>, ghost o: Outcome)
    requires k == |os| < |bs| == |payloads| == |seeks| && b == bs[k] && Ready(bs, payloads, seeks, k)
    requires os != [] ==> os[|os| - 1].inner.Returned?
    requires Standing(c, c0, Singles(payloads, seeks), sends, arrivals, os)
    modifies c`err, c`off, c`wire, c`obuf, c`reader, b`cmd
    ensures ret == (if o.inner.Returned? then Returned(REDIS_OK) else o.inner)
    ensures o.replies == Replied(reply) && (finished <==> o.inner.Returned?)
    ensures reply.Some? <==> o.inner == Returned(REDIS_OK)
    ensures Ready(bs, payloads, seeks, k + 1)
    ensures Standing(c, c0, Singles(payloads, seeks), sends, arrivals, os + [o])
  {
    hide RedisCmdBuilder.Sendable, RedisCmdBuilder.Payload, ParseReply, Received, Run, Step, Singles;
    ghost var jobs := Singles(payloads, seeks);
    SingleAt(payloads, seeks, k);
    var retries;
    ret, reply, retries, o := ExecCmd(c, b, reSend, sends(k), arrivals(k));
    finished := ret.Returned?;
    RunMore(c.blocking, c0, jobs, sends, arrivals, os, o);
  }

  // The batches of a drain on one context

  /** Where the k-th batch of `n` commands starts; the last one ends at `n`. */
  function BatchStart(k: nat, n: nat): nat {
    if REDIS_ASYNC_BATCH_CMD_COUNT * k < n then REDIS_ASYNC_BATCH_CMD_COUNT * k else n
  }

  function BatchCount(n: nat): nat {
    (n + REDIS_ASYNC_BATCH_CMD_COUNT - 1) / REDIS_ASYNC_BATCH_CMD_COUNT
  }

  lemma BatchBounds(k: nat, n: nat)
    ensures BatchStart(0, n) == 0 && BatchStart(BatchCount(n), n) == n
    ensures k < BatchCount(n) <==> BatchStart(k, n) < n
    ensures BatchStart(k, n) <= BatchStart(k + 1, n) <= n
    ensures BatchStart(k, n) < n ==>
              BatchStart(k + 1, n) == BatchStart(k, n) + if n - BatchStart(k, n) < REDIS_ASYNC_BATCH_CMD_COUNT
                                                         then n - BatchStart(k, n) else REDIS_ASYNC_BATCH_CMD_COUNT
  {
  }

  function BatchOf<T>(s: seq<T>, k: nat): seq<T> {
    BatchBounds(k, |s|);
    s[BatchStart(k, |s|)..BatchStart(k + 1, |s|)]
  }

  /** The batches of a drain. */
  function Batches(payloads: seq<Bytes>, seeks: seq<nat>): (jobs: seq<Job>)
    requires |payloads| == |seeks|
    ensures |jobs| == BatchCount(|payloads|)
    ensures forall k :: 0 <= k < |jobs| ==> jobs[k] == Job(BatchOf(payloads, k), BatchOf(seeks, k), 0)
  {
    seq(BatchCount(|payloads|), k requires 0 <= k => Job(BatchOf(payloads, k), BatchOf(seeks, k), 0))
  }

  lemma {:induction false} FlattenAdd(a: seq<Bytes>, b: seq<Bytes>)
    ensures Flatten(a + b) == Flatten(a) + Flatten(b)
  {
    if b == [] {
      assert a + [] == a && Flatten(a) + [] == Flatten(a);
    } else {
      var init, last := b[..|b| - 1], b[|b| - 1];
      FlattenAdd(a, init);
      assert (a + b)[..|a + b| - 1] == a + init;
      Associative(Flatten(a), Flatten(init), last);
    }
  }

  lemma NoBytes(payloads: seq<Bytes>)
    ensures Flatten(payloads[..0]) == []
  {
  }

  lemma NextSlice(payloads: seq<Bytes>, i: nat, j: nat)
    requires i <= j <= |payloads|
    ensures Flatten(payloads[..i]) + Flatten(payloads[i..j]) == Flatten(payloads[..j])
  {
    FlattenAdd(payloads[..i], payloads[i..j]);
    assert payloads[..j] == payloads[..i] + payloads[i..j];
  }

  /** The first batches have to send what the first commands have to send. */
  lemma {:induction false} BatchesAre(payloads: seq<Bytes>, seeks: seq<nat>, n: nat)
    requires |payloads| == |seeks| && n <= BatchCount(|payloads|)
    ensures BatchStart(n, |payloads|) <= |payloads|
    ensures ToSend(Batches(payloads, seeks), n) == Flatten(payloads[..BatchStart(n, |payloads|)])
    ensures Builders(Batches(payloads, seeks), n) == BatchStart(n, |payloads|)
    decreases n
  {
    hide Flatten, BatchStart, BatchCount;
    var m := |payloads|;
    BatchBounds(n, m);
    BatchBounds(0, m);
    if n == 0 {
      NoBytes(payloads);
    } else {
      BatchBounds(n - 1, m);
      BatchesAre(payloads, seeks, n - 1);
      NextSlice(payloads, BatchStart(n - 1, m), BatchStart(n, m));
    }
  }

  /** The drain's batches, one after another on one context, each builder freed with its batch and
      each reply with it. Up to the first batch that fails, the commands go out in order, and one
      reply for each is read, in order. After it every other command goes unsent and unanswered,
      but its builder is freed all the same. A batch that is still waiting ends the loop. */
  method ExecInBatches(c: RedisContext, builders: seq<RedisCmdBuilder>,
                       sends: nat -> seq<SendEvent>, arrivals: nat -> seq<ReadEvent>,
                       ghost payloads: seq<Bytes>, ghost seeks: seq<nat>)
    returns (finished: bool, freed: seq<RedisCmdBuilder>, freedReplies: seq<Reply>, ghost os: seq<Outcome>)
    requires Loaded(builders, payloads, seeks)
    modifies c`err, c`off, c`wire, c`obuf, c`reader, builders`cmd
    ensures finished ==> freed == builders && freedReplies == AllReplies(os) && |os| == BatchCount(|builders|)
    ensures (!finished ==> os != []) && (os != [] ==> (finished <==> os[|os| - 1].inner.Returned?))
    ensures !finished ==> Drained(builders, os[..|os| - 1], freed, freedReplies)
    ensures Standing(c, old(Now(c)), Batches(payloads, seeks), sends, arrivals, os)
    ensures FailsOn(old(Now(c)), os) && (old(c.err) != 0 ==> Well(os) == 0 && Now(c) == old(Now(c)))
    ensures var n := Well(os);
            var done := BatchStart(n, |builders|);
            && done <= |payloads| && |AllReplies(os[..n])| == done
            && Answered(old(Now(c)), Flatten(payloads[..done]), Got(os, arrivals, n), AllReplies(os[..n]),
                        Failures(os, n), Before(os, n, old(Now(c))))
  {
    hide Loaded, Standing, Answered, FailsOn, Batches, AllReplies, Flatten, ToSend, Builders, Got, Failures;
    ghost var c0 := Now(c);
    finished, freed, freedReplies, os := ExecAll(c, builders, sends, arrivals, payloads, seeks);
    StandingMeans(c, c0, Batches(payloads, seeks), sends, arrivals, os);
    BatchesAre(payloads, seeks, Well(os));
  }

  /** The loop of it. */
  method ExecAll(c: RedisContext, builders: seq<RedisCmdBuilder>,
                 sends: nat -> seq<SendEvent>, arrivals: nat -> seq<ReadEvent>,
                 ghost payloads: seq<Bytes>, ghost seeks: seq<nat>)
    returns (finished: bool, freed: seq<RedisCmdBuilder>, freedReplies: seq<Reply>, ghost os: seq<Outcome>)
    requires Loaded(builders, payloads, seeks)
    modifies c`err, c`off, c`wire, c`obuf, c`reader, builders`cmd
    ensures |payloads| == |seeks| == |builders|
    ensures finished ==> freed == builders && freedReplies == AllReplies(os) && |os| == BatchCount(|builders|)
    ensures (!finished ==> os != []) && (os != [] ==> (finished <==> os[|os| - 1].inner.Returned?))
    ensures !finished ==> Drained(builders, os[..|os| - 1], freed, freedReplies)
    ensures Standing(c, old(Now(c)), Batches(payloads, seeks), sends, arrivals, os)
  {
    hide Loaded, Ready, NoRepeats, Standing, Drained, Batches, AllReplies, BatchStart, BatchOf, BatchCount;
    finished, freed, freedReplies, os := true, [], [], [];
    var k: nat := 0;
    LoadedIsReady(builders, payloads, seeks);
    ghost var c0, jobs := Now(c), Batches(payloads, seeks);
    NothingYet(c, jobs, sends, arrivals);
    NothingDrained(builders);
    while |freed| < |builders|
      invariant finished && k == |os| && (os != [] ==> os[|os| - 1].inner.Returned?)
      invariant Drained(builders, os, freed, freedReplies)
      invariant |freed| <= |builders| && Ready(builders, payloads, seeks, |freed|)
      invariant Standing(c, c0, jobs, sends, arrivals, os)
      decreases |builders| - |freed|
    {
      DrainedNext(builders, os, freed, freedReplies);
      var left := |builders| - |freed|;
      var n := if left < REDIS_ASYNC_BATCH_CMD_COUNT then left else REDIS_ASYNC_BATCH_CMD_COUNT;
      var batch, replies := builders[|freed|..|freed| + n], [];
      ghost var o;
      finished, replies, o := ExecNextBatch(c, batch, sends, arrivals, k, builders, payloads, seeks, os, c0);
      DrainedMore(builders, os, freed, freedReplies, o, batch, replies);
      os := os + [o];
      if !finished {
        assert os[..|os| - 1] + [o] == os;
        return;
      }
      k, freed, freedReplies := k + 1, freed + batch, freedReplies + replies;
    }
    DrainedEnd(builders, os, freed, freedReplies);
  }

  lemma NothingDrained(builders: seq<RedisCmdBuilder>)
    ensures Drained(builders, [], [], [])
  {
    BatchBounds(0, |builders|);
  }

  /** After the batches `os`: what is freed. */
  ghost predicate Drained(builders: seq<RedisCmdBuilder>, os: seq<Outcome>,
                          freed: seq<RedisCmdBuilder>, freedReplies: seq<Reply>)
  {
    && |freed| == BatchStart(|os|, |builders|) <= |builders| && freed == builders[..|freed|]
    && freedReplies == AllReplies(os) && |os| <= BatchCount(|builders|)
  }

  lemma DrainedNext(builders: seq<RedisCmdBuilder>, os: seq<Outcome>,
                    freed: seq<RedisCmdBuilder>, freedReplies: seq<Reply>)
    requires Drained(builders, os, freed, freedReplies) && |freed| < |builders|
    ensures var m, left := |builders|, |builders| - |freed|;
            var n := if left < REDIS_ASYNC_BATCH_CMD_COUNT then left else REDIS_ASYNC_BATCH_CMD_COUNT;
            && |os| < BatchCount(m) && |freed| == BatchStart(|os|, m) && |freed| + n == BatchStart(|os| + 1, m) <= m
            && BatchOf(builders, |os|) == builders[|freed|..|freed| + n]
  {
    BatchBounds(|os|, |builders|);
  }

  lemma DrainedMore(builders: seq<RedisCmdBuilder>, os: seq<Outcome>,
                    freed: seq<RedisCmdBuilder>, freedReplies: seq<Reply>,
                    o: Outcome, batch: seq<RedisCmdBuilder>, replies: seq<Reply>)
    requires Drained(builders, os, freed, freedReplies) && |os| < BatchCount(|builders|)
    requires batch == BatchOf(builders, |os|) && o.replies == replies
    ensures Drained(builders, os + [o], freed + batch, freedReplies + replies)
    ensures |freed + batch| == BatchStart(|os| + 1, |builders|) && batch != []
  {
    BatchBounds(|os|, |builders|);
    hide BatchStart, BatchCount;
    RepliesNext(os, o);
    SliceMore(builders, |freed|, |batch|);
  }

  lemma SliceMore<T>(s: seq<T>, i: nat, n: nat)
    requires i + n <= |s|
    ensures s[..i] + s[i..i + n] == s[..i + n]
  {
  }

  lemma DrainedEnd(builders: seq<RedisCmdBuilder>, os: seq<Outcome>,
                   freed: seq<RedisCmdBuilder>, freedReplies: seq<Reply>)
    requires Drained(builders, os, freed, freedReplies) && |freed| >= |builders|
    ensures freed == builders && freedReplies == AllReplies(os) && |os| == BatchCount(|builders|)
  {
    BatchBounds(|os|, |builders|);
  }

  /** The next batch of all. */
  method ExecNextBatch(c: RedisContext, batch: seq<RedisCmdBuilder>,
                       sends: nat -> seq<SendEvent>, arrivals: nat -> seq<ReadEvent>, k: nat,
                       ghost builders: seq<RedisCmdBuilder>, ghost payloads: seq<Bytes>, ghost seeks: seq<nat>,
                       ghost os: seq<Outcome>, ghost c0: Ctx)
    returns (finished: bool, replies: seq<Reply>, ghost o: Outcome)
    requires k == |os| < BatchCount(|builders|) && |builders| == |payloads| == |seeks| && batch == BatchOf(builders, k)
    requires Ready(builders, payloads, seeks, BatchStart(k, |builders|))
    requires os != [] ==> os[|os| - 1].inner.Returned?
    requires Standing(c, c0, Batches(payloads, seeks), sends, arrivals, os)
    modifies c`err, c`off, c`wire, c`obuf, c`reader, batch`cmd
    ensures o.replies == replies && (finished <==> o.inner.Returned?)
    ensures Ready(builders, payloads, seeks, BatchStart(k + 1, |builders|))
    ensures Standing(c, c0, Batches(payloads, seeks), sends, arrivals, os + [o])
  {
    hide Loaded, Ready, Flatten, BatchOf, BatchStart, BatchCount, Batches, NoRepeats, Run, Step, ParseMany, Received;
    ghost var jobs, next := Batches(payloads, seeks), BatchStart(k + 1, |builders|);
    ghost var slice, ats := BatchOf(payloads, k), BatchOf(seeks, k);
    assert jobs[k] == Job(slice, ats, 0);
    ghost var later, load, offs := Split(builders, payloads, seeks, k);
    var ret, retries;
    ret, replies, retries, o := BatchExecCmd(c, batch, [], true, sends(k), arrivals(k), slice, ats);
    finished := ret.Returned?;
    RunMore(c.blocking, c0, jobs, sends, arrivals, os, o);
    assert Loaded(later, load, offs);
    ReadyIs(builders, payloads, seeks, next);
  }

  /** The batch, and what comes after it, which it does not touch. */
  lemma Split(builders: seq<RedisCmdBuilder>, payloads: seq<Bytes>, seeks: seq<nat>, k: nat)
    returns (later: seq<RedisCmdBuilder>, load: seq<Bytes>, offs: seq<nat>)
    requires |builders| == |payloads| == |seeks| && k < BatchCount(|builders|)
    requires Ready(builders, payloads, seeks, BatchStart(k, |builders|))
    ensures var batch := BatchOf(builders, k);
            && batch != [] && NoRepeats(builders) && Loaded(batch, BatchOf(payloads, k), BatchOf(seeks, k))
            && Loaded(later, load, offs) && forall i :: 0 <= i < |later| ==> later[i] !in batch
    ensures |BatchOf(payloads, k)| == |BatchOf(seeks, k)| == |BatchOf(builders, k)|
    ensures var next := BatchStart(k + 1, |builders|);
            next <= |builders| && later == builders[next..] && load == payloads[next..] && offs == seeks[next..]
  {
    BatchBounds(k, |builders|);
    var i, next := BatchStart(k, |builders|), BatchStart(k + 1, |builders|);
    hide BatchStart, BatchCount, RedisCmdBuilder.Sendable, RedisCmdBuilder.Payload;
    ReadyIs(builders, payloads, seeks, i);
    LoadedSplit(builders, payloads, seeks, i, next - i);
    later, load, offs := builders[next..], payloads[next..], seeks[next..];
  }

  lemma ReadyIs(builders: seq<RedisCmdBuilder>, payloads: seq<Bytes>, seeks: seq<nat>, i: nat)
    requires |builders| == |payloads| == |seeks| && i <= |builders| && NoRepeats(builders)
    ensures Ready(builders, payloads, seeks, i) <==> Loaded(builders[i..], payloads[i..], seeks[i..])
  {
    hide RedisCmdBuilder.Sendable, RedisCmdBuilder.Payload;
    var tail, load, offs := builders[i..], payloads[i..], seeks[i..];
    if Loaded(tail, load, offs) {
      forall k | i <= k < |builders|
        ensures builders[k].Sendable() && payloads[k] == builders[k].Payload() && builders[k].seek == seeks[k]
      {
        assert builders[k] == tail[k - i] && payloads[k] == load[k - i] && seeks[k] == offs[k - i];
      }
    }
  }

  /** A batch and what comes after it. */
  lemma LoadedSplit(builders: seq<RedisCmdBuilder>, payloads: seq<Bytes>, seeks: seq<nat>, i: nat, n: nat)
    requires |builders| == |payloads| == |seeks| && i + n <= |builders|
    requires Loaded(builders[i..], payloads[i..], seeks[i..])
    ensures Loaded(builders[i..i + n], payloads[i..i + n], seeks[i..i + n])
    ensures Loaded(builders[i + n..], payloads[i + n..], seeks[i + n..])
    ensures forall k :: i + n <= k < |builders| ==> builders[k] !in builders[i..i + n]
  {
    var xs, ys, all := builders[i..i + n], builders[i + n..], builders[i..];
    assert all == xs + ys && payloads[i..] == payloads[i..i + n] + payloads[i + n..];
    assert seeks[i..] == seeks[i..i + n] + seeks[i + n..];
    hide RedisCmdBuilder.Sendable, RedisCmdBuilder.Payload;
  }

  /** What a retry on another context would put on its wire if it were reached: the first attempt
      has counted the builder's slot down, by one for each byte sent and up by one for each
      transient failure, and the second starts again at the front of the buffer with the count
      that is left. If that reaches past the buffer the second has memory behind it sent, and the
      model stops there. Otherwise it
      sends that many of the first bytes: the whole command exactly if the first attempt sent as
      many bytes as it saw transient failures, so without these, none. */
  method Resend(c1: RedisContext, c2: RedisContext, b: RedisCmdBuilder, first: seq<SendEvent>, second: seq<SendEvent>)
    returns (ret1: Ret, ret2: Ret, ghost left: nat, ghost u1: nat, ghost t1: nat, ghost u2: nat, ghost t2: nat)
    requires b.Sendable() && c1 != c2
    modifies c1`err, c1`off, c1`wire, c1`obuf, c2`err, c2`off, c2`wire, c2`obuf, b`cmd
    ensures u1 <= |first| && t1 == Transients(first[..u1], c1.blocking)
    ensures u2 <= |second| && t2 == Transients(second[..u2], c2.blocking)
    ensures |c1.wire| + left == |old(c1.wire)| + |old(b.Payload())| + t1
    ensures t1 == 0 ==>
              && left <= |old(b.Payload())|
              && c1.wire + old(b.Payload())[|old(b.Payload())| - left..] == old(c1.wire) + old(b.Payload())
    ensures b.seek + left > |old(b.cmd)| ==>
              c2.wire == old(c2.wire) && ret2 == if old(c2.err) == 0 then OutOfBounds else Returned(REDIS_ERR)
    ensures ret2 == Returned(REDIS_OK) ==> b.seek + left <= |old(b.cmd)|
    ensures ret2 == Returned(REDIS_OK) && t2 == 0 ==>
              c2.wire == old(c2.wire) + old(b.cmd)[b.seek..b.seek + left]
    ensures ret2 == Returned(REDIS_OK) && t2 == 0 ==>
              (c2.wire == old(c2.wire) + old(b.Payload()) <==> |c1.wire| == |old(c1.wire)| + t1)
  {
    hide Slot, Transients, RedisCmdBuilder.Sendable, RedisCmdBuilder.Payload;
    var u;
    ghost var cmd, payload, at, wire2 := b.cmd, b.Payload(), b.seek, c2.wire;
    SlotSays(b);
    ret1, u, t1 := SendBuilder(c1, b, first);
    u1, u2, t2 := u, 0, 0;
    NoTransients(second, c2.blocking);
    left := Slot(b.cmd, b.seek);
    if b.seek + Slot(b.cmd, b.seek) > |b.cmd| {
      return ret1, if c2.err != 0 then Returned(REDIS_ERR) else OutOfBounds, left, u1, t1, u2, t2;
    }
    FrontOf(cmd, b.cmd, at, left);
    SlotSays(b);
    ret2, u, t2 := SendBuilder(c2, b, second);
    u2 := u;
    WholeIff(wire2, cmd, at, |payload|, left);
  }

  lemma FrontOf(cmd: Bytes, cmd': Bytes, at: nat, left: nat)
    requires |cmd| == |cmd'| && at + left <= |cmd| && cmd'[at..] == cmd[at..]
    ensures cmd'[at..at + left] == cmd[at..at + left]
  {
    assert cmd'[at..at + left] == cmd'[at..][..left] && cmd[at..at + left] == cmd[at..][..left];
  }

  lemma WholeIff(wire: Bytes, cmd: Bytes, at: nat, n: nat, left: nat)
    requires at + left <= |cmd| && at + n <= |cmd|
    ensures wire + cmd[at..at + left] == wire + cmd[at..at + n] <==> left == n
  {
    assert |wire + cmd[at..at + left]| == |wire| + left;
  }

  /** What a retry of a batch would find to send: nothing of the builders that went out, of the next
      one the first bytes once more, as many as are left, and all of the others. */
  function Again(cmds: seq<Bytes>, payloads: seq<Bytes>, seeks: seq<nat>, e: BatchEnd): (again: seq<Bytes>)
    requires |cmds| == |payloads| == |seeks|
    ensures |again| == |payloads|
  {
    seq(|payloads|, j requires 0 <= j < |payloads| =>
      if j < e.i then [] else if j == e.i then Front(cmds[j], seeks[j], e.left) else payloads[j])
  }

  function Front(cmd: Bytes, at: nat, left: int): Bytes {
    if 0 <= left && at + left <= |cmd| then cmd[at..at + left] else []
  }

  /** What is left does not reach past the buffer. */
  predicate InBuffer(cmds: seq<Bytes>, seeks: seq<nat>, e: BatchEnd)
    requires |cmds| == |seeks|
  {
    e.i < |cmds| ==> 0 <= e.left && seeks[e.i] + e.left <= |cmds[e.i]|
  }

  lemma CountedLoads(builders: seq<RedisCmdBuilder>, cmds: seq<Bytes>, payloads: seq<Bytes>, seeks: seq<nat>,
                     e: BatchEnd)
    requires Counted(builders, cmds, payloads, seeks, e.i, e.left) && InBuffer(cmds, seeks, e)
    ensures Loaded(builders, Again(cmds, payloads, seeks, e), seeks)
  {
    hide RedisCmdBuilder.Sendable, RedisCmdBuilder.Payload, Slotted, Slot;
    var again := Again(cmds, payloads, seeks, e);
    forall j | 0 <= j < |builders|
      ensures builders[j].Sendable() && again[j] == builders[j].Payload() && builders[j].seek == seeks[j]
    {
      SlottedLoads(builders[j], cmds[j], payloads[j], seeks[j],
                   if j < e.i then 0 else if j == e.i then e.left else |payloads[j]|);
    }
  }

  lemma SlottedLoads(b: RedisCmdBuilder, cmd: Bytes, payload: Bytes, seek: nat, left: int)
    requires Slotted(b, cmd, payload, seek, left) && (left == 0 || left == |payload| || seek + left <= |cmd|)
    ensures b.Sendable() && b.seek == seek && b.Payload() == Front(cmd, seek, left)
    ensures left == |payload| ==> b.Payload() == payload
    ensures left == 0 ==> b.Payload() == []
  {
    hide Slot, RedisCmdBuilder.Sendable, RedisCmdBuilder.Payload;
    SlotSays(b);
    FrontOf(cmd, b.cmd, seek, left);
  }

  /** Attempt and retry together send each byte once, as far as the numbers go. */
  lemma AgainLength(cmds: seq<Bytes>, payloads: seq<Bytes>, seeks: seq<nat>, e: BatchEnd)
    requires |cmds| == |payloads| == |seeks| && e.i <= |payloads| && InBuffer(cmds, seeks, e)
    ensures |Flatten(Again(cmds, payloads, seeks, e))| + PutOut(payloads, e) == |Flatten(payloads)|
  {
    hide Flatten;
    var i, again := e.i, Again(cmds, payloads, seeks, e);
    NothingLeft(again, i);
    if i < |payloads| {
      assert again[i + 1..] == payloads[i + 1..];
      InThree(again, i);
      InThree(payloads, i);
    } else {
      assert again[..i] == again && payloads[..i] == payloads;
    }
  }

  lemma InThree(parts: seq<Bytes>, i: nat)
    requires i < |parts|
    ensures |Flatten(parts)| == |Flatten(parts[..i])| + |parts[i]| + |Flatten(parts[i + 1..])|
  {
    hide Flatten;
    FlattenSnoc([], parts, i);
    FlattenAdd(parts[..i + 1], parts[i + 1..]);
    assert parts[..i + 1] + parts[i + 1..] == parts;
  }

  lemma {:induction false} NothingLeft(parts: seq<Bytes>, i: nat)
    requires i <= |parts| && forall j :: 0 <= j < i ==> parts[j] == []
    ensures Flatten(parts[..i]) == []
  {
    if i > 0 {
      NothingLeft(parts, i - 1);
      assert parts[..i][..i - 1] == parts[..i - 1];
    }
  }

  /** Without transient failures what is left is in the buffer, and a retry has everything to send
      exactly if nothing went out. */
  lemma AgainWhole(cmds: seq<Bytes>, payloads: seq<Bytes>, seeks: seq<nat>, e: BatchEnd)
    requires |cmds| == |payloads| == |seeks| && e.i <= |payloads|
    requires forall j :: 0 <= j < |payloads| ==>
               seeks[j] + |payloads[j]| <= |cmds[j]| && payloads[j] == cmds[j][seeks[j]..seeks[j] + |payloads[j]|]
    requires e.i < |payloads| ==> 0 <= e.left <= |payloads[e.i]|
    ensures InBuffer(cmds, seeks, e)
    ensures Flatten(Again(cmds, payloads, seeks, e)) == Flatten(payloads) <==> PutOut(payloads, e) == 0
  {
    hide Flatten, PutOut, Again;
    AgainLength(cmds, payloads, seeks, e);
    if PutOut(payloads, e) == 0 {
      AgainSame(cmds, payloads, seeks, e);
    }
  }

  lemma AgainSame(cmds: seq<Bytes>, payloads: seq<Bytes>, seeks: seq<nat>, e: BatchEnd)
    requires |cmds| == |payloads| == |seeks| && e.i <= |payloads| && PutOut(payloads, e) == 0
    requires forall j :: 0 <= j < |payloads| ==>
               seeks[j] + |payloads[j]| <= |cmds[j]| && payloads[j] == cmds[j][seeks[j]..seeks[j] + |payloads[j]|]
    requires e.i < |payloads| ==> 0 <= e.left <= |payloads[e.i]|
    ensures Again(cmds, payloads, seeks, e) == payloads
  {
    hide Flatten;
    AllEmpty(payloads, e.i);
    var again := Again(cmds, payloads, seeks, e);
    forall j | 0 <= j < |payloads|
      ensures again[j] == payloads[j]
    {
    }
  }

  lemma {:induction false} AllEmpty(parts: seq<Bytes>, i: nat)
    requires i <= |parts| && |Flatten(parts[..i])| == 0
    ensures forall j :: 0 <= j < i ==> parts[j] == []
  {
    if i > 0 {
      assert parts[..i][..i - 1] == parts[..i - 1];
      AllEmpty(parts, i - 1);
    }
  }

  /** None of the slots reaches past its buffer. */
  predicate AllInBuffer(builders: seq<RedisCmdBuilder>)
    reads builders
  {
    forall j :: 0 <= j < |builders| ==>
      var b := builders[j]; 4 <= b.seek <= |b.cmd| && b.seek + Slot(b.cmd, b.seek) <= |b.cmd|
  }

  lemma CountedInBuffer(builders: seq<RedisCmdBuilder>, cmds: seq<Bytes>, payloads: seq<Bytes>, seeks: seq<nat>,
                        e: BatchEnd)
    requires Counted(builders, cmds, payloads, seeks, e.i, e.left)
    ensures |cmds| == |payloads| == |seeks| == |builders|
    ensures AllInBuffer(builders) <==> InBuffer(cmds, seeks, e)
    ensures forall j :: 0 <= j < |payloads| ==>
              seeks[j] + |payloads[j]| <= |cmds[j]| && payloads[j] == cmds[j][seeks[j]..seeks[j] + |payloads[j]|]
    ensures e.i < |payloads| ==> 0 <= e.left
  {
    hide Slot;
    if e.i < |builders| {
      assert Slotted(builders[e.i], cmds[e.i], payloads[e.i], seeks[e.i], e.left);
    }
  }

  /** What a retry of a batch on another context would do if it were reached. The replies of the
      first attempt stay, and those of the second are appended: one for each builder again, though
      it sends only what the first left. Without transient failures it sends the whole batch
      exactly if the first attempt sent nothing. */
  method BatchResend(c1: RedisContext, c2: RedisContext, builders: seq<RedisCmdBuilder>, vecReply: seq<Reply>,
                     sends1: seq<SendEvent>, arrivals1: seq<ReadEvent>,
                     sends2: seq<SendEvent>, arrivals2: seq<ReadEvent>,
                     ghost payloads: seq<Bytes>, ghost seeks: seq<nat>)
    returns (ret1: Ret, ret2: Ret, vecReply': seq<Reply>, ghost o1: Outcome, ghost o2: Outcome, ghost again: seq<Bytes>)
    requires Loaded(builders, payloads, seeks) && c1 != c2
    modifies c1`err, c1`off, c1`wire, c1`obuf, c1`reader, c2`err, c2`off, c2`wire, c2`obuf, c2`reader, builders`cmd
    ensures |again| == |payloads| == |seeks| == |builders| && vecReply' == vecReply + o1.replies + o2.replies
    ensures Step(c1.blocking, old(Now(c1)), Job(payloads, seeks, 0), sends1, arrivals1, o1)
    ensures ret1 == o1.inner && o1.after == Now(c1) && ret2 == o2.inner && o2.after == Now(c2)
    ensures var e := BatchAs(old(c1.err), payloads, seeks, sends1, c1.blocking);
            var cmds := old(Cmds(builders));
            && again == Again(cmds, payloads, seeks, e)
            && (InBuffer(cmds, seeks, e) ==>
                  && Step(c2.blocking, old(Now(c2)), Job(again, seeks, 0), sends2, arrivals2, o2)
                  && |c1.wire| + |Flatten(again)| == |old(c1.wire)| + |Flatten(payloads)| + o1.t)
            && (!InBuffer(cmds, seeks, e) ==>
                  && ret2 == (if old(c2.err) == 0 then OutOfBounds else Returned(REDIS_ERR))
                  && o2 == Outcome(ret2, [], 0, 0, 0, old(Now(c2))))
            && (o1.t == 0 ==> InBuffer(cmds, seeks, e))
    ensures ret2 == Returned(REDIS_OK) ==>
              |o2.replies| == |builders| && (o2.t == 0 <==> c2.wire == old(c2.wire) + Flatten(again))
    ensures o1.t == 0 ==> (Flatten(again) == Flatten(payloads) <==> |c1.wire| == |old(c1.wire)|)
  {
    hide Loaded, Step, ParseMany, Received, Flatten, Counted, Cmds, BatchAs, PutOut, Again, AllInBuffer, InBuffer;
    LoadedCounts(builders, payloads, seeks);
    ghost var cmds, e := Cmds(builders), BatchAs(c1.err, payloads, seeks, sends1, c1.blocking);
    ret1, vecReply', o1 := Attempt(c1, builders, vecReply, sends1, arrivals1, payloads, seeks);
    CountedInBuffer(builders, cmds, payloads, seeks, e);
    again := Again(cmds, payloads, seeks, e);
    if o1.t == 0 {
      AgainWhole(cmds, payloads, seeks, e);
    }
    if !AllInBuffer(builders) {
      ret2 := if c2.err != 0 then Returned(REDIS_ERR) else OutOfBounds;
      o2 := Outcome(ret2, [], 0, 0, 0, Now(c2));
      return;
    }
    AgainLength(cmds, payloads, seeks, e);
    CountedLoads(builders, cmds, payloads, seeks, e);
    ret2, vecReply', o2 := Attempt(c2, builders, vecReply', sends2, arrivals2, again, seeks);
  }
}
