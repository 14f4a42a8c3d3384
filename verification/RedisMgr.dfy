/** RedisMgr.cpp: which connection a thread uses, the drain of a command list in batches, and the
    reconnecting loop with a deadline. */
module RedisMgr {
  import opened MachineInts
  import opened RedisWrapper
  import opened ListOrder
  import AsyncDrain

  const MAIN_THREAD_IDX := 0
  const REDIS_ASYNC_BATCH_CMD_COUNT := 16
  const REATTEMPT_SLEEP_TIME := 1000

  // Which connection

  /** Index into the connections of `GetRedisConnection(threadIdx)`. */
  function GetRedisConnection(threadIdx: int, connectNum: int): (slot: int)
    requires IsS32(threadIdx) && 0 < connectNum < TWO_31
    ensures 0 <= slot <= connectNum
    ensures slot == 0 <==> threadIdx == MAIN_THREAD_IDX
  {
    if threadIdx == MAIN_THREAD_IDX then 0 else U32(threadIdx) % connectNum + 1
  }

  /** Index into the connections of `GetRedisConnectionInAsync(taskId)`. */
  function GetRedisConnectionInAsync(taskId: int, connectNum: int): (slot: int)
    requires -TWO_63 <= taskId < TWO_63 && 0 < connectNum < TWO_31
    ensures 1 <= slot <= connectNum
  {
    (taskId % TWO_64) % connectNum + 1
  }

  /** Ids less than connectNum apart share a connection only across zero, where the distance in 64
      bits is not the distance of the numbers, and there exactly if 2^64 leaves their distance
      modulo connectNum. */
  lemma AsyncSlotsCollide(a: int, b: int, connectNum: int)
    requires 0 < connectNum < TWO_31 && -TWO_63 <= a < b < TWO_63 && b - a < connectNum
    ensures GetRedisConnectionInAsync(a, connectNum) == GetRedisConnectionInAsync(b, connectNum) <==>
            a < 0 <= b && TWO_64 % connectNum == b - a
  {
    var x, y := a % TWO_64, b % TWO_64;
    if a < 0 <= b {
      assert x == TWO_64 - (b - a) + b && y == b;
      AcrossZero(b, b - a, connectNum);
    } else {
      assert y - x == b - a;
      if x % connectNum == y % connectNum {
        ModInjective(x, y, connectNum);
      }
    }
  }

  lemma AcrossZero(b: int, d: int, connectNum: int)
    requires 0 < d < connectNum && 0 <= b
    ensures (TWO_64 - d + b) % connectNum == b % connectNum <==> TWO_64 % connectNum == d
  {
    var x := TWO_64 - d + b;
    if x % connectNum == b % connectNum {
      var k := x / connectNum - b / connectNum;
      assert x == (x / connectNum) * connectNum + x % connectNum;
      assert b == (b / connectNum) * connectNum + b % connectNum;
      assert x - b == k * connectNum;
      DivModUnique(TWO_64, connectNum, k, d);
    }
    if TWO_64 % connectNum == d {
      var q := TWO_64 / connectNum;
      assert x == b + q * connectNum;
      ModAddMultiple(b, connectNum, q);
    }
  }

  /** On workers 1..connectNum the choice is a permutation of 1..connectNum: worker i has slot
      i + 1, the last one slot 1. */
  lemma WorkersOwnTheirConnection(connectNum: int, i: int, j: int)
    requires 0 < connectNum < TWO_31 && 1 <= i <= connectNum && 1 <= j <= connectNum
    ensures GetRedisConnection(i, connectNum) == (if i == connectNum then 1 else i + 1)
    ensures GetRedisConnection(i, connectNum) == GetRedisConnection(j, connectNum) <==> i == j
    ensures exists w :: 1 <= w <= connectNum && GetRedisConnection(w, connectNum) == i
  {
    WorkerSlot(connectNum, i);
    WorkerSlot(connectNum, j);
    var w := if i == 1 then connectNum else i - 1;
    WorkerSlot(connectNum, w);
    assert GetRedisConnection(w, connectNum) == i;
  }

  lemma WorkerSlot(connectNum: int, i: int)
    requires 0 < connectNum < TWO_31 && 1 <= i <= connectNum
    ensures GetRedisConnection(i, connectNum) == if i == connectNum then 1 else i + 1
  {
    if i == connectNum {
      DivModUnique(i, connectNum, 1, 0);
    } else {
      DivModUnique(i, connectNum, 0, i);
    }
  }

  /** The slot after `slot`, the first one again after the last. */
  function NextSlot(slot: int, connectNum: int): int {
    if slot == connectNum then 1 else slot + 1
  }

  /** Consecutive threads go round the slots, negative ones too; the round is broken only at the
      main thread, and between the last negative one and it by what 2^32 leaves. */
  lemma ThreadsGoRound(i: int, connectNum: int)
    requires 0 < connectNum < TWO_31 && IsS32(i) && IsS32(i + 1)
    ensures i != 0 && i != -1 ==>
              GetRedisConnection(i + 1, connectNum) == NextSlot(GetRedisConnection(i, connectNum), connectNum)
    ensures i == -1 ==> NextSlot(GetRedisConnection(i, connectNum), connectNum) == TWO_32 % connectNum + 1
  {
    NextRemainder(U32(i), connectNum);
    assert i != -1 ==> U32(i + 1) == U32(i) + 1;
    assert U32(-1) == TWO_32 - 1;
    hide U32;
  }

  /** Consecutive ids go round the slots, from 1 at 0; between -1 and 0 they jump by what 2^64
      leaves. */
  lemma IdsGoRound(taskId: int, connectNum: int)
    requires 0 < connectNum < TWO_31 && -TWO_63 <= taskId < TWO_63 - 1
    ensures taskId != -1 ==>
              GetRedisConnectionInAsync(taskId + 1, connectNum) ==
              NextSlot(GetRedisConnectionInAsync(taskId, connectNum), connectNum)
    ensures GetRedisConnectionInAsync(0, connectNum) == 1
    ensures NextSlot(GetRedisConnectionInAsync(-1, connectNum), connectNum) == TWO_64 % connectNum + 1
  {
    Unsigned64(taskId);
    Unsigned64(taskId + 1);
    Unsigned64(-1);
    Unsigned64(0);
    NextRemainder(taskId % TWO_64, connectNum);
    NextRemainder(TWO_64 - 1, connectNum);
    DivModUnique(0, connectNum, 0, 0);
  }

  lemma Unsigned64(x: int)
    requires -TWO_63 <= x < TWO_63
    ensures x % TWO_64 == if x < 0 then x + TWO_64 else x
  {
    DivModUnique(x, TWO_64, if x < 0 then -1 else 0, if x < 0 then x + TWO_64 else x);
  }

  lemma NextRemainder(x: int, d: int)
    requires d > 0
    ensures (x + 1) % d == if x % d == d - 1 then 0 else x % d + 1
  {
    if x % d == d - 1 {
      DivModUnique(x + 1, d, x / d + 1, 0);
    } else {
      DivModUnique(x + 1, d, x / d, x % d + 1);
    }
  }

  // Asynchronous commands

  class RedisCmdNode {
    const cmdBuilder: nat   // identity of the builder it owns
    var next: RedisCmdNode?

    constructor (cmdBuilder: nat, next: RedisCmdNode?)
      ensures this.cmdBuilder == cmdBuilder && this.next == next
    {
      this.cmdBuilder, this.next := cmdBuilder, next;
    }
  }

  /** `nodes` is the list that starts at `head`. */
  ghost predicate Chain(head: RedisCmdNode?, nodes: seq<RedisCmdNode>)
    reads nodes
  {
    && head == (if nodes == [] then null else nodes[0])
    && forall i :: 0 <= i < |nodes| ==> nodes[i].next == (if i + 1 < |nodes| then nodes[i + 1] else null)
  }

  lemma NextOf(head: RedisCmdNode?, nodes: seq<RedisCmdNode>, i: nat)
    requires Chain(head, nodes) && i < |nodes|
    ensures nodes[i].next == if i + 1 < |nodes| then nodes[i + 1] else null
  {
  }

  /** A list that ends has no node twice, so freeing it node by node frees each once. */
  lemma {:induction false} ChainHasNoRepeats(head: RedisCmdNode?, nodes: seq<RedisCmdNode>, i: nat, j: nat)
    requires Chain(head, nodes) && i < j < |nodes|
    ensures nodes[i] != nodes[j]
    decreases |nodes| - j
  {
    if j + 1 < |nodes| {
      ChainHasNoRepeats(head, nodes, i + 1, j + 1);
    }
    NextOf(head, nodes, i);
    NextOf(head, nodes, j);
  }

  ghost predicate NoRepeats<T>(s: seq<T>) {
    forall i, j :: 0 <= i < j < |s| ==> s[i] != s[j]
  }

  lemma Apart(head: RedisCmdNode?, nodes: seq<RedisCmdNode>)
    requires Chain(head, nodes)
    ensures NoRepeats(nodes)
  {
    forall i, j | 0 <= i < j < |nodes|
      ensures nodes[i] != nodes[j]
    {
      ChainHasNoRepeats(head, nodes, i, j);
    }
  }

  /** The first node of what is left of a list: neither behind it nor among those before it. */
  lemma Unlinked(rest: RedisCmdNode, nodes: seq<RedisCmdNode>, k: nat)
    requires k <= |nodes| && NoRepeats(nodes) && Chain(rest, nodes[k..])
    ensures k < |nodes| && rest == nodes[k] && Chain(rest.next, nodes[k + 1..])
    ensures rest !in nodes[k + 1..] && rest !in Backwards(nodes[..k])
  {
    var left, next := nodes[k..], nodes[k + 1..];
    NextOf(rest, left, 0);
    forall i | 0 <= i < |next|
      ensures next[i].next == if i + 1 < |next| then next[i + 1] else null
    {
      NextOf(rest, left, i + 1);
      assert next[i] == left[i + 1];
    }
    assert Chain(rest.next, next);
  }

  lemma Relinked(head: RedisCmdNode?, nodes: seq<RedisCmdNode>, node: RedisCmdNode)
    requires Chain(head, nodes) && node.next == head
    ensures Chain(node, [node] + nodes)
  {
    var all := [node] + nodes;
    forall i | 0 <= i < |all|
      ensures all[i].next == if i + 1 < |all| then all[i + 1] else null
    {
      if i > 0 {
        assert all[i] == nodes[i - 1];
        NextOf(head, nodes, i - 1);
      }
    }
    assert Chain(node, all);
  }

  /** The nodes of a list, newest first, in the order in which cutList hands them out. */
  function CutOrder(fifo: bool, nodes: seq<RedisCmdNode>): (cut: seq<RedisCmdNode>) {
    if fifo then Backwards(nodes) else nodes
  }

  lemma CutAt(fifo: bool, nodes: seq<RedisCmdNode>, k: nat)
    requires k < |nodes|
    ensures var cut := CutOrder(fifo, nodes);
            |cut| == |nodes| && cut[k] == nodes[if fifo then |nodes| - 1 - k else k]
  {
  }

  /** Nodes and builders that are different before the cut are different after it. */
  lemma CutKeepsApart(fifo: bool, head: RedisCmdNode?, nodes: seq<RedisCmdNode>)
    requires Chain(head, nodes)
    ensures NoRepeats(CutOrder(fifo, nodes))
    ensures NoRepeats(Builders(nodes)) ==> NoRepeats(Builders(CutOrder(fifo, nodes)))
  {
    var cut := CutOrder(fifo, nodes);
    assert |cut| == |nodes| by {
      if nodes != [] {
        CutAt(fifo, nodes, 0);
      }
    }
    forall i, j | 0 <= i < j < |cut|
      ensures cut[i] != cut[j]
      ensures NoRepeats(Builders(nodes)) ==> Builders(cut)[i] != Builders(cut)[j]
    {
      CutAt(fifo, nodes, i);
      CutAt(fifo, nodes, j);
      var x, y := if fifo then |nodes| - 1 - j else i, if fifo then |nodes| - 1 - i else j;
      ChainHasNoRepeats(head, nodes, x, y);
      assert Builders(nodes)[x] == nodes[x].cmdBuilder && Builders(nodes)[y] == nodes[y].cmdBuilder;
    }
  }

  function Builders(nodes: seq<RedisCmdNode>): (bs: seq<nat>)
    ensures |bs| == |nodes|
  {
    seq(|nodes|, i requires 0 <= i < |nodes| => nodes[i].cmdBuilder)
  }

  /** Insertion is at the head, so a list submitted as `q` reads `Backwards(q)`; its cut is what the
      protocol of AsyncDrain makes of the queue. */
  lemma CutAgrees(v: AsyncDrain.Variant, q: seq<RedisCmdNode>)
    ensures Builders(CutOrder(v.fifo, Backwards(q))) == AsyncDrain.CutOrder(v, Builders(q))
  {
    var cut, bs := CutOrder(v.fifo, Backwards(q)), AsyncDrain.CutOrder(v, Builders(q));
    assert |cut| == |q| == |bs|;
    forall k | 0 <= k < |q|
      ensures Builders(cut)[k] == bs[k]
    {
      assert Backwards(q)[|q| - 1 - k] == q[k];
    }
  }

  class RedisConnection {
    var ctx: nat                    // identity of the hiredis context it owns
    var list: RedisCmdNode?         // _threadCmdList
    var threadIdx: int
    var postTask: bool

    /** `_threadIdx` is what it was initialised to. */
    predicate Valid()
      reads this`threadIdx
    {
      threadIdx == 1
    }

    constructor (ctx: nat)
      ensures Valid() && this.ctx == ctx && list == null && !postTask
    {
      this.ctx, list, threadIdx, postTask := ctx, null, 1, false;
    }

    /** `addAsyncTask`. With the comparison the code means to make, it starts a drain when none
        is promised, on thread `thread`. As written (`compares` false) the test assigns: no drain
        is ever started, and a flag that was set is lost. */
    method AddAsyncTask(compares: bool, cmdBuilder: nat, ghost nodes: seq<RedisCmdNode>)
      returns (node: RedisCmdNode, started: bool, thread: int)
      requires Valid() && Chain(list, nodes)
      modifies this`list, this`postTask
      ensures fresh(node) && node.cmdBuilder == cmdBuilder && Chain(list, [node] + nodes)
      ensures started <==> compares && !old(postTask)
      ensures Valid() && postTask == compares && thread == 1
    {
      thread := threadIdx;
      node := new RedisCmdNode(cmdBuilder, list);
      list := node;
      if compares {
        started := !postTask;
      } else {
        postTask := false;
        started := postTask;
      }
      if started {
        postTask := true;
      }
      Relinked(node.next, nodes, node);
    }

    /** `cutList`: the whole list, newest first or, if `fifo`, relinked oldest first. */
    method CutList(fifo: bool, ghost nodes: seq<RedisCmdNode>) returns (head: RedisCmdNode?)
      requires Chain(list, nodes)
      modifies this`list, nodes
      ensures list == null && Chain(head, CutOrder(fifo, nodes))
    {
      head := list;
      list := null;
      if fifo {
        var rest := head;
        head := null;
        ghost var k := 0;
        Apart(rest, nodes);
        assert nodes[0..] == nodes && nodes[..0] == [];
        while rest != null
          invariant 0 <= k <= |nodes| && list == null
          invariant Chain(rest, nodes[k..]) && Chain(head, Backwards(nodes[..k]))
          decreases |nodes| - k
        {
          var node: RedisCmdNode := rest;
          ghost var done, left := Backwards(nodes[..k]), nodes[k + 1..];
          Unlinked(rest, nodes, k);
          rest := rest.next;
          node.next := head;
          assert Chain(head, done) && Chain(rest, left);
          Relinked(head, done, node);
          head := node;
          InsertedLast(nodes[..k], node);
          assert nodes[..k + 1] == nodes[..k] + [node];
          k := k + 1;
          assert Backwards(nodes[..k]) == [node] + done;
        }
        assert nodes[..k] == nodes;
      }
    }
  }

  /** Every list is drained on the connection it belongs to only if there is just one: all drains
      run on thread 1, and so on the connection of worker 1. */
  lemma DrainedOnItsOwnConnection(conns: seq<RedisConnection>, connectNum: int)
    requires 0 < connectNum < TWO_31 && |conns| == connectNum + 1
    requires forall k :: 0 <= k < |conns| ==> conns[k].Valid()
    ensures (forall taskId :: -TWO_63 <= taskId < TWO_63 ==>
               DrainSlot(conns, taskId, connectNum) == GetRedisConnectionInAsync(taskId, connectNum)) <==>
            connectNum == 1
  {
    WorkerSlot(connectNum, 1);
    DivModUnique(0, connectNum, 0, 0);
    assert GetRedisConnectionInAsync(0, connectNum) == 1;
    assert DrainSlot(conns, 0, connectNum) == GetRedisConnection(1, connectNum);
  }

  /** The connection on which what is submitted under `taskId` is run. */
  function DrainSlot(conns: seq<RedisConnection>, taskId: int, connectNum: int): int
    requires 0 < connectNum < TWO_31 && |conns| == connectNum + 1 && -TWO_63 <= taskId < TWO_63
    requires forall k :: 0 <= k < |conns| ==> conns[k].Valid()
    reads conns
  {
    var conn := conns[GetRedisConnectionInAsync(taskId, connectNum)];
    assert conn.Valid();
    GetRedisConnection(conn.threadIdx, connectNum)
  }

  function Concat(parts: seq<seq<nat>>): seq<nat> {
    if parts == [] then [] else Concat(parts[..|parts| - 1]) + parts[|parts| - 1]
  }

  /** Every batch has 1 to 16 commands, the first `full` of them 16. */
  ghost predicate Sized(batches: seq<seq<nat>>, full: int) {
    forall k :: 0 <= k < |batches| ==>
      1 <= |batches[k]| <= REDIS_ASYNC_BATCH_CMD_COUNT && (k < full ==> |batches[k]| == REDIS_ASYNC_BATCH_CMD_COUNT)
  }

  /** Batches of 16 that together are `all`, the last one possibly smaller but not empty. */
  ghost predicate Partition(batches: seq<seq<nat>>, all: seq<nat>) {
    Concat(batches) == all && Sized(batches, |batches| - 1)
  }

  lemma AddBatch(batches: seq<seq<nat>>, part: seq<nat>)
    requires Sized(batches, |batches|) && 1 <= |part| <= REDIS_ASYNC_BATCH_CMD_COUNT
    ensures Concat(batches + [part]) == Concat(batches) + part
    ensures Sized(batches + [part], if |part| == REDIS_ASYNC_BATCH_CMD_COUNT then |batches| + 1 else |batches|)
  {
    assert (batches + [part])[..|batches|] == batches;
  }

  /** A partition of `all` has one batch for each started 16 commands. */
  lemma {:induction false} PartitionCount(batches: seq<seq<nat>>, all: seq<nat>)
    requires Partition(batches, all)
    ensures |batches| == (|all| + REDIS_ASYNC_BATCH_CMD_COUNT - 1) / REDIS_ASYNC_BATCH_CMD_COUNT
    ensures forall k :: 0 <= k < |batches| - 1 ==> |batches[k]| == REDIS_ASYNC_BATCH_CMD_COUNT
  {
    if batches != [] {
      var init := batches[..|batches| - 1];
      assert forall k :: 0 <= k < |init| ==> init[k] == batches[k];
      FullBatches(init);
    }
  }

  lemma {:induction false} FullBatches(batches: seq<seq<nat>>)
    requires forall k :: 0 <= k < |batches| ==> |batches[k]| == REDIS_ASYNC_BATCH_CMD_COUNT
    ensures |Concat(batches)| == REDIS_ASYNC_BATCH_CMD_COUNT * |batches|
  {
    if batches != [] {
      var init := batches[..|batches| - 1];
      assert forall k :: 0 <= k < |init| ==> init[k] == batches[k];
      FullBatches(init);
    }
  }

  /** The replies the first `n` batches bring back, however many each. */
  function Replies(repliesOf: nat -> seq<nat>, n: nat): (replies: seq<seq<nat>>)
    ensures |replies| == n && forall k :: 0 <= k < n ==> replies[k] == repliesOf(k)
  {
    seq(n, k requires 0 <= k => repliesOf(k))
  }

  /** The drain: cut the list, run it in batches on the connection of the list's thread, free every
      builder, node and reply as it is done with. One vector collects the builders and one the
      replies; both are emptied after each batch. */
  method OnExecRedisTask(conn: RedisConnection, connectNum: int, fifo: bool, ghost nodes: seq<RedisCmdNode>,
                         repliesOf: nat -> seq<nat>)
    returns (slot: int, batches: seq<seq<nat>>,
             freedBuilders: seq<nat>, freedNodes: seq<RedisCmdNode>, freedReplies: seq<nat>)
    requires conn.Valid() && Chain(conn.list, nodes) && 0 < connectNum < TWO_31
    modifies conn`list, conn`postTask, nodes
    ensures conn.Valid() && conn.list == null && !conn.postTask
    ensures slot == GetRedisConnection(1, connectNum)
    ensures freedNodes == CutOrder(fifo, nodes) && NoRepeats(freedNodes)
    ensures Partition(batches, Builders(freedNodes)) && freedBuilders == Builders(freedNodes)
    ensures NoRepeats(Builders(nodes)) ==> NoRepeats(freedBuilders)
    ensures freedReplies == Concat(Replies(repliesOf, |batches|))
  {
    slot := GetRedisConnection(conn.threadIdx, connectNum);
    CutKeepsApart(fifo, conn.list, nodes);
    var head := conn.CutList(fifo, nodes);
    batches, freedBuilders, freedNodes, freedReplies := RunBatches(head, CutOrder(fifo, nodes), repliesOf);
    conn.postTask := false;
  }

  /** The loop of the drain over the cut list. */
  method RunBatches(list: RedisCmdNode?, ghost cut: seq<RedisCmdNode>, repliesOf: nat -> seq<nat>)
    returns (batches: seq<seq<nat>>, freedBuilders: seq<nat>, freedNodes: seq<RedisCmdNode>, freedReplies: seq<nat>)
    requires Chain(list, cut)
    ensures freedNodes == cut && freedBuilders == Builders(cut)
    ensures Partition(batches, Builders(cut)) && freedReplies == Concat(Replies(repliesOf, |batches|))
  {
    var head := list;
    var vecRedisBuilder: seq<nat>, vecRedisReply: seq<nat> := [], [];
    batches, freedBuilders, freedNodes, freedReplies := [], [], [], [];
    ghost var i, bs := 0, Builders(cut);
    assert Concat(batches) == [] && Sized(batches, 0) && Concat(Replies(repliesOf, 0)) == [];
    hide Concat, Sized, Replies;
    while head != null
      invariant 0 <= i <= |cut| && head == (if i < |cut| then cut[i] else null)
      invariant freedNodes == cut[..i]
      invariant Concat(batches) == freedBuilders && freedBuilders + vecRedisBuilder == bs[..i]
      invariant |vecRedisBuilder| < REDIS_ASYNC_BATCH_CMD_COUNT && (i == |cut| ==> vecRedisBuilder == [])
      invariant Sized(batches, if i < |cut| then |batches| else |batches| - 1)
      invariant freedReplies == Concat(Replies(repliesOf, |batches|)) && vecRedisReply == []
      decreases |cut| - i
    {
      var tmp := head;
      NextOf(list, cut, i);
      head := head.next;
      OneMore(freedBuilders, vecRedisBuilder, bs, i);
      vecRedisBuilder := vecRedisBuilder + [tmp.cmdBuilder];
      if |vecRedisBuilder| == REDIS_ASYNC_BATCH_CMD_COUNT || head == null {
        if |vecRedisBuilder| > 0 {
          vecRedisReply := vecRedisReply + repliesOf(|batches|);
          AddBatch(batches, vecRedisBuilder);
          MoreReplies(repliesOf, |batches|);
          batches := batches + [vecRedisBuilder];
        }
        freedReplies := freedReplies + vecRedisReply;
        freedBuilders := freedBuilders + vecRedisBuilder;
        vecRedisBuilder := [];
        vecRedisReply := [];
      }
      freedNodes := freedNodes + [tmp];
      i := i + 1;
    }
    assert bs[..i] == bs && cut[..i] == cut;
  }

  lemma MoreReplies(repliesOf: nat -> seq<nat>, n: nat)
    ensures Concat(Replies(repliesOf, n + 1)) == Concat(Replies(repliesOf, n)) + ([] + repliesOf(n))
  {
    assert Replies(repliesOf, n + 1)[..n] == Replies(repliesOf, n);
  }

  lemma OneMore(freed: seq<nat>, batch: seq<nat>, bs: seq<nat>, i: nat)
    requires i < |bs| && freed + batch == bs[..i]
    ensures freed + (batch + [bs[i]]) == bs[..i + 1] == (freed + (batch + [bs[i]])) + []
  {
  }

  // Reconnecting

  /** Contexts by identity: the live ones, and those freed so far in order. */
  class Contexts {
    var next: nat
    ghost var live: set<nat>
    ghost var freed: seq<nat>

    ghost predicate Valid()
      reads this
    {
      && (forall x :: x in live ==> x < next)
      && (forall i :: 0 <= i < |freed| ==> freed[i] < next && freed[i] !in live)
      && (forall i, j :: 0 <= i < j < |freed| ==> freed[i] != freed[j])
    }

    constructor ()
      ensures Valid() && live == {} && freed == []
    {
      next, live, freed := 0, {}, [];
    }

    /** `CreateRedisContext` when it succeeds. */
    method Create() returns (ctx: nat)
      requires Valid()
      modifies this
      ensures Valid() && ctx !in old(live) && ctx !in freed && live == old(live) + {ctx} && freed == old(freed)
    {
      ctx := next;
      next := next + 1;
      live := live + {ctx};
    }

    /** `redisFree`, once for each live context. */
    method Free(ctx: nat)
      requires Valid() && ctx in live
      modifies this
      ensures Valid() && live == old(live) - {ctx} && freed == old(freed) + [ctx]
    {
      live := live - {ctx};
      freed := freed + [ctx];
    }
  }

  /** The clock never goes back, and each sleep moves it by at least a second: `clock(0)` is read
      on entry and `clock(k + 1)` at the end of attempt k. */
  ghost predicate Ticks(clock: nat -> int) {
    && clock(0) <= clock(1)
    && forall k: nat :: k > 0 ==> clock(k) + REATTEMPT_SLEEP_TIME <= clock(k + 1)
  }

  lemma {:induction false} TicksAdd(clock: nat -> int, k: nat)
    requires Ticks(clock)
    ensures clock(0) + REATTEMPT_SLEEP_TIME * k <= clock(k + 1)
  {
    if k > 0 {
      TicksAdd(clock, k - 1);
      assert clock(k) + REATTEMPT_SLEEP_TIME <= clock(k + 1);
    }
  }

  /** Attempt k did not go through, and the clock read after it was within the deadline. */
  ghost predicate Retried(clock: nat -> int, creates: nat -> bool, calls: nat -> bool, reattemptTime: int, k: nat) {
    !(creates(k) && calls(k)) && clock(k + 1) - clock(0) <= reattemptTime
  }

  /** The contexts the connection has gone through: all but the one it owns are freed, in order. */
  twostate predicate Replaced(conn: RedisConnection, contexts: Contexts, chain: seq<nat>)
    reads conn, contexts
  {
    && contexts.Valid() && conn.ctx in contexts.live
    && chain != [] && chain[0] == old(conn.ctx) && chain[|chain| - 1] == conn.ctx
    && contexts.freed == old(contexts.freed) + chain[..|chain| - 1]
    && contexts.live == old(contexts.live) - {old(conn.ctx)} + {conn.ctx}
  }

  /** A new context takes the place of the old one, which is freed. */
  method Reconnect(conn: RedisConnection, contexts: Contexts) returns (was: nat)
    requires contexts.Valid() && conn.ctx in contexts.live
    modifies conn`ctx, contexts
    ensures contexts.Valid() && was == old(conn.ctx)
    ensures conn.ctx !in old(contexts.live) && conn.ctx !in old(contexts.freed)
    ensures contexts.live == old(contexts.live) - {was} + {conn.ctx}
    ensures contexts.freed == old(contexts.freed) + [was]
  {
    was := conn.ctx;
    var ctx := contexts.Create();
    contexts.Free(conn.ctx);
    conn.ctx := ctx;
  }

  lemma Longer(freed: seq<nat>, chain: seq<nat>, was: nat, ctx: nat)
    requires chain != [] && chain[|chain| - 1] == was
    ensures (freed + chain[..|chain| - 1]) + [was] == freed + (chain + [ctx])[..|chain|]
  {
    assert (chain + [ctx])[..|chain|] == chain[..|chain| - 1] + [was];
  }

  /** The reconnecting loop. `creates(k)` says whether attempt k gets a context, `calls(k)`
      whether the command then goes through. It stops at the first success, or after the first
      attempt past the deadline, so after at most reattemptTime / 1000 + 2 attempts. Of the
      contexts it went through, all but the one the connection ends up with are freed, in order
      and once each, and that one is live. */
  method ExecTaskByTimeOut(conn: RedisConnection, contexts: Contexts, reattemptTime: int, clock: nat -> int,
                           creates: nat -> bool, calls: nat -> bool)
    returns (attempts: nat, done: bool, ghost chain: seq<nat>)
    requires contexts.Valid() && conn.ctx in contexts.live && Ticks(clock)
    modifies conn`ctx, contexts
    ensures 1 <= attempts <= (if reattemptTime < 0 then 0 else reattemptTime) / REATTEMPT_SLEEP_TIME + 2
    ensures done <==> creates(attempts - 1) && calls(attempts - 1)
    ensures !done ==> clock(attempts) - clock(0) > reattemptTime
    ensures forall k: nat :: k < attempts - 1 ==> Retried(clock, creates, calls, reattemptTime, k)
    ensures Replaced(conn, contexts, chain) && |chain| - 1 == Successes(creates, attempts)
  {
    attempts, done, chain := 0, false, [conn.ctx];
    assert contexts.live == old(contexts.live) - {conn.ctx} + {conn.ctx};
    ghost var limit := if reattemptTime < 0 then 0 else reattemptTime;
    while true
      invariant !done && Replaced(conn, contexts, chain) && |chain| - 1 == Successes(creates, attempts)
      invariant conn.ctx == old(conn.ctx) ||
                (old(conn.ctx) in contexts.freed && conn.ctx !in old(contexts.live))
      invariant forall k: nat :: k < attempts ==> Retried(clock, creates, calls, reattemptTime, k)
      invariant REATTEMPT_SLEEP_TIME * (attempts - 1) <= limit
      decreases limit - REATTEMPT_SLEEP_TIME * (attempts - 1)
    {
      TicksAdd(clock, attempts);
      var created := creates(attempts);
      if created {
        var was := Reconnect(conn, contexts);
        Longer(old(contexts.freed), chain, was, conn.ctx);
        chain := chain + [conn.ctx];
      }
      attempts := attempts + 1;
      if created && calls(attempts - 1) {
        done := true;
        return;
      }
      var now := clock(attempts);
      if now - clock(0) > reattemptTime {
        return;
      }
      assert Retried(clock, creates, calls, reattemptTime, attempts - 1);
    }
  }

  /** The loop with the retry calls of execCmd and batchExecCmd, which succeed unless the code is
      REDIS_ERR_IO. Their callees return REDIS_OK or REDIS_ERR, so the loop ends with the first new
      context whether or not the command went through on it, and replaces at most one. */
  method ExecTaskAsWritten(conn: RedisConnection, contexts: Contexts, reattemptTime: int, clock: nat -> int,
                           creates: nat -> bool, codes: nat -> int)
    returns (attempts: nat, done: bool, ghost chain: seq<nat>)
    requires contexts.Valid() && conn.ctx in contexts.live && Ticks(clock)
    requires forall k :: codes(k) == REDIS_OK || codes(k) == REDIS_ERR
    modifies conn`ctx, contexts
    ensures 1 <= attempts <= (if reattemptTime < 0 then 0 else reattemptTime) / REATTEMPT_SLEEP_TIME + 2
    ensures done <==> creates(attempts - 1)
    ensures forall k: nat :: k < attempts - 1 ==> !creates(k)
    ensures !done ==> clock(attempts) - clock(0) > reattemptTime
    ensures Replaced(conn, contexts, chain) && |chain| == if done then 2 else 1
  {
    var calls := (k: nat) => codes(k) != REDIS_ERR_IO;
    attempts, done, chain := ExecTaskByTimeOut(conn, contexts, reattemptTime, clock, creates, calls);
    forall k: nat | k < attempts - 1
      ensures !creates(k)
    {
      assert Retried(clock, creates, calls, reattemptTime, k) && calls(k);
    }
    NoSuccess(creates, attempts - 1);
  }

  lemma {:induction false} NoSuccess(creates: nat -> bool, n: nat)
    requires forall k: nat :: k < n ==> !creates(k)
    ensures Successes(creates, n) == 0
  {
    if n > 0 {
      NoSuccess(creates, n - 1);
    }
  }

  function Successes(creates: nat -> bool, n: nat): nat {
    if n == 0 then 0 else Successes(creates, n - 1) + if creates(n - 1) then 1 else 0
  }
}
