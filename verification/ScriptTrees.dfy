/** The behaviour of scripts and of the C++ functions they call, nested to any depth.

    What happens in one run is given as a tree: the native calls a Lua function makes, and the
    reads, writes and further script calls each native function makes, in order. The functions
    here say what a tree must come to without any stack; ScriptEngines runs it on the Lua stack. */
module ScriptTrees {
  import opened CStrings
  import opened LuaStates
  import opened LuaInterchange

  // The tree of a run

  /** What C++ code does with its streams. `Call` is CallScriptFunc: `out` writes the arguments,
      `call` is what happens next. */
  datatype Op =
    | Read(kind: Kind)
    | GetCount
    | Rewind
    | Write(t: Typed)
    | Call(module_: CString, func: CString, out: Block, call: ScriptCall)

  datatype Block = Block(ops: seq<Op>)

  /** What the script function does, and what the callback does with its results. */
  datatype ScriptCall = ScriptCall(callee: LuaRun, ack: Block)

  /** A Lua function: the native functions it calls in turn, and how it ends. */
  datatype LuaRun = LuaRun(calls: seq<NativeCall>, outcome: Outcome)

  datatype Outcome = Returns(results: seq<Value>) | Fails(error: Value)

  /** A native function: its arguments and its code. An error raised in it ends the Lua function
      unless that function catches it. */
  datatype NativeCall = NativeCall(args: seq<Value>, body: Block, caught: bool)

  // What is observed

  datatype Event = Saw(r: Reading) | Counted(n: nat) | Called(c: CallTrace)

  /** One CallScriptFunc: what writing the arguments observed, the execution, and the values left
      behind on the caller's stack. */
  datatype CallTrace = CallTrace(written: seq<Event>, exec: ExecTrace, left: seq<Value>, raised: bool)

  datatype ExecTrace =
    | NotRun
    | Ran(args: seq<Value>, natives: seq<NativeTrace>, failed: bool, ack: seq<Event>, raised: bool)

  datatype NativeTrace = NativeTrace(events: seq<Event>, returned: seq<Value>, raised: bool)

  predicate Succeeded(e: ExecTrace) {
    e.Ran? && !e.failed && !e.raised
  }

  // The meaning of a tree, without a stack

  /** Where a block is: its input stream, the values it has pushed, and how many of them by its
      output stream. */
  datatype State = State(canRead: bool, canWrite: bool, input: Stream, pushed: seq<Value>, count: nat,
                         seen: seq<Event>, raised: bool)

  const NO_INPUT := Stream([], 0)

  function Preamble(op: Op): State
    requires op.Call?
  {
    State(false, true, NO_INPUT, [Str(op.module_), Str(op.func)], 2, [], false)
  }

  function NativeStart(args: seq<Value>): State {
    State(true, true, Stream(args, 0), [], 0, [], false)
  }

  function CallbackStart(results: seq<Value>): State {
    State(true, false, Stream(UntilNil(Padded(results)), 0), [], 0, [], false)
  }

  /** The state after the first `i` operations; an error raised stops it. */
  function After(hasCall: bool, body: Block, i: nat, s: State): State
    requires i <= |body.ops|
    decreases body, i
  {
    if i == 0 then s
    else
      var p := After(hasCall, body, i - 1, s);
      if p.raised then p else Step(hasCall, body.ops[i - 1], p)
  }

  function Step(hasCall: bool, op: Op, s: State): State
    decreases op, 1
  {
    match op
    case Read(kind) =>
      if !s.canRead then s
      else
        var (input, r) := ReadStream(s.input, kind);
        s.(input := input, seen := s.seen + [Saw(r)], raised := r.Raises?)
    case GetCount =>
      if !s.canRead then s else s.(seen := s.seen + [Counted(|s.input.vals|)])
    case Rewind =>
      if !s.canRead then s else s.(input := s.input.(index := 0))
    case Write(t) =>
      if !s.canWrite then s else s.(pushed := s.pushed + [ToLua(t)], count := s.count + 1)
    case Call(_, _, _, _) =>
      var c := Calling(hasCall, op);
      s.(pushed := s.pushed + c.left, seen := s.seen + [Called(c)], raised := c.raised)
  }

  /** The arguments a call writes, module and function name first. */
  function Writing(hasCall: bool, op: Op): State
    requires op.Call?
    decreases op, -1
  {
    After(hasCall, op.out, |op.out.ops|, Preamble(op))
  }

  function Calling(hasCall: bool, op: Op): CallTrace
    requires op.Call?
    decreases op, 0
  {
    var w := Writing(hasCall, op);
    if w.raised then CallTrace(w.seen, NotRun, [], true)
    else if !hasCall then CallTrace(w.seen, NotRun, w.pushed, false)
    else
      var e := Exec(hasCall, op.call, w.pushed);
      CallTrace(w.seen, e, [], e.Ran? && e.raised)
  }

  function Exec(hasCall: bool, c: ScriptCall, args: seq<Value>): (e: ExecTrace)
    ensures e.Ran?
    decreases c, 0
  {
    var r := RunAfter(hasCall, c.callee, |c.callee.calls|);
    if r.raised || c.callee.outcome.Fails? then Ran(args, r.natives, true, [], false)
    else
      var s := After(hasCall, c.ack, |c.ack.ops|, CallbackStart(c.callee.outcome.results));
      Ran(args, r.natives, false, s.seen, s.raised)
  }

  /** What the callback leaves on top of the results it was given. */
  function Residue(hasCall: bool, c: ScriptCall): seq<Value> {
    if RunAfter(hasCall, c.callee, |c.callee.calls|).raised || c.callee.outcome.Fails? then []
    else After(hasCall, c.ack, |c.ack.ops|, CallbackStart(c.callee.outcome.results)).pushed
  }

  datatype RunState = RunState(natives: seq<NativeTrace>, raised: bool)

  /** A Lua function after its first `i` native calls. */
  function RunAfter(hasCall: bool, run: LuaRun, i: nat): RunState
    requires i <= |run.calls|
    decreases run, i
  {
    if i == 0 then RunState([], false)
    else
      var p := RunAfter(hasCall, run, i - 1);
      if p.raised then p
      else
        var t := Native(hasCall, run.calls[i - 1]);
        RunState(p.natives + [t], t.raised && !run.calls[i - 1].caught)
  }

  function Native(hasCall: bool, nc: NativeCall): NativeTrace
    decreases nc, 0
  {
    var s := After(hasCall, nc.body, |nc.body.ops|, NativeStart(nc.args));
    NativeTrace(s.seen, if s.raised then [] else Top(s.pushed, s.count), s.raised)
  }

  function Top(vals: seq<Value>, n: nat): seq<Value> {
    if n <= |vals| then vals[|vals| - n..] else []
  }

  // The limit on arguments

  /** Every call in the tree writes few enough arguments for their number to fit an `s8`. */
  predicate FewBlock(hasCall: bool, body: Block)
    decreases body, 0
  {
    forall i :: 0 <= i < |body.ops| ==> FewOp(hasCall, body.ops[i])
  }

  predicate FewOp(hasCall: bool, op: Op)
    decreases op, 0
  {
    op.Call? ==> Writing(hasCall, op).count <= 127 && FewBlock(hasCall, op.out) && FewCall(hasCall, op.call)
  }

  predicate FewCall(hasCall: bool, c: ScriptCall)
    decreases c, 0
  {
    FewRun(hasCall, c.callee) && FewBlock(hasCall, c.ack)
  }

  predicate FewRun(hasCall: bool, run: LuaRun)
    decreases run, 0
  {
    forall i :: 0 <= i < |run.calls| ==> FewNative(hasCall, run.calls[i])
  }

  predicate FewNative(hasCall: bool, nc: NativeCall)
    decreases nc, 0
  {
    FewBlock(hasCall, nc.body)
  }

  // Facts about blocks

  /** An output stream never counts more than was pushed, and exactly that where calls find their
      entry function; a block only adds to what was pushed. */
  lemma {:induction false} Counts(hasCall: bool, body: Block, i: nat, s: State)
    requires i <= |body.ops| && s.count <= |s.pushed|
    ensures var r := After(hasCall, body, i, s);
            && r.canRead == s.canRead && r.canWrite == s.canWrite
            && |r.input.vals| == |s.input.vals| && (!s.canRead ==> r.input == s.input)
            && (!s.canWrite && hasCall ==> r.pushed == s.pushed)
            && s.pushed <= r.pushed && r.count <= |r.pushed|
            && (hasCall && s.count == |s.pushed| ==> r.count == |r.pushed|)
    decreases i
  {
    if i > 0 {
      Counts(hasCall, body, i - 1, s);
      StepCounts(hasCall, body.ops[i - 1], After(hasCall, body, i - 1, s));
    }
  }

  lemma StepCounts(hasCall: bool, op: Op, s: State)
    requires s.count <= |s.pushed|
    ensures var r := Step(hasCall, op, s);
            && r.canRead == s.canRead && r.canWrite == s.canWrite
            && |r.input.vals| == |s.input.vals| && (!s.canRead ==> r.input == s.input)
            && (!s.canWrite && hasCall ==> r.pushed == s.pushed)
            && s.pushed <= r.pushed && r.count <= |r.pushed|
            && (hasCall && s.count == |s.pushed| ==> r.count == |r.pushed|)
  {
    if op.Call? {
      LeavesNothing(hasCall, op);
      hide Calling;
    }
  }

  lemma LeavesNothing(hasCall: bool, op: Op)
    requires op.Call?
    ensures hasCall ==> Calling(hasCall, op).left == []
  {
    hide Writing, Exec;
  }

  predicate NoCalls(body: Block) {
    forall k :: 0 <= k < |body.ops| ==> !body.ops[k].Call?
  }

  /** Where the entry function is missing, a block that only reads leaves something exactly if it
      has got as far as a call. */
  lemma {:induction false} LeftByCalls(body: Block, i: nat, s: State)
    requires i <= |body.ops| && !s.canWrite && s.count <= |s.pushed| && !After(false, body, i, s).raised
    ensures After(false, body, i, s).pushed == s.pushed <==> forall k :: 0 <= k < i ==> !body.ops[k].Call?
    decreases i
  {
    if i > 0 {
      var op := body.ops[i - 1];
      LeftByCalls(body, i - 1, s);
      Counts(false, body, i - 1, s);
      if op.Call? {
        LeavesArguments(op);
        hide Calling;
      }
    }
  }

  /** A call that returns without finding its entry function leaves at least the two names. */
  lemma LeavesArguments(op: Op)
    requires op.Call? && !Calling(false, op).raised
    ensures |Calling(false, op).left| >= 2
  {
    Counts(false, op.out, |op.out.ops|, Preamble(op));
  }

  /** A callback that returns leaves nothing on the stack exactly if it made no call or its calls
      found their entry function. */
  lemma ResidueIff(hasCall: bool, c: ScriptCall, args: seq<Value>)
    requires Succeeded(Exec(hasCall, c, args))
    ensures Residue(hasCall, c) == [] <==> hasCall || NoCalls(c.ack)
  {
    var start := CallbackStart(c.callee.outcome.results);
    if hasCall {
      Counts(true, c.ack, |c.ack.ops|, start);
    } else {
      LeftByCalls(c.ack, |c.ack.ops|, start);
    }
  }

  lemma {:induction false} RaisedStays(hasCall: bool, body: Block, i: nat, j: nat, s: State)
    requires i <= j <= |body.ops| && After(hasCall, body, i, s).raised
    ensures After(hasCall, body, j, s) == After(hasCall, body, i, s)
    decreases j
  {
    if i < j {
      RaisedStays(hasCall, body, i, j - 1, s);
    }
  }

  lemma {:induction false} RunRaisedStays(hasCall: bool, run: LuaRun, i: nat, j: nat)
    requires i <= j <= |run.calls| && RunAfter(hasCall, run, i).raised
    ensures RunAfter(hasCall, run, j) == RunAfter(hasCall, run, i)
    decreases j
  {
    if i < j {
      RunRaisedStays(hasCall, run, i, j - 1);
    }
  }

  // Results

  function WrittenBy(ops: seq<Op>): seq<Typed> {
    if ops == [] then []
    else
      var last := ops[|ops| - 1];
      WrittenBy(ops[..|ops| - 1]) + if last.Write? then [last.t] else []
  }

  lemma {:induction false} Pushes(body: Block, i: nat, s: State)
    requires i <= |body.ops| && s.canWrite && s.count <= |s.pushed| && !After(true, body, i, s).raised
    ensures After(true, body, i, s).pushed == s.pushed + AllToLua(WrittenBy(body.ops[..i]))
    decreases i
  {
    if i == 0 {
      assert s.pushed + [] == s.pushed;
    } else {
      var p, op := After(true, body, i - 1, s), body.ops[i - 1];
      Pushes(body, i - 1, s);
      Counts(true, body, i - 1, s);
      assert body.ops[..i][..i - 1] == body.ops[..i - 1];
      var before := WrittenBy(body.ops[..i - 1]);
      assert op.Write? ==> AllToLua(before + [op.t]) == AllToLua(before) + [ToLua(op.t)];
      assert before + [] == before;
      if op.Call? {
        LeavesNothing(true, op);
        hide Calling;
      }
    }
  }

  /** A native function that ends normally gives Lua exactly the values it wrote, in order,
      whatever calls it made in between. */
  lemma ReturnsWhatItWrote(nc: NativeCall)
    requires !Native(true, nc).raised
    ensures Native(true, nc).returned == AllToLua(WrittenBy(nc.body.ops))
  {
    var n := |nc.body.ops|;
    assert nc.body.ops[..n] == nc.body.ops;
    Pushes(nc.body, n, NativeStart(nc.args));
    Counts(true, nc.body, n, NativeStart(nc.args));
    hide After;
  }

  /** The entry function receives module, function and exactly the written arguments. */
  lemma ScriptGetsWhatWasWritten(op: Op)
    requires op.Call? && !Writing(true, op).raised
    ensures Calling(true, op).exec.Ran?
    ensures Calling(true, op).exec.args == [Str(op.module_), Str(op.func)] + AllToLua(WrittenBy(op.out.ops))
  {
    var n := |op.out.ops|;
    assert op.out.ops[..n] == op.out.ops;
    Pushes(op.out, n, Preamble(op));
    hide After, Exec;
  }

  // The same where the entry function may be missing

  predicate ReturnsWritten(hasCall: bool, nc: NativeCall) {
    Native(hasCall, nc).returned == AllToLua(WrittenBy(nc.body.ops))
  }

  /** No value is written before a script call. */
  predicate NoWriteBeforeCall(body: Block) {
    forall i, j :: 0 <= i < j < |body.ops| && body.ops[i].Write? ==> !body.ops[j].Call?
  }

  lemma NotRaisedAt(hasCall: bool, body: Block, i: nat, n: nat, s: State)
    requires i <= n <= |body.ops| && !After(hasCall, body, n, s).raised
    ensures !After(hasCall, body, i, s).raised
  {
    if After(hasCall, body, i, s).raised {
      RaisedStays(hasCall, body, i, n, s);
    }
  }

  lemma WrittenNext(ops: seq<Op>, i: nat)
    requires 0 < i <= |ops|
    ensures WrittenBy(ops[..i]) == WrittenBy(ops[..i - 1]) + if ops[i - 1].Write? then [ops[i - 1].t] else []
  {
    assert ops[..i][..i - 1] == ops[..i - 1];
  }

  lemma {:induction false} NothingWritten(ops: seq<Op>, i: nat)
    requires i <= |ops| && forall k :: 0 <= k < i ==> !ops[k].Write?
    ensures WrittenBy(ops[..i]) == []
    decreases i
  {
    if i > 0 {
      NothingWritten(ops, i - 1);
      WrittenNext(ops, i);
    }
  }

  lemma TopNext(vals: seq<Value>, written: seq<Typed>, t: Typed)
    requires |written| <= |vals| && Top(vals, |written|) == AllToLua(written)
    ensures Top(vals + [ToLua(t)], |written| + 1) == AllToLua(written + [t])
  {
    assert AllToLua(written + [t]) == AllToLua(written) + [ToLua(t)];
  }

  /** As long as no write stands before a call, the values on top are the written ones. */
  lemma {:induction false} WrittenOnTop(body: Block, i: nat, s: State)
    requires i <= |body.ops| && s.canWrite && s.count == 0 && NoWriteBeforeCall(body)
    requires !After(false, body, i, s).raised
    ensures var r, written := After(false, body, i, s), WrittenBy(body.ops[..i]);
            r.canWrite && r.count == |written| <= |r.pushed| && Top(r.pushed, |written|) == AllToLua(written)
    decreases i
  {
    if i == 0 {
      assert AllToLua([]) == [];
      return;
    }
    var op, p, written := body.ops[i - 1], After(false, body, i - 1, s), WrittenBy(body.ops[..i - 1]);
    NotRaisedAt(false, body, i - 1, i, s);
    WrittenOnTop(body, i - 1, s);
    NextStep(false, body, i, s);
    WrittenNext(body.ops, i);
    if op.Call? {
      NothingWritten(body.ops, i - 1);
    }
    hide After, WrittenBy, Step, Top, AllToLua;
    OnTopStep(op, p, written);
  }

  lemma OnTopStep(op: Op, p: State, written: seq<Typed>)
    requires p.canWrite && p.count == |written| <= |p.pushed| && Top(p.pushed, |written|) == AllToLua(written)
    requires op.Call? ==> written == []
    ensures var r, more := Step(false, op, p), written + if op.Write? then [op.t] else [];
            r.canWrite && r.count == |more| <= |r.pushed| && Top(r.pushed, |more|) == AllToLua(more)
  {
    hide Calling, ReadStream;
    assert written + [] == written;
    if op.Write? {
      TopNext(p.pushed, written, op.t);
    }
  }

  /** Once the last call has left its arguments, they stay where they are below what follows. */
  lemma {:induction false} LeftInPlace(body: Block, k: nat, i: nat, s: State)
    requires k < i <= |body.ops| && s.canWrite && s.count == 0
    requires (forall j :: k < j < i ==> !body.ops[j].Call?) && !After(false, body, i, s).raised
    ensures var p, r := After(false, body, k + 1, s), After(false, body, i, s);
            && p.pushed <= r.pushed && WrittenBy(body.ops[..k + 1]) <= WrittenBy(body.ops[..i])
            && r.count == |WrittenBy(body.ops[..i])|
            && |r.pushed| - r.count == |p.pushed| - |WrittenBy(body.ops[..k + 1])|
    decreases i
  {
    CountsWrites(body, i, s);
    if i > k + 1 {
      NotRaisedAt(false, body, i - 1, i, s);
      LeftInPlace(body, k, i - 1, s);
      NextStep(false, body, i, s);
      WrittenNext(body.ops, i);
      CountsWrites(body, i - 1, s);
      hide After, Calling, ReadStream, WrittenBy;
    }
  }

  lemma {:induction false} CountsWrites(body: Block, i: nat, s: State)
    requires i <= |body.ops| && s.canWrite && s.count == 0 && !After(false, body, i, s).raised
    ensures var r := After(false, body, i, s); r.canWrite && r.count == |WrittenBy(body.ops[..i])|
    decreases i
  {
    if i > 0 {
      NotRaisedAt(false, body, i - 1, i, s);
      CountsWrites(body, i - 1, s);
      NextStep(false, body, i, s);
      WrittenNext(body.ops, i);
      hide After, Calling, ReadStream, WrittenBy;
    }
  }

  function LastOf<T>(s: seq<T>): T
    requires s != []
  {
    s[|s| - 1]
  }

  /** If something was written before the last call, and the value written last before it is not
      the one the call left on top, the function returns values it did not write. */
  lemma LeftIsReturned(nc: NativeCall, k: nat)
    requires !Native(false, nc).raised && k < |nc.body.ops| && nc.body.ops[k].Call?
    requires forall j :: k < j < |nc.body.ops| ==> !nc.body.ops[j].Call?
    requires WrittenBy(nc.body.ops[..k]) != [] && Calling(false, nc.body.ops[k]).left != []
    requires ToLua(LastOf(WrittenBy(nc.body.ops[..k]))) != LastOf(Calling(false, nc.body.ops[k]).left)
    ensures !ReturnsWritten(false, nc)
  {
    var body, n, s := nc.body, |nc.body.ops|, NativeStart(nc.args);
    var w := WrittenBy(body.ops[..k]);
    NotRaisedAt(false, body, k + 1, n, s);
    NotRaisedAt(false, body, k, k + 1, s);
    NextStep(false, body, k + 1, s);
    WrittenNext(body.ops, k + 1);
    Counts(false, body, n, s);
    LeftInPlace(body, k, n, s);
    assert body.ops[..n] == body.ops && w + [] == w;
    var p, r, all := After(false, body, k + 1, s), After(false, body, n, s), WrittenBy(body.ops);
    assert LastOf(p.pushed) == LastOf(Calling(false, body.ops[k]).left);
    hide After, Calling, WrittenBy, Step, ToLua;
    assert |w| <= |all| && all[|w| - 1] == w[|w| - 1];
    assert Native(false, nc).returned[|w| - 1] == r.pushed[|p.pushed| - 1] == p.pushed[|p.pushed| - 1];
    assert AllToLua(all)[|w| - 1] == ToLua(LastOf(w));
  }

  /** The same operations in the same places, writing whatever values. */
  ghost predicate SameShape(a: Block, b: Block) {
    && |a.ops| == |b.ops|
    && forall i :: 0 <= i < |a.ops| ==> a.ops[i] == b.ops[i] || (a.ops[i].Write? && b.ops[i].Write?)
  }

  lemma {:induction false} SameShapeSameRun(hasCall: bool, a: Block, b: Block, i: nat, s: State)
    requires SameShape(a, b) && i <= |a.ops|
    ensures var x, y := After(hasCall, a, i, s), After(hasCall, b, i, s);
            x == y.(pushed := x.pushed)
    decreases i
  {
    assert After(hasCall, a, 0, s) == s == After(hasCall, b, 0, s);
    if i > 0 {
      SameShapeSameRun(hasCall, a, b, i - 1, s);
      var x, y := After(hasCall, a, i - 1, s), After(hasCall, b, i - 1, s);
      SameShapeStep(hasCall, a.ops[i - 1], b.ops[i - 1], x, y);
    }
    hide Step;
  }

  lemma SameShapeStep(hasCall: bool, p: Op, q: Op, x: State, y: State)
    requires (p == q || (p.Write? && q.Write?)) && x == y.(pushed := x.pushed)
    ensures var u, v := Step(hasCall, p, x), Step(hasCall, q, y);
            u == v.(pushed := u.pushed)
  {
    hide Calling, ReadStream;
  }

  /** Every write writes `t`. */
  function WritingOnly(body: Block, t: Typed): (b: Block)
    ensures SameShape(body, b)
    ensures forall i :: 0 <= i < |b.ops| && b.ops[i].Write? ==> b.ops[i].t == t
  {
    Block(seq(|body.ops|, i requires 0 <= i < |body.ops| => if body.ops[i].Write? then Write(t) else body.ops[i]))
  }

  lemma {:induction false} WritesOnly(ops: seq<Op>, i: nat, t: Typed)
    requires i <= |ops| && forall k :: 0 <= k < i && ops[k].Write? ==> ops[k].t == t
    ensures forall x :: x in WrittenBy(ops[..i]) ==> x == t
    ensures (exists k :: 0 <= k < i && ops[k].Write?) ==> WrittenBy(ops[..i]) != []
    decreases i
  {
    if i > 0 {
      WritesOnly(ops, i - 1, t);
      WrittenNext(ops, i);
    }
  }

  lemma {:induction false} LastCall(ops: seq<Op>, j: nat, n: nat) returns (k: nat)
    requires j < n <= |ops| && ops[j].Call?
    ensures j <= k < n && ops[k].Call? && forall i :: k < i < n ==> !ops[i].Call?
    decreases n
  {
    if ops[n - 1].Call? {
      k := n - 1;
    } else {
      k := LastCall(ops, j, n - 1);
    }
  }

  /** A native function that ends normally gives Lua the values it wrote, whatever values it
      writes, exactly if the entry function exists or it writes nothing before a script call. */
  lemma ReturnsWrittenIff(hasCall: bool, nc: NativeCall)
    requires !Native(hasCall, nc).raised
    ensures (forall body :: SameShape(nc.body, body) ==> ReturnsWritten(hasCall, nc.(body := body))) <==>
            hasCall || NoWriteBeforeCall(nc.body)
  {
    if hasCall || NoWriteBeforeCall(nc.body) {
      forall body | SameShape(nc.body, body)
        ensures ReturnsWritten(hasCall, nc.(body := body))
      {
        SafeShapeReturnsWritten(hasCall, nc, body);
      }
    } else {
      var bad := UnsafeShapeFails(nc);
      assert SameShape(nc.body, bad);
    }
  }

  lemma SafeShapeReturnsWritten(hasCall: bool, nc: NativeCall, body: Block)
    requires !Native(hasCall, nc).raised && SameShape(nc.body, body) && (hasCall || NoWriteBeforeCall(nc.body))
    ensures ReturnsWritten(hasCall, nc.(body := body))
  {
    var n, s := |body.ops|, NativeStart(nc.args);
    SameShapeSameRun(hasCall, nc.body, body, n, s);
    if hasCall {
      ReturnsWhatItWrote(nc.(body := body));
    } else {
      WrittenOnTop(body, n, s);
      assert body.ops[..n] == body.ops;
    }
  }

  lemma UnsafeShapeFails(nc: NativeCall) returns (bad: Block)
    requires !Native(false, nc).raised && !NoWriteBeforeCall(nc.body)
    ensures SameShape(nc.body, bad) && !ReturnsWritten(false, nc.(body := bad))
  {
    var ops, n, s := nc.body.ops, |nc.body.ops|, NativeStart(nc.args);
    var i, j :| 0 <= i < j < n && ops[i].Write? && ops[j].Call?;
    var k := LastCall(ops, j, n);
    NotRaisedAt(false, nc.body, k + 1, n, s);
    NotRaisedAt(false, nc.body, k, k + 1, s);
    NextStep(false, nc.body, k + 1, s);
    LeavesArguments(ops[k]);
    assert Calling(false, ops[k]).left != [];
    var t := if LastOf(Calling(false, ops[k]).left) == Boolean(true) then Bool(false) else Bool(true);
    bad := WritingOnly(nc.body, t);
    SameShapeSameRun(false, nc.body, bad, n, s);
    WritesOnly(bad.ops, k, t);
    assert bad.ops[i].Write? && bad.ops[k] == ops[k];
    var w := WrittenBy(bad.ops[..k]);
    assert LastOf(w) in w;
    hide After, Calling, WrittenBy, Native, ReturnsWritten;
    LeftIsReturned(nc.(body := bad), k);
  }

  /** Without the entry function a native function can return something it never wrote: the
      arguments of the failed call are still on top. */
  lemma LeakedArgumentsAreReturned()
    ensures exists nc: NativeCall ::
              !Native(false, nc).raised && Native(false, nc).returned != AllToLua(WrittenBy(nc.body.ops))
  {
    var call := Call([1], [2], Block([]), ScriptCall(LuaRun([], Returns([])), Block([])));
    var nc := NativeCall([], Block([Write(Bool(true)), call]), false);
    var body, s0 := nc.body, NativeStart([]);
    assert body.ops[0] == Write(Bool(true)) && body.ops[1] == call;
    NextStep(false, body, 1, s0);
    NextStep(false, body, 2, s0);
    var s1, s2 := After(false, body, 1, s0), After(false, body, 2, s0);
    assert s1 == State(true, true, Stream([], 0), [Boolean(true)], 1, [], false);
    assert Writing(false, call) == Preamble(call);
    assert s2.pushed == [Boolean(true), Str([1]), Str([2])] && s2.count == 1 && !s2.raised;
    assert Native(false, nc).returned == [Str([2])];
    assert AllToLua(WrittenBy(body.ops))[0] == Boolean(true) by {
      assert body.ops[..1] == [Write(Bool(true))] && body.ops[..1][..0] == [];
      assert WrittenBy([]) == [] && WrittenBy(body.ops[..1]) == [Bool(true)];
      assert WrittenBy(body.ops) == [Bool(true)] + [];
    }
  }

  // Calls do not disturb their caller

  /** The same operations, except that the script calls may be other ones. */
  ghost predicate SameButCalls(a: Block, b: Block) {
    && |a.ops| == |b.ops|
    && forall i :: 0 <= i < |a.ops| ==> a.ops[i] == b.ops[i] || (a.ops[i].Call? && b.ops[i].Call?)
  }

  ghost predicate SameButCalled(xs: seq<Event>, ys: seq<Event>) {
    && |xs| == |ys|
    && forall i :: 0 <= i < |xs| ==> xs[i] == ys[i] || (xs[i].Called? && ys[i].Called?)
  }

  lemma NotRaisedBefore(body: Block, i: nat, s: State)
    requires i <= |body.ops| && !After(true, body, i, s).raised
    ensures i > 0 ==> !After(true, body, i - 1, s).raised
  {
  }

  /** Whatever the script calls inside a block do, succeed, fail or call back to any depth, as
      long as they return, the block's own stream and the values it pushes are the same, and so is
      everything it reads. */
  lemma {:induction false} CallsDisturbNothing(a: Block, b: Block, i: nat, s: State, t: State)
    requires SameButCalls(a, b) && i <= |a.ops|
    requires s.count == |s.pushed| && t == s.(seen := t.seen) && SameButCalled(s.seen, t.seen)
    requires !After(true, a, i, s).raised && !After(true, b, i, t).raised
    ensures var x, y := After(true, a, i, s), After(true, b, i, t);
            x == y.(seen := x.seen) && SameButCalled(x.seen, y.seen)
    decreases i
  {
    assert After(true, a, 0, s) == s && After(true, b, 0, t) == t;
    NotRaisedBefore(a, i, s);
    NotRaisedBefore(b, i, t);
    hide After, Step, SameButCalled;
    if i > 0 {
      CallsDisturbNothing(a, b, i - 1, s, t);
      NextStep(true, a, i, s);
      NextStep(true, b, i, t);
      StepsAlike(a.ops[i - 1], b.ops[i - 1], After(true, a, i - 1, s), After(true, b, i - 1, t));
    }
  }

  lemma StepsAlike(p: Op, q: Op, x: State, y: State)
    requires p == q || (p.Call? && q.Call?)
    requires x == y.(seen := x.seen) && SameButCalled(x.seen, y.seen)
    requires !Step(true, p, x).raised && !Step(true, q, y).raised
    ensures var u, v := Step(true, p, x), Step(true, q, y);
            u == v.(seen := u.seen) && SameButCalled(u.seen, v.seen)
  {
    hide Calling, ReadStream, SameButCalled;
    if p.Call? {
      CallStep(p, x);
      CallStep(q, y);
      hide Step;
      AppendAlike(x.seen, y.seen, Called(Calling(true, p)), Called(Calling(true, q)));
    } else if p.Read? {
      var event := Saw(ReadStream(x.input, p.kind).1);
      AppendAlike(x.seen, y.seen, event, event);
    } else if p.GetCount? {
      AppendAlike(x.seen, y.seen, Counted(|x.input.vals|), Counted(|x.input.vals|));
    }
  }

  lemma CallStep(op: Op, s: State)
    requires op.Call? && !Step(true, op, s).raised
    ensures Step(true, op, s) == s.(seen := s.seen + [Called(Calling(true, op))], raised := false)
  {
    LeavesNothing(true, op);
    hide Calling;
    assert s.pushed + [] == s.pushed;
  }

  lemma AppendAlike(xs: seq<Event>, ys: seq<Event>, e: Event, f: Event)
    requires SameButCalled(xs, ys) && (e == f || (e.Called? && f.Called?))
    ensures SameButCalled(xs + [e], ys + [f])
  {
  }

  // Typed values survive

  function Reads(ts: seq<Typed>): (ops: seq<Op>)
    ensures |ops| == |ts|
  {
    seq(|ts|, i requires 0 <= i < |ts| => Read(KindOf(ts[i])))
  }

  /** Ask for the count, read everything, rewind, read everything again. */
  function ReadTwice(ts: seq<Typed>): Block {
    Block([GetCount] + Reads(ts) + [Rewind] + Reads(ts))
  }

  function Back(t: Typed): Reading {
    if t.Ptr? && t.tag == [] then Leaves else Gives(t)
  }

  function Seen(ts: seq<Typed>): (es: seq<Event>)
    ensures |es| == |ts|
  {
    seq(|ts|, i requires 0 <= i < |ts| => Saw(Back(ts[i])))
  }

  lemma {:induction false} ReadsGiveBack(hasCall: bool, body: Block, at: nat, ts: seq<Typed>, i: nat, s: State)
    requires i <= |ts| && at + |ts| <= |body.ops| && body.ops[at..at + |ts|] == Reads(ts)
    requires var p := After(hasCall, body, at, s);
             p.canRead && !p.raised && p.input == Stream(AllToLua(ts), 0)
    ensures var p := After(hasCall, body, at, s);
            After(hasCall, body, at + i, s) == p.(input := Stream(AllToLua(ts), i), seen := p.seen + Seen(ts)[..i])
    decreases i
  {
    hide After, Convert, KindOf, ToLua, Back;
    var p, vals := After(hasCall, body, at, s), AllToLua(ts);
    if i == 0 {
      assert p.seen + Seen(ts)[..0] == p.seen;
    } else {
      ReadsGiveBack(hasCall, body, at, ts, i - 1, s);
      NextStep(hasCall, body, at + i, s);
      WrittenReadsBack(ts[i - 1]);
      assert Back(ts[i - 1]) == Convert(KindOf(ts[i - 1]), ToLua(ts[i - 1])) != Raises by {
        ReadBackIs(ts[i - 1]);
      }
      assert body.ops[at + i - 1] == body.ops[at..at + |ts|][i - 1] == Read(KindOf(ts[i - 1]));
      assert vals[i - 1 := vals[i - 1]] == vals;
      assert (p.seen + Seen(ts)[..i - 1]) + [Saw(Back(ts[i - 1]))] == p.seen + Seen(ts)[..i];
    }
  }

  lemma ReadBackIs(t: Typed)
    ensures Back(t) == Convert(KindOf(t), ToLua(t)) != Raises
  {
  }

  lemma NextStep(hasCall: bool, body: Block, i: nat, s: State)
    requires 0 < i <= |body.ops| && !After(hasCall, body, i - 1, s).raised
    ensures After(hasCall, body, i, s) == Step(hasCall, body.ops[i - 1], After(hasCall, body, i - 1, s))
  {
  }

  /** Of the values a script returns, the callback can read the first eight. */
  lemma VisibleResults(ts: seq<Typed>)
    ensures UntilNil(Padded(AllToLua(ts))) == AllToLua(if |ts| <= LUA_RESULT_COUNT then ts else ts[..LUA_RESULT_COUNT])
  {
    var n := if |ts| <= LUA_RESULT_COUNT then |ts| else LUA_RESULT_COUNT;
    var vals := Padded(AllToLua(ts));
    UntilNilIs(vals, n);
    assert vals[..n] == AllToLua(ts[..n]);
    assert |ts| <= LUA_RESULT_COUNT ==> ts[..n] == ts;
  }

  lemma ReadTwiceOps(ts: seq<Typed>)
    ensures var ops, n := ReadTwice(ts).ops, |ts|;
            && |ops| == 2 * n + 2 && ops[0] == GetCount && ops[n + 1] == Rewind
            && ops[1..1 + n] == Reads(ts) == ops[n + 2..n + 2 + n]
  {
  }

  lemma ReadingOnce(hasCall: bool, ts: seq<Typed>, s: State)
    requires s.canRead && !s.raised && s.input == Stream(AllToLua(ts), 0) && s.seen == []
    ensures After(hasCall, ReadTwice(ts), |ts| + 2, s) == s.(seen := [Counted(|ts|)] + Seen(ts))
  {
    var body, n := ReadTwice(ts), |ts|;
    ReadTwiceOps(ts);
    assert Seen(ts)[..n] == Seen(ts);
    assert [] + [Counted(n)] == [Counted(n)];
    assert After(hasCall, body, 0, s) == s;
    hide After, Reads, ReadTwice, Seen, AllToLua;
    NextStep(hasCall, body, 1, s);
    ReadsGiveBack(hasCall, body, 1, ts, n, s);
    NextStep(hasCall, body, n + 2, s);
  }

  lemma ReadingTwice(hasCall: bool, ts: seq<Typed>, s: State)
    requires s.canRead && !s.raised && s.input == Stream(AllToLua(ts), 0) && s.seen == []
    ensures var r := After(hasCall, ReadTwice(ts), |ReadTwice(ts).ops|, s);
            !r.raised && r.seen == [Counted(|ts|)] + Seen(ts) + Seen(ts)
  {
    ReadTwiceOps(ts);
    assert Seen(ts)[..|ts|] == Seen(ts);
    ReadingOnce(hasCall, ts, s);
    hide After, Step, Reads, ReadTwice, Seen, AllToLua;
    ReadsGiveBack(hasCall, ReadTwice(ts), |ts| + 2, ts, |ts|, s);
  }

  /** A native function is given the arguments Lua passes, any number of them, in order from the
      first on, and again after a reset. */
  lemma NativeSeesArguments(hasCall: bool, ts: seq<Typed>, caught: bool)
    ensures var t := Native(hasCall, NativeCall(AllToLua(ts), ReadTwice(ts), caught));
            !t.raised && t.events == [Counted(|ts|)] + Seen(ts) + Seen(ts)
  {
    hide After, ReadTwice, Seen, AllToLua;
    ReadingTwice(hasCall, ts, NativeStart(AllToLua(ts)));
  }

  /** What reading with these kinds gives on any values: each is converted, and past the end a read
      gives nothing. */
  function Readings(vals: seq<Value>, kinds: seq<Kind>): (es: seq<Event>)
    ensures |es| == |kinds|
  {
    seq(|kinds|, i requires 0 <= i < |kinds| => Saw(if i < |vals| then Convert(kinds[i], vals[i]) else Leaves))
  }

  function KindReads(kinds: seq<Kind>): (body: Block)
    ensures |body.ops| == |kinds| && forall i :: 0 <= i < |kinds| ==> body.ops[i] == Read(kinds[i])
  {
    Block(seq(|kinds|, i requires 0 <= i < |kinds| => Read(kinds[i])))
  }

  /** The i-th read of a native function converts its i-th argument, of whatever kind both are. */
  lemma NativeReads(hasCall: bool, args: seq<Value>, kinds: seq<Kind>, caught: bool)
    requires forall i :: 0 <= i < |kinds| && i < |args| ==> Convert(kinds[i], args[i]) != Raises
    ensures Native(hasCall, NativeCall(args, KindReads(kinds), caught)) == NativeTrace(Readings(args, kinds), [], false)
  {
    hide Convert, InPlace, After, KindReads;
    ReadsInOrder(hasCall, args, kinds, |kinds|);
    assert Readings(args, kinds)[..|kinds|] == Readings(args, kinds);
  }

  lemma {:induction false} ReadsInOrder(hasCall: bool, args: seq<Value>, kinds: seq<Kind>, i: nat)
    requires i <= |kinds|
    requires forall j :: 0 <= j < |kinds| && j < |args| ==> Convert(kinds[j], args[j]) != Raises
    ensures var p := After(hasCall, KindReads(kinds), i, NativeStart(args));
            && p.canRead && !p.raised && p.pushed == [] && p.count == 0
            && |p.input.vals| == |args| && p.input.index == (if i < |args| then i else |args|)
            && (forall j :: i <= j < |args| ==> p.input.vals[j] == args[j])
            && p.seen == Readings(args, kinds)[..i]
    decreases i
  {
    hide Convert, InPlace, KindReads;
    if i > 0 {
      ReadsInOrder(hasCall, args, kinds, i - 1);
      assert Readings(args, kinds)[..i] == Readings(args, kinds)[..i - 1] + [Readings(args, kinds)[i - 1]];
    }
  }

  /** A Lua function makes its native calls in order, each once, and stops after the first that
      raises and is not caught. */
  lemma {:induction false} RunInOrder(hasCall: bool, run: LuaRun, i: nat)
    requires i <= |run.calls|
    ensures var r := RunAfter(hasCall, run, i);
            && |r.natives| <= i && (!r.raised ==> |r.natives| == i)
            && (forall j :: 0 <= j < |r.natives| ==> r.natives[j] == Native(hasCall, run.calls[j]))
            && (forall j :: 0 <= j < |r.natives| ==>
                  (r.natives[j].raised && !run.calls[j].caught <==> r.raised && j == |r.natives| - 1))
            && (r.raised ==> r.natives != [])
    decreases i
  {
    hide Native;
    if i > 0 {
      RunInOrder(hasCall, run, i - 1);
    }
  }

  /** A script call fails exactly if its function ends in an error or one of the native calls it made
      raised uncaught; the callback is then not run. */
  lemma FailsIff(hasCall: bool, c: ScriptCall, args: seq<Value>)
    ensures var e := Exec(hasCall, c, args);
            && e.args == args
            && |e.natives| <= |c.callee.calls|
            && (e.failed <==>
                  || c.callee.outcome.Fails?
                  || exists j :: 0 <= j < |e.natives| && e.natives[j].raised && !c.callee.calls[j].caught)
            && (e.failed ==> e.ack == [] && !e.raised)
  {
    hide RunAfter, After;
    RunInOrder(hasCall, c.callee, |c.callee.calls|);
    var r := RunAfter(hasCall, c.callee, |c.callee.calls|);
    if r.raised {
      assert r.natives[|r.natives| - 1].raised;
    }
  }

  /** Up to eight typed values returned by a script are counted and read back identically, in
      order, and again after a reset, except that a pointer without a type name reads as nothing. */
  lemma TypedValuesSurvive(hasCall: bool, ts: seq<Typed>, c: ScriptCall, args: seq<Value>)
    requires |ts| <= LUA_RESULT_COUNT && c.ack == ReadTwice(ts)
    requires c.callee.outcome == Returns(AllToLua(ts)) && !RunAfter(hasCall, c.callee, |c.callee.calls|).raised
    ensures Succeeded(Exec(hasCall, c, args))
    ensures Exec(hasCall, c, args).ack == [Counted(|ts|)] + Seen(ts) + Seen(ts)
  {
    VisibleResults(ts);
    ReadingTwice(hasCall, ts, CallbackStart(AllToLua(ts)));
    hide After, ReadTwice, Seen, AllToLua, UntilNil, Padded, RunAfter;
  }

  /** The readings of a callback that is given every value as it was. */
  function AllGiven(ts: seq<Typed>): (es: seq<Event>)
    ensures |es| == |ts|
  {
    seq(|ts|, i requires 0 <= i < |ts| => Saw(Gives(ts[i])))
  }

  /** The callback gets everything back identically, twice, exactly if every pointer has a type
      name. */
  lemma IdenticalIff(hasCall: bool, ts: seq<Typed>, c: ScriptCall, args: seq<Value>)
    requires |ts| <= LUA_RESULT_COUNT && c.ack == ReadTwice(ts)
    requires c.callee.outcome == Returns(AllToLua(ts)) && !RunAfter(hasCall, c.callee, |c.callee.calls|).raised
    ensures Exec(hasCall, c, args).ack == [Counted(|ts|)] + AllGiven(ts) + AllGiven(ts) <==>
            forall i :: 0 <= i < |ts| ==> !(ts[i].Ptr? && ts[i].tag == [])
  {
    TypedValuesSurvive(hasCall, ts, c, args);
    SeenIsGiven(ts);
    hide Exec, ReadTwice, RunAfter, Seen, AllGiven, AllToLua;
    var n, xs, ys := |ts|, [Counted(|ts|)] + Seen(ts) + Seen(ts), [Counted(|ts|)] + AllGiven(ts) + AllGiven(ts);
    assert xs[1..n + 1] == Seen(ts) && ys[1..n + 1] == AllGiven(ts);
  }

  lemma SeenIsGiven(ts: seq<Typed>)
    ensures Seen(ts) == AllGiven(ts) <==> forall i :: 0 <= i < |ts| ==> !(ts[i].Ptr? && ts[i].tag == [])
  {
    if Seen(ts) == AllGiven(ts) {
      forall i | 0 <= i < |ts|
        ensures !(ts[i].Ptr? && ts[i].tag == [])
      {
        assert Seen(ts)[i] == AllGiven(ts)[i];
      }
    }
  }

  /** The arguments that the entry function passes on. */
  function AfterNames(args: seq<Value>): seq<Value> {
    if |args| < 2 then [] else args[2..]
  }

  /** What one side writes the other reads, in both directions: values written as arguments and
      sent back by the script unchanged. */
  lemma EchoRoundTrip(op: Op, ts: seq<Typed>)
    requires op.Call? && |ts| <= LUA_RESULT_COUNT && !Writing(true, op).raised
    requires WrittenBy(op.out.ops) == ts && op.call.ack == ReadTwice(ts)
    requires op.call.callee == LuaRun([], Returns(AfterNames(Calling(true, op).exec.args)))
    ensures Succeeded(Calling(true, op).exec)
    ensures Calling(true, op).exec.ack == [Counted(|ts|)] + Seen(ts) + Seen(ts)
  {
    ScriptGetsWhatWasWritten(op);
    assert AfterNames(Calling(true, op).exec.args) == AllToLua(ts);
    TypedValuesSurvive(true, ts, op.call, Writing(true, op).pushed);
  }
}
