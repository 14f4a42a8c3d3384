/** ScriptEngine.cpp: calls between C++ and Lua on the shared Lua stack, proved against the
    stackless meaning of their tree. When `raised`, a Lua error is on its way past the C++ frame
    to the next protected call, which restores its own stack; nothing is promised of the stack
    then except that the waiting frames are still below. */
module ScriptEngines {
  import opened CStrings
  import opened LuaStates
  import opened LuaInterchange
  import opened ScriptTrees

  const CALL_FUNCTION := Ascii("call")
  const LUA_TRACE_NAME := Ascii("__G__TRACKBACK__")

  predicate HasCall(L: LuaState)
    reads L`globals
  {
    IsFunction(L.Global(CALL_FUNCTION))
  }

  /** The block's streams and its part of the stack: what is below its input values, the input
      values, what is between them and its own pushes, and the pushes. */
  ghost predicate On(L: LuaState, input: LuaInputStream?, output: LuaOutputStream?,
                     pre: seq<Value>, post: seq<Value>, s: State)
    reads L, input, output
  {
    && L.stack == pre + s.input.vals + post + s.pushed
    && (s.canRead <==> input != null) && (s.canWrite <==> output != null)
    && (input != null ==> input.L == L && input.start == |pre| && input.count == |s.input.vals|
                          && input.index == s.input.index <= input.count)
    && (output != null ==> output.L == L && output.count == s.count)
  }

  /** One operation of a block. */
  method RunOp(L: LuaState, input: LuaInputStream?, output: LuaOutputStream?, op: Op,
               ghost pre: seq<Value>, ghost post: seq<Value>, ghost s: State)
    returns (raised: bool, events: seq<Event>)
    requires On(L, input, output, pre, post, s) && FewOp(HasCall(L), op) && !s.raised
    modifies L`stack, L`callers, input, output
    ensures old(L.callers) <= L.callers
    ensures var s' := Step(HasCall(L), op, s);
            && raised == s'.raised && s'.seen == s.seen + events
            && (!raised ==> L.callers == old(L.callers) && On(L, input, output, pre, post, s'))
    decreases op, 1
  {
    raised, events := false, [];
    assert s.seen + [] == s.seen;
    hide ReadStream, Calling, FewBlock, FewCall, IsFunction;
    match op
    case Read(kind) =>
      if input != null {
        var r := ReadOp(L, input, output, kind, pre, post, s);
        events, raised := [Saw(r)], r.Raises?;
      }
    case GetCount =>
      if input != null {
        InputPart(pre, s.input.vals, post, s.pushed);
        var n := input.GetCount();
        events := [Counted(n)];
      }
    case Rewind =>
      if input != null {
        input.Reset();
      }
    case Write(t) =>
      if output != null {
        output.Write(t);
        PushedMore(pre, s.input.vals, post, s.pushed, [ToLua(t)]);
      }
    case Call(_, _, _, _) =>
      var ok, trace;
      ok, raised, trace := CallScriptFunc(L, op);
      events := [Called(trace)];
      PushedMore(pre, s.input.vals, post, s.pushed, trace.left);
  }

  method ReadOp(L: LuaState, input: LuaInputStream, output: LuaOutputStream?, kind: Kind,
                ghost pre: seq<Value>, ghost post: seq<Value>, ghost s: State)
    returns (r: Reading)
    requires On(L, input, output, pre, post, s)
    modifies L`stack, input
    ensures r == ReadStream(s.input, kind).1
    ensures On(L, input, output, pre, post, s.(input := ReadStream(s.input, kind).0))
  {
    hide ReadStream;
    InputPart(pre, s.input.vals, post, s.pushed);
    r := input.Read(kind);
    InputReplaced(pre, s.input.vals, post, s.pushed, input.Here().vals);
  }

  lemma InputPart(pre: seq<Value>, vals: seq<Value>, post: seq<Value>, pushed: seq<Value>)
    ensures (pre + vals + post + pushed)[|pre|..|pre| + |vals|] == vals
  {
  }

  lemma InputReplaced(pre: seq<Value>, vals: seq<Value>, post: seq<Value>, pushed: seq<Value>, vals': seq<Value>)
    ensures var stack := pre + vals + post + pushed;
            stack[..|pre|] + vals' + stack[|pre| + |vals|..] == pre + vals' + post + pushed
  {
  }

  lemma PushedMore(pre: seq<Value>, vals: seq<Value>, post: seq<Value>, pushed: seq<Value>, more: seq<Value>)
    ensures (pre + vals + post + pushed) + more == pre + vals + post + (pushed + more)
  {
  }

  /** A block of operations. */
  method RunBlock(L: LuaState, input: LuaInputStream?, output: LuaOutputStream?, body: Block,
                  ghost pre: seq<Value>, ghost post: seq<Value>, ghost s: State)
    returns (raised: bool, events: seq<Event>)
    requires On(L, input, output, pre, post, s) && FewBlock(HasCall(L), body)
    requires !s.raised && s.seen == []
    modifies L`stack, L`callers, input, output
    ensures old(L.callers) <= L.callers
    ensures var s' := After(HasCall(L), body, |body.ops|, s);
            && raised == s'.raised && events == s'.seen
            && (!raised ==> L.callers == old(L.callers) && On(L, input, output, pre, post, s'))
    decreases body, 1
  {
    raised, events := false, [];
    var i := 0;
    ghost var hasCall := HasCall(L);
    ghost var now := s;
    while i < |body.ops|
      invariant 0 <= i <= |body.ops| && now == After(hasCall, body, i, s) && !now.raised
      invariant events == now.seen && L.callers == old(L.callers) && HasCall(L) == hasCall
      invariant On(L, input, output, pre, post, now)
    {
      NextStep(hasCall, body, i + 1, s);
      hide After, Step, On;
      var more;
      raised, more := RunOp(L, input, output, body.ops[i], pre, post, now);
      events := events + more;
      i := i + 1;
      now := After(hasCall, body, i, s);
      if raised {
        RaisedStays(hasCall, body, i, |body.ops|, s);
        return;
      }
    }
  }

  /** CallScriptFunc with the PreCall and Call of its LuaInterchangeCaller. It leaves the caller's
      stack exactly as it was if and only if the entry function exists. */
  method CallScriptFunc(L: LuaState, op: Op) returns (ok: bool, raised: bool, trace: CallTrace)
    requires op.Call? && FewOp(HasCall(L), op)
    modifies L`stack, L`callers
    ensures old(L.callers) <= L.callers
    ensures trace == Calling(HasCall(L), op) && raised == trace.raised
    ensures ok <==> Succeeded(trace.exec)
    ensures !raised ==> L.callers == old(L.callers) && L.stack == old(L.stack) + trace.left
    ensures !raised ==> (L.stack == old(L.stack) <==> HasCall(L))
    decreases op, 0
  {
    var topIndex := |L.stack|;
    ghost var frame, hasCall, start := L.stack, HasCall(L), Preamble(op);
    var output := new LuaOutputStream(L);
    output.Write(CStrVal(op.module_));
    output.Write(CStrVal(op.func));
    NamesPushed(frame, op);
    Counts(hasCall, op.out, |op.out.ops|, start);
    ghost var w := Writing(hasCall, op);
    var written;
    raised, written := RunBlock(L, null, output, op.out, frame, [], start);
    if raised {
      return false, true, CallTrace(written, NotRun, [], true);
    }
    NoInput(frame, w.pushed);
    assert L.stack == frame + w.pushed && output.count == w.count && |w.pushed| >= 2;
    hide After, Writing, Exec, On, IsFunction, CALL_FUNCTION, NoCalls;
    var exec;
    ok, raised, exec := ExecGlobalFunction(L, CALL_FUNCTION, output.count, op.call);
    trace := CallTrace(written, exec, if raised then [] else L.stack[topIndex..], raised);
  }

  lemma NoInput(frame: seq<Value>, pushed: seq<Value>)
    ensures frame + [] + [] + pushed == frame + pushed
  {
  }

  lemma NamesPushed(frame: seq<Value>, op: Op)
    requires op.Call?
    ensures frame + [Str(op.module_)] + [Str(op.func)] == frame + [] + [] + Preamble(op).pushed
  {
  }

  /** `argc` arguments are on top of the stack. They are consumed exactly if the global is a
      function; otherwise they stay there. */
  method ExecGlobalFunction(L: LuaState, func: Bytes, argc: int, c: ScriptCall)
    returns (ok: bool, raised: bool, exec: ExecTrace)
    requires 0 <= argc <= 127 && argc <= |L.stack| && FewCall(HasCall(L), c)
    modifies L`stack, L`callers
    ensures old(L.callers) <= L.callers && (!raised ==> L.callers == old(L.callers))
    ensures !IsFunction(L.Global(func)) ==> !ok && !raised && exec == NotRun && L.stack == old(L.stack)
    ensures var args := old(L.stack)[|old(L.stack)| - argc..];
            IsFunction(L.Global(func)) ==> exec == Exec(HasCall(L), c, args)
    ensures IsFunction(L.Global(func)) ==> (ok <==> Succeeded(exec)) && raised == exec.raised
    ensures IsFunction(L.Global(func)) && !raised ==>
              (L.stack == old(L.stack)[..|old(L.stack)| - argc] <==> (ok ==> HasCall(L) || NoCalls(c.ack)))
    decreases c, 4
  {
    hide After, RunAfter, NoCalls, Exec, FewCall, IsFunction;
    ghost var stack, base := L.stack, |L.stack| - argc;
    L.GetGlobal(func);
    if !IsFunction(L.At(-1)) {
      L.Pop(1);
      return false, false, NotRun;
    }
    if argc > 0 {
      L.Insert(-(argc + 1));
    }
    Inserted(stack, base, L.Global(func));
    assert L.stack == stack[..base] + [L.Global(func)] + stack[base..];
    ok, raised, exec := ExecFunction(L, argc, c);
  }

  lemma Inserted(stack: seq<Value>, base: nat, f: Value)
    requires base <= |stack|
    ensures var s := stack + [f];
            s[..base] + [s[|s| - 1]] + s[base..|s| - 1] == stack[..base] + [f] + stack[base..]
    ensures base == |stack| ==> stack + [f] == stack[..base] + [f] + stack[base..]
  {
  }

  /** The function to call and its `argc` arguments are on top of the stack. On every path that
      fails and returns, exactly they are removed. On success they are, and nothing is left behind,
      if and only if the entry function exists or the callback makes no call. */
  method ExecFunction(L: LuaState, argc: int, c: ScriptCall) returns (ok: bool, raised: bool, exec: ExecTrace)
    requires 0 <= argc <= 127 && argc < |L.stack| && FewCall(HasCall(L), c)
    modifies L`stack, L`callers
    ensures old(L.callers) <= L.callers && (!raised ==> L.callers == old(L.callers))
    ensures !raised ==> (L.stack == old(L.stack)[..|old(L.stack)| - argc - 1] <==>
                         (ok ==> HasCall(L) || NoCalls(c.ack)))
    ensures !IsFunction(old(L.At(-(argc + 1)))) ==> !ok && !raised && exec == NotRun
    ensures var args := old(L.stack)[|old(L.stack)| - argc..];
            IsFunction(old(L.At(-(argc + 1)))) ==> exec == Exec(HasCall(L), c, args)
    ensures IsFunction(old(L.At(-(argc + 1)))) ==> (ok <==> Succeeded(exec)) && raised == exec.raised
    decreases c, 3
  {
    hide After, RunAfter, NoCalls, Exec, FewCall, IsFunction;
    var findex := -(argc + 1);
    ghost var stack, base := L.stack, |L.stack| - argc - 1;
    if !IsFunction(L.At(findex)) {
      L.Pop(-findex);
      return false, false, NotRun;
    }
    var traceIndex := PlaceHandler(L, findex);
    CalledWith(stack, L.stack, base, argc, L.Global(LUA_TRACE_NAME));
    ok, raised, exec := ExecProtected(L, argc, traceIndex, c);
  }

  /** With a handler in place or none, the protected call, the callback and the final pops. */
  method ExecProtected(L: LuaState, argc: int, traceIndex: int, c: ScriptCall)
    returns (ok: bool, raised: bool, exec: ExecTrace)
    requires 0 <= argc <= 127 && argc < |L.stack| && FewCall(HasCall(L), c) && IsFunction(L.At(-(argc + 1)))
    requires traceIndex == 0 || (traceIndex == -(argc + 2) && L.Acceptable(traceIndex) && IsFunction(L.At(traceIndex)))
    modifies L`stack, L`callers
    ensures old(L.callers) <= L.callers && (!raised ==> L.callers == old(L.callers))
    ensures exec == Exec(HasCall(L), c, old(L.stack)[|old(L.stack)| - argc..])
    ensures (ok <==> Succeeded(exec)) && raised == exec.raised
    ensures var base := |old(L.stack)| - argc - if traceIndex == 0 then 1 else 2;
            !raised ==> (L.stack == old(L.stack)[..base] <==> (ok ==> HasCall(L) || NoCalls(c.ack)))
    decreases c, 2
  {
    ghost var stack, base := L.stack, |L.stack| - argc - if traceIndex == 0 then 1 else 2;
    hide After, RunAfter, Residue, NoCalls, Exec, FewRun, FewBlock;
    var error, natives, args := PCall(L, argc, traceIndex, c.callee);
    ghost var pre := stack[..|stack| - argc - 1];
    hide IsFunction, LuaState.At, Padded;
    if error {
      if traceIndex == 0 {
        L.Pop(1);
      } else {
        L.Pop(2);
      }
      exec := Ran(args, natives, true, [], false);
      Failed(HasCall(L), c, args);
      Beneath(stack, pre, base);
      return false, false, exec;
    }
    var events;
    raised, events := Acknowledge(L, c, c.callee.outcome.results, pre);
    exec := Ran(args, natives, false, events, raised);
    Acknowledged(HasCall(L), c, args);
    if raised {
      return false, true, exec;
    }
    ghost var after := L.stack;
    L.Pop(LUA_RESULT_COUNT);
    if traceIndex != 0 {
      L.Pop(1);
    }
    PoppedBack(after, pre, L.stack, stack, base);
    ResidueIff(HasCall(L), c, args);
    ok := true;
  }

  /** After the handler was placed, function and arguments are still on top. */
  lemma CalledWith(stack: seq<Value>, now: seq<Value>, base: nat, argc: nat, h: Value)
    requires base + 1 + argc == |stack|
    requires now == stack || now == stack[..base] + [h] + stack[base..]
    ensures |now| >= argc + 1 && now[|now| - argc - 1] == stack[base] && now[|now| - argc..] == stack[base + 1..]
    ensures |now| == |stack| ==> now[..base] == stack[..base]
    ensures |now| > |stack| ==> |now| == |stack| + 1 && now[base] == h && now[..base] == stack[..base]
  {
  }

  lemma Beneath(stack: seq<Value>, pre: seq<Value>, base: nat)
    requires base <= |stack| && stack[..base] <= pre
    ensures pre[..base] == stack[..base]
  {
  }

  lemma Failed(hasCall: bool, c: ScriptCall, args: seq<Value>)
    requires RunAfter(hasCall, c.callee, |c.callee.calls|).raised || c.callee.outcome.Fails?
    ensures Exec(hasCall, c, args) == Ran(args, RunAfter(hasCall, c.callee, |c.callee.calls|).natives, true, [], false)
    ensures Residue(hasCall, c) == []
  {
  }

  lemma Acknowledged(hasCall: bool, c: ScriptCall, args: seq<Value>)
    requires !RunAfter(hasCall, c.callee, |c.callee.calls|).raised && c.callee.outcome.Returns?
    ensures var s := After(hasCall, c.ack, |c.ack.ops|, CallbackStart(c.callee.outcome.results));
            && Exec(hasCall, c, args) ==
               Ran(args, RunAfter(hasCall, c.callee, |c.callee.calls|).natives, false, s.seen, s.raised)
            && Residue(hasCall, c) == s.pushed
  {
  }

  lemma PoppedBack(after: seq<Value>, pre: seq<Value>, now: seq<Value>, stack: seq<Value>, base: nat)
    requires base <= |stack| && stack[..base] <= pre <= after && now <= after && base <= |now|
    ensures now == stack[..base] <==> |now| == base
  {
    assert stack[..base] == after[..base] == now[..base];
  }

  /** The traceback handler, if there is one, goes below the function to call. */
  method PlaceHandler(L: LuaState, findex: int) returns (traceIndex: int)
    requires -|L.stack| <= findex <= -1
    modifies L`stack
    ensures traceIndex == if IsFunction(L.Global(LUA_TRACE_NAME)) then findex - 1 else 0
    ensures var stack, base := old(L.stack), |old(L.stack)| + findex;
            L.stack == if traceIndex == 0 then stack else stack[..base] + [L.Global(LUA_TRACE_NAME)] + stack[base..]
  {
    ghost var stack := L.stack;
    traceIndex := 0;
    L.GetGlobal(LUA_TRACE_NAME);
    if !IsFunction(L.At(-1)) {
      L.Pop(1);
    } else {
      traceIndex := findex - 1;
      L.Insert(traceIndex);
    }
    HandlerBelow(stack, |stack| + findex, L.Global(LUA_TRACE_NAME));
  }

  /** The callback reading the eight results on top of the stack. */
  method Acknowledge(L: LuaState, c: ScriptCall, ghost results: seq<Value>, ghost pre: seq<Value>)
    returns (raised: bool, events: seq<Event>)
    requires L.stack == pre + Padded(results) && FewBlock(HasCall(L), c.ack)
    modifies L`stack, L`callers
    ensures old(L.callers) <= L.callers
    ensures var s := After(HasCall(L), c.ack, |c.ack.ops|, CallbackStart(results));
            raised == s.raised && events == s.seen
    ensures var s := After(HasCall(L), c.ack, |c.ack.ops|, CallbackStart(results));
            !raised ==> && L.callers == old(L.callers) && pre <= L.stack
                        && |L.stack| == |pre| + LUA_RESULT_COUNT + |s.pushed|
    decreases c, 1
  {
    hide After, UntilNil, FewBlock, IsFunction;
    ghost var start := CallbackStart(results);
    ghost var post := Padded(results)[|start.input.vals|..];
    var ack := new LuaInputStream(L, true);
    ResultsOnTop(pre, results);
    Counts(HasCall(L), c.ack, |c.ack.ops|, start);
    raised, events := RunBlock(L, ack, null, c.ack, pre, post, start);
    if !raised {
      ghost var s := After(HasCall(L), c.ack, |c.ack.ops|, start);
      LengthOf(pre, s.input.vals, post, s.pushed);
    }
  }

  lemma LengthOf(pre: seq<Value>, vals: seq<Value>, post: seq<Value>, pushed: seq<Value>)
    ensures var stack := pre + vals + post + pushed;
            pre <= stack && |stack| == |pre| + |vals| + |post| + |pushed|
  {
  }

  lemma HandlerBelow(stack: seq<Value>, base: nat, h: Value)
    requires base < |stack|
    ensures var s := stack + [h];
            && s[..base] + [s[|s| - 1]] + s[base..|s| - 1] == stack[..base] + [h] + stack[base..]
            && s[..|s| - 1] == stack
  {
  }

  lemma ResultsOnTop(pre: seq<Value>, results: seq<Value>)
    ensures var vals, all := CallbackStart(results).input.vals, Padded(results);
            && pre + all == pre + vals + all[|vals|..] + []
            && (pre + all)[|pre|..] == all
  {
  }

  /** `lua_pcall(argc, LUA_RESULT_COUNT, handler)`: function and arguments are replaced by exactly
      eight results or by one error object, whatever state a Lua error left the stack in. */
  method PCall(L: LuaState, argc: nat, handler: int, run: LuaRun)
    returns (error: bool, natives: seq<NativeTrace>, args: seq<Value>)
    requires argc < |L.stack| && IsFunction(L.At(-(argc + 1))) && FewRun(HasCall(L), run)
    requires handler == 0 || (L.Acceptable(handler) && handler < -(argc + 1) && IsFunction(L.At(handler)))
    modifies L`stack, L`callers
    ensures L.callers == old(L.callers) && args == old(L.stack)[|old(L.stack)| - argc..]
    ensures var r := RunAfter(HasCall(L), run, |run.calls|);
            natives == r.natives && (error <==> r.raised || run.outcome.Fails?)
    ensures var base := old(L.stack)[..|old(L.stack)| - argc - 1];
            && (error ==> |L.stack| == |base| + 1 && L.stack[..|base|] == base)
            && (run.outcome.Fails? && handler == 0 && !RunAfter(HasCall(L), run, |run.calls|).raised ==>
                  L.stack == base + [run.outcome.error])
            && (!error ==> L.stack == base + Padded(run.outcome.results))
    decreases run, 1
  {
    var depth, base := |L.callers|, L.stack[..|L.stack| - argc - 1];
    args := L.stack[|L.stack| - argc..];
    L.callers, L.stack := L.callers + [base], args;
    ghost var callers := L.callers;
    hide RunAfter, FewRun;
    var raised;
    natives, raised := RunLua(L, run);
    error := raised || run.outcome.Fails?;
    assert L.callers[..depth + 1] == callers && callers[..depth] == old(L.callers);
    var results := if run.outcome.Returns? && !raised then Padded(run.outcome.results)
                   else [if raised then Nil else run.outcome.error];
    L.stack := L.callers[depth] + results;
    L.callers := L.callers[..depth];
  }

  /** A Lua function making its native calls, each in a frame of its own. */
  method RunLua(L: LuaState, run: LuaRun) returns (natives: seq<NativeTrace>, raised: bool)
    requires FewRun(HasCall(L), run)
    modifies L`stack, L`callers
    ensures old(L.callers) <= L.callers
    ensures var r := RunAfter(HasCall(L), run, |run.calls|);
            natives == r.natives && raised == r.raised
    ensures !raised ==> L.callers == old(L.callers) && L.stack == old(L.stack)
    decreases run, 0
  {
    natives, raised := [], false;
    var depth, frame := |L.callers|, L.stack;
    ghost var hasCall := HasCall(L);
    var i := 0;
    while i < |run.calls|
      invariant 0 <= i <= |run.calls| && RunAfter(hasCall, run, i) == RunState(natives, false)
      invariant L.callers == old(L.callers) && L.stack == frame && HasCall(L) == hasCall && !raised
    {
      var nc := run.calls[i];
      assert FewNative(hasCall, nc);
      L.callers, L.stack := L.callers + [frame], nc.args;
      hide Native, FewNative;
      var n, inner, events := LuaCall(L, nc);
      natives := natives + [NativeTrace(events, if inner then [] else L.stack[|L.stack| - n..], inner)];
      i := i + 1;
      if inner && !nc.caught {
        RunRaisedStays(hasCall, run, i, |run.calls|);
        return natives, true;
      }
      L.stack, L.callers := L.callers[depth], L.callers[..depth];
    }
  }

  /** The C function behind every registered name. Its frame holds its arguments only; it returns
      the number of its topmost values that are results. */
  method LuaCall(L: LuaState, nc: NativeCall) returns (n: nat, raised: bool, events: seq<Event>)
    requires L.stack == nc.args && FewNative(HasCall(L), nc)
    modifies L`stack, L`callers
    ensures old(L.callers) <= L.callers && (!raised ==> L.callers == old(L.callers))
    ensures var t := Native(HasCall(L), nc);
            && raised == t.raised && events == t.events
            && (!raised ==> n <= |L.stack| && L.stack[|L.stack| - n..] == t.returned)
    decreases nc, 0
  {
    var input := new LuaInputStream(L, false);
    var output := new LuaOutputStream(L);
    ghost var start := NativeStart(nc.args);
    assert nc.args == [] + nc.args + [] + [];
    Counts(HasCall(L), nc.body, |nc.body.ops|, start);
    raised, events := RunBlock(L, input, output, nc.body, [], [], start);
    n := output.count;
  }

  // Scripts run for their effect: no callback

  /** ExecScriptFile: the loader pushes a chunk or an error message. Nothing is left either way. */
  method ExecScriptFile(L: LuaState, loaded: Value, callee: LuaRun) returns (ok: bool, exec: ExecTrace)
    requires FewRun(HasCall(L), callee)
    modifies L`stack, L`callers
    ensures L.stack == old(L.stack) && L.callers == old(L.callers)
    ensures exec == if IsFunction(loaded) then Exec(HasCall(L), ScriptCall(callee, Block([])), []) else NotRun
    ensures !IsFunction(loaded) ==> !ok
    ensures IsFunction(loaded) ==>
              (ok <==> !RunAfter(HasCall(L), callee, |callee.calls|).raised && callee.outcome.Returns?)
  {
    ghost var stack := L.stack;
    L.Push(loaded);
    var raised;
    ok, raised, exec := ExecFunction(L, 0, ScriptCall(callee, Block([])));
    assert (stack + [loaded])[..|stack|] == stack && (stack + [loaded])[|stack| + 1..] == [];
  }

  /** ReloadScript and CallPtfMod: one string argument to a global function, which is called with
      it. The argument stays on the stack exactly if that is not a function. */
  method ExecWithName(L: LuaState, func: Bytes, name: CString, callee: LuaRun) returns (exec: ExecTrace)
    requires FewRun(HasCall(L), callee)
    modifies L`stack, L`callers
    ensures L.callers == old(L.callers)
    ensures L.stack == if IsFunction(L.Global(func)) then old(L.stack) else old(L.stack) + [Str(name)]
    ensures exec == if IsFunction(L.Global(func)) then Exec(HasCall(L), ScriptCall(callee, Block([])), [Str(name)])
                    else NotRun
  {
    ghost var stack := L.stack;
    L.Push(Str(name));
    var ok, raised;
    ok, raised, exec := ExecGlobalFunction(L, func, 1, ScriptCall(callee, Block([])));
    assert (stack + [Str(name)])[..|stack|] == stack && (stack + [Str(name)])[|stack|..] == [Str(name)];
  }
}

/** ScriptEngine.cpp: making C++ functions and script files known to Lua. */
module ScriptRegistration {
  import opened CStrings
  import opened LuaStates

  const PACKAGE := Ascii("package")
  const PKG_PATH_INDEX := Ascii("path")
  const PKG_MODULE_INDEX := Ascii("loaded")
  const MAX_PATH := 260
  const MODULE_PREFIX := Ascii("serverd.")
  const PATH_SUFFIX := Ascii("/?.lua")

  /** `SafeSprintf` into a buffer of `size` bytes: as much as fits in front of the closing NUL. */
  function Printed(s: Bytes, size: nat): (r: Bytes)
    requires size > 0
    ensures r <= s && |r| < size && (|s| < size ==> r == s) && (|r| < size - 1 ==> r == s)
  {
    if |s| < size then s else s[..size - 1]
  }

  function ModulePath(name: Bytes): Bytes {
    Printed(MODULE_PREFIX + name, MAX_PATH)
  }

  /** Two module names are told apart exactly by their first 251 bytes. */
  lemma ModulePathsCollide(a: Bytes, b: Bytes)
    ensures ModulePath(a) == ModulePath(b) <==> Printed(a, MAX_PATH - 8) == Printed(b, MAX_PATH - 8)
  {
    ModulePathIs(a);
    ModulePathIs(b);
    hide ModulePath;
    var x, y := Printed(a, MAX_PATH - 8), Printed(b, MAX_PATH - 8);
    assert (MODULE_PREFIX + x)[8..] == x && (MODULE_PREFIX + y)[8..] == y;
  }

  lemma ModulePathIs(a: Bytes)
    ensures |MODULE_PREFIX| == 8 && ModulePath(a) == MODULE_PREFIX + Printed(a, MAX_PATH - 8)
  {
    if |a| >= MAX_PATH - 8 {
      assert (MODULE_PREFIX + a)[..MAX_PATH - 1] == MODULE_PREFIX + a[..MAX_PATH - 9];
    }
  }

  type Tables = map<nat, map<Bytes, Value>>

  /** The standard `package` table with the table of loaded modules in it. */
  predicate PackageReady(L: LuaState)
    reads L`globals, L`tables
  {
    var pkg := L.Global(PACKAGE);
    && pkg.Table? && pkg.id in L.tables
    && var loaded := L.Field(pkg, PKG_MODULE_INDEX);
       loaded.Table? && loaded.id in L.tables
  }

  function Loaded(L: LuaState): nat
    requires PackageReady(L)
    reads L`globals, L`tables
  {
    L.Field(L.Global(PACKAGE), PKG_MODULE_INDEX).id
  }

  /** What a module is loaded as: not at all, or as a table. */
  predicate Registrable(tables: Tables, loaded: nat, path: Bytes) {
    && loaded in tables
    && (path in tables[loaded] && !tables[loaded][path].Nil? ==>
          tables[loaded][path].Table? && tables[loaded][path].id in tables)
  }

  predicate IsLoaded(tables: Tables, loaded: nat, path: Bytes) {
    loaded in tables && path in tables[loaded] && tables[loaded][path].Table? && tables[loaded][path].id in tables
  }

  /** The tables with the module, new if need be. */
  function WithModule(tables: Tables, loaded: nat, path: Bytes, id: nat): Tables
    requires Registrable(tables, loaded, path)
  {
    if IsLoaded(tables, loaded, path) then tables
    else tables[id := map[]][loaded := tables[loaded][path := Table(id)]]
  }

  function Registered(tables: Tables, loaded: nat, path: Bytes, func: Bytes, f: nat, id: nat): Tables
    requires Registrable(tables, loaded, path) && id !in tables
  {
    var ts := WithModule(tables, loaded, path, id);
    var m := ts[loaded][path].id;
    ts[m := ts[m][func := NativeClosure(f)]]
  }

  /** `require(path)[func]`. */
  function Lookup(tables: Tables, loaded: nat, path: Bytes, func: Bytes): Value {
    if IsLoaded(tables, loaded, path) && func in tables[tables[loaded][path].id]
    then tables[tables[loaded][path].id][func] else Nil
  }

  /** Each loaded module has a table to itself. */
  ghost predicate Separate(tables: Tables, loaded: nat) {
    && loaded in tables
    && (forall p :: p in tables[loaded] && tables[loaded][p].Table? ==>
          tables[loaded][p].id in tables && tables[loaded][p].id != loaded)
    && (forall p, q :: p in tables[loaded] && q in tables[loaded] && p != q
                       && tables[loaded][p].Table? && tables[loaded][q].Table? ==>
          tables[loaded][p].id != tables[loaded][q].id)
  }

  /** A registered function is found, every other function of every module is what it was, and
      modules keep tables of their own. */
  lemma RegisteredIsFound(tables: Tables, loaded: nat, path: Bytes, func: Bytes, f: nat, id: nat, p: Bytes, g: Bytes)
    requires Separate(tables, loaded) && Registrable(tables, loaded, path) && id !in tables
    ensures var ts := Registered(tables, loaded, path, func, f, id);
            && Separate(ts, loaded)
            && Lookup(ts, loaded, p, g) ==
               (if p == path && g == func then NativeClosure(f) else Lookup(tables, loaded, p, g))
            && IsFunction(Lookup(ts, loaded, path, func))
  {
  }

  /** RegModuleFunc: the tables become exactly that, and the stack stays as it was. `id` is the
      identity of the table that is created if the module is not loaded yet. */
  method RegModuleFunc(L: LuaState, name: CString, func: CString, f: nat, id: nat)
    requires PackageReady(L) && Registrable(L.tables, Loaded(L), ModulePath(name)) && id !in L.tables
    modifies L`stack, L`tables
    ensures L.stack == old(L.stack)
    ensures L.tables == Registered(old(L.tables), old(Loaded(L)), ModulePath(name), func, f, id)
  {
    var path := ModulePath(name);
    ghost var loaded := Loaded(L);
    hide ModulePath, Ascii;
    L.GetGlobal(PACKAGE);
    L.GetField(-1, PKG_MODULE_INDEX);
    PushModule(L, path, loaded, id);
    ghost var m := L.tables[loaded][path].id;
    hide WithModule;
    L.Push(Str(func));
    L.Push(NativeClosure(f));
    L.RawSet(-3);
    L.Pop(3);
  }

  /** With the table of loaded modules on top, pushes the module's table, a new one if need be. */
  method PushModule(L: LuaState, path: Bytes, ghost loaded: nat, id: nat)
    requires |L.stack| > 0 && L.At(-1) == Table(loaded)
    requires Registrable(L.tables, loaded, path) && id !in L.tables
    modifies L`stack, L`tables
    ensures L.tables == WithModule(old(L.tables), loaded, path, id) && IsLoaded(L.tables, loaded, path)
    ensures L.stack == old(L.stack) + [L.tables[loaded][path]]
  {
    ghost var stack := L.stack;
    L.Push(Str(path));
    L.RawGet(-2);
    if L.At(-1).Nil? {
      L.Pop(1);
      assert L.stack == stack;
      L.Push(Str(path));
      L.NewTable(id);
      L.RawSet(-3);
      assert L.stack == stack;
      L.Push(Str(path));
      L.RawGet(-2);
    }
  }

  /** SetSearchPath: `package.path` is replaced, nothing else changes. */
  method SetSearchPath(L: LuaState, path: CString)
    requires PackageReady(L)
    modifies L`stack, L`tables
    ensures L.stack == old(L.stack)
    ensures var pkg := old(L.Global(PACKAGE).id);
            var fields := old(L.tables)[pkg];
            L.tables == old(L.tables)[pkg := fields[PKG_PATH_INDEX := Str(Printed(path + PATH_SUFFIX, 1024))]]
  {
    hide Ascii, Printed;
    L.GetGlobal(PACKAGE);
    L.GetField(-1, PKG_PATH_INDEX);
    L.Push(Str(Printed(path + PATH_SUFFIX, 1024)));
    L.SetField(-3, PKG_PATH_INDEX);
    L.Pop(2);
  }
}
