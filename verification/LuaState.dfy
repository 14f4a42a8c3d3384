/** The Lua values and the part of the C API that the script engine uses, on an explicit value
    stack: one stack per active call, as the Lua manual describes it. */
module LuaStates {
  import opened MachineInts
  import opened CStrings

  type Bytes = seq<Byte>
  type S8 = x: int | -0x80 <= x < 0x80
  type S16 = x: int | -TWO_15 <= x < TWO_15
  type S32Int = x: int | -TWO_31 <= x < TWO_31
  type S64 = x: int | -TWO_63 <= x < TWO_63

  /** `TaggedPtr` is the two-field table that WritePtr builds, taken as a value; any other table
      is an identity. `NativeClosure` is LuaCall with the C++ function it carries. */
  datatype Value =
    | Nil
    | Boolean(b: bool)
    | Integer(n: S64)
    | Str(s: Bytes)
    | LightUserdata(p: nat)
    | TaggedPtr(p: nat, tag: CString)
    | Table(id: nat)
    | Function(id: nat)
    | NativeClosure(f: nat)

  predicate IsFunction(v: Value) {
    v.Function? || v.NativeClosure?
  }

  function Ascii(s: string): Bytes {
    seq(|s|, i requires 0 <= i < |s| => ((s[i] as int) % 256) as Byte)
  }

  class LuaState {
    var callers: seq<seq<Value>>          // the stacks of the calls that are waiting
    var stack: seq<Value>                 // the stack of the running call
    var globals: map<Bytes, Value>
    var tables: map<nat, map<Bytes, Value>>

    predicate Acceptable(i: int)
      reads this`stack
    {
      1 <= i <= |stack| || -|stack| <= i <= -1
    }

    function At(i: int): (v: Value)
      requires Acceptable(i)
      reads this`stack
      ensures v in stack
    {
      if i > 0 then stack[i - 1] else stack[|stack| + i]
    }

    method Push(v: Value)
      modifies this`stack
      ensures stack == old(stack) + [v]
    {
      stack := stack + [v];
    }

    method Pop(n: nat)
      requires n <= |stack|
      modifies this`stack
      ensures stack == old(stack)[..|old(stack)| - n]
    {
      stack := stack[..|stack| - n];
    }

    /** `lua_insert`: the top moves to position `i`, what was there and above moves up. */
    method Insert(i: int)
      requires -|stack| <= i <= -1
      modifies this`stack
      ensures var at := |old(stack)| + i;
              stack == old(stack)[..at] + [old(stack)[|old(stack)| - 1]] + old(stack)[at..|old(stack)| - 1]
    {
      var at := |stack| + i;
      stack := stack[..at] + [stack[|stack| - 1]] + stack[at..|stack| - 1];
    }

    function Global(name: Bytes): Value
      reads this`globals
    {
      if name in globals then globals[name] else Nil
    }

    method GetGlobal(name: Bytes)
      modifies this`stack
      ensures stack == old(stack) + [Global(name)]
    {
      stack := stack + [Global(name)];
    }

    function Field(t: Value, key: Bytes): Value
      requires t.Table? && t.id in tables
      reads this`tables
    {
      if key in tables[t.id] then tables[t.id][key] else Nil
    }

    /** `lua_getfield(i, key)`. */
    method GetField(i: int, key: Bytes)
      requires Acceptable(i) && At(i).Table? && At(i).id in tables
      modifies this`stack
      ensures stack == old(stack) + [Field(old(At(i)), key)]
    {
      stack := stack + [Field(At(i), key)];
    }

    /** `lua_rawget(i)`: the key on top is replaced by the table's value for it. */
    method RawGet(i: int)
      requires Acceptable(i) && At(i).Table? && At(i).id in tables && i != -1
      requires |stack| > 0 && At(-1).Str?
      modifies this`stack
      ensures stack == old(stack)[..|old(stack)| - 1] + [Field(old(At(i)), old(At(-1).s))]
    {
      stack := stack[..|stack| - 1] + [Field(At(i), At(-1).s)];
    }

    /** `lua_rawset(i)`: table[below top] = top, both popped; a nil value removes the key. */
    method RawSet(i: int)
      requires Acceptable(i) && At(i).Table? && At(i).id in tables && i < -2
      requires |stack| > 1 && At(-2).Str?
      modifies this`stack, this`tables
      ensures stack == old(stack)[..|old(stack)| - 2]
      ensures tables == old(tables[At(i).id := Stored(tables[At(i).id], At(-2).s, At(-1))])
    {
      var id, key, val := At(i).id, At(-2).s, At(-1);
      tables := tables[id := Stored(tables[id], key, val)];
      stack := stack[..|stack| - 2];
    }

    /** `lua_setfield(i, key)`: table[key] = top, popped. */
    method SetField(i: int, key: Bytes)
      requires Acceptable(i) && At(i).Table? && At(i).id in tables && i < -1
      modifies this`stack, this`tables
      ensures stack == old(stack)[..|old(stack)| - 1]
      ensures tables == old(tables[At(i).id := Stored(tables[At(i).id], key, At(-1))])
    {
      tables := tables[At(i).id := Stored(tables[At(i).id], key, At(-1))];
      stack := stack[..|stack| - 1];
    }

    /** `lua_newtable`. */
    method NewTable(id: nat)
      requires id !in tables
      modifies this`stack, this`tables
      ensures stack == old(stack) + [Table(id)] && tables == old(tables)[id := map[]]
    {
      tables := tables[id := map[]];
      stack := stack + [Table(id)];
    }
  }

  function Stored(t: map<Bytes, Value>, key: Bytes, v: Value): map<Bytes, Value> {
    if v.Nil? then t - {key} else t[key := v]
  }
}
