/** LuaInterchange.cpp: typed values across the boundary between C++ and Lua. */
module LuaInterchange {
  import opened MachineInts
  import opened CStrings
  import opened Decimal
  import opened LuaStates

  const LUA_RESULT_COUNT := 8

  datatype Typed =
    | Bool(b: bool)
    | Int8(n8: S8)
    | Int16(n16: S16)
    | Int32(n32: S32Int)
    | Int64(n64: S64)
    | CStrVal(s: CString)
    | Ptr(p: nat, tag: CString)

  datatype Kind = KBool | KInt8 | KInt16 | KInt32 | KInt64 | KStr | KPtr(tag: CString)

  function KindOf(t: Typed): Kind {
    match t
    case Bool(_) => KBool
    case Int8(_) => KInt8
    case Int16(_) => KInt16
    case Int32(_) => KInt32
    case Int64(_) => KInt64
    case CStrVal(_) => KStr
    case Ptr(_, tag) => KPtr(tag)
  }

  /** The Lua value that writing `t` pushes. */
  function ToLua(t: Typed): Value {
    match t
    case Bool(b) => Boolean(b)
    case Int8(n) => Integer(n)
    case Int16(n) => Integer(n)
    case Int32(n) => Integer(n)
    case Int64(n) => Integer(n)
    case CStrVal(s) => Str(s)
    case Ptr(p, tag) => TaggedPtr(p, tag)
  }

  function AllToLua(ts: seq<Typed>): (vs: seq<Value>)
    ensures |vs| == |ts|
  {
    seq(|ts|, i requires 0 <= i < |ts| => ToLua(ts[i]))
  }

  /** What a read does to the caller's variable: sets it, sets it to a null string, leaves it, or
      does not return because Lua raises an error. */
  datatype Reading = Gives(t: Typed) | GivesNull | Leaves | Raises

  /** `lua_tointeger`. */
  function ToInteger(v: Value): S64 {
    if v.Integer? then v.n
    else if v.Str? && ParseInt(v.s).Some? && -TWO_63 <= ParseInt(v.s).value < TWO_63 then ParseInt(v.s).value
    else 0
  }

  function Convert(kind: Kind, v: Value): Reading {
    match kind
    case KBool => Gives(Bool(v != Nil && v != Boolean(false)))
    case KInt8 => Gives(Int8(Wrap(ToInteger(v), 0x80)))
    case KInt16 => Gives(Int16(Wrap(ToInteger(v), TWO_15)))
    case KInt32 => Gives(Int32(S32(ToInteger(v))))
    case KInt64 => Gives(Int64(ToInteger(v)))
    case KStr =>
      if v.Str? then Gives(CStrVal(CStr(v.s)))
      else if v.Integer? then Gives(CStrVal(CStr(DecInt(v.n))))
      else if v.Table? || v.TaggedPtr? then GivesNull
      else Raises
    case KPtr(tag) =>
      if !v.TaggedPtr? then Raises
      else if v.tag != tag || tag == [] then Leaves
      else Gives(Ptr(v.p, tag))
  }

  /** `lua_tostring` turns a number in the stack into a string in place. */
  function InPlace(kind: Kind, v: Value): Value {
    if kind.KStr? && v.Integer? then Str(DecInt(v.n)) else v
  }

  /** A written value comes back as it was, except that a pointer without a type name is never
      given back; and reading it changes nothing in the stack. */
  lemma WrittenReadsBack(t: Typed)
    ensures Convert(KindOf(t), ToLua(t)) == Gives(t) <==> !(t.Ptr? && t.tag == [])
    ensures t.Ptr? && t.tag == [] ==> Convert(KindOf(t), ToLua(t)) == Leaves
    ensures InPlace(KindOf(t), ToLua(t)) == ToLua(t) && ToLua(t) != Nil
  {
  }

  /** An integer read as a string prints in place; read as an integer again it is the same. */
  lemma PrintedInPlace(n: S64)
    ensures Convert(KInt64, InPlace(KStr, Integer(n))) == Gives(Int64(n))
    ensures Convert(KStr, InPlace(KStr, Integer(n))) == Convert(KStr, Integer(n)) == Gives(CStrVal(DecInt(n)))
    ensures InPlace(KStr, Integer(n)) == Str(DecInt(n))
  {
    ParsePrinted(n);
    assert NoNul(DecInt(n));
  }

  /** A number reads at every width as the one of that width that differs from it by a multiple of
      2^width, so as it was where it fits; and so does its numeral in a string. */
  lemma NumbersAtEveryWidth(n: S64, m: S64)
    ensures Convert(KInt64, Integer(n)) == Gives(Int64(n))
    ensures Convert(KInt32, Integer(n)) == Convert(KInt32, Integer(m)) <==> (n - m) % TWO_32 == 0
    ensures Convert(KInt16, Integer(n)) == Convert(KInt16, Integer(m)) <==> (n - m) % (2 * TWO_15) == 0
    ensures Convert(KInt8, Integer(n)) == Convert(KInt8, Integer(m)) <==> (n - m) % 0x100 == 0
    ensures forall kind :: kind in {KInt8, KInt16, KInt32, KInt64} ==>
              Convert(kind, Str(DecInt(n))) == Convert(kind, Integer(n))
  {
    ParsePrinted(n);
    SameWrap(n, m, 0x80);
    SameWrap(n, m, TWO_15);
    SameWrap(n, m, TWO_31);
    hide DecInt, ParseInt;
  }

  lemma SameWrap(n: int, m: int, half: int)
    requires half > 0
    ensures Wrap(n, half) == Wrap(m, half) <==> (n - m) % (2 * half) == 0
    ensures half == TWO_31 ==> Wrap(n, half) == S32(n) && Wrap(m, half) == S32(m)
  {
    SameRemainder(n + half, m + half, 2 * half);
  }

  /** What a narrow integer was written as reads back widened. */
  lemma NumbersWiden(t: Typed)
    ensures t.Int8? ==> Convert(KInt64, ToLua(t)) == Gives(Int64(t.n8))
    ensures t.Int16? ==> Convert(KInt64, ToLua(t)) == Gives(Int64(t.n16))
    ensures t.Int32? ==> Convert(KInt64, ToLua(t)) == Gives(Int64(t.n32))
    ensures t.Bool? ==> (Convert(KStr, ToLua(t)) == Raises && ToLua(t) != Nil)
  {
  }

  /** What is no number reads as 0. */
  lemma NoNumberReadsZero(v: Value)
    requires !v.Integer? && (v.Str? ==> v.s == [] || exists i :: 0 <= i < |v.s| && v.s[i] != MINUS && !IsDigit(v.s[i]))
    ensures Convert(KInt64, v) == Gives(Int64(0)) && Convert(KInt32, v) == Gives(Int32(0))
    ensures Convert(KInt16, v) == Gives(Int16(0)) && Convert(KInt8, v) == Gives(Int8(0))
  {
  }

  /** Every value reads as a boolean, false exactly for nil and false. */
  lemma TruthOfAnything(v: Value)
    ensures Convert(KBool, v) == Gives(Bool(false)) <==> v == Nil || v == Boolean(false)
    ensures Convert(KBool, v) == Gives(Bool(true)) <==> v != Nil && v != Boolean(false)
  {
  }

  /** A pointer is given only for the type name it was written with. */
  lemma PointerNeedsItsType(p: nat, tag: CString, wanted: CString, v: Value)
    ensures Convert(KPtr(wanted), ToLua(Ptr(p, tag))) ==
            if tag == wanted && tag != [] then Gives(Ptr(p, tag)) else Leaves
    ensures Convert(KPtr(wanted), v).Gives? ==> exists q :: v == ToLua(Ptr(q, wanted))
    ensures (forall q, name :: v != ToLua(Ptr(q, name))) ==> Convert(KPtr(wanted), v) == Raises
  {
    if v.TaggedPtr? {
      assert v == ToLua(Ptr(v.p, v.tag));
    }
  }

  /** Strings are cut at their first NUL, numbers print, tables give a null string, and anything else
      raises. */
  lemma StringOfAnything(s: CString, rest: Bytes, v: Value)
    ensures Convert(KStr, Str(s + [0] + rest)) == Gives(CStrVal(s)) == Convert(KStr, Str(s))
    ensures Convert(KStr, v) == GivesNull <==> v.Table? || v.TaggedPtr?
    ensures Convert(KStr, v).Gives? <==> v.Str? || v.Integer?
  {
    CStrStops(s, rest);
  }

  // Streams by value

  /** The values an input stream can read and how many it has read. */
  datatype Stream = Stream(vals: seq<Value>, index: nat)

  function ReadStream(s: Stream, kind: Kind): (Stream, Reading) {
    if s.index >= |s.vals| then (s, Leaves)
    else
      var v := s.vals[s.index];
      (Stream(s.vals[s.index := InPlace(kind, v)], s.index + 1), Convert(kind, v))
  }

  /** What comes before the first nil. */
  function UntilNil(vals: seq<Value>): (r: seq<Value>)
    ensures r <= vals && Nil !in r
    ensures |r| < |vals| ==> vals[|r|] == Nil
  {
    if vals == [] || vals[0].Nil? then [] else [vals[0]] + UntilNil(vals[1..])
  }

  lemma UntilNilIs(vals: seq<Value>, n: nat)
    requires n <= |vals| && (forall i :: 0 <= i < n ==> vals[i] != Nil) && (n < |vals| ==> vals[n] == Nil)
    ensures UntilNil(vals) == vals[..n]
  {
  }

  lemma SliceOfTop(stack: seq<Value>, base: nat, n: nat)
    requires base + n <= |stack|
    ensures stack[base..][..n] == stack[base..base + n]
  {
  }

  /** Exactly eight results: cut off, or filled up with nil. */
  function Padded(results: seq<Value>): (r: seq<Value>)
    ensures |r| == LUA_RESULT_COUNT
    ensures forall i :: 0 <= i < LUA_RESULT_COUNT ==> r[i] == if i < |results| then results[i] else Nil
  {
    seq(LUA_RESULT_COUNT, i requires 0 <= i => if i < |results| then results[i] else Nil)
  }

  lemma Unchanged(stack: seq<Value>, start: nat, count: nat)
    requires start + count <= |stack|
    ensures stack == stack[..start] + stack[start..start + count] + stack[start + count..]
  {
  }

  lemma Updated(stack: seq<Value>, start: nat, count: nat, i: nat, v: Value)
    requires start + count <= |stack| && i < count
    ensures var now, vals := stack[start + i := v], stack[start..start + count];
            && vals[i] == stack[start + i] && now[start..start + count] == vals[i := v]
            && now == stack[..start] + vals[i := v] + stack[start + count..]
  {
  }

  // Streams on the stack

  /** The counting loop of the input stream on the results of a call. */
  method CountResults(L: LuaState) returns (count: nat)
    requires |L.stack| >= LUA_RESULT_COUNT
    ensures var start := |L.stack| - LUA_RESULT_COUNT;
            start + count <= |L.stack| && L.stack[start..start + count] == UntilNil(L.stack[start..])
  {
    hide UntilNil;
    ghost var start := |L.stack| - LUA_RESULT_COUNT;
    ghost var vals := L.stack[start..];
    count := 0;
    for i := 0 to LUA_RESULT_COUNT
      invariant count == i && forall j :: 0 <= j < i ==> vals[j] != Nil
    {
      assert L.At(-LUA_RESULT_COUNT + i) == vals[i];
      if L.At(-LUA_RESULT_COUNT + i).Nil? {
        break;
      }
      count := count + 1;
    }
    UntilNilIs(vals, count);
    SliceOfTop(L.stack, start, count);
  }

  class LuaInputStream {
    const L: LuaState
    var index: nat
    var start: nat
    var count: nat

    predicate Valid()
      reads this, L`stack
    {
      index <= count && start + count <= |L.stack|
    }

    function Here(): Stream
      requires Valid()
      reads this, L`stack
    {
      Stream(L.stack[start..start + count], index)
    }

    /** On a native call's own stack: all of it. On the results of a call: the top eight up to
        the first nil. */
    constructor (L: LuaState, callStack: bool)
      requires callStack ==> |L.stack| >= LUA_RESULT_COUNT
      ensures Valid() && this.L == L
      ensures !callStack ==> start == 0 && Here() == Stream(L.stack, 0)
      ensures callStack ==> start == |L.stack| - LUA_RESULT_COUNT
      ensures callStack ==> Here() == Stream(UntilNil(L.stack[|L.stack| - LUA_RESULT_COUNT..]), 0)
    {
      hide UntilNil;
      var first, n := 0, |L.stack|;
      if callStack {
        n := CountResults(L);
        first := |L.stack| - LUA_RESULT_COUNT;
      }
      this.L, index, start, count := L, 0, first, n;
    }

    method GetCount() returns (n: int)
      requires Valid()
      ensures n == |Here().vals|
    {
      n := count;
    }

    /** All the typed reads: past the end nothing happens; otherwise the next value is converted. */
    method Read(kind: Kind) returns (r: Reading)
      requires Valid()
      modifies this`index, L`stack
      ensures Valid() && |L.stack| == |old(L.stack)|
      ensures (Here(), r) == ReadStream(old(Here()), kind)
      ensures L.stack == old(L.stack)[..start] + Here().vals + old(L.stack)[start + count..]
    {
      hide Convert, InPlace;
      ghost var stack := L.stack;
      Unchanged(stack, start, count);
      if index >= count {
        return Leaves;
      }
      var at := index + start;
      index := index + 1;
      r := Convert(kind, L.stack[at]);
      L.stack := L.stack[at := InPlace(kind, L.stack[at])];
      Updated(stack, start, count, at - start, L.stack[at]);
    }

    method Reset()
      modifies this`index
      ensures index == 0
    {
      index := 0;
    }
  }

  class LuaOutputStream {
    const L: LuaState
    var count: nat

    constructor (L: LuaState)
      ensures this.L == L && count == 0
    {
      this.L, count := L, 0;
    }

    /** All the typed writes. */
    method Write(t: Typed)
      modifies this`count, L`stack
      ensures L.stack == old(L.stack) + [ToLua(t)] && count == old(count) + 1
    {
      L.Push(ToLua(t));
      count := count + 1;
    }
  }
}
