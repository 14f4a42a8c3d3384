/** Decimal numerals as byte strings. */
module Decimal {
  import opened MachineInts

  datatype Option<+T> = None | Some(value: T)

  const MINUS: Byte := 45

  predicate IsDigit(b: Byte) {
    48 <= b <= 57
  }

  predicate AllDigits(s: seq<Byte>) {
    forall i :: 0 <= i < |s| ==> IsDigit(s[i])
  }

  function Digit(d: nat): Byte
    requires d < 10
  {
    (48 + d) as Byte
  }

  /** What `%d` prints for a non-negative number. */
  function Dec(n: nat): (s: seq<Byte>)
    ensures s != [] && AllDigits(s)
  {
    if n < 10 then [Digit(n)] else Dec(n / 10) + [Digit(n % 10)]
  }

  /** What `%d` prints. */
  function DecInt(x: int): (s: seq<Byte>)
    ensures s != [] && forall i :: 0 <= i < |s| ==> s[i] == MINUS || IsDigit(s[i])
  {
    if x < 0 then [MINUS] + Dec(-x) else Dec(x)
  }

  function NatOf(s: seq<Byte>): nat
    requires AllDigits(s)
  {
    if s == [] then 0 else NatOf(s[..|s| - 1]) * 10 + (s[|s| - 1] as int - 48)
  }

  function ParseInt(s: seq<Byte>): Option<int> {
    if s != [] && s[0] == MINUS then
      if |s| > 1 && AllDigits(s[1..]) then (var n: int := NatOf(s[1..]); Some(-n)) else None
    else
      if s != [] && AllDigits(s) then Some(NatOf(s)) else None
  }

  lemma {:induction false} NatOfDec(n: nat)
    ensures NatOf(Dec(n)) == n
  {
    if n >= 10 {
      NatOfDec(n / 10);
      assert Dec(n)[..|Dec(n)| - 1] == Dec(n / 10);
    }
  }

  /** Printing and parsing a number undo each other. */
  lemma ParsePrinted(x: int)
    ensures ParseInt(DecInt(x)) == Some(x)
  {
    if x < 0 {
      NatOfDec(-x);
      assert DecInt(x)[1..] == Dec(-x);
    } else {
      NatOfDec(x);
      assert IsDigit(Dec(x)[0]);
    }
  }

  lemma {:induction false} NoLeadingZero(n: nat)
    requires n > 0
    ensures Dec(n)[0] != 48
  {
    if n >= 10 {
      NoLeadingZero(n / 10);
    }
  }

  /** A sign exactly for negative numbers, and no leading zeros. */
  lemma Canonical(x: int)
    ensures DecInt(x)[0] == MINUS <==> x < 0
    ensures x > 0 ==> DecInt(x)[0] != 48
    ensures x < 0 ==> |DecInt(x)| > 1 && DecInt(x)[1] != 48
    ensures x == 0 ==> DecInt(x) == [48]
  {
    if x != 0 {
      NoLeadingZero(if x < 0 then -x else x);
    }
  }

  function Pow10(k: nat): nat {
    if k == 0 then 1 else 10 * Pow10(k - 1)
  }

  lemma {:induction false} DecLength(n: nat, k: nat)
    requires k > 0 && n < Pow10(k)
    ensures |Dec(n)| <= k
  {
    if n >= 10 {
      DecLength(n / 10, k - 1);
    }
  }

  /** Every `s32` prints in at most eleven characters. */
  lemma S32Prints(x: int)
    requires IsS32(x)
    ensures 1 <= |DecInt(x)| <= 11
  {
    assert Pow10(5) == 100000;
    assert Pow10(10) == 10000000000;
    DecLength(if x < 0 then -x else x, 10);
  }
}

/** The Redis serialization protocol specification, RESP2: the reply grammar as a parser that
    asks for more bytes, rejects, or returns a value and the unread rest; and the printer of
    commands, which are arrays of bulk strings. */
module Resp {
  import opened MachineInts
  import opened Decimal

  const CRLF: seq<Byte> := [13, 10]
  const STATUS: Byte := 43   // '+'
  const ERROR: Byte := 45    // '-'
  const INTEGER: Byte := 58  // ':'
  const BULK: Byte := 36     // '$'
  const ARRAY: Byte := 42    // '*'

  type Bytes = seq<Byte>

  datatype Reply =
    | Status(text: Bytes) | Error(text: Bytes) | Integer(i: int)
    | Bulk(data: Bytes) | Nil | Array(items: seq<Reply>)

  datatype Parsed<+T> = More | Bad | Done(value: T, rest: Bytes)

  datatype Line = NoLine | Line(text: Bytes, rest: Bytes)

  /** The bytes up to the first CR LF, and what follows it. */
  function SplitLine(s: Bytes): (l: Line)
    ensures l.Line? ==> |l.rest| < |s|
  {
    if |s| < 2 then NoLine
    else if s[0] == 13 && s[1] == 10 then Line([], s[2..])
    else
      var l := SplitLine(s[1..]);
      if l.NoLine? then NoLine else Line([s[0]] + l.text, l.rest)
  }

  function ParseBulk(s: Bytes, n: nat): (p: Parsed<Reply>)
    ensures p.Done? ==> |p.rest| < |s|
  {
    if |s| < n + 2 then More
    else if s[n..n + 2] != CRLF then Bad
    else Done(Bulk(s[..n]), s[n + 2..])
  }

  /** Reads one reply. */
  function ParseReply(s: Bytes): (p: Parsed<Reply>)
    ensures p.Done? ==> |p.rest| < |s|
    decreases |s|, 0
  {
    if s == [] then More
    else if s[0] !in [STATUS, ERROR, INTEGER, BULK, ARRAY] then Bad
    else
      match SplitLine(s[1..])
      case NoLine => More
      case Line(text, rest) =>
        if s[0] == STATUS then Done(Status(text), rest)
        else if s[0] == ERROR then Done(Error(text), rest)
        else
          match ParseInt(text)
          case None => Bad
          case Some(n) =>
            if s[0] == INTEGER then Done(Integer(n), rest)
            else if n < -1 then Bad
            else if n == -1 then Done(Nil, rest)
            else if s[0] == BULK then ParseBulk(rest, n)
            else
              match ParseMany(rest, n)
              case More => More
              case Bad => Bad
              case Done(items, rest') => Done(Array(items), rest')
  }

  /** Reads `n` replies. */
  function ParseMany(s: Bytes, n: nat): (p: Parsed<seq<Reply>>)
    ensures p.Done? ==> |p.rest| <= |s| && |p.value| == n
    decreases |s|, 1, n
  {
    if n == 0 then Done([], s)
    else
      match ParseReply(s)
      case More => More
      case Bad => Bad
      case Done(v, rest) =>
        match ParseMany(rest, n - 1)
        case More => More
        case Bad => Bad
        case Done(vs, rest') => Done([v] + vs, rest')
  }

  // More input never changes what was already decided

  function Extend<T>(p: Parsed<T>, more: Bytes): Parsed<T> {
    if p.Done? then Done(p.value, p.rest + more) else p
  }

  lemma {:induction false} SplitLineStable(s: Bytes, more: Bytes)
    requires SplitLine(s).Line?
    ensures SplitLine(s + more) == Line(SplitLine(s).text, SplitLine(s).rest + more)
  {
    if s[0] == 13 && s[1] == 10 {
      assert (s + more)[2..] == s[2..] + more;
    } else {
      SplitLineStable(s[1..], more);
      assert (s + more)[1..] == s[1..] + more;
    }
  }

  lemma ParseBulkStable(s: Bytes, n: nat, more: Bytes)
    requires !ParseBulk(s, n).More?
    ensures ParseBulk(s + more, n) == Extend(ParseBulk(s, n), more)
  {
    assert (s + more)[n..n + 2] == s[n..n + 2];
    assert (s + more)[..n] == s[..n];
    assert (s + more)[n + 2..] == s[n + 2..] + more;
  }

  lemma {:induction false} ParseStable(s: Bytes, more: Bytes)
    requires !ParseReply(s).More?
    ensures ParseReply(s + more) == Extend(ParseReply(s), more)
    decreases |s|, 0
  {
    if s[0] in [STATUS, ERROR, INTEGER, BULK, ARRAY] {
      assert (s + more)[1..] == s[1..] + more;
      SplitLineStable(s[1..], more);
      var line := SplitLine(s[1..]);
      var n := ParseInt(line.text);
      if s[0] == BULK && n.Some? && n.value >= 0 {
        ParseBulkStable(line.rest, n.value, more);
      } else if s[0] == ARRAY && n.Some? && n.value >= 0 {
        ParseManyStable(line.rest, n.value, more);
      }
    }
  }

  lemma {:induction false} ParseManyStable(s: Bytes, n: nat, more: Bytes)
    requires !ParseMany(s, n).More?
    ensures ParseMany(s + more, n) == Extend(ParseMany(s, n), more)
    decreases |s|, 1, n
  {
    if n > 0 {
      ParseStable(s, more);
      var p := ParseReply(s);
      if p.Done? {
        ParseManyStable(p.rest, n - 1, more);
      }
    }
  }

  lemma ParseFirst(s: Bytes, m: nat)
    requires m > 0
    ensures var p := ParseReply(s);
            && ParseMany(s, 0) == Done([], s)
            && (p.Done? ==> ParseMany(s, 1) == Done(ParseMany(s, 0).value + [p.value], p.rest))
            && (p.More? ==> ParseMany(s, m) == More)
            && (p.Bad? ==> ParseMany(s, m) == Bad)
  {
    hide ParseReply;
    var p := ParseReply(s);
    if p.Done? {
      assert ParseMany(p.rest, 0) == Done([], p.rest);
      assert [p.value] + [] == [] + [p.value];
    }
  }

  /** One reply more, seen from the first. */
  lemma ParseNext(s: Bytes, n: nat)
    requires ParseReply(s).Done?
    ensures var q := ParseReply(s); ParseMany(s, n + 1) == Prepend(q.value, ParseMany(q.rest, n))
  {
    hide ParseReply;
  }

  lemma PrependSnoc(v: Reply, inner: Parsed<seq<Reply>>, p: Parsed<Reply>,
                    next: Parsed<seq<Reply>>, all: Parsed<seq<Reply>>)
    requires inner.Done? && (p.Done? ==> next == Done(inner.value + [p.value], p.rest))
    requires (p.More? ==> all == More) && (p.Bad? ==> all == Bad)
    ensures Prepend(v, inner).Done? && Prepend(v, inner).rest == inner.rest
    ensures p.Done? ==> Prepend(v, next) == Done(Prepend(v, inner).value + [p.value], p.rest)
    ensures (p.More? ==> Prepend(v, all) == More) && (p.Bad? ==> Prepend(v, all) == Bad)
  {
    if p.Done? {
      assert [v] + (inner.value + [p.value]) == ([v] + inner.value) + [p.value];
    }
  }

  /** Reading one more reply after `k` of them decides `m > k` of them. */
  lemma {:induction false} ParseManySnoc(s: Bytes, k: nat, m: nat)
    requires k < m && ParseMany(s, k).Done?
    ensures var p := ParseReply(ParseMany(s, k).rest);
            && (p.Done? ==> ParseMany(s, k + 1) == Done(ParseMany(s, k).value + [p.value], p.rest))
            && (p.More? ==> ParseMany(s, m) == More)
            && (p.Bad? ==> ParseMany(s, m) == Bad)
    decreases k, 1
  {
    if k == 0 {
      ParseFirst(s, m);
    } else {
      SnocBehindFirst(s, k, m);
    }
    hide ParseReply, ParseMany;
  }

  lemma {:induction false} SnocBehindFirst(s: Bytes, k: nat, m: nat)
    requires 0 < k < m && ParseMany(s, k).Done?
    ensures var p := ParseReply(ParseMany(s, k).rest);
            && (p.Done? ==> ParseMany(s, k + 1) == Done(ParseMany(s, k).value + [p.value], p.rest))
            && (p.More? ==> ParseMany(s, m) == More)
            && (p.Bad? ==> ParseMany(s, m) == Bad)
    decreases k, 0
  {
    hide ParseReply, ParseMany, Prepend;
    FirstIsDone(s, k);
    var q := ParseReply(s);
    ParseNext(s, k - 1);
    ParseNext(s, k);
    ParseNext(s, m - 1);
    ParseManySnoc(q.rest, k - 1, m - 1);
    var inner := ParseMany(q.rest, k - 1);
    PrependSnoc(q.value, inner, ParseReply(inner.rest), ParseMany(q.rest, k), ParseMany(q.rest, m - 1));
  }

  lemma FirstIsDone(s: Bytes, k: nat)
    requires k > 0 && ParseMany(s, k).Done?
    ensures ParseReply(s).Done? && ParseMany(ParseReply(s).rest, k - 1).Done?
  {
    hide ParseReply;
  }

  /** Reading on where a first reading stopped. */
  lemma {:induction false} ParseManyAdd(s: Bytes, a: nat, b: nat)
    requires ParseMany(s, a).Done? && ParseMany(ParseMany(s, a).rest, b).Done?
    ensures var p := ParseMany(s, a);
            var q := ParseMany(p.rest, b);
            ParseMany(s, a + b) == Done(p.value + q.value, q.rest)
    decreases b, 0
  {
    if b == 0 {
      NoneMore(ParseMany(s, a));
    } else {
      ParseManyShorter(ParseMany(s, a).rest, b);
      AddOneMore(s, a, b - 1);
    }
    hide ParseMany, ParseReply;
  }

  lemma NoneMore(p: Parsed<seq<Reply>>)
    requires p.Done?
    ensures ParseMany(p.rest, 0) == Done([], p.rest) && p.value + [] == p.value
  {
  }

  lemma {:induction false} AddOneMore(s: Bytes, a: nat, b: nat)
    requires ParseMany(s, a).Done? && ParseMany(ParseMany(s, a).rest, b).Done?
    requires ParseReply(ParseMany(ParseMany(s, a).rest, b).rest).Done?
    ensures var p := ParseMany(s, a);
            var q := ParseMany(p.rest, b + 1);
            q.Done? && ParseMany(s, a + (b + 1)) == Done(p.value + q.value, q.rest)
    decreases b, 1
  {
    hide ParseMany, ParseReply;
    var rest := ParseMany(s, a).rest;
    ParseManyAdd(s, a, b);
    ParseManySnoc(rest, b, b + 1);
    ParseManySnoc(s, a + b, a + b + 1);
    var xs, ys, r := ParseMany(s, a).value, ParseMany(rest, b).value, ParseReply(ParseMany(rest, b).rest).value;
    assert xs + (ys + [r]) == (xs + ys) + [r];
  }

  lemma {:induction false} ParseManyShorter(s: Bytes, n: nat)
    requires n > 0 && ParseMany(s, n).Done?
    ensures ParseMany(s, n - 1).Done? && ParseReply(ParseMany(s, n - 1).rest).Done?
    decreases n
  {
    if n > 1 {
      ParseManyShorter(ParseReply(s).rest, n - 1);
    }
  }

  // The printer

  /** `"*%d\r\n"` on an `s32`. */
  function Header(count: int): Bytes {
    [ARRAY] + DecInt(S32(count)) + CRLF
  }

  /** `"$%d\r\n"`, the bytes, CR LF; `%d` prints the low 32 bits of the length. */
  function BulkBytes(arg: Bytes): Bytes {
    [BULK] + DecInt(S32(|arg|)) + CRLF + (arg + CRLF)
  }

  function Bulks(args: seq<Bytes>): Bytes {
    if args == [] then [] else BulkBytes(args[0]) + Bulks(args[1..])
  }

  /** The bytes of a command with these arguments. */
  function Encode(args: seq<Bytes>): Bytes {
    Header(|args|) + Bulks(args)
  }

  /** Several commands back to back, as a pipeline sends them. */
  function Stream(cmds: seq<seq<Bytes>>): Bytes {
    if cmds == [] then [] else Encode(cmds[0]) + Stream(cmds[1..])
  }

  /** The value a command stands for. */
  function Command(args: seq<Bytes>): Reply {
    Array(AsBulks(args))
  }

  function AsBulks(args: seq<Bytes>): (r: seq<Reply>)
    ensures |r| == |args|
  {
    if args == [] then [] else [Bulk(args[0])] + AsBulks(args[1..])
  }

  function Commands(cmds: seq<seq<Bytes>>): (r: seq<Reply>)
    ensures |r| == |cmds|
  {
    if cmds == [] then [] else [Command(cmds[0])] + Commands(cmds[1..])
  }

  /** Every length the printer writes as `%d` is below 2^31. */
  predicate Fits(args: seq<Bytes>) {
    |args| < TWO_31 && LengthsFit(args)
  }

  predicate LengthsFit(args: seq<Bytes>) {
    args == [] || (|args[0]| < TWO_31 && LengthsFit(args[1..]))
  }

  predicate AllFit(cmds: seq<seq<Bytes>>) {
    cmds == [] || (Fits(cmds[0]) && AllFit(cmds[1..]))
  }

  lemma {:induction false} BulksAppend(args: seq<Bytes>, arg: Bytes)
    ensures Bulks(args + [arg]) == Bulks(args) + BulkBytes(arg)
  {
    if args == [] {
      assert [arg][1..] == [];
      assert BulkBytes(arg) + [] == [] + BulkBytes(arg);
    } else {
      assert (args + [arg])[1..] == args[1..] + [arg];
      BulksAppend(args[1..], arg);
      assert BulkBytes(args[0]) + (Bulks(args[1..]) + BulkBytes(arg)) == Bulks(args) + BulkBytes(arg);
    }
  }

  // Parsing what the printer wrote

  lemma {:induction false} SplitPrintedLine(text: Bytes, rest: Bytes)
    requires forall i :: 0 <= i < |text| ==> text[i] != 13
    ensures SplitLine(text + CRLF + rest) == Line(text, rest)
  {
    var s := text + CRLF + rest;
    if text == [] {
      assert s[2..] == rest;
    } else {
      assert s[1..] == text[1..] + CRLF + rest;
      SplitPrintedLine(text[1..], rest);
      assert [text[0]] + text[1..] == text;
    }
  }

  lemma PrintedNumber(tag: Byte, x: int, rest: Bytes)
    ensures var s := [tag] + DecInt(x) + CRLF + rest;
            && s[0] == tag && SplitLine(s[1..]) == Line(DecInt(x), rest)
            && ParseInt(DecInt(x)) == Some(x)
  {
    var s := [tag] + DecInt(x) + CRLF + rest;
    assert s[1..] == DecInt(x) + CRLF + rest;
    SplitPrintedLine(DecInt(x), rest);
    ParsePrinted(x);
  }

  /** What an array header makes of the items behind it. */
  function ArrayOf(p: Parsed<seq<Reply>>): Parsed<Reply> {
    match p
    case More => More
    case Bad => Bad
    case Done(items, rest) => Done(Array(items), rest)
  }

  lemma ArrayParses(n: int, rest: Bytes)
    ensures n >= 0 ==> ParseReply([ARRAY] + DecInt(n) + CRLF + rest) == ArrayOf(ParseMany(rest, n))
    ensures n < 0 ==> ParseReply([ARRAY] + DecInt(n) + CRLF + rest) == if n == -1 then Done(Nil, rest) else Bad
  {
    hide DecInt, ParseInt;
    PrintedNumber(ARRAY, n, rest);
  }

  lemma WrapsExactly(n: nat)
    ensures S32(n) == n <==> n < TWO_31
  {
  }

  /** A printed bulk string reads back as itself exactly when its length is below 2^31. */
  lemma BulkParses(arg: Bytes, rest: Bytes)
    ensures |arg| < TWO_31 ==> ParseReply(BulkBytes(arg) + rest) == Done(Bulk(arg), rest)
    ensures |arg| >= TWO_31 ==> ParseReply(BulkBytes(arg) + rest).Done? ==>
              ParseReply(BulkBytes(arg) + rest).value != Bulk(arg)
  {
    var n := S32(|arg|);
    var tail := (arg + CRLF) + rest;
    var s := [BULK] + DecInt(n) + CRLF + tail;
    assert BulkBytes(arg) + rest == s;
    hide BulkBytes, S32, DecInt;
    PrintedNumber(BULK, n, tail);
    WrapsExactly(|arg|);
    if |arg| < TWO_31 {
      assert tail[n..n + 2] == CRLF && tail[..n] == arg && tail[n + 2..] == rest;
    }
  }

  function Prepend(v: Reply, p: Parsed<seq<Reply>>): Parsed<seq<Reply>> {
    if p.Done? then Done([v] + p.value, p.rest) else p
  }

  lemma ParseManyFirst(s: Bytes, n: nat)
    requires n > 0
    ensures ParseReply(s).Done? ==>
              ParseMany(s, n) == Prepend(ParseReply(s).value, ParseMany(ParseReply(s).rest, n - 1))
    ensures ParseReply(s).More? ==> ParseMany(s, n) == More
    ensures ParseReply(s).Bad? ==> ParseMany(s, n) == Bad
  {
  }

  lemma ParseNone(s: Bytes)
    ensures ParseMany(s, 0) == Done([], s)
  {
  }

  lemma {:induction false} BulksParse(args: seq<Bytes>, rest: Bytes)
    ensures var p := ParseMany(Bulks(args) + rest, |args|);
            && (LengthsFit(args) ==> p == Done(AsBulks(args), rest))
            && (!LengthsFit(args) ==> !p.Done? || p.value != AsBulks(args))
  {
    if args == [] {
      assert [] + rest == rest;
    } else {
      var tail := Bulks(args[1..]) + rest;
      var s := BulkBytes(args[0]) + tail;
      assert Bulks(args) + rest == s;
      BulkParses(args[0], tail);
      BulksParse(args[1..], rest);
      ParseManyFirst(s, |args|);
      var h := ParseReply(s);
      if h.Done? {
        var t := ParseMany(h.rest, |args| - 1);
        if t.Done? {
          ConsEqual(h.value, t.value, Bulk(args[0]), AsBulks(args[1..]));
        }
      }
      hide ParseReply, ParseMany, BulkBytes;
    }
  }

  lemma ConsEqual(v: Reply, vs: seq<Reply>, w: Reply, ws: seq<Reply>)
    ensures [v] + vs == [w] + ws <==> v == w && vs == ws
  {
    if [v] + vs == [w] + ws {
      assert ([v] + vs)[0] == v && ([w] + ws)[0] == w;
      assert ([v] + vs)[1..] == vs && ([w] + ws)[1..] == ws;
    }
  }

  /** The printer and the parser undo each other, whatever follows and whatever bytes the
      arguments hold, exactly when every printed length is below 2^31. Otherwise not even the
      command is read. */
  lemma EncodeParses(args: seq<Bytes>, rest: Bytes)
    ensures ParseReply(Encode(args) + rest) == Done(Command(args), rest) <==> Fits(args)
    ensures !Fits(args) && ParseReply(Encode(args) + rest).Done? ==>
              ParseReply(Encode(args) + rest).value != Command(args)
  {
    var n := S32(|args|);
    var tail := Bulks(args) + rest;
    assert Encode(args) + rest == [ARRAY] + DecInt(n) + CRLF + tail;
    ArrayParses(n, tail);
    WrapsExactly(|args|);
    BulksParse(args, rest);
    hide ParseReply, ParseMany, Bulks, DecInt, AsBulks;
  }

  // The printer of replies

  /** A server's reply in RESP2. */
  function PrintReply(r: Reply): Bytes
    decreases r
  {
    match r
    case Status(text) => [STATUS] + text + CRLF
    case Error(text) => [ERROR] + text + CRLF
    case Integer(i) => [INTEGER] + DecInt(i) + CRLF
    case Bulk(data) => [BULK] + DecInt(|data|) + CRLF + (data + CRLF)
    case Nil => [BULK] + DecInt(-1) + CRLF
    case Array(items) => [ARRAY] + DecInt(|items|) + CRLF + PrintAll(items)
  }

  function PrintAll(rs: seq<Reply>): Bytes
    decreases rs
  {
    if rs == [] then [] else PrintReply(rs[0]) + PrintAll(rs[1..])
  }

  /** No line ends inside the text. */
  predicate OneLine(text: Bytes) {
    forall i :: 0 <= i < |text| - 1 ==> text[i] != 13 || text[i + 1] != 10
  }

  /** Status and error texts are single lines, at any depth. */
  predicate Printable(r: Reply)
    decreases r
  {
    match r
    case Status(text) => OneLine(text)
    case Error(text) => OneLine(text)
    case Array(items) => AllPrintable(items)
    case _ => true
  }

  predicate AllPrintable(rs: seq<Reply>)
    decreases rs
  {
    rs == [] || (Printable(rs[0]) && AllPrintable(rs[1..]))
  }

  lemma {:induction false} SplitTextLine(text: Bytes, rest: Bytes)
    ensures var l := SplitLine(text + CRLF + rest);
            l.Line? && (if OneLine(text) then l == Line(text, rest) else |l.text| < |text|)
  {
    var s := text + CRLF + rest;
    if text == [] {
      assert s[2..] == rest;
    } else if s[0] != 13 || s[1] != 10 {
      assert s[1..] == text[1..] + CRLF + rest;
      SplitTextLine(text[1..], rest);
      assert [text[0]] + text[1..] == text;
      OneLineFrom(text);
    }
  }

  lemma OneLineFrom(text: Bytes)
    requires |text| > 0
    ensures OneLine(text) <==> OneLine(text[1..]) && (|text| > 1 ==> text[0] != 13 || text[1] != 10)
  {
    if OneLine(text[1..]) {
      forall i | 0 < i < |text| - 1
        ensures text[i] != 13 || text[i + 1] != 10
      {
        assert text[i] == text[1..][i - 1] && text[i + 1] == text[1..][i];
      }
    }
  }

  lemma TextParses(tag: Byte, text: Bytes, rest: Bytes)
    requires tag == STATUS || tag == ERROR
    ensures var p := ParseReply([tag] + text + CRLF + rest);
            && p.Done? && (if tag == STATUS then p.value.Status? else p.value.Error?)
            && (if OneLine(text) then p.value.text == text && p.rest == rest else |p.value.text| < |text|)
  {
    var s := [tag] + text + CRLF + rest;
    assert s[1..] == text + CRLF + rest;
    SplitTextLine(text, rest);
    hide OneLine, SplitLine;
  }

  lemma NumberParses(tag: Byte, x: int, rest: Bytes)
    ensures tag == INTEGER ==> ParseReply([tag] + DecInt(x) + CRLF + rest) == Done(Integer(x), rest)
    ensures tag == BULK && x == -1 ==> ParseReply([tag] + DecInt(x) + CRLF + rest) == Done(Nil, rest)
    ensures tag == BULK && x >= 0 ==> ParseReply([tag] + DecInt(x) + CRLF + rest) == ParseBulk(rest, x)
  {
    hide DecInt, ParseInt;
    PrintedNumber(tag, x, rest);
  }

  lemma DataParses(data: Bytes, rest: Bytes)
    ensures ParseReply([BULK] + DecInt(|data|) + CRLF + (data + CRLF) + rest) == Done(Bulk(data), rest)
  {
    var n, tail := |data|, (data + CRLF) + rest;
    assert [BULK] + DecInt(n) + CRLF + (data + CRLF) + rest == [BULK] + DecInt(n) + CRLF + tail;
    NumberParses(BULK, n, tail);
    assert tail[n..n + 2] == CRLF && tail[..n] == data && tail[n + 2..] == rest;
    hide ParseReply, DecInt;
  }

  /** A printed reply of any kind and depth reads back as itself, and what follows is left, exactly
      if every text in it is a single line. */
  lemma {:induction false} ReplyParses(r: Reply, rest: Bytes)
    ensures var p := ParseReply(PrintReply(r) + rest);
            && (Printable(r) ==> p == Done(r, rest))
            && (p.Done? && p.value == r ==> Printable(r))
    decreases r
  {
    hide ParseReply, ParseMany, DecInt, OneLine, AllPrintable, PrintAll;
    match r
    case Status(text) => TextParses(STATUS, text, rest);
    case Error(text) => TextParses(ERROR, text, rest);
    case Integer(i) => NumberParses(INTEGER, i, rest);
    case Bulk(data) => DataParses(data, rest);
    case Nil => NumberParses(BULK, -1, rest);
    case Array(items) =>
      var tail := PrintAll(items) + rest;
      assert PrintReply(r) + rest == [ARRAY] + DecInt(|items|) + CRLF + tail;
      ArrayParses(|items|, tail);
      RepliesParse(items, rest);
  }

  /** So do several of them. */
  lemma {:induction false} RepliesParse(rs: seq<Reply>, rest: Bytes)
    ensures var p := ParseMany(PrintAll(rs) + rest, |rs|);
            && (AllPrintable(rs) ==> p == Done(rs, rest))
            && (p.Done? && p.value == rs ==> AllPrintable(rs))
    decreases rs
  {
    hide ParseReply, ParseMany, PrintReply, Printable;
    if rs == [] {
      assert [] + rest == rest;
      ParseNone(rest);
      return;
    }
    var tail := PrintAll(rs[1..]) + rest;
    var s := PrintReply(rs[0]) + tail;
    assert PrintAll(rs) + rest == s && rs == [rs[0]] + rs[1..];
    ReplyParses(rs[0], tail);
    RepliesParse(rs[1..], rest);
    ParseManyFirst(s, |rs|);
    var h := ParseReply(s);
    if h.Done? {
      var t := ParseMany(h.rest, |rs| - 1);
      if t.Done? {
        ConsEqual(h.value, t.value, rs[0], rs[1..]);
      }
    }
  }

  /** While a printed reply is incomplete, the parser waits. */
  lemma IncompleteWaits(r: Reply, k: nat)
    requires Printable(r) && k < |PrintReply(r)|
    ensures ParseReply(PrintReply(r)[..k]) == More
  {
    hide ParseReply, PrintReply, Printable;
    var now, later := PrintReply(r)[..k], PrintReply(r)[k..];
    assert now + later == PrintReply(r) == PrintReply(r) + [];
    ReplyParses(r, []);
    if !ParseReply(now).More? {
      ParseStable(now, later);
    }
  }

  /** What is no reply is rejected: an unknown type, a number that is none or a length below -1, and
      data that does not end in CR LF. */
  lemma MalformedIsBad(tag: Byte, text: Bytes, rest: Bytes)
    requires OneLine(text)
    ensures var s := [tag] + text + CRLF + rest;
            && (tag !in [STATUS, ERROR, INTEGER, BULK, ARRAY] ==> ParseReply(s) == Bad)
            && (tag in [INTEGER, BULK, ARRAY] && ParseInt(text).None? ==> ParseReply(s) == Bad)
            && (tag in [BULK, ARRAY] && ParseInt(text).Some? && ParseInt(text).value < -1 ==> ParseReply(s) == Bad)
            && (tag == BULK && ParseInt(text).Some? && 0 <= ParseInt(text).value <= |rest| - 2 ==>
                  var n := ParseInt(text).value; ParseReply(s).Bad? <==> rest[n..n + 2] != CRLF)
  {
    var s := [tag] + text + CRLF + rest;
    assert s[1..] == text + CRLF + rest;
    SplitTextLine(text, rest);
    hide OneLine, SplitLine, ParseInt;
  }

  lemma {:induction false} BulksArePrinted(args: seq<Bytes>)
    requires LengthsFit(args)
    ensures Bulks(args) == PrintAll(AsBulks(args))
  {
    hide S32, DecInt, BulkBytes, PrintReply;
    if args != [] {
      BulkIsPrinted(args[0]);
      BulksArePrinted(args[1..]);
      assert AsBulks(args)[1..] == AsBulks(args[1..]);
    }
  }

  lemma BulkIsPrinted(arg: Bytes)
    requires |arg| < TWO_31
    ensures BulkBytes(arg) == PrintReply(Bulk(arg))
  {
    hide S32, DecInt;
    WrapsExactly(|arg|);
  }

  /** A command that fits is printed like the reply it stands for. */
  lemma EncodeIsPrinted(args: seq<Bytes>)
    requires Fits(args)
    ensures Encode(args) == PrintReply(Command(args))
  {
    hide S32, DecInt, Bulks, PrintAll, AsBulks;
    WrapsExactly(|args|);
    BulksArePrinted(args);
  }

  /** A pipeline's bytes read back as exactly its commands if and only if every printed length is
      below 2^31. */
  lemma {:induction false} StreamParses(cmds: seq<seq<Bytes>>, rest: Bytes)
    ensures var p := ParseMany(Stream(cmds) + rest, |cmds|);
            && (AllFit(cmds) ==> p == Done(Commands(cmds), rest))
            && (p.Done? && p.value == Commands(cmds) ==> AllFit(cmds))
  {
    hide ParseReply, ParseMany, Encode, Fits, Command;
    if cmds == [] {
      assert [] + rest == rest;
      ParseNone(rest);
      return;
    }
    var tail := Stream(cmds[1..]) + rest;
    var s := Encode(cmds[0]) + tail;
    assert Stream(cmds) + rest == s;
    EncodeParses(cmds[0], tail);
    StreamParses(cmds[1..], rest);
    ParseManyFirst(s, |cmds|);
    var h := ParseReply(s);
    if !h.Done? {
      return;
    }
    var t := ParseMany(h.rest, |cmds| - 1);
    if t.Done? {
      ConsEqual(h.value, t.value, Command(cmds[0]), Commands(cmds[1..]));
    }
  }

  lemma {:induction false} AsBulksInjective(a: seq<Bytes>, b: seq<Bytes>)
    requires AsBulks(a) == AsBulks(b)
    ensures a == b
  {
    if a != [] {
      assert AsBulks(a)[0] == Bulk(a[0]) && AsBulks(b)[0] == Bulk(b[0]);
      assert AsBulks(a)[1..] == AsBulks(a[1..]) && AsBulks(b)[1..] == AsBulks(b[1..]);
      AsBulksInjective(a[1..], b[1..]);
      assert a == [a[0]] + a[1..] && b == [b[0]] + b[1..];
    }
  }

  /** No two different lists of commands have the same bytes. */
  lemma {:induction false} StreamInjective(a: seq<seq<Bytes>>, b: seq<seq<Bytes>>)
    requires AllFit(a) && AllFit(b)
    requires Stream(a) == Stream(b)
    ensures a == b
  {
    if a != [] && b != [] {
      assert Stream(a) == Encode(a[0]) + Stream(a[1..]) && Stream(b) == Encode(b[0]) + Stream(b[1..]);
      hide Stream, Encode, ParseReply, AsBulks, Fits;
      EncodeParses(a[0], Stream(a[1..]));
      EncodeParses(b[0], Stream(b[1..]));
      AsBulksInjective(a[0], b[0]);
      StreamInjective(a[1..], b[1..]);
      assert a == [a[0]] + a[1..] && b == [b[0]] + b[1..];
    }
  }

  /** Beyond that bound they can: the one argument of 2^32 bytes is announced as empty, and its own
      bytes go on as a second command. */
  lemma LongCommandsCollide(b: Bytes) returns (a: Bytes)
    requires |b| == 2 * TWO_31 - 12
    ensures Stream([[a]]) == Stream([[[]], [b]])
  {
    var text := Header(1) + [BULK] + DecInt(-12) + CRLF + b;
    a := CRLF + text;
    ShortNumbers();
    hide S32, DecInt, Dec, Encode, Stream;
    assert |text| == |b| + 10;
    hide Header;
    OneArgument(a);
    OneArgument([]);
    OneArgument(b);
    TwoReadings(Header(1), [BULK] + DecInt(0) + CRLF, CRLF, text);
    assert Encode([b]) == text + CRLF;
    OneCommand([a]);
    TwoCommands([[]], [b]);
  }

  lemma ShortNumbers()
    ensures |DecInt(-12)| == 3 && |DecInt(S32(1))| == 1 && S32(0) == 0
    ensures S32(2 * TWO_31 - 12) == -12 && S32(2 * TWO_31) == 0
  {
    assert |Dec(12)| == 2 && S32(1) == 1 by {
      assert 12 / 10 == 1 && Dec(12) == Dec(1) + [Digit(2)];
    }
    hide Dec;
  }

  lemma OneCommand(c: seq<Bytes>)
    ensures Stream([c]) == Encode(c) + []
  {
    assert [c][1..] == [];
  }

  lemma TwoCommands(c: seq<Bytes>, d: seq<Bytes>)
    ensures Stream([c, d]) == Encode(c) + (Encode(d) + [])
  {
    OneCommand(d);
    assert [c, d][1..] == [d];
  }

  lemma TwoReadings(header: Bytes, length: Bytes, crlf: Bytes, text: Bytes)
    ensures (header + (length + ((crlf + text) + crlf))) + [] ==
            (header + (length + ([] + crlf))) + ((text + crlf) + [])
  {
  }

  lemma OneArgument(a: Bytes)
    ensures Encode([a]) == Header(1) + ([BULK] + DecInt(S32(|a|)) + CRLF + (a + CRLF))
  {
    assert Bulks([a]) == BulkBytes(a) + Bulks([a][1..]) == BulkBytes(a);
  }
}
