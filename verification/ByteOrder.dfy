/** The low-byte-first codecs of byte_order_generic.h and my_byteorder.h. A shift left by 8*k of
    an unsigned byte is a product with 256^k; a narrowing cast is a remainder or `Wrap`. */
module ByteOrder {
  import opened MachineInts

  // The meaning of a byte string, independent of any width

  function Value(bs: seq<Byte>): nat {
    if bs == [] then 0 else bs[0] as int + 256 * Value(bs[1..])
  }

  function LittleEndian(n: nat, width: nat): (bs: seq<Byte>)
    ensures |bs| == width
  {
    if width == 0 then [] else [(n % 256) as Byte] + LittleEndian(n / 256, width - 1)
  }

  function Pow256(k: nat): (p: nat)
    ensures p > 0
  {
    if k == 0 then 1 else 256 * Pow256(k - 1)
  }

  lemma {:induction false} ValueBound(bs: seq<Byte>)
    ensures Value(bs) < Pow256(|bs|)
  {
    if bs != [] {
      ValueBound(bs[1..]);
    }
  }

  /** Reading what was stored gives the number modulo 256^width. */
  lemma {:induction false} ReadStored(n: nat, width: nat)
    ensures Value(LittleEndian(n, width)) == n % Pow256(width)
  {
    if width == 0 {
    } else {
      var p := Pow256(width - 1);
      ReadStored(n / 256, width - 1);
      assert LittleEndian(n, width)[1..] == LittleEndian(n / 256, width - 1);
      calc {
        Value(LittleEndian(n, width));
        n % 256 + 256 * ((n / 256) % p);
        { SplitMod(n, p); }
        n % (256 * p);
      }
    }
  }

  lemma SplitMod(n: nat, p: nat)
    requires p > 0
    ensures n % (256 * p) == n % 256 + 256 * ((n / 256) % p)
  {
    var h := n / 256;
    var q, r := h / p, h % p;
    assert h == q * p + r;
    assert n == q * (256 * p) + (n % 256 + 256 * r) by {
      assert q * (256 * p) == 256 * (q * p);
    }
    DivModUnique(n, 256 * p, q, n % 256 + 256 * r);
  }

  /** Storing what was read restores the bytes. */
  lemma {:induction false} StoreRead(bs: seq<Byte>)
    ensures LittleEndian(Value(bs), |bs|) == bs
  {
    if bs != [] {
      StoreRead(bs[1..]);
      var rest := Value(bs[1..]);
      assert Value(bs) % 256 == bs[0] as int && Value(bs) / 256 == rest;
    }
  }

  lemma ValueInjective(a: seq<Byte>, b: seq<Byte>)
    requires |a| == |b| && Value(a) == Value(b)
    ensures a == b
  {
    StoreRead(a);
    StoreRead(b);
  }

  /** Only the low `width` bytes of a number are stored. */
  lemma {:induction false} LittleEndianMod(n: nat, k: nat, width: nat)
    requires width <= k
    ensures LittleEndian(n % Pow256(k), width) == LittleEndian(n, width)
  {
    if width > 0 {
      var p := Pow256(k - 1);
      SplitMod(n, p);
      var m := n % (256 * p);
      assert m % 256 == n % 256 && m / 256 == (n / 256) % p;
      LittleEndianMod(n / 256, k - 1, width - 1);
    }
  }

  lemma PowersOf256()
    ensures Pow256(1) == 0x100 && Pow256(2) == 0x1_0000 && Pow256(3) == 0x100_0000
    ensures Pow256(4) == TWO_32 && Pow256(5) == 0x100_0000_0000 && Pow256(6) == 0x1_0000_0000_0000
    ensures Pow256(8) == TWO_64
  {
    assert Pow256(3) == 256 * Pow256(2);
    assert Pow256(5) == 256 * Pow256(4);
    assert Pow256(6) == 256 * Pow256(5);
    assert Pow256(8) == 256 * Pow256(7) == 256 * (256 * Pow256(6));
  }

  // Readers

  function Uint2Korr(A: seq<Byte>): (r: int)
    requires |A| >= 2
    ensures r == Value(A[..2])
  {
    assert Value(A[..2]) == A[0] as int + 256 * Value(A[..2][1..]);
    A[0] as int + A[1] as int * 0x100
  }

  function Uint3Korr(A: seq<Byte>): (r: int)
    requires |A| >= 3
    ensures r == Value(A[..3])
  {
    assert A[..3][1..] == A[1..][..2];
    assert Uint2Korr(A[1..]) == Value(A[1..][..2]);
    A[0] as int + A[1] as int * 0x100 + A[2] as int * 0x1_0000
  }

  function Uint4Korr(A: seq<Byte>): (r: int)
    requires |A| >= 4
    ensures r == Value(A[..4]) && 0 <= r < TWO_32
  {
    assert A[..4][1..] == A[1..][..3];
    assert Uint3Korr(A[1..]) == Value(A[1..][..3]);
    A[0] as int + A[1] as int * 0x100 + A[2] as int * 0x1_0000 + A[3] as int * 0x100_0000
  }

  function Uint5Korr(A: seq<Byte>): (r: int)
    requires |A| >= 5
    ensures r == Value(A[..5])
  {
    assert A[..5][1..] == A[1..][..4];
    assert Uint4Korr(A[1..]) == Value(A[1..][..4]);
    (A[0] as int + A[1] as int * 0x100 + A[2] as int * 0x1_0000 + A[3] as int * 0x100_0000)
    + A[4] as int * 0x1_0000_0000
  }

  function Uint6Korr(A: seq<Byte>): (r: int)
    requires |A| >= 6
    ensures r == Value(A[..6])
  {
    assert A[..6][1..] == A[1..][..5];
    assert Uint5Korr(A[1..]) == Value(A[1..][..5]);
    (A[0] as int + A[1] as int * 0x100 + A[2] as int * 0x1_0000 + A[3] as int * 0x100_0000)
    + A[4] as int * 0x1_0000_0000 + A[5] as int * 0x100_0000_0000
  }

  function Uint8Korr(A: seq<Byte>): (r: int)
    requires |A| >= 8
    ensures r == Value(A[..8]) && 0 <= r < TWO_64
  {
    assert A[..8][1..] == A[1..][..7] && A[1..][..7][1..] == A[2..][..6];
    assert Uint6Korr(A[2..]) == Value(A[2..][..6]);
    (A[0] as int + A[1] as int * 0x100 + A[2] as int * 0x1_0000 + A[3] as int * 0x100_0000)
    + (A[4] as int + A[5] as int * 0x100 + A[6] as int * 0x1_0000 + A[7] as int * 0x100_0000) * TWO_32
  }

  function Sint2Korr(A: seq<Byte>): (r: int)
    requires |A| >= 2
    ensures r == Wrap(Uint2Korr(A), TWO_15)
  {
    Wrap(A[0] as int + Wrap(A[1] as int * 0x100, TWO_31), TWO_15)
  }

  function Sint4Korr(A: seq<Byte>): (r: int)
    requires |A| >= 4
    ensures r == S32(Uint4Korr(A))
  {
    S32(A[0] as int + A[1] as int * 0x100 + A[2] as int * 0x1_0000 + S32(A[3] as int * 0x100_0000))
  }

  function Sint8Korr(A: seq<Byte>): (r: int)
    requires |A| >= 8
    ensures r == if Value(A[..8]) < TWO_63 then Value(A[..8]) else Value(A[..8]) - TWO_64
  {
    Wrap(Uint8Korr(A), TWO_63)
  }

  /** The branch on bit 7 of the top byte and the `or` with 255 << 24 extend the sign. */
  function Sint3Korr(A: seq<Byte>): (r: int)
    requires |A| >= 3
  {
    var a0, a1, a2 := A[0] as int, A[1] as int, A[2] as int;
    S32(
      if BitAnd(128, a2) != 0
      then BitOr(BitOr(BitOr(255 * 0x100_0000, a2 * 0x1_0000), a1 * 0x100), a0)
      else BitOr(BitOr(a2 * 0x1_0000, a1 * 0x100), a0))
  }

  lemma Sint3KorrExtends(A: seq<Byte>)
    requires |A| >= 3
    ensures Sint3Korr(A) ==
            if Uint3Korr(A) < 0x80_0000 then Uint3Korr(A) else Uint3Korr(A) - 0x100_0000
  {
    hide BitAnd, BitOr;
    var a0, a1, a2 := A[0] as int, A[1] as int, A[2] as int;
    TopBit(a2);
    OrThree(a2, a1, a0);
    OrThree(255 * 0x100 + a2, a1, a0);
    assert IsPow2(0x100_0000) by {
      Pow2Times16(0x1_0000);
      Pow2Times16(0x10_0000);
    }
    OrDisjoint(255, 0x100_0000, a2 * 0x1_0000);
  }

  lemma OrThree(high: nat, a1: nat, a0: nat)
    requires a1 < 0x100 && a0 < 0x100
    ensures IsPow2(0x1_0000)
    ensures BitOr(BitOr(high * 0x1_0000, a1 * 0x100), a0) == high * 0x1_0000 + a1 * 0x100 + a0
  {
    assert IsPow2(0x100);
    Pow2Times16(0x100);
    Pow2Times16(0x1000);
    OrDisjoint(high, 0x1_0000, a1 * 0x100);
    OrDisjoint(high * 0x100 + a1, 0x100, a0);
    assert (high * 0x100 + a1) * 0x100 == high * 0x1_0000 + a1 * 0x100;
  }

  lemma TopBit(b: nat)
    requires b < 256
    ensures BitAnd(128, b) != 0 <==> b >= 128
  {
    assert IsPow2(128) && IsPow2(256);
    HighMask(256, 128, b);
  }

  // Writers, in place

  /** `(uchar)(n >> 8 * k)`. */
  function ByteAt(n: nat, k: nat): Byte {
    (if k == 0 then n % 256 else if k == 1 then n / 0x100 % 256 else if k == 2 then n / 0x1_0000 % 256
     else if k == 3 then n / 0x100_0000 % 256 else if k == 4 then n / TWO_32 % 256
     else n / 0x100_0000_0000 % 256) as Byte
  }

  lemma {:induction false} ByteAtIs(n: nat, width: nat, k: nat)
    requires k < width && k <= 5
    ensures LittleEndian(n, width)[k] == ByteAt(n, k)
  {
    if k > 0 {
      ByteAtIs(n / 256, width - 1, k - 1);
      ByteAtShift(n, k - 1);
      hide ByteAt;
    }
  }

  lemma ByteAtShift(n: nat, k: nat)
    requires k < 5
    ensures ByteAt(n / 256, k) == ByteAt(n, k + 1)
  {
    var a := n / 256;
    assert a / 0x100 == n / 0x1_0000 && a / 0x1_0000 == n / 0x100_0000;
    assert a / 0x100_0000 == n / TWO_32 && a / TWO_32 == n / 0x100_0000_0000;
  }

  lemma BytesAre(n: nat, width: nat, bs: seq<Byte>)
    requires |bs| == width <= 6 && forall k :: 0 <= k < width ==> bs[k] == ByteAt(n, k)
    ensures bs == LittleEndian(n, width)
  {
    forall k | 0 <= k < width
      ensures bs[k] == LittleEndian(n, width)[k]
    {
      ByteAtIs(n, width, k);
    }
  }

  /** Eight bytes are the four of the low word and the four of the high word. */
  lemma LowAndHighWord(n: nat)
    ensures LittleEndian(n, 8) == LittleEndian(n % TWO_32, 4) + LittleEndian(n / TWO_32, 4)
  {
    PowersOf256();
    LittleEndianMod(n, 4, 4);
    LowBytes(n);
  }

  lemma LowBytes(n: nat)
    ensures LittleEndian(n, 8) == LittleEndian(n, 4) + LittleEndian(n / TWO_32, 4)
  {
    var a, b, c, d := n / 0x100, n / 0x1_0000, n / 0x100_0000, n / TWO_32;
    assert a / 0x100 == b && b / 0x100 == c && c / 0x100 == d;
    assert LittleEndian(n, 8) == [(n % 256) as Byte, (a % 256) as Byte] + LittleEndian(b, 6);
    assert LittleEndian(b, 6) == [(b % 256) as Byte, (c % 256) as Byte] + LittleEndian(d, 4);
    assert LittleEndian(n, 4) == [(n % 256) as Byte, (a % 256) as Byte] + LittleEndian(b, 2);
    assert LittleEndian(b, 2) == [(b % 256) as Byte, (c % 256) as Byte];
  }

  method Int2Store(T: array<Byte>, at: nat, A: int)
    requires at + 2 <= T.Length && 0 <= A < 0x1_0000
    modifies T
    ensures T[..] == old(T[..at]) + LittleEndian(A, 2) + old(T[at + 2..])
  {
    BytesAre(A, 2, [ByteAt(A, 0), ByteAt(A, 1)]);
    hide ByteAt, LittleEndian;
    T[at], T[at + 1] := ByteAt(A, 0), ByteAt(A, 1);
  }

  method Int3Store(T: array<Byte>, at: nat, A: int)
    requires at + 3 <= T.Length && 0 <= A < TWO_32
    modifies T
    ensures T[..] == old(T[..at]) + LittleEndian(A, 3) + old(T[at + 3..])
  {
    BytesAre(A, 3, [ByteAt(A, 0), ByteAt(A, 1), ByteAt(A, 2)]);
    hide ByteAt, LittleEndian;
    T[at], T[at + 1], T[at + 2] := ByteAt(A, 0), ByteAt(A, 1), ByteAt(A, 2);
  }

  method Int4Store(T: array<Byte>, at: nat, A: int)
    requires at + 4 <= T.Length && 0 <= A < TWO_32
    modifies T
    ensures T[..] == old(T[..at]) + LittleEndian(A, 4) + old(T[at + 4..])
  {
    BytesAre(A, 4, [ByteAt(A, 0), ByteAt(A, 1), ByteAt(A, 2), ByteAt(A, 3)]);
    hide ByteAt, LittleEndian;
    T[at], T[at + 1], T[at + 2], T[at + 3] := ByteAt(A, 0), ByteAt(A, 1), ByteAt(A, 2), ByteAt(A, 3);
  }

  method Int5Store(T: array<Byte>, at: nat, A: int)
    requires at + 5 <= T.Length && 0 <= A < TWO_64
    modifies T
    ensures T[..] == old(T[..at]) + LittleEndian(A, 5) + old(T[at + 5..])
  {
    BytesAre(A, 5, [ByteAt(A, 0), ByteAt(A, 1), ByteAt(A, 2), ByteAt(A, 3), ByteAt(A, 4)]);
    hide ByteAt, LittleEndian;
    T[at], T[at + 1], T[at + 2] := ByteAt(A, 0), ByteAt(A, 1), ByteAt(A, 2);
    T[at + 3], T[at + 4] := ByteAt(A, 3), ByteAt(A, 4);
  }

  method Int6Store(T: array<Byte>, at: nat, A: int)
    requires at + 6 <= T.Length && 0 <= A < TWO_64
    modifies T
    ensures T[..] == old(T[..at]) + LittleEndian(A, 6) + old(T[at + 6..])
  {
    BytesAre(A, 6, [ByteAt(A, 0), ByteAt(A, 1), ByteAt(A, 2), ByteAt(A, 3), ByteAt(A, 4), ByteAt(A, 5)]);
    hide ByteAt, LittleEndian;
    T[at], T[at + 1], T[at + 2] := ByteAt(A, 0), ByteAt(A, 1), ByteAt(A, 2);
    T[at + 3], T[at + 4], T[at + 5] := ByteAt(A, 3), ByteAt(A, 4), ByteAt(A, 5);
  }

  method Int8Store(T: array<Byte>, at: nat, A: int)
    requires at + 8 <= T.Length && 0 <= A < TWO_64
    modifies T
    ensures T[..] == old(T[..at]) + LittleEndian(A, 8) + old(T[at + 8..])
  {
    hide LittleEndian;
    var def_temp, def_temp2 := A % TWO_32, A / TWO_32;
    LowAndHighWord(A);
    ghost var was := T[..];
    Int4Store(T, at, def_temp);
    ghost var half := T[..];
    Int4Store(T, at + 4, def_temp2);
    TwoWords(was, at, LittleEndian(def_temp, 4), LittleEndian(def_temp2, 4), half, T[..]);
  }

  lemma TwoWords(was: seq<Byte>, at: nat, low: seq<Byte>, high: seq<Byte>, half: seq<Byte>, now: seq<Byte>)
    requires at + 8 <= |was| && |low| == |high| == 4
    requires half == was[..at] + low + was[at + 4..] && now == half[..at + 4] + high + half[at + 8..]
    ensures now == was[..at] + (low + high) + was[at + 8..]
  {
  }

  // Both directions, for every width

  /** What each reader gives back for the bytes its store writes. */
  lemma StoreThenRead(n: nat, T: seq<Byte>)
    ensures T[..Min(2, |T|)] == LittleEndian(n, 2) ==> Uint2Korr(T) == n % 0x1_0000
    ensures T[..Min(3, |T|)] == LittleEndian(n, 3) ==> Uint3Korr(T) == n % 0x100_0000
    ensures T[..Min(4, |T|)] == LittleEndian(n, 4) ==> Uint4Korr(T) == n % TWO_32
    ensures T[..Min(5, |T|)] == LittleEndian(n, 5) ==> Uint5Korr(T) == n % 0x100_0000_0000
    ensures T[..Min(6, |T|)] == LittleEndian(n, 6) ==> Uint6Korr(T) == n % 0x1_0000_0000_0000
    ensures T[..Min(8, |T|)] == LittleEndian(n, 8) ==> Uint8Korr(T) == n % TWO_64
  {
    PowersOf256();
    ReadStored(n, 2);
    ReadStored(n, 3);
    ReadStored(n, 4);
    ReadStored(n, 5);
    ReadStored(n, 6);
    ReadStored(n, 8);
    hide LittleEndian, Value, Pow256;
  }

  // The same for signed numbers: two's complement, sign included

  lemma TwosComplement2(v: int)
    requires -TWO_15 <= v < TWO_15
    ensures (v % 0x1_0000) % 0x1_0000 == v % 0x1_0000 && Wrap(v % 0x1_0000, TWO_15) == v
  {
  }

  lemma TwosComplement4(v: int)
    requires IsS32(v)
    ensures (v % TWO_32) % TWO_32 == v % TWO_32 && S32(v % TWO_32) == v
  {
  }

  lemma Signed2StoreThenRead(v: int, T: seq<Byte>)
    requires -TWO_15 <= v < TWO_15 && |T| >= 2 && T[..2] == LittleEndian(v % 0x1_0000, 2)
    ensures Sint2Korr(T) == v
  {
    hide LittleEndian, Sint2Korr, Uint2Korr, Uint3Korr, Uint4Korr, Uint5Korr, Uint6Korr, Uint8Korr, Wrap;
    TwosComplement2(v);
    StoreThenRead(v % 0x1_0000, T);
  }

  lemma Signed3StoreThenRead(v: int, T: seq<Byte>)
    requires -0x80_0000 <= v < 0x80_0000 && |T| >= 3 && T[..3] == LittleEndian(v % 0x100_0000, 3)
    ensures Sint3Korr(T) == v
  {
    hide LittleEndian, Sint3Korr, Uint2Korr, Uint3Korr, Uint4Korr, Uint5Korr, Uint6Korr, Uint8Korr;
    StoreThenRead(v % 0x100_0000, T);
    Sint3KorrExtends(T);
  }

  lemma Signed4StoreThenRead(v: int, T: seq<Byte>)
    requires IsS32(v) && |T| >= 4 && T[..4] == LittleEndian(v % TWO_32, 4)
    ensures Sint4Korr(T) == v
  {
    hide LittleEndian, Sint4Korr, Uint2Korr, Uint3Korr, Uint4Korr, Uint5Korr, Uint6Korr, Uint8Korr, S32;
    TwosComplement4(v);
    StoreThenRead(v % TWO_32, T);
  }

  lemma Signed8StoreThenRead(v: int, T: seq<Byte>)
    requires -TWO_63 <= v < TWO_63 && |T| >= 8 && T[..8] == LittleEndian(v % TWO_64, 8)
    ensures Sint8Korr(T) == v
  {
    hide LittleEndian, Sint8Korr, Uint2Korr, Uint3Korr, Uint4Korr, Uint5Korr, Uint6Korr, Uint8Korr;
    StoreThenRead(v % TWO_64, T);
  }

  /** Storing what each reader read restores the bytes. */
  lemma ReadThenStore(T: seq<Byte>)
    ensures |T| >= 2 ==> LittleEndian(Uint2Korr(T), 2) == T[..2]
    ensures |T| >= 3 ==> LittleEndian(Uint3Korr(T), 3) == T[..3]
    ensures |T| >= 4 ==> LittleEndian(Uint4Korr(T), 4) == T[..4]
    ensures |T| >= 5 ==> LittleEndian(Uint5Korr(T), 5) == T[..5]
    ensures |T| >= 6 ==> LittleEndian(Uint6Korr(T), 6) == T[..6]
    ensures |T| >= 8 ==> LittleEndian(Uint8Korr(T), 8) == T[..8]
  {
    hide LittleEndian, Value;
    StoreRead(T[..Min(2, |T|)]);
    StoreRead(T[..Min(3, |T|)]);
    StoreRead(T[..Min(4, |T|)]);
    StoreRead(T[..Min(5, |T|)]);
    StoreRead(T[..Min(6, |T|)]);
    StoreRead(T[..Min(8, |T|)]);
  }
}

/** The eight-bytes-at-a-time trailing-space skip of m_string.h. */
module TrailingSpace {
  import opened MachineInts
  import opened ByteOrder

  const SPACE: Byte := 0x20
  const EIGHT_SPACES := 0x2020_2020_2020_2020

  /** The plain scan: drop one trailing space at a time. */
  function TrimmedLength(s: seq<Byte>): (n: nat)
    ensures n <= |s|
  {
    if s != [] && s[|s| - 1] == SPACE then TrimmedLength(s[..|s| - 1]) else |s|
  }

  /** The plain scan stops right after the last byte that is not a space, and nowhere else. */
  lemma {:induction false} TrimmedLengthIs(s: seq<Byte>, n: nat)
    requires n <= |s|
    ensures n == TrimmedLength(s) <==>
            (forall i :: n <= i < |s| ==> s[i] == SPACE) && (n == 0 || s[n - 1] != SPACE)
  {
    if s != [] && s[|s| - 1] == SPACE {
      if n < |s| {
        var t := s[..|s| - 1];
        TrimmedLengthIs(t, n);
        assert forall i :: n <= i < |t| ==> t[i] == s[i];
      }
    } else if n < |s| {
      assert s[|s| - 1] != SPACE;
    }
  }

  lemma {:induction false} DropSpaces(s: seq<Byte>, k: nat)
    requires k <= |s| && forall i :: |s| - k <= i < |s| ==> s[i] == SPACE
    ensures TrimmedLength(s[..|s| - k]) == TrimmedLength(s)
  {
    if k == 0 {
      assert s[..|s|] == s;
    } else {
      var t := s[..|s| - 1];
      DropSpaces(t, k - 1);
      assert t[..|t| - (k - 1)] == s[..|s| - k];
    }
  }

  /** One 64-bit comparison tests eight bytes. */
  lemma EightSpaces(A: seq<Byte>)
    requires |A| >= 8
    ensures Uint8Korr(A) == EIGHT_SPACES <==> forall i :: 0 <= i < 8 ==> A[i] == SPACE
  {
    var spaces := seq(8, i => SPACE);
    assert Uint8Korr(spaces) == EIGHT_SPACES;
    assert spaces[..8] == spaces;
    if Uint8Korr(A) == EIGHT_SPACES {
      ValueInjective(A[..8], spaces);
      assert forall i :: 0 <= i < 8 ==> A[i] == A[..8][i];
    }
    if forall i :: 0 <= i < 8 ==> A[i] == SPACE {
      assert A[..8] == spaces;
    }
  }

  lemma LastEight(s: seq<Byte>)
    requires |s| >= 8 && Uint8Korr(s[|s| - 8..]) == EIGHT_SPACES
    ensures TrimmedLength(s[..|s| - 8]) == TrimmedLength(s)
  {
    EightSpaces(s[|s| - 8..]);
    forall i | |s| - 8 <= i < |s|
      ensures s[i] == SPACE
    {
      assert s[i] == s[|s| - 8..][i - (|s| - 8)];
    }
    DropSpaces(s, 8);
  }

  method SkipTrailingSpace(buf: array<Byte>, ptr: nat, len: nat) returns (end: nat)
    requires ptr + len <= buf.Length
    ensures end == ptr + TrimmedLength(buf[ptr..ptr + len])
  {
    hide TrimmedLength, Uint8Korr;
    end := ptr + len;
    while end - ptr >= 8
      invariant ptr <= end <= ptr + len
      invariant TrimmedLength(buf[ptr..end]) == TrimmedLength(buf[ptr..ptr + len])
    {
      ghost var s := buf[ptr..end];
      assert s[|s| - 8..] == buf[end - 8..end];
      if Uint8Korr(buf[end - 8..end]) != EIGHT_SPACES {
        break;
      }
      LastEight(s);
      assert s[..|s| - 8] == buf[ptr..end - 8];
      end := end - 8;
    }
    while end > ptr && buf[end - 1] == SPACE
      invariant ptr <= end <= ptr + len
      invariant TrimmedLength(buf[ptr..end]) == TrimmedLength(buf[ptr..ptr + len])
    {
      DropSpaces(buf[ptr..end], 1);
      assert buf[ptr..end][..end - ptr - 1] == buf[ptr..end - 1];
      end := end - 1;
    }
    TrimmedLengthIs(buf[ptr..end], end - ptr);
  }
}
