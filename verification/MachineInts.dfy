/** Fixed-width machine arithmetic written out over unbounded integers: two's complement
    wrap-around, bitwise `and`/`or`, and the arithmetic meaning of power-of-two masks. */
module MachineInts {

  newtype Byte = b: int | 0 <= b < 256

  const TWO_15 := 0x8000
  const TWO_30 := 0x4000_0000
  const TWO_31 := 0x8000_0000
  const TWO_32 := 0x1_0000_0000
  const TWO_63 := 0x8000_0000_0000_0000
  const TWO_64 := 0x1_0000_0000_0000_0000

  function Min(a: int, b: int): int {
    if a < b then a else b
  }

  /** The value of `x` kept in `half + half` two's complement patterns. */
  function Wrap(x: int, half: int): int
    requires half > 0
  {
    (x + half) % (2 * half) - half
  }

  function S32(x: int): int {
    (x + TWO_31) % TWO_32 - TWO_31
  }

  function U32(x: int): nat {
    x % TWO_32
  }

  predicate IsS32(x: int) {
    -TWO_31 <= x < TWO_31
  }

  function BitAnd(a: nat, b: nat): nat {
    if a == 0 || b == 0 then 0
    else (if a % 2 == 1 && b % 2 == 1 then 1 else 0) + 2 * BitAnd(a / 2, b / 2)
  }

  function BitOr(a: nat, b: nat): nat {
    if a == 0 then b
    else if b == 0 then a
    else (if a % 2 == 1 || b % 2 == 1 then 1 else 0) + 2 * BitOr(a / 2, b / 2)
  }

  /** `a & b` on two `s32` operands. */
  function AndS32(a: int, b: int): int {
    S32(BitAnd(U32(a), U32(b)))
  }

  predicate IsPow2(n: nat) {
    n == 1 || (n > 1 && n % 2 == 0 && IsPow2(n / 2))
  }

  /** The largest power of two that is at most `n`. */
  function HighBit(n: nat): (p: nat)
    requires n > 0
    ensures IsPow2(p) && p <= n < 2 * p
  {
    if n == 1 then 1 else 2 * HighBit(n / 2)
  }

  // Division

  lemma DivModUnique(x: int, d: int, q: int, r: int)
    requires d > 0 && x == q * d + r && 0 <= r < d
    ensures x / d == q && x % d == r
  {
    var k := q - x / d;
    assert k * d == x % d - r by {
      assert x == (x / d) * d + x % d;
      assert k * d == q * d - (x / d) * d;
    }
    assert k >= 1 ==> k * d >= d;
    assert k <= -1 ==> k * d <= -d;
  }

  lemma ModAddMultiple(x: int, d: int, k: int)
    requires d > 0
    ensures (x + k * d) % d == x % d
  {
    assert x + k * d == (x / d + k) * d + x % d;
    DivModUnique(x + k * d, d, x / d + k, x % d);
  }

  lemma ExactQuotient(m: int, n: int)
    requires n > 0 && m % n == 0
    ensures m == (m / n) * n
  {
  }

  lemma MulAssoc(a: int, b: int, c: int)
    ensures a * (b * c) == (a * b) * c
  {
  }

  /** Numbers less than `d` apart have the same remainder only if they are equal. */
  /** Equal remainders are a multiple of the divisor apart. */
  lemma SameRemainder(a: int, b: int, d: int)
    requires d > 0
    ensures a % d == b % d <==> (a - b) % d == 0
  {
    var q := a / d - b / d;
    assert a - b == q * d + (a % d - b % d);
    if a % d == b % d {
      DivModUnique(a - b, d, q, 0);
    }
    if (a - b) % d == 0 {
      var k := (a - b) / d;
      assert a == b + k * d;
      ModAddMultiple(b, d, k);
    }
  }

  lemma ModInjective(a: int, b: int, d: int)
    requires d > 0 && a <= b < a + d && a % d == b % d
    ensures a == b
  {
    var r := a % d;
    var gap := b / d - a / d;
    assert a == (a / d) * d + r && b == (b / d) * d + r;
    assert b - a == gap * d;
    assert gap >= 1 ==> gap * d >= d;
  }

  // Powers of two and masks

  lemma {:induction false} PowersDivide(n: nat, m: nat)
    requires IsPow2(n) && IsPow2(m) && n <= m
    ensures m % n == 0
  {
    if n > 1 {
      PowersDivide(n / 2, m / 2);
      var k := (m / 2) / (n / 2);
      assert m / 2 == k * (n / 2);
      assert m == k * n + 0 by {
        assert n == 2 * (n / 2) && m == 2 * (m / 2);
        assert k * n == 2 * (k * (n / 2));
      }
      DivModUnique(m, n, k, 0);
    }
  }

  lemma {:induction false} HalfMod(x: nat, m: nat)
    requires m > 0
    ensures x % (2 * m) == x % 2 + 2 * ((x / 2) % m)
  {
    var h := x / 2;
    var q := h / m;
    assert h == q * m + h % m;
    assert x == q * (2 * m) + (x % 2 + 2 * (h % m)) by {
      assert q * (2 * m) == 2 * (q * m);
    }
    DivModUnique(x, 2 * m, q, x % 2 + 2 * (h % m));
  }

  lemma {:induction false} MaskIsMod(x: nat, n: nat)
    requires IsPow2(n)
    ensures BitAnd(x, n - 1) == x % n
  {
    if x == 0 {
      assert 0 % n == 0;
    } else if n > 1 {
      var m := n / 2;
      assert n == 2 * m && (n - 1) % 2 == 1 && (n - 1) / 2 == m - 1;
      calc {
        BitAnd(x, n - 1);
        x % 2 + 2 * BitAnd(x / 2, m - 1);
        { MaskIsMod(x / 2, m); }
        x % 2 + 2 * ((x / 2) % m);
        { HalfMod(x, m); }
        x % (2 * m);
      }
    }
  }

  lemma S32Shift(x: int) returns (k: int)
    ensures S32(x) == x + k * TWO_32
    ensures U32(x) == x % TWO_32
  {
    k := -((x + TWO_31) / TWO_32);
  }

  lemma U32Shift(x: int) returns (k: int)
    ensures U32(x) == x + k * TWO_32
  {
    k := -(x / TWO_32);
  }

  /** Values 2^32 apart agree modulo every power of two up to 2^32. */
  lemma CongruentModPow2(a: int, b: int, k: int, n: nat)
    requires IsPow2(n) && n <= TWO_32 && a == b + k * TWO_32
    ensures a % n == b % n
  {
    TwoTo32IsPow2();
    PowersDivide(n, TWO_32);
    var q := TWO_32 / n;
    ExactQuotient(TWO_32, n);
    MulAssoc(k, q, n);
    ModAddMultiple(b, n, k * q);
  }

  lemma S32Small(x: int)
    requires IsS32(x)
    ensures S32(x) == x
  {
  }

  lemma S32Congruent(c: int, n: nat)
    requires IsPow2(n) && n <= TWO_30
    ensures U32(S32(c)) % n == c % n
  {
    var k := S32Shift(c);
    var j := U32Shift(S32(c));
    CongruentModPow2(U32(S32(c)), c, k + j, n);
  }

  /** Masking a wrapped counter gives the residue of the unbounded counter. */
  lemma MaskedCounter(c: int, n: nat)
    requires IsPow2(n) && n <= TWO_30
    ensures AndS32(S32(c), n - 1) == c % n
  {
    var u := U32(S32(c));
    S32Congruent(c, n);
    MaskU32(u, n);
  }

  lemma MaskU32(u: nat, n: nat)
    requires IsPow2(n) && n <= TWO_30
    ensures S32(BitAnd(u, U32(n - 1))) == u % n
  {
    var m := n - 1;
    assert 0 <= m < TWO_32;
    U32Small(m);
    MaskIsMod(u, n);
    ModRange(u, n);
    S32Small(u % n);
  }

  // Two free-running counters

  lemma WrappedDifference(w: int, r: int)
    requires IsS32(w - r)
    ensures S32(S32(w) - S32(r)) == w - r
  {
  }

  lemma SameCounter(w: int, r: int)
    requires 0 <= w - r <= TWO_30
    ensures S32(w) == S32(r) <==> w == r
  {
  }

  lemma WrappedSum(c: int, n: int)
    ensures S32(S32(c) + n) == S32(c + n)
  {
  }

  lemma U32Small(x: int)
    requires 0 <= x < TWO_32
    ensures U32(x) == x
  {
  }

  lemma ModRange(x: int, n: int)
    requires n > 0
    ensures 0 <= x % n < n
  {
  }

  lemma TwoTo32IsPow2()
    ensures IsPow2(TWO_32)
  {
    assert IsPow2(0x100);
    Pow2Times16(0x100);
    Pow2Times16(0x1000);
    Pow2Times16(0x1_0000);
    Pow2Times16(0x10_0000);
    Pow2Times16(0x100_0000);
    Pow2Times16(0x1000_0000);
  }

  lemma Pow2Times16(n: nat)
    requires IsPow2(n)
    ensures IsPow2(16 * n)
  {
    hide IsPow2;
    Pow2Double(n);
    Pow2Double(2 * n);
    Pow2Double(4 * n);
    Pow2Double(8 * n);
  }

  lemma Pow2Double(n: nat)
    requires IsPow2(n)
    ensures IsPow2(2 * n)
  {
    var d := 2 * n;
    assert d % 2 == 0 && d / 2 == n;
  }

  /** `n & (n - 1)` clears the lowest set bit, so it is zero exactly for powers of two. */
  lemma {:induction false} ClearLowestBit(n: nat)
    requires n > 0
    ensures BitAnd(n, n - 1) == 0 <==> IsPow2(n)
  {
    if n % 2 == 0 {
      ClearLowestBit(n / 2);
      assert (n - 1) / 2 == n / 2 - 1;
    } else if n > 1 {
      assert (n - 1) / 2 == n / 2;
      AndSelf(n / 2);
    }
  }

  lemma {:induction false} AndSelf(n: nat)
    ensures BitAnd(n, n) == n
  {
    if n > 0 {
      AndSelf(n / 2);
    }
  }

  /** `-p` as a mask (`p` a power of two below 2^32) selects the bits from `p` upwards. */
  lemma {:induction false} HighMask(w: nat, p: nat, n: nat)
    requires IsPow2(p) && IsPow2(w) && p <= w && n < w
    ensures BitAnd(w - p, n) == n - n % p
  {
    if p == 1 {
      AllOnes(w, n);
    } else if n == 0 {
      assert 0 % p == 0;
    } else if w == p {
      DivModUnique(n, p, 0, n);
    } else {
      var h := p / 2;
      assert p == 2 * h && (w - p) % 2 == 0 && (w - p) / 2 == w / 2 - h;
      calc {
        BitAnd(w - p, n);
        2 * BitAnd(w / 2 - h, n / 2);
        { HighMask(w / 2, h, n / 2); }
        2 * (n / 2 - (n / 2) % h);
        { HalfMod(n, h); }
        n - n % (2 * h);
      }
    }
  }

  lemma {:induction false} AllOnes(w: nat, n: nat)
    requires IsPow2(w) && n < w
    ensures BitAnd(w - 1, n) == n
  {
    if w > 1 && n > 0 {
      AllOnes(w / 2, n / 2);
      assert (w - 1) / 2 == w / 2 - 1;
    }
  }

  lemma OrEven(y: nat, b: nat)
    requires y > 0 && b > 0
    ensures BitOr(2 * y, b) == b % 2 + 2 * BitOr(y, b / 2)
  {
  }

  /** `or` of values with disjoint bits is their sum. */
  lemma {:induction false} OrDisjoint(a: nat, p: nat, b: nat)
    requires IsPow2(p) && b < p
    ensures BitOr(a * p, b) == a * p + b
  {
    if p > 1 && a * p > 0 && b > 0 {
      var h := p / 2;
      MulAssoc(a, h, 2);
      OrDisjoint(a, h, b / 2);
      OrEven(a * h, b);
    }
  }
}

/** NUL-terminated strings. */
module CStrings {
  import opened MachineInts

  predicate NoNul(s: seq<Byte>) {
    forall i :: 0 <= i < |s| ==> s[i] != 0
  }

  type CString = s: seq<Byte> | NoNul(s) witness []

  /** The C string that starts a buffer: what comes before its first NUL. */
  function CStr(buf: seq<Byte>): (s: CString)
    ensures NoNul(buf) ==> s == buf
    ensures s <= buf && (|s| < |buf| ==> buf[|s|] == 0)
  {
    if buf == [] || buf[0] == 0 then [] else [buf[0]] + CStr(buf[1..])
  }

  lemma {:induction false} CStrStops(s: CString, rest: seq<Byte>)
    ensures CStr(s + [0] + rest) == s
  {
    if s != [] {
      CStrStops(s[1..], rest);
      assert (s + [0] + rest)[1..] == s[1..] + [0] + rest;
    }
  }
}
