/** Bytes, machine-integer conversions and powers shared by every module. */
module Base {

  datatype Option<+T> = None | Some(value: T)

  type Byte = b: int | 0 <= b < 256
  type Bytes = seq<Byte>

  const TWO_31: int := 0x8000_0000
  const TWO_32: int := 0x1_0000_0000
  const TWO_53: int := 0x20_0000_0000_0000
  const TWO_63: int := 0x8000_0000_0000_0000
  const TWO_64: int := 0x1_0000_0000_0000_0000

  type Int64 = x: int | -0x8000_0000_0000_0000 <= x < 0x8000_0000_0000_0000
  type Uint32 = x: int | 0 <= x < 0x1_0000_0000
  type Uint64 = x: int | 0 <= x < 0x1_0000_0000_0000_0000

  /** The conversion `uint64(x)` of a signed value: its two's-complement bit pattern. */
  function ToUint64(x: Int64): (u: Uint64)
    ensures ToInt64(u) == x
  {
    if x < 0 then x + TWO_64 else x
  }

  /** The conversion `int64(u)`, also `int(u)` on a 64-bit platform. */
  function ToInt64(u: Uint64): Int64 {
    if u >= TWO_63 then u - TWO_64 else u
  }

  /** The conversion `int32(u)`: the low 32 bits read as a signed number. */
  function ToInt32(u: nat): int {
    var low := u % TWO_32;
    if low >= TWO_31 then low - TWO_32 else low
  }

  /** Signed 64-bit addition of two non-negative numbers, which wraps around. */
  function AddInt64(a: nat, b: nat): int
    requires a < TWO_63 && b < TWO_63
  {
    if a + b >= TWO_63 then a + b - TWO_64 else a + b
  }

  /** All conversions wrap around: they keep a number modulo the word size, within their range. */
  lemma ConversionsWrap(u: Uint64, x: Int64, w: nat, a: nat, b: nat)
    requires a < TWO_63 && b < TWO_63
    ensures (ToInt64(u) - u) % TWO_64 == 0 && (ToUint64(x) - x) % TWO_64 == 0
    ensures -TWO_31 <= ToInt32(w) < TWO_31 && (ToInt32(w) - w) % TWO_32 == 0
    ensures -TWO_63 <= AddInt64(a, b) < TWO_63 && (AddInt64(a, b) - (a + b)) % TWO_64 == 0
  {
  }

  /** The bytes of a text. */
  function Ascii(text: string): (s: Bytes)
    requires forall i :: 0 <= i < |text| ==> text[i] < 128 as char
    ensures |s| == |text| && forall i :: 0 <= i < |s| ==> s[i] == text[i] as int
  {
    seq(|text|, i requires 0 <= i < |text| => text[i] as int)
  }

  function Pow(b: nat, e: nat): (p: nat)
    ensures b > 0 ==> p > 0
  {
    if e == 0 then 1 else b * Pow(b, e - 1)
  }

  function Max(a: int, b: int): int {
    if a < b then b else a
  }

  function Min(a: int, b: int): int {
    if a < b then a else b
  }

  /** `x << s` on unbounded numbers. */
  function Shl(x: nat, s: nat): nat {
    if s == 0 then x else 2 * Shl(x, s - 1)
  }

  /** The low `width` bits of `x`: what is left of it in an unsigned variable of that width. */
  function LowBits(x: nat, width: nat): nat {
    if width == 0 then 0 else x % 2 + 2 * LowBits(x / 2, width - 1)
  }

  lemma {:induction false} ShlAdd(x: nat, y: nat, s: nat)
    ensures Shl(x + y, s) == Shl(x, s) + Shl(y, s)
  {
    if s > 0 {
      ShlAdd(x, y, s - 1);
    }
  }

  lemma {:induction false} ShlShl(x: nat, s: nat, t: nat)
    ensures Shl(Shl(x, s), t) == Shl(x, s + t)
    decreases t
  {
    if t > 0 {
      ShlShl(x, s, t - 1);
    }
  }

  lemma {:induction false} ShlMonotone(x: nat, y: nat, s: nat)
    requires x <= y
    ensures Shl(x, s) <= Shl(y, s)
  {
    if s > 0 {
      ShlMonotone(x, y, s - 1);
    }
  }

  lemma {:induction false} LowBitsBound(x: nat, width: nat)
    ensures LowBits(x, width) < Shl(1, width)
    ensures x < Shl(1, width) ==> LowBits(x, width) == x
  {
    if width > 0 {
      LowBitsBound(x / 2, width - 1);
    }
  }

  /** The rest of a number, behind its low bits, is a multiple of `1 << width`. */
  lemma {:induction false} LowBitsWrap(x: nat, width: nat) returns (q: nat)
    ensures x == Shl(q, width) + LowBits(x, width) && LowBits(x, width) < Shl(1, width)
  {
    if width == 0 {
      q := x;
    } else {
      q := LowBitsWrap(x / 2, width - 1);
    }
  }

  /** The bits that are set in either number. */
  function Or(x: nat, y: nat): nat
    decreases x + y
  {
    if x == 0 then y
    else if y == 0 then x
    else (if x % 2 == 0 then y % 2 else 1) + 2 * Or(x / 2, y / 2)
  }

  lemma OrByBits(x: nat, y: nat)
    ensures Or(x, y) == (if x % 2 == 0 then y % 2 else 1) + 2 * Or(x / 2, y / 2)
  {
  }

  /** Within any width, the "or" of a number below `1 << s` and one shifted left by `s` is their sum. */
  lemma {:induction false} OrIsSum(x: nat, y: nat, s: nat, width: nat)
    requires x < Shl(1, s)
    ensures Or(LowBits(x, width), LowBits(Shl(y, s), width)) == LowBits(x + Shl(y, s), width)
    decreases s
  {
    hide LowBits, Or;
    if s == 0 {
      LowBitsZero(width);
      OrZero(LowBits(y, width));
    } else if width == 0 {
      LowBitsNone(x, Shl(y, s));
    } else {
      OrIsSum(x / 2, y, s - 1, width - 1);
      OrStep(x, Shl(y, s), width);
    }
  }

  lemma OrZero(y: nat)
    ensures Or(0, y) == y
  {
  }

  lemma LowBitsNone(x: nat, y: nat)
    ensures Or(LowBits(x, 0), LowBits(y, 0)) == LowBits(x + y, 0)
  {
  }

  /** One bit more, where only the first number has one. */
  lemma OrStep(x: nat, z: nat, width: nat)
    requires width > 0 && z % 2 == 0
    requires Or(LowBits(x / 2, width - 1), LowBits(z / 2, width - 1)) == LowBits(x / 2 + z / 2, width - 1)
    ensures Or(LowBits(x, width), LowBits(z, width)) == LowBits(x + z, width)
  {
    hide LowBits, Or;
    assert (x + z) / 2 == x / 2 + z / 2 && (x + z) % 2 == x % 2;
    OrByBits(LowBits(x, width), LowBits(z, width));
    LowBitsHalves(x, width);
    LowBitsHalves(z, width);
    LowBitsHalves(x + z, width);
  }

  lemma LowBitsHalves(x: nat, width: nat)
    requires width > 0
    ensures LowBits(x, width) % 2 == x % 2 && LowBits(x, width) / 2 == LowBits(x / 2, width - 1)
  {
  }

  lemma {:induction false} LowBitsZero(width: nat)
    ensures LowBits(0, width) == 0
  {
    if width > 0 {
      LowBitsZero(width - 1);
    }
  }

  lemma WordSizes()
    ensures Shl(1, 32) == TWO_32 && Shl(1, 64) == TWO_64
  {
    assert Shl(1, 8) == 256;
    ShlShl(1, 8, 8);
    assert Shl(256, 8) == 0x1_0000;
    ShlShl(1, 16, 16);
    ShlShl(0x1_0000, 8, 8);
    assert Shl(0x100_0000, 8) == TWO_32;
    DoubleWord();
  }

  lemma DoubleWord()
    ensures Shl(1, 32) == TWO_32 ==> Shl(1, 64) == TWO_64
  {
    ShlShl(1, 32, 32);
    ShlShl(TWO_32, 16, 16);
    ShlShl(TWO_32, 8, 8);
    assert Shl(TWO_32, 8) == 0x100_0000_0000;
    assert Shl(0x100_0000_0000, 8) == 0x1_0000_0000_0000;
    ShlShl(0x1_0000_0000_0000, 8, 8);
    assert Shl(0x1_0000_0000_0000, 8) == 0x100_0000_0000_0000;
  }

  /** The bytes `w` stand in `d` at index `i`. */
  ghost predicate At(d: Bytes, i: nat, w: Bytes) {
    i + |w| <= |d| && d[i..i + |w|] == w
  }

  lemma AtSplit(d: Bytes, i: nat, a: Bytes, b: Bytes)
    requires At(d, i, a + b)
    ensures At(d, i, a) && At(d, i + |a|, b)
    ensures i + |a| + |b| <= |d|
  {
    var w := d[i..i + |a + b|];
    assert d[i..i + |a|] == w[..|a|];
    assert d[i + |a|..i + |a| + |b|] == w[|a|..];
  }

  lemma Concat3(a: Bytes, b: Bytes, c: Bytes)
    ensures (a + b) + c == a + (b + c)
  {
  }

  lemma SliceJoin(d: Bytes, i: nat, j: nat, k: nat)
    requires i <= j <= k <= |d|
    ensures d[i..k] == d[i..j] + d[j..k]
  {
  }
}
