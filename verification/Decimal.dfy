/** Decimal numbers as keys hold them, the parsers of cmd/generic_chain.go, and their bytewise order. */
module Decimal {
  import opened Base
  import opened Lex

  const ZERO: Byte := 48  // '0'
  const COLON: Byte := 58 // ':', the byte behind '9'

  /** `%d` */
  function Dec(n: nat): (s: Bytes)
    ensures |s| >= 1 && forall j :: 0 <= j < |s| ==> IsDigit(s[j])
  {
    if n < 10 then [ZERO + n] else Dec(n / 10) + [ZERO + n % 10]
  }

  /** `%0*d`: padded with zeros on the left to the given width. */
  function PadDec(n: nat, width: nat): Bytes
    decreases width
  {
    var s := Dec(n);
    if |s| >= width then s else Zeros(width - |s|) + s
  }

  function Zeros(k: nat): Bytes {
    if k == 0 then [] else [ZERO] + Zeros(k - 1)
  }

  predicate IsDigit(b: Byte) {
    ZERO <= b < ZERO + 10
  }

  predicate AllDigits(s: Bytes) {
    forall j :: 0 <= j < |s| ==> IsDigit(s[j])
  }

  /** The number a string of digits stands for. */
  function NumberOf(s: Bytes): nat
    requires AllDigits(s)
  {
    if s == [] then 0 else 10 * NumberOf(s[..|s| - 1]) + (s[|s| - 1] - ZERO)
  }

  /** strconv.ParseUint(s, 10, 64): digits only, at least one, and no more than 64 bits. */
  function ParseUint(s: Bytes): (r: Option<Uint64>) {
    if s != [] && AllDigits(s) && NumberOf(s) < TWO_64 then Some(NumberOf(s)) else None
  }

  /** strconv.ParseInt(s, 10, 64): an optional sign, then as above, within the signed range. */
  function ParseInt(s: Bytes): (r: Option<Int64>) {
    var negative := s != [] && s[0] == 45;
    var digits := if negative || (s != [] && s[0] == 43) then s[1..] else s;
    var u := ParseUint(digits);
    if u.None? then None
    else
      var magnitude: int := u.value;
      var n := if negative then -magnitude else magnitude;
      if -TWO_63 <= n < TWO_63 then Some(n) else None
  }

  lemma {:induction false} NumberOfDec(n: nat)
    ensures NumberOf(Dec(n)) == n
  {
    if n >= 10 {
      var s := Dec(n);
      NumberOfDec(n / 10);
      assert s[..|s| - 1] == Dec(n / 10);
    } else {
      assert Dec(n)[..0] == [];
    }
  }

  lemma ParseDec(n: Uint64)
    ensures ParseUint(Dec(n)) == Some(n)
  {
    NumberOfDec(n);
  }

  lemma DecInjective(a: nat, b: nat)
    requires Dec(a) == Dec(b)
    ensures a == b
  {
    NumberOfDec(a);
    NumberOfDec(b);
  }

  /** A number's signed and unsigned readings agree. */
  lemma ParseIntDec(n: nat)
    requires n < TWO_63
    ensures ParseInt(Dec(n)) == Some(n)
  {
    assert IsDigit(Dec(n)[0]);
    ParseDec(n);
  }

  // ---- What the parsers accept ----------------------------------------------------------------------

  lemma {:induction false} LeadingZeros(k: nat, s: Bytes)
    requires AllDigits(s)
    ensures AllDigits(Zeros(k) + s) && NumberOf(Zeros(k) + s) == NumberOf(s)
    decreases k + |s|
  {
    var z := Zeros(k) + s;
    ZerosAre(k);
    if s != [] {
      LeadingZeros(k, s[..|s| - 1]);
      assert z[..|z| - 1] == Zeros(k) + s[..|s| - 1];
    } else if k > 0 {
      LeadingZeros(k - 1, []);
      ZerosAre(k - 1);
      assert z[..|z| - 1] == Zeros(k - 1) + [];
    }
  }

  lemma {:induction false} ZerosAre(k: nat)
    ensures |Zeros(k)| == k && forall j :: 0 <= j < k ==> Zeros(k)[j] == ZERO
  {
    if k > 0 {
      ZerosAre(k - 1);
    }
  }

  lemma {:induction false} DigitsOf(s: Bytes) returns (k: nat)
    requires AllDigits(s) && s != []
    ensures s == Zeros(k) + Dec(NumberOf(s))
  {
    var front, c := s[..|s| - 1], s[|s| - 1] - ZERO;
    assert s == front + [ZERO + c] && NumberOf(s) == 10 * NumberOf(front) + c;
    if front == [] {
      k := 0;
      OneDigit(c);
    } else {
      k := DigitsOf(front);
      var n := NumberOf(front);
      hide NumberOf, Dec, Zeros;
      if n == 0 {
        OneDigit(c);
        ZeroDigits(k);
        k := k + 1;
      } else {
        DecAppend(n, c);
        Concat3(Zeros(k), Dec(n), [ZERO + c]);
      }
    }
  }

  lemma OneDigit(c: nat)
    requires c < 10
    ensures NumberOf([]) == 0 && Dec(c) == [ZERO + c] && Zeros(0) + Dec(c) == [ZERO + c]
  {
  }

  lemma ZeroDigits(k: nat)
    ensures Zeros(k) + Dec(0) == Zeros(k + 1)
  {
    ZerosAre(k);
    ZerosAre(k + 1);
  }

  lemma DecAppend(n: nat, c: nat)
    requires n >= 1 && c < 10
    ensures Dec(10 * n + c) == Dec(n) + [ZERO + c]
  {
  }

  /** strconv.ParseUint accepts a number's decimal digits with any zeros in front, and nothing else. */
  lemma ParseUintIff(s: Bytes, n: nat)
    ensures ParseUint(s) == Some(n) <==> n < TWO_64 && exists k: nat :: s == Zeros(k) + Dec(n)
  {
    if ParseUint(s) == Some(n) {
      var k := DigitsOf(s);
    }
    if k: nat :| s == Zeros(k) + Dec(n) {
      LeadingZeros(k, Dec(n));
      NumberOfDec(n);
    }
  }

  /** strconv.ParseInt accepts a sign before that. */
  lemma ParseIntIff(s: Bytes, n: int)
    ensures ParseInt(s) == Some(n) <==>
            -TWO_63 <= n < TWO_63 &&
            if s != [] && s[0] == 45 then n <= 0 && ParseUint(s[1..]) == Some(-n)
            else n >= 0 && ParseUint(if s != [] && s[0] == 43 then s[1..] else s) == Some(n)
  {
  }

  // ---- Lengths ----------------------------------------------------------------------------------

  /** Powers of ten, and the numbers just below them. */
  function Pow10(e: nat): (p: nat)
    ensures p >= 1
  {
    if e == 0 then 1 else 10 * Pow10(e - 1)
  }

  function Nines(k: nat): nat {
    Pow10(k) - 1
  }

  /** The decimal notation of `n` has `k` digits. */
  lemma {:induction false} DecLength(n: nat, k: nat)
    requires 1 <= k
    ensures n >= 1 ==> (|Dec(n)| == k <==> Pow10(k - 1) <= n < Pow10(k))
    ensures n >= 1 ==> (|Dec(n)| <= k <==> n < Pow10(k))
    ensures n >= 1 ==> (|Dec(n)| >= k <==> Pow10(k - 1) <= n)
    decreases n
  {
    if n >= 10 {
      if k == 1 {
        assert Pow10(1) == 10 && Pow10(0) == 1;
      } else {
        DecLength(n / 10, k - 1);
        assert Pow10(k) == 10 * Pow10(k - 1);
        assert Pow10(k - 1) == 10 * Pow10(k - 2);
      }
    } else {
      SmallPow10(k);
    }
  }

  lemma SmallPow10(k: nat)
    requires k >= 1
    ensures Pow10(k) >= 10 && (Pow10(k - 1) <= 9 <==> k == 1) && (k == 1 ==> Pow10(k - 1) == 1)
  {
    assert Pow10(k) == 10 * Pow10(k - 1);
    if k > 1 {
      assert Pow10(k - 1) == 10 * Pow10(k - 2);
    }
  }

  lemma {:induction false} Pow10Monotone(a: nat, b: nat)
    requires a <= b
    ensures Pow10(a) <= Pow10(b) && (a < b ==> 10 * Pow10(a) <= Pow10(b))
    decreases b
  {
    if a < b {
      Pow10Monotone(a, b - 1);
    }
  }

  /** Nothing is padded once a number has all its digits. */
  lemma PadNothing(n: nat, width: nat)
    requires width >= 1 && Pow10(width - 1) <= n
    ensures PadDec(n, width) == Dec(n)
  {
    DecLength(n, width);
  }

  // ---- The order of decimal strings ---------------------------------------------------------------

  /** Between numbers of the same length the bytewise order is the numeric one. */
  lemma {:induction false} SameLengthOrder(a: nat, b: nat)
    requires |Dec(a)| == |Dec(b)|
    ensures Less(Dec(a), Dec(b)) <==> a < b
    ensures Dec(a) == Dec(b) <==> a == b
  {
    if a < 10 {
      assert b < 10;
    } else {
      assert b >= 10;
      SameLengthOrder(a / 10, b / 10);
      LastByte(Dec(a / 10), Dec(b / 10), ZERO + a % 10, ZERO + b % 10);
      if Dec(a) == Dec(b) {
        DecInjective(a, b);
      }
    }
  }

  /** Against a shorter number only the leading digits count. */
  lemma DropLastLeft(a: nat, b: nat)
    requires |Dec(a)| > |Dec(b)|
    ensures a >= 10 && |Dec(a / 10)| == |Dec(a)| - 1 && Less(Dec(a), Dec(b)) == Less(Dec(a / 10), Dec(b))
  {
    assert a >= 10;
    LongerLeft(Dec(a / 10), [ZERO + a % 10], Dec(b));
  }

  /** Against a longer number an equal head is enough. */
  lemma DropLastRight(a: nat, b: nat)
    requires |Dec(a)| < |Dec(b)|
    ensures b >= 10 && |Dec(b / 10)| == |Dec(b)| - 1
    ensures Less(Dec(a), Dec(b)) == (Less(Dec(a), Dec(b / 10)) || Dec(a) == Dec(b / 10))
  {
    assert b >= 10;
    LongerRight(Dec(a), Dec(b / 10), ZERO + b % 10);
  }

  lemma Pow10Digits(e: nat)
    ensures |Dec(Pow10(e))| == e + 1
    ensures e > 0 ==> Pow10(e) / 10 == Pow10(e - 1)
  {
    Pow10Monotone(e, e + 1);
    DecLength(Pow10(e), e + 1);
  }

  lemma NinesDigits(k: nat)
    requires k >= 1
    ensures |Dec(Nines(k))| == k
    ensures k > 1 ==> Nines(k) / 10 == Nines(k - 1)
  {
    assert Pow10(k) == 10 * Pow10(k - 1);
    DecLength(Nines(k), k);
  }

  /**
   * The start of the range for `d` digits: below it lie, of all positive numbers, just the powers of ten
   * with fewer digits, which are its proper prefixes.
   */
  lemma {:induction false} BelowPow10(n: nat, d: nat)
    requires n >= 1 && d >= 1
    ensures Less(Dec(n), Dec(Pow10(d - 1))) <==> |Dec(n)| < d && n == Pow10(|Dec(n)| - 1)
    decreases |Dec(n)| + d
  {
    var k := |Dec(n)|;
    Pow10Digits(d - 1);
    DecLength(n, k);
    if k == d {
      SameLengthOrder(n, Pow10(d - 1));
    } else if k > d {
      DropLastLeft(n, Pow10(d - 1));
      BelowPow10(n / 10, d);
    } else {
      DropLastRight(n, Pow10(d - 1));
      BelowPow10(n, d - 1);
      if Dec(n) == Dec(Pow10(d - 2)) {
        DecInjective(n, Pow10(d - 2));
        Pow10Digits(d - 2);
      }
      Pow10Digits(k - 1);
      if k == d - 1 {
        SameLengthOrder(n, Pow10(d - 2));
      }
    }
  }

  /** The end of a full range for `d` digits: numbers with fewer digits lie below it. */
  lemma {:induction false} ShortBelowNines(n: nat, d: nat)
    requires n >= 1 && |Dec(n)| < d
    ensures Less(Dec(n), Dec(Nines(d)))
    decreases d
  {
    NinesDigits(d);
    NinesDigits(d - 1);
    DropLastRight(n, Nines(d));
    if |Dec(n)| == d - 1 {
      DecLength(n, d - 1);
      SameLengthOrder(n, Nines(d - 1));
    } else {
      ShortBelowNines(n, d - 1);
    }
  }

  /** A number that is not shorter lies below it unless its leading digits are all nines. */
  lemma {:induction false} LongerBelowNines(n: nat, d: nat)
    requires 1 <= d <= |Dec(n)|
    ensures var k := |Dec(n)|; Pow10(k - d) <= Pow10(k) && (Less(Dec(n), Dec(Nines(d))) <==> n < Pow10(k) - Pow10(k - d))
    decreases |Dec(n)|
  {
    var k := |Dec(n)|;
    NinesDigits(d);
    Pow10Monotone(k - d, k);
    if k == d {
      SameLengthOrder(n, Nines(d));
    } else {
      DropLastLeft(n, Nines(d));
      LongerBelowNines(n / 10, d);
      assert Pow10(k) == 10 * Pow10(k - 1) && Pow10(k - d) == 10 * Pow10(k - 1 - d);
    }
  }

  /** All-nines numbers are never below an all-nines number that is not longer. */
  lemma {:induction false} NinesNotBelow(j: nat, d: nat)
    requires 1 <= d <= j
    ensures !Less(Dec(Nines(j)), Dec(Nines(d)))
    decreases j
  {
    NinesDigits(j);
    NinesDigits(d);
    if j == d {
      Irreflexive(Dec(Nines(d)));
    } else {
      DropLastLeft(Nines(j), Nines(d));
      NinesNotBelow(j - 1, d);
    }
  }

  /** Nor is a number that starts with at least `d` nines. */
  lemma TopNotBelow(n: nat, m: nat, d: nat)
    requires 1 <= d < m && Pow10(m) - 10 <= n < Pow10(m)
    ensures !Less(Dec(n), Dec(Nines(d)))
  {
    assert Pow10(m) == 10 * Pow10(m - 1);
    SmallPow10(m - 1);
    DecLength(n, m);
    NinesDigits(d);
    DropLastLeft(n, Nines(d));
    assert n / 10 == Nines(m - 1);
    NinesNotBelow(m - 1, d);
  }

  /** A number ending in ":..." : behind its own prefixes and extensions by digits. */
  lemma WithPart(n: nat, t: Bytes, r: nat)
    requires t != [] && t[0] == COLON
    ensures |Dec(n)| >= |Dec(r)| ==> Less(Dec(n) + t, Dec(r)) == Less(Dec(n), Dec(r))
    ensures |Dec(n)| < |Dec(r)| ==> Less(Dec(n) + t, Dec(r)) == (Less(Dec(n), Dec(r)) && !(Dec(n) <= Dec(r)))
  {
    if |Dec(n)| >= |Dec(r)| {
      LongerLeft(Dec(n), t, Dec(r));
    } else {
      forall j | 0 <= j < |Dec(r)|
        ensures Dec(r)[j] < t[0]
      {
        assert IsDigit(Dec(r)[j]);
      }
      AboveAfterPrefix(Dec(n), t, Dec(r));
    }
  }

  /** A shorter number is a prefix of an all-nines number just when it is all nines itself. */
  lemma {:induction false} NinesPrefix(n: nat, d: nat)
    requires n >= 1 && |Dec(n)| < d
    ensures Dec(n) <= Dec(Nines(d)) <==> n == Nines(|Dec(n)|)
    decreases d
  {
    NinesDigits(d);
    NinesDigits(d - 1);
    var head := Dec(Nines(d - 1));
    assert Dec(Nines(d)) == head + [ZERO + 9];
    assert Dec(n) <= Dec(Nines(d)) <==> Dec(n) <= head;
    if |Dec(n)| == d - 1 {
      assert Dec(n) <= head <==> Dec(n) == head;
      if Dec(n) == head {
        DecInjective(n, Nines(d - 1));
      }
    } else {
      NinesPrefix(n, d - 1);
    }
  }

  /** A shorter prefix of a power of ten is a power of ten. */
  lemma {:induction false} Pow10Prefix(n: nat, d: nat)
    requires n >= 1 && |Dec(n)| <= d
    ensures Dec(n) <= Dec(Pow10(d)) <==> n == Pow10(|Dec(n)| - 1)
    decreases d
  {
    Pow10Digits(d);
    Pow10Digits(d - 1);
    var head := Dec(Pow10(d - 1));
    assert Dec(Pow10(d)) == head + [ZERO];
    assert Dec(n) <= Dec(Pow10(d)) <==> Dec(n) <= head;
    if |Dec(n)| == d {
      assert Dec(n) <= head <==> Dec(n) == head;
      if Dec(n) == head {
        DecInjective(n, Pow10(d - 1));
      }
    } else {
      Pow10Prefix(n, d - 1);
    }
  }

  /** Since no digit exceeds nine, a number of nines is below another only as a prefix of it. */
  lemma NinesBelow(k: nat, n: nat)
    requires k >= 1 && Less(Dec(Nines(k)), Dec(n))
    ensures Dec(Nines(k)) <= Dec(n)
  {
    var x, y := Dec(Nines(k)), Dec(n);
    AllNines(k);
    forall i, j | 0 <= i < |x| && 0 <= j < |y|
      ensures y[j] <= x[i]
    {
      assert IsDigit(y[j]);
    }
    BelowOnlyAsPrefix(x, y);
  }

  lemma {:induction false} AllNines(k: nat)
    requires k >= 1
    ensures forall i :: 0 <= i < |Dec(Nines(k))| ==> Dec(Nines(k))[i] == ZERO + 9
  {
    NinesDigits(k);
    if k > 1 {
      AllNines(k - 1);
      assert Dec(Nines(k)) == Dec(Nines(k - 1)) + [ZERO + 9];
    }
  }
}
