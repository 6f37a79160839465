/**
 * Which heights a sweep really deletes from a store that holds a contiguous run of them: all but an orphan
 * or two, and nothing at all when the last height is a power of ten.
 */
module HeightCoverage {
  import opened Base
  import opened Lex
  import opened Decimal
  import opened KvStore
  import opened HeightSweep

  /** What follows the height in a key: nothing, or ':' and the number of a block part. */
  predicate IsTail(parser: Parser, t: Bytes) {
    match parser
    case OnePart => t == []
    case TwoParts => t != [] && t[0] == COLON
  }

  function Key(prefix: Bytes, n: nat, t: Bytes): Bytes {
    prefix + (Dec(n) + t)
  }

  ghost predicate Holds(m: KvMap, prefix: Bytes, parser: Parser, n: nat) {
    exists t :: IsTail(parser, t) && Key(prefix, n, t) in m
  }

  /** Under the prefix stand keys for the heights from `b` to `h`, at least one for each, and no others. */
  ghost predicate Contiguous(m: KvMap, prefix: Bytes, parser: Parser, b: nat, h: nat) {
    && (forall k :: k in m && prefix <= k ==>
          exists n: nat, t :: b <= n <= h && IsTail(parser, t) && k == Key(prefix, n, t))
    && (forall n: nat :: b <= n <= h ==> Holds(m, prefix, parser, n))
  }

  /** The heights up to `end` that a sweep up to `end` leaves behind, if the store holds them. */
  ghost predicate Orphan(parser: Parser, n: nat, end: nat) {
    var digits := |Dec(end)|;
    var top := end >= Pow10(digits) - 10;
    match parser
    case OnePart => n == if top then end else Nines(digits - 1)
    case TwoParts => (top && n == end) || (|Dec(n)| < digits && n == Nines(|Dec(n)|))
  }

  // ---- One key ----------------------------------------------------------------------------------

  lemma {:induction false} HeadOf(s: Bytes, t: Bytes)
    requires AllDigits(s) && t != [] && t[0] == COLON
    ensures Head(s + t) == s
    decreases |s|
  {
    if s == [] {
      assert s + t == t;
    } else {
      assert (s + t)[1..] == s[1..] + t;
      HeadOf(s[1..], t);
    }
  }

  lemma ParseKey(parser: Parser, prefix: Bytes, n: Uint64, t: Bytes)
    requires IsTail(parser, t)
    ensures prefix <= Key(prefix, n, t) && Key(prefix, n, t)[|prefix|..] == Dec(n) + t
    ensures Parse(parser, Dec(n) + t) == Some(n)
  {
    ParseDec(n);
    if parser == OnePart {
      assert Dec(n) + t == Dec(n);
    } else {
      HeadOf(Dec(n), t);
    }
  }

  /** The pass for `digits` digits, under whatever prefix, compares the numbers as strings. */
  predicate Covers(parser: Parser, n: nat, t: Bytes, end: nat, digits: nat)
    requires digits >= 1
  {
    !Less(Dec(n) + t, Dec(Pow10(digits - 1))) && Less(Dec(n) + t, Dec(RangeEnd(end, digits)))
  }

  lemma PassCompares(parser: Parser, prefix: Bytes, n: nat, t: Bytes, end: nat, digits: nat)
    requires 1 <= digits <= |Dec(end)| && end >= 1
    ensures InPass(Key(prefix, n, t), prefix, 0, end, digits) <==> Covers(parser, n, t, end, digits)
  {
    hide Less, Dec, Pow10, PadDec;
    PassBounds(end, digits);
    PadNothing(Pow10(digits - 1), digits);
    PadNothing(RangeEnd(end, digits), digits);
    SamePrefix(prefix, Dec(n) + t, Dec(Pow10(digits - 1)));
    SamePrefix(prefix, Dec(n) + t, Dec(RangeEnd(end, digits)));
  }

  /** The pass for the digits of `end` stops at it, the others are full. */
  lemma PassBounds(end: nat, digits: nat)
    requires 1 <= digits <= |Dec(end)| && end >= 1
    ensures RangeStart(0, digits) == Pow10(digits - 1) <= RangeEnd(end, digits)
    ensures RangeEnd(end, digits) == if digits == |Dec(end)| then end else Nines(digits)
  {
    var width := |Dec(end)|;
    DecLength(end, width);
    Pow10Monotone(digits - 1, digits);
    if digits < width {
      Pow10Monotone(digits, width - 1);
    }
  }

  /** A key is selected by a pass when the pass covers it and its height is not above the end. */
  lemma SelectsKey(m: KvMap, parser: Parser, prefix: Bytes, n: nat, t: Bytes, end: nat, digits: nat)
    requires 1 <= digits <= |Dec(end)| && 1 <= end < TWO_53 && n < TWO_63 && IsTail(parser, t)
    ensures Key(prefix, n, t) in Selected(m, prefix, parser, 0, end, digits) <==>
            Key(prefix, n, t) in m && n <= end && Covers(parser, n, t, end, digits)
  {
    hide Covers, InPass, Parse, Dec;
    ParseKey(parser, prefix, n, t);
    PassCompares(parser, prefix, n, t, end, digits);
  }

  // ---- The passes, one key at a time --------------------------------------------------------------

  /**
   * A full pass covers every shorter number that is not a power of ten (one part) or all nines (two parts), and of the
   * others those that do not begin with as many nines as it has digits.
   */
  lemma FullPassCovers(parser: Parser, n: nat, t: Bytes, end: nat, d: nat)
    requires n >= 1 && end >= 1 && IsTail(parser, t) && 1 <= d < |Dec(end)|
    ensures var k := |Dec(n)|;
            && (k < d ==> (Covers(parser, n, t, end, d) <==> n != if parser == OnePart then Pow10(k - 1) else Nines(k)))
            && (k == d ==> (Covers(parser, n, t, end, d) <==> n < Nines(d)))
            && (k >= d ==> Pow10(k - d) <= Pow10(k) && (Covers(parser, n, t, end, d) <==> n < Pow10(k) - Pow10(k - d)))
            && (k == d + 1 ==> (Covers(parser, n, t, end, d) <==> n < Pow10(d + 1) - 10))
  {
    if |Dec(n)| < d {
      FullPassShorter(parser, n, t, end, d);
    } else {
      FullPassLonger(parser, n, t, end, d);
      assert Pow10(0) == 1 && Pow10(1) == 10;
    }
    hide Less, Dec;
  }

  lemma FullPassShorter(parser: Parser, n: nat, t: Bytes, end: nat, d: nat)
    requires n >= 1 && end >= 1 && IsTail(parser, t) && 1 <= d < |Dec(end)| && |Dec(n)| < d
    ensures Covers(parser, n, t, end, d) <==> n != if parser == OnePart then Pow10(|Dec(n)| - 1) else Nines(|Dec(n)|)
  {
    hide Less, Dec, Pow10, Nines;
    PassBounds(end, d);
    NinesDigits(d);
    Pow10Digits(d - 1);
    BelowPow10(n, d);
    ShortBelowNines(n, d);
    NinesPrefix(n, d);
    Pow10Prefix(n, d - 1);
    if parser == OnePart {
      assert Dec(n) + t == Dec(n);
    } else {
      WithPart(n, t, Nines(d));
      WithPart(n, t, Pow10(d - 1));
    }
  }

  lemma FullPassLonger(parser: Parser, n: nat, t: Bytes, end: nat, d: nat)
    requires n >= 1 && end >= 1 && IsTail(parser, t) && 1 <= d < |Dec(end)| && |Dec(n)| >= d
    ensures var k := |Dec(n)|;
            Pow10(k - d) <= Pow10(k) && (Covers(parser, n, t, end, d) <==> n < Pow10(k) - Pow10(k - d))
  {
    hide Less, Dec, Pow10, Nines;
    PassBounds(end, d);
    NinesDigits(d);
    Pow10Digits(d - 1);
    BelowPow10(n, d);
    LongerBelowNines(n, d);
    if parser == OnePart {
      assert Dec(n) + t == Dec(n);
    } else {
      WithPart(n, t, Nines(d));
      WithPart(n, t, Pow10(d - 1));
    }
  }

  /** The first pass covers what is as long as its end and below it; no power of ten that is shorter. */
  lemma FirstPassCovers(parser: Parser, n: nat, t: Bytes, end: nat)
    requires n >= 1 && end >= 1 && IsTail(parser, t)
    ensures var k, d := |Dec(n)|, |Dec(end)|;
            && (k == d ==> (Covers(parser, n, t, end, d) <==> n < end))
            && (k < d && parser == OnePart && n == Pow10(k - 1) ==> !Covers(parser, n, t, end, d))
            && (k == d - 1 && parser == OnePart && n == Nines(k) ==>
                  (Covers(parser, n, t, end, d) <==> end >= Pow10(d) - 10))
            && (k < d && parser == TwoParts && n == Nines(k) ==> !Covers(parser, n, t, end, d))
  {
    hide Less, Dec, Covers, Pow10, Nines;
    if parser == OnePart {
      FirstPassOne(n, end);
    } else {
      FirstPassTwo(n, t, end);
    }
  }

  lemma FirstPassOne(n: nat, end: nat)
    requires n >= 1 && end >= 1
    ensures var k, d := |Dec(n)|, |Dec(end)|;
            && (k == d ==> (Covers(OnePart, n, [], end, d) <==> n < end))
            && (k < d && n == Pow10(k - 1) ==> !Covers(OnePart, n, [], end, d))
            && (k == d - 1 && n == Nines(k) ==> (Covers(OnePart, n, [], end, d) <==> end >= Pow10(d) - 10))
  {
    var k, d := |Dec(n)|, |Dec(end)|;
    hide Less, Dec, Pow10, Nines, Covers;
    CoversPlain(n, end);
    BelowPow10(n, d);
    if k == d {
      SameLengthOrder(n, end);
    } else if k == d - 1 && n == Nines(k) {
      NinesAgainst(n, k, end);
      NinesNotPow10(k);
    }
  }

  /** The first pass over keys without a tail. */
  lemma CoversPlain(n: nat, end: nat)
    requires end >= 1
    ensures var d := |Dec(end)|;
            Covers(OnePart, n, [], end, d) <==> !Less(Dec(n), Dec(Pow10(d - 1))) && Less(Dec(n), Dec(end))
  {
    hide Less, Dec;
    assert Dec(n) + [] == Dec(n);
    PassBounds(end, |Dec(end)|);
  }

  lemma FirstPassTwo(n: nat, t: Bytes, end: nat)
    requires n >= 1 && end >= 1 && IsTail(TwoParts, t)
    ensures var k, d := |Dec(n)|, |Dec(end)|;
            && (k == d ==> (Covers(TwoParts, n, t, end, d) <==> n < end))
            && (k < d && n == Nines(k) ==> !Covers(TwoParts, n, t, end, d))
  {
    var k, d := |Dec(n)|, |Dec(end)|;
    hide Less, Dec, Pow10, Nines;
    PassBounds(end, d);
    BelowPow10(n, d);
    Pow10Digits(d - 1);
    WithPart(n, t, end);
    WithPart(n, t, Pow10(d - 1));
    if k == d {
      SameLengthOrder(n, end);
    } else if k < d && n == Nines(k) && Less(Dec(n), Dec(end)) {
      NinesBelow(k, end);
    }
  }

  /** All nines, one digit less than `end`: below it when the leading digits of `end` are all nines. */
  lemma NinesAgainst(n: nat, k: nat, end: nat)
    requires 1 <= k == |Dec(end)| - 1 == |Dec(n)| && n == Nines(k)
    ensures Less(Dec(n), Dec(end)) <==> end >= Pow10(k + 1) - 10
  {
    hide Less, Dec;
    DropLastRight(n, end);
    SameLengthOrder(n, end / 10);
    DecLength(end / 10, k);
    assert Pow10(k + 1) == 10 * Pow10(k);
  }

  lemma NinesNotPow10(k: nat)
    requires k >= 1
    ensures Nines(k) != Pow10(k - 1)
  {
  }

  /** No pass covers an orphan. */
  lemma OrphanNotCovered(parser: Parser, n: nat, t: Bytes, end: nat, d: nat)
    requires 1 <= n <= end && IsTail(parser, t) && Orphan(parser, n, end) && 1 <= d <= |Dec(end)|
    ensures !Covers(parser, n, t, end, d)
  {
    var k, m := |Dec(n)|, |Dec(end)|;
    hide Less, Dec;
    DecLength(end, m);
    FirstPassCovers(parser, n, t, end);
    if n < end {
      DecLength(n, m - 1);
      NinesDigits(m - 1);
    }
    if d < m {
      FullPassCovers(parser, n, t, end, d);
      UpperBound(parser, n, t, end, d);
      if k > d {
        if n == end {
          TopNotBelow(n, m, d);
        } else {
          NinesNotBelow(k, d);
        }
      }
    }
  }

  /** What a full pass covers is below its end. */
  lemma UpperBound(parser: Parser, n: nat, t: Bytes, end: nat, d: nat)
    requires end >= 1 && 1 <= d < |Dec(end)| && IsTail(parser, t)
    ensures Covers(parser, n, t, end, d) && |Dec(n)| > d ==> Less(Dec(n), Dec(Nines(d)))
  {
    hide Less, Dec;
    PassBounds(end, d);
    NinesDigits(d);
    if parser == OnePart {
      assert Dec(n) + t == Dec(n);
    } else {
      WithPart(n, t, Nines(d));
    }
  }

  /** Every other height is covered by one of the first two passes, or is a power of ten for a later one. */
  lemma OthersCovered(parser: Parser, n: nat, t: Bytes, end: nat)
    requires 1 <= n <= end && IsTail(parser, t) && !Orphan(parser, n, end)
    ensures var k, m := |Dec(n)|, |Dec(end)|;
            || Covers(parser, n, t, end, m)
            || (m > 1 && Covers(parser, n, t, end, m - 1))
            || (parser == OnePart && k < m - 1 && n == Pow10(k - 1))
  {
    var k, m := |Dec(n)|, |Dec(end)|;
    hide Less, Dec, Covers;
    DecLength(end, m);
    DecLength(n, m);
    DecLength(n, k);
    FirstPassCovers(parser, n, t, end);
    if m > 1 {
      FullPassCovers(parser, n, t, end, m - 1);
    }
  }

  // ---- The sweep ----------------------------------------------------------------------------------

  /** A sweep only removes keys. */
  lemma {:induction false} SweepShrinks(m: KvMap, prefix: Bytes, parser: Parser, end: nat, d: nat)
    ensures var s := Sweep(m, prefix, parser, 0, end, d);
            forall k :: k in s ==> k in m && s[k] == m[k]
  {
    hide Selected;
    if d > 0 {
      SweepShrinks(m, prefix, parser, end, d - 1);
      SweepShrinks(m - Selected(m, prefix, parser, 0, end, d), prefix, parser, end, d - 1);
    }
  }

  /** What no pass selects stays. */
  lemma {:induction false} SweepKeeps(m: KvMap, prefix: Bytes, parser: Parser, end: nat, d: nat, k: Bytes)
    requires k in m
    requires forall j :: 1 <= j <= d ==> !(InPass(k, prefix, 0, end, j) && Doomed(k, prefix, parser, end))
    ensures k in Sweep(m, prefix, parser, 0, end, d)
  {
    hide InPass, Doomed;
    if d > 0 {
      var gone := Selected(m, prefix, parser, 0, end, d);
      assert k !in gone;
      SweepKeeps(m, prefix, parser, end, d - 1, k);
      SweepKeeps(m - gone, prefix, parser, end, d - 1, k);
    }
  }

  /** A pass that is reached removes what it selects. */
  lemma SweepTakes(m: KvMap, prefix: Bytes, parser: Parser, end: nat, d: nat, k: Bytes)
    requires 1 <= d <= |Dec(end)| && end >= 1 && k in Selected(m, prefix, parser, 0, end, d)
    ensures k !in Sweep(m, prefix, parser, 0, end, d)
  {
    hide Selected;
    PassBounds(end, d);
    var gone := Selected(m, prefix, parser, 0, end, d);
    SweepShrinks(m - gone, prefix, parser, end, d - 1);
  }

  /** A pass that selects anything leads on to the next. */
  lemma SweepGoesOn(m: KvMap, prefix: Bytes, parser: Parser, end: nat, d: nat, k: Bytes)
    requires 1 <= d <= |Dec(end)| && end >= 1 && k in Selected(m, prefix, parser, 0, end, d)
    ensures var rest := m - Selected(m, prefix, parser, 0, end, d);
            Sweep(m, prefix, parser, 0, end, d) == Sweep(rest, prefix, parser, 0, end, d - 1)
  {
    hide Selected;
    PassBounds(end, d);
  }

  function PowerKey(prefix: Bytes, i: nat): Bytes {
    Key(prefix, Pow10(i), [])
  }

  /**
   * The powers of ten that the full passes leave to each other: each pass removes one and is therefore
   * not the last until all of them from 10^j up to 10^(d-1) are gone.
   */
  lemma {:induction false} Ladder(m: KvMap, prefix: Bytes, end: nat, d: nat, j: nat)
    requires 0 <= j < d < |Dec(end)| && 1 <= end < TWO_53
    requires forall i :: j <= i < d ==> PowerKey(prefix, i) in m
    ensures PowerKey(prefix, j) !in Sweep(m, prefix, OnePart, 0, end, d)
    decreases d
  {
    hide Dec, Selected, Sweep, PowerKey;
    var top := PowerKey(prefix, d - 1);
    PowerSelected(m, prefix, end, d, d - 1);
    if d - 1 == j {
      SweepTakes(m, prefix, OnePart, end, d, top);
    } else {
      SweepGoesOn(m, prefix, OnePart, end, d, top);
      var rest := m - Selected(m, prefix, OnePart, 0, end, d);
      forall i | j <= i < d - 1
        ensures PowerKey(prefix, i) in rest
      {
        PowerSelected(m, prefix, end, d, i);
      }
      Ladder(rest, prefix, end, d - 1, j);
    }
  }

  /** The full pass for `d` digits selects 10^(d-1) but no smaller power of ten. */
  lemma PowerSelected(m: KvMap, prefix: Bytes, end: nat, d: nat, i: nat)
    requires 0 <= i < d < |Dec(end)| && 1 <= end < TWO_53
    ensures PowerKey(prefix, i) in Selected(m, prefix, OnePart, 0, end, d) <==> PowerKey(prefix, i) in m && i == d - 1
  {
    hide Dec, Selected, Covers, Key, Nines;
    var n := Pow10(i);
    Pow10Digits(i);
    DecLength(end, |Dec(end)|);
    Pow10Monotone(i, |Dec(end)| - 1);
    SelectsKey(m, OnePart, prefix, n, [], end, d);
    FullPassCovers(OnePart, n, [], end, d);
    NinesNotPow10(i + 1);
    PowerBelowNines(i);
  }

  lemma PowerBelowNines(i: nat)
    ensures Pow10(i) < Nines(i + 1)
  {
  }

  /** A sweep concerns the keys with its prefix only: it neither touches nor looks at others. */
  lemma {:induction false} SweepElsewhere(m: KvMap, prefix: Bytes, parser: Parser, end: nat, d: nat, k: Bytes)
    requires !(prefix <= k)
    ensures k in Sweep(m, prefix, parser, 0, end, d) <==> k in m
  {
    hide InPass;
    if d > 0 {
      SweepElsewhere(m, prefix, parser, end, d - 1, k);
      SweepElsewhere(m - Selected(m, prefix, parser, 0, end, d), prefix, parser, end, d - 1, k);
    }
  }

  lemma {:induction false} SweepLocal(m: KvMap, m': KvMap, prefix: Bytes, parser: Parser, end: nat, d: nat)
    requires forall k :: prefix <= k ==> (k in m <==> k in m')
    ensures forall k :: prefix <= k ==>
              (k in Sweep(m, prefix, parser, 0, end, d) <==> k in Sweep(m', prefix, parser, 0, end, d))
  {
    hide InPass;
    if d > 0 {
      var gone := Selected(m, prefix, parser, 0, end, d);
      assert gone == Selected(m', prefix, parser, 0, end, d);
      SweepLocal(m, m', prefix, parser, end, d - 1);
      SweepLocal(m - gone, m' - gone, prefix, parser, end, d - 1);
    }
  }

  // ---- Another start ------------------------------------------------------------------------------

  lemma PassFrom50(prefix: Bytes, s: Bytes)
    ensures InPass(prefix + s, prefix, 50, 99, 2) <==> !Less(s, [53, 48]) && Less(s, [57, 57])
    ensures RangeStart(50, 2) <= RangeEnd(99, 2) && RangeStart(50, 1) > RangeEnd(99, 1)
  {
    assert Pow10(0) == 1 && Pow10(1) == 10 && Pow10(2) == 100;
    assert Dec(50) == [53, 48] && Dec(99) == [57, 57];
    assert PadDec(50, 2) == [53, 48] && PadDec(99, 2) == [57, 57];
    SamePrefix(prefix, s, [53, 48]);
    SamePrefix(prefix, s, [57, 57]);
    hide Dec, PadDec, Less, Pow10;
  }

  /** From 50 to 99: 49 stays, but 6 goes, although it is below the start, for it comes behind "50". */
  lemma StartIsPartial(m: KvMap, prefix: Bytes)
    requires prefix + [52, 57] in m && prefix + [54] in m
    ensures prefix + [52, 57] in Sweep(m, prefix, OnePart, 50, 99, 2) && prefix + [54] !in Sweep(m, prefix, OnePart, 50, 99, 2)
  {
    PassFrom50(prefix, [54]);
    PassFrom50(prefix, [52, 57]);
    ParseDec(6);
    assert (prefix + [54])[|prefix|..] == [54] == Dec(6);
    hide InPass, RangeStart, RangeEnd, ParseUint;
    var gone := Selected(m, prefix, OnePart, 50, 99, 2);
    assert Doomed(prefix + [54], prefix, OnePart, 99);
    assert prefix + [54] in gone && prefix + [52, 57] !in gone;
    hide Selected;
    assert Sweep(m - gone, prefix, OnePart, 50, 99, 1) == Sweep(m - gone, prefix, OnePart, 50, 99, 0);
  }

  // ---- Contiguous heights -------------------------------------------------------------------------

  /** No key of a height above the end is ever removed, nor one of an orphan. */
  lemma OrphanStays(m: KvMap, prefix: Bytes, parser: Parser, end: nat, n: nat, t: Bytes)
    requires 1 <= end < TWO_53 && 1 <= n < TWO_63 && IsTail(parser, t) && Key(prefix, n, t) in m
    requires n > end || Orphan(parser, n, end)
    ensures Key(prefix, n, t) in Sweep(m, prefix, parser, 0, end, |Dec(end)|)
  {
    hide InPass, Doomed, Covers, Key, Orphan, Dec, Sweep;
    var k := Key(prefix, n, t);
    forall j | 1 <= j <= |Dec(end)|
      ensures !(InPass(k, prefix, 0, end, j) && Doomed(k, prefix, parser, end))
    {
      SelectsKey(m, parser, prefix, n, t, end, j);
      if n <= end {
        OrphanNotCovered(parser, n, t, end, j);
      }
    }
    SweepKeeps(m, prefix, parser, end, |Dec(end)|, k);
  }

  /** The first pass finds a height as long as the end, so it is not the last pass. */
  lemma FirstPassSelects(m: KvMap, prefix: Bytes, parser: Parser, b: nat, h: nat, end: nat) returns (k: Bytes)
    requires 1 <= b < end <= h < TWO_63 && end < TWO_53 && Contiguous(m, prefix, parser, b, h)
    requires end != Pow10(|Dec(end)| - 1)
    ensures k in Selected(m, prefix, parser, 0, end, |Dec(end)|)
  {
    hide Covers, Key, Dec, Selected;
    var d := |Dec(end)|;
    DecLength(end, d);
    var n := Max(b, Pow10(d - 1));
    DecLength(n, d);
    assert Holds(m, prefix, parser, n);
    var t :| IsTail(parser, t) && Key(prefix, n, t) in m;
    k := Key(prefix, n, t);
    SelectsKey(m, parser, prefix, n, t, end, d);
    FirstPassCovers(parser, n, t, end);
  }

  /** Every height but the orphans is removed. */
  lemma OthersGo(m: KvMap, prefix: Bytes, parser: Parser, b: nat, h: nat, end: nat, n: nat, t: Bytes)
    requires 1 <= b < end <= h < TWO_63 && end < TWO_53 && Contiguous(m, prefix, parser, b, h)
    requires end != Pow10(|Dec(end)| - 1)
    requires b <= n <= end && IsTail(parser, t) && !Orphan(parser, n, end)
    ensures Key(prefix, n, t) !in Sweep(m, prefix, parser, 0, end, |Dec(end)|)
  {
    hide Covers, Key, Dec, Selected, Orphan, Sweep, Contiguous;
    var d, k := |Dec(end)|, Key(prefix, n, t);
    var first := FirstPassSelects(m, prefix, parser, b, h, end);
    SweepGoesOn(m, prefix, parser, end, d, first);
    var rest := m - Selected(m, prefix, parser, 0, end, d);
    SweepShrinks(rest, prefix, parser, end, d - 1);
    OthersCovered(parser, n, t, end);
    SelectsKey(m, parser, prefix, n, t, end, d);
    if k in rest {
      SelectsKey(rest, parser, prefix, n, t, end, d - 1);
      if Covers(parser, n, t, end, d - 1) {
        SweepTakes(rest, prefix, parser, end, d - 1, k);
      } else {
        PowersRemain(m, prefix, b, h, end, n);
        Ladder(rest, prefix, end, d - 1, |Dec(n)| - 1);
      }
    }
  }

  /** The first pass removes no power of ten with fewer digits. */
  lemma PowersRemain(m: KvMap, prefix: Bytes, b: nat, h: nat, end: nat, n: nat)
    requires 1 <= b < end <= h < TWO_63 && end < TWO_53 && Contiguous(m, prefix, OnePart, b, h)
    requires b <= n && |Dec(n)| < |Dec(end)| && n == Pow10(|Dec(n)| - 1)
    ensures var rest := m - Selected(m, prefix, OnePart, 0, end, |Dec(end)|);
            forall i :: |Dec(n)| - 1 <= i < |Dec(end)| - 1 ==> PowerKey(prefix, i) in rest
  {
    hide Covers, Key, Dec, Selected;
    var d, j := |Dec(end)|, |Dec(n)| - 1;
    DecLength(end, d);
    forall i | j <= i < d - 1
      ensures PowerKey(prefix, i) in m - Selected(m, prefix, OnePart, 0, end, d)
    {
      Pow10Monotone(j, i);
      Pow10Monotone(i, d - 1);
      Pow10Digits(i);
      assert Holds(m, prefix, OnePart, Pow10(i));
      SelectsKey(m, OnePart, prefix, Pow10(i), [], end, d);
      FirstPassCovers(OnePart, Pow10(i), [], end);
    }
  }

  /**
   * The survivors of a sweep over contiguous heights: of the heights up to the end, the orphans and no
   * others, and every height above it.
   */
  lemma SweepLeavesOrphans(m: KvMap, prefix: Bytes, parser: Parser, b: nat, h: nat, end: nat)
    requires 1 <= b < end <= h < TWO_63 && end < TWO_53 && Contiguous(m, prefix, parser, b, h)
    requires end != Pow10(|Dec(end)| - 1)
    ensures forall n: nat, t :: b <= n <= h && IsTail(parser, t) && Key(prefix, n, t) in m ==>
              (Key(prefix, n, t) in Sweep(m, prefix, parser, 0, end, |Dec(end)|) <==>
               n > end || Orphan(parser, n, end))
  {
    hide Key, Dec, Orphan, Sweep, Contiguous, IsTail;
    forall n: nat, t | b <= n <= h && IsTail(parser, t) && Key(prefix, n, t) in m
      ensures Key(prefix, n, t) in Sweep(m, prefix, parser, 0, end, |Dec(end)|) <==>
              n > end || Orphan(parser, n, end)
    {
      if n > end || Orphan(parser, n, end) {
        OrphanStays(m, prefix, parser, end, n, t);
      } else {
        OthersGo(m, prefix, parser, b, h, end, n, t);
      }
    }
  }

  /** Up to a power of ten of two digits or more nothing at all is deleted, whatever the store holds. */
  lemma PowerOfTenDeletesNothing(m: KvMap, prefix: Bytes, parser: Parser, e: nat)
    requires e >= 1
    ensures Sweep(m, prefix, parser, 0, Pow10(e), |Dec(Pow10(e))|) == m
  {
    var end := Pow10(e);
    Pow10Digits(e);
    hide Less, PadDec, Dec;
    PassBounds(end, e + 1);
    var gone := Selected(m, prefix, parser, 0, end, e + 1);
    assert forall k :: k in gone ==> InPass(k, prefix, 0, end, e + 1);
    assert gone == {};
  }

  /** No key of a height from `b` to `end` is left. */
  ghost predicate AllGone(m: KvMap, prefix: Bytes, parser: Parser, b: nat, end: nat) {
    forall n: nat, t :: b <= n <= end && IsTail(parser, t) ==> Key(prefix, n, t) !in m
  }

  /**
   * The comment on deleteHeightRange promises that every height up to the end goes. For contiguous heights
   * that is so exactly when the end is neither a power of ten nor among the last ten numbers of its length,
   * and no shorter height is stored.
   */
  lemma PromiseKeptIff(m: KvMap, prefix: Bytes, parser: Parser, b: nat, h: nat, end: nat)
    requires 1 <= b < end <= h < TWO_63 && end < TWO_53 && Contiguous(m, prefix, parser, b, h)
    ensures AllGone(Sweep(m, prefix, parser, 0, end, |Dec(end)|), prefix, parser, b, end) <==>
            Pow10(|Dec(end)| - 1) <= b && end < Pow10(|Dec(end)|) - 10
  {
    hide Key, Dec, Sweep, IsTail;
    var d := |Dec(end)|;
    var left := Sweep(m, prefix, parser, 0, end, d);
    DecLength(end, d);
    if end == Pow10(d - 1) {
      SmallPowers(d);
      PowerOfTenDeletesNothing(m, prefix, parser, d - 1);
      assert Holds(m, prefix, parser, b);
    } else {
      SweepLeavesOrphans(m, prefix, parser, b, h, end);
      SweepShrinks(m, prefix, parser, end, d);
      OrphanBetween(parser, b, end);
      var orphan := if end >= Pow10(d) - 10 then end else Nines(d - 1);
      if b <= orphan {
        assert Holds(m, prefix, parser, orphan);
      }
    }
  }

  lemma SmallPowers(d: nat)
    requires d >= 1
    ensures d == 1 <==> Pow10(d - 1) == 1
  {
  }

  /** The greatest orphan is the end or the greatest number with fewer digits. */
  lemma OrphanBetween(parser: Parser, b: nat, end: nat)
    requires 1 <= b <= end
    ensures var d := |Dec(end)|;
            var orphan := if end >= Pow10(d) - 10 then end else Nines(d - 1);
            && orphan <= end && (orphan >= 1 ==> Orphan(parser, orphan, end))
            && (forall n :: 1 <= n <= end && Orphan(parser, n, end) ==> n <= orphan)
            && (b <= orphan <==> !(Pow10(d - 1) <= b && end < Pow10(d) - 10))
  {
    hide Dec;
    var d := |Dec(end)|;
    DecLength(end, d);
    if d > 1 {
      NinesDigits(d - 1);
    } else {
      assert Pow10(0) == 1 && Pow10(1) == 10;
    }
    forall n | 1 <= n <= end && Orphan(parser, n, end)
      ensures n <= if end >= Pow10(d) - 10 then end else Nines(d - 1)
    {
      if d > 1 {
        DecLength(n, d - 1);
      }
    }
  }
}
