/** Base 128 varints: the backwards writer and the reader of cmd/celestia/proto.go. */
module Varint {
  import opened Base

  datatype WireError =
    | IntOverflow
    | UnexpectedEof
    | InvalidLength
    | UnexpectedEndOfGroup
    | EndGroupForNonGroup
    | IllegalTag
    | WrongWireType
    | IllegalWireType

  /** Outcome of reading a varint: the number read so far, the next index and the error, if any. */
  datatype Scan = Scan(value: nat, next: nat, err: Option<WireError>)

  /** The canonical varint of `v`: little-endian groups of seven bits, continuation bit on all but the last. */
  function Encode(v: nat): (s: Bytes)
    ensures |s| >= 1
  {
    if v < 128 then [v] else [v % 128 + 128] + Encode(v / 128)
  }

  /** The little-endian number written at `i`, before it is cut to any width; at most ten groups are read. */
  function Read(d: Bytes, i: nat, shift: nat): (r: Scan)
    ensures r.err.None? ==> i < r.next <= |d|
    ensures r.next >= i
    decreases 64 - shift
  {
    if shift >= 64 then Scan(0, i, Some(IntOverflow))
    else if i >= |d| then Scan(0, i, Some(UnexpectedEof))
    else if d[i] < 128 then Scan(d[i], i + 1, None)
    else
      var r := Read(d, i + 1, shift + 7);
      r.(value := d[i] % 128 + 128 * r.value)
  }

  /**
   * The reader's loop. Every group is shifted and cut to `width` bits before it is or-ed into the
   * accumulator; the groups occupy disjoint bits, so that in the end they add up.
   */
  method ReadVarint(d: Bytes, i: nat, width: nat) returns (r: Scan)
    ensures var whole := Read(d, i, 0);
            r == whole.(value := LowBits(whole.value, width))
  {
    hide LowBits, Shl, Or, Read, Loop;
    var value, next, shift := 0, i, 0;
    ghost var raw: nat := 0;
    LowBitsZero(width);
    LoopStarts(d, i);
    while true
      invariant next >= i && value == LowBits(raw, width)
      invariant Loop(d, i, next, shift, raw)
      decreases 64 - shift
    {
      if shift >= 64 {
        LoopFails(d, i, next, shift, raw);
        return Scan(value, next, Some(IntOverflow));
      }
      if next >= |d| {
        LoopFails(d, i, next, shift, raw);
        return Scan(value, next, Some(UnexpectedEof));
      }
      LoopStep(d, i, next, shift, raw, width);
      var b := d[next];
      next := next + 1;
      value := Or(value, LowBits(Shl(b % 128, shift), width));
      raw := raw + Shl(b % 128, shift);
      if b < 128 {
        return Scan(value, next, None);
      }
      shift := shift + 7;
    }
  }

  /** The loop's invariant: what is still to be read completes `raw`, which fits below `shift`. */
  ghost predicate Loop(d: Bytes, i: nat, next: nat, shift: nat, raw: nat) {
    raw < Shl(1, shift) && Read(d, i, 0) == Complete(raw, shift, Read(d, next, shift))
  }

  function Complete(raw: nat, shift: nat, rest: Scan): Scan {
    Scan(raw + Shl(rest.value, shift), rest.next, rest.err)
  }

  lemma LoopStarts(d: Bytes, i: nat)
    ensures Loop(d, i, i, 0, 0)
  {
  }

  lemma LoopFails(d: Bytes, i: nat, next: nat, shift: nat, raw: nat)
    requires Loop(d, i, next, shift, raw) && (shift >= 64 || next >= |d|)
    ensures Read(d, i, 0) == Scan(raw, next, Some(if shift >= 64 then IntOverflow else UnexpectedEof))
  {
    ShlZero(shift);
  }

  lemma LoopStep(d: Bytes, i: nat, next: nat, shift: nat, raw: nat, width: nat)
    requires Loop(d, i, next, shift, raw) && shift < 64 && next < |d|
    ensures var group := Shl(d[next] % 128, shift);
            && Or(LowBits(raw, width), LowBits(group, width)) == LowBits(raw + group, width)
            && (d[next] < 128 ==> Read(d, i, 0) == Scan(raw + group, next + 1, None))
            && (d[next] >= 128 ==> Loop(d, i, next + 1, shift + 7, raw + group))
  {
    hide LowBits, Loop, Shl, Or;
    TakeGroup(raw, d[next] % 128, shift, width, Read(d, next + 1, shift + 7).value) by {
      LoopBound(d, i, next, shift, raw);
    }
    if d[next] < 128 {
      LoopLast(d, i, next, shift, raw);
    } else {
      LoopMore(d, i, next, shift, raw, width);
    }
  }

  lemma LoopBound(d: Bytes, i: nat, next: nat, shift: nat, raw: nat)
    requires Loop(d, i, next, shift, raw)
    ensures raw < Shl(1, shift)
  {
  }

  lemma LoopLast(d: Bytes, i: nat, next: nat, shift: nat, raw: nat)
    requires Loop(d, i, next, shift, raw) && shift < 64 && next < |d| && d[next] < 128
    ensures Read(d, i, 0) == Scan(raw + Shl(d[next] % 128, shift), next + 1, None)
  {
    hide Shl;
    assert Read(d, next, shift) == Scan(d[next] % 128, next + 1, None);
  }

  lemma LoopMore(d: Bytes, i: nat, next: nat, shift: nat, raw: nat, width: nat)
    requires Loop(d, i, next, shift, raw) && shift < 64 && next < |d| && d[next] >= 128
    ensures Loop(d, i, next + 1, shift + 7, raw + Shl(d[next] % 128, shift))
  {
    hide Shl;
    var rest := Read(d, next + 1, shift + 7);
    assert Read(d, next, shift) == Scan(d[next] % 128 + 128 * rest.value, rest.next, rest.err);
    TakeGroup(raw, d[next] % 128, shift, width, rest.value);
  }

  lemma {:induction false} ShlZero(s: nat)
    ensures Shl(0, s) == 0
  {
    if s > 0 {
      ShlZero(s - 1);
    }
  }

  /** Moving one group from the unread part to the accumulator: no carry is lost, no bit is. */
  lemma TakeGroup(raw: nat, b: nat, shift: nat, width: nat, rest: nat)
    requires raw < Shl(1, shift) && b < 128
    ensures Or(LowBits(raw, width), LowBits(Shl(b, shift), width)) == LowBits(raw + Shl(b, shift), width)
    ensures raw + Shl(b, shift) < Shl(1, shift + 7)
    ensures raw + Shl(b + 128 * rest, shift) == raw + Shl(b, shift) + Shl(rest, shift + 7)
  {
    OrIsSum(raw, b, shift, width);
    ShlAdd(b, 128 * rest, shift);
    ShlSeven(rest, shift);
    ShlSeven(1, shift);
    ShlAdd(b, 1, shift);
    ShlMonotone(b + 1, 128, shift);
  }

  lemma ShlSeven(x: nat, s: nat)
    ensures Shl(x, s + 7) == Shl(128 * x, s)
  {
    ShlShl(x, 7, s);
    TimesPowerOfTwo(x);
  }

  lemma TimesPowerOfTwo(x: nat)
    ensures Shl(x, 1) == 2 * x && Shl(x, 2) == 4 * x && Shl(x, 3) == 8 * x && Shl(x, 4) == 16 * x
    ensures Shl(x, 5) == 32 * x && Shl(x, 6) == 64 * x && Shl(x, 7) == 128 * x
  {
    assert Shl(x, 1) == 2 * Shl(x, 0);
  }

  // ---- Sizes -------------------------------------------------------------------------------

  /** Number of bits needed to write `x`: `bits.Len64`. */
  function BitLen(x: nat): nat {
    if x == 0 then 0 else 1 + BitLen(x / 2)
  }

  /** sovTypes: `(Len64(x|1) + 6) / 7`. */
  function Sov(x: nat): nat {
    (BitLen(if x % 2 == 0 then x + 1 else x) + 6) / 7
  }

  /** The space reserved for a varint is the space it takes, and the least that can hold it. */
  lemma {:induction false} SovIsLeast(x: nat)
    ensures Sov(x) == |Encode(x)| >= 1
    ensures x < Pow(128, Sov(x))
    ensures forall n: nat :: 1 <= n && x < Pow(128, n) ==> Sov(x) <= n
  {
    SovStep(x);
    EncodeStep(x);
    hide Sov, Encode;
    assert Pow(128, 0) == 1;
    if x < 128 {
      assert Pow(128, 1) == 128 * Pow(128, 0);
    } else {
      SovIsLeast(x / 128);
      assert Pow(128, Sov(x)) == 128 * Pow(128, Sov(x / 128));
      forall n: nat | 1 <= n && x < Pow(128, n)
        ensures Sov(x) <= n
      {
        assert Pow(128, n) == 128 * Pow(128, n - 1);
        assert n > 1 && x / 128 < Pow(128, n - 1);
      }
    }
  }

  /** Seven bits more take one byte more. */
  lemma SovStep(x: nat)
    ensures Sov(x) == if x < 128 then 1 else 1 + Sov(x / 128)
  {
    var y := if x % 2 == 0 then x + 1 else x;
    if x < 128 {
      BitLenSmall(y);
    } else {
      BitLenShift(y);
      assert y / 128 == x / 128;
      BitLenOdd(x / 128);
    }
  }

  lemma BitLenSmall(y: nat)
    requires 1 <= y < 128
    ensures 1 <= BitLen(y) <= 7
  {
    assert BitLen(y) == 1 + BitLen(y / 2);
    var a := y / 2;
    var b := a / 2;
    var c := b / 2;
    var d := c / 2;
    var e := d / 2;
    var f := e / 2;
    assert f < 2;
    assert BitLen(f) <= 1;
    assert BitLen(e) <= 2;
    assert BitLen(d) <= 3;
    assert BitLen(c) <= 4;
    assert BitLen(b) <= 5;
    assert BitLen(a) <= 6;
  }

  lemma BitLenShift(y: nat)
    requires y >= 128
    ensures BitLen(y) == 7 + BitLen(y / 128)
  {
    var a := y / 2;
    var b := a / 2;
    var c := b / 2;
    var d := c / 2;
    var e := d / 2;
    var f := e / 2;
    assert f / 2 == y / 128;
    assert BitLen(f) == 1 + BitLen(y / 128);
    assert BitLen(e) == 2 + BitLen(y / 128);
    assert BitLen(d) == 3 + BitLen(y / 128);
    assert BitLen(c) == 4 + BitLen(y / 128);
    assert BitLen(b) == 5 + BitLen(y / 128);
    assert BitLen(a) == 6 + BitLen(y / 128);
  }

  lemma BitLenOdd(q: nat)
    requires q >= 1
    ensures BitLen(if q % 2 == 0 then q + 1 else q) == BitLen(q)
  {
    if q % 2 == 0 {
      assert (q + 1) / 2 == q / 2;
    }
  }

  // ---- The writer --------------------------------------------------------------------------

  /** encodeVarintTypes: writes the varint so that it ends just before `offset`. */
  method EncodeVarint(buf: array<Byte>, offset: nat, v: Uint64) returns (base: nat)
    requires Sov(v) <= offset <= buf.Length
    modifies buf
    ensures base == offset - Sov(v)
    ensures buf[..] == old(buf[..])[..base] + Encode(v) + old(buf[..])[offset..]
  {
    hide Sov, Encode;
    SovIsLeast(v);
    var at := offset - Sov(v);
    base := at;
    var rest: nat := v;
    ghost var done: Bytes, was := [], buf[..];
    assert was == was[..base] + done + was[at..];
    while rest >= 128
      invariant base == offset - Sov(v) && at == base + |done| && at + |Encode(rest)| == offset
      invariant done + Encode(rest) == Encode(v)
      invariant buf[..] == was[..base] + done + was[at..]
    {
      var b := rest % 128 + 128;
      EncodeStep(rest);
      MoveFirst(done, b, Encode(rest / 128));
      Splice(was, base, done, b);
      Store(buf, at, b);
      done := done + [b];
      rest := rest / 128;
      at := at + 1;
    }
    EncodeStep(rest);
    Splice(was, base, done, rest);
    Store(buf, at, rest);
  }

  lemma EncodeStep(v: nat)
    ensures Encode(v) == if v >= 128 then [v % 128 + 128] + Encode(v / 128) else [v]
  {
  }

  /** One byte written in place. */
  method Store(buf: array<Byte>, at: nat, b: Byte)
    requires at < buf.Length
    modifies buf
    ensures buf[..] == old(buf[..])[at := b]
  {
    buf[at] := b;
  }

  lemma MoveFirst(s: Bytes, b: Byte, t: Bytes)
    ensures s + ([b] + t) == (s + [b]) + t
  {
  }

  lemma Splice(was: Bytes, base: nat, done: Bytes, b: Byte)
    requires base + |done| < |was|
    ensures var at := base + |done|;
            (was[..base] + done + was[at..])[at := b] == was[..base] + (done + [b]) + was[at + 1..]
  {
  }

  /** What an unsigned 64-bit variable keeps of `x`. */
  function Word64(x: nat): (u: Uint64)
    ensures x < TWO_64 ==> u == x
  {
    LowBitsBound(x, 64);
    WordSizes();
    LowBits(x, 64)
  }

  // ---- The varint grammar ------------------------------------------------------------------

  /** One to ten groups, all but the last with the continuation bit. */
  ghost predicate IsVarint(t: Bytes) {
    && 1 <= |t| <= 10
    && t[|t| - 1] < 128
    && forall j :: 0 <= j < |t| - 1 ==> t[j] >= 128
  }

  function VarintValue(t: Bytes): nat {
    if t == [] then 0 else t[0] % 128 + 128 * VarintValue(t[1..])
  }

  /** A well-formed varint is read in full, with its value, whatever follows it. */
  lemma {:induction false} ReadsVarint(d: Bytes, i: nat, t: Bytes, shift: nat)
    requires |t| >= 1 && t[|t| - 1] < 128 && forall j :: 0 <= j < |t| - 1 ==> t[j] >= 128
    requires shift + 7 * |t| <= 70
    requires At(d, i, t)
    ensures Read(d, i, shift) == Scan(VarintValue(t), i + |t|, None)
    decreases |t|
  {
    assert t == [t[0]] + t[1..];
    AtSplit(d, i, [t[0]], t[1..]);
    assert d[i] == t[0];
    if |t| == 1 {
      assert VarintValue(t[1..]) == 0;
    } else {
      ReadsVarint(d, i + 1, t[1..], shift + 7);
    }
  }

  /** Whatever is read is a well-formed varint. */
  lemma {:induction false} ReadIsVarint(d: Bytes, i: nat, shift: nat)
    requires shift % 7 == 0 && Read(d, i, shift).err.None?
    ensures var r := Read(d, i, shift);
            var t := d[i..r.next];
            && shift + 7 * |t| <= 70 && |t| >= 1 && t[|t| - 1] < 128
            && (forall j :: 0 <= j < |t| - 1 ==> t[j] >= 128)
            && r.value == VarintValue(t)
    decreases 64 - shift
  {
    var r := Read(d, i, shift);
    var t := d[i..r.next];
    if d[i] < 128 {
      assert VarintValue(t[1..]) == 0;
    } else {
      ReadIsVarint(d, i + 1, shift + 7);
      assert t[1..] == d[i + 1..r.next];
      forall j | 0 <= j < |t| - 1
        ensures t[j] >= 128
      {
        if j > 0 {
          assert t[1..][j - 1] == t[j];
        }
      }
    }
  }

  // ---- Reading what was written --------------------------------------------------------------

  lemma ShlBelow(v: nat, s: nat)
    requires 128 <= v < Shl(1, s)
    ensures s > 7 && v / 128 < Shl(1, s - 7)
  {
    TimesPowerOfTwo(1);
    if s >= 7 {
      ShlShl(1, s - 7, 7);
      TimesPowerOfTwo(Shl(1, s - 7));
    }
  }

  /** The canonical varint of a 64-bit number is well formed and has that value. */
  lemma {:induction false} EncodeIsVarint(v: nat, shift: nat)
    requires shift < 64 && v < Shl(1, 64 - shift)
    ensures var e := Encode(v);
            && shift + 7 * |e| <= 70 && e[|e| - 1] < 128
            && (forall j :: 0 <= j < |e| - 1 ==> e[j] >= 128)
            && VarintValue(e) == v
    decreases v
  {
    EncodeStep(v);
    hide Encode, Shl;
    if v < 128 {
      assert [v][1..] == [];
    } else {
      ShlBelow(v, 64 - shift);
      EncodeIsVarint(v / 128, shift + 7);
      Continued(v % 128 + 128, Encode(v / 128));
    }
  }

  /** One more group in front, with the continuation bit. */
  lemma Continued(b: Byte, t: Bytes)
    requires b >= 128 && |t| >= 1 && forall j :: 0 <= j < |t| - 1 ==> t[j] >= 128
    ensures var e := [b] + t;
            && |e| == |t| + 1 && e[|e| - 1] == t[|t| - 1] && VarintValue(e) == b - 128 + 128 * VarintValue(t)
            && forall j :: 0 <= j < |e| - 1 ==> e[j] >= 128
  {
    var e := [b] + t;
    assert e[1..] == t;
    forall j | 0 <= j < |e| - 1
      ensures e[j] >= 128
    {
      if j > 0 {
        assert e[j] == t[j - 1];
      }
    }
  }

  /** A canonical varint reads back, whatever follows it. */
  lemma ReadEncoded(d: Bytes, i: nat, v: Uint64)
    requires At(d, i, Encode(v))
    ensures IsVarint(Encode(v)) && VarintValue(Encode(v)) == v
    ensures Read(d, i, 0) == Scan(v, i + |Encode(v)|, None)
  {
    WordSizes();
    EncodeIsVarint(v, 0);
    ReadsVarint(d, i, Encode(v), 0);
  }
}
