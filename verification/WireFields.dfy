/**
 * What the generated Unmarshal methods of cmd/celestia/proto.go compute, for any message whose fields are
 * varints or byte strings, and the laws of the encoding: the last value wins, unknown fields change nothing,
 * and decoding undoes encoding.
 */
module WireFields {
  import opened Base
  import opened Varint
  import opened WireSkip

  datatype Kind = Int64Field | Uint32Field | StringField

  datatype Value = Num(n: int) | Str(s: Bytes)

  type Schema = map<int, Kind>

  type Message = map<int, Value>

  /** The message so far, the index behind the last field read, and the error, if any. */
  datatype Decoded = Decoded(msg: Message, next: nat, err: Option<WireError>)

  function FieldNumber(tag: Uint64): int {
    ToInt32(tag / 8)
  }

  /** A varint read into a field: all of it that fits, also when reading it fails half-way. */
  function DecodeNumber(m: Message, num: int, kind: Kind, v: Scan): Decoded {
    var n := if kind.Uint32Field? then LowBits(v.value, 32) else ToInt64(Word64(v.value));
    Decoded(m[num := Num(n)], v.next, v.err)
  }

  function DecodeString(m: Message, num: int, d: Bytes, len: Scan): Decoded
    requires |d| < TWO_63 && (len.next <= |d| || len.err.Some?)
  {
    if len.err.Some? then Decoded(m, len.next, len.err)
    else
      var n := ToInt64(Word64(len.value));
      if n < 0 then Decoded(m, len.next, Some(InvalidLength))
      else
        var end := AddInt64(len.next, n);
        if end < 0 then Decoded(m, len.next, Some(InvalidLength))
        else if end > |d| then Decoded(m, len.next, Some(UnexpectedEof))
        else Decoded(m[num := Str(d[len.next..end])], end, None)
  }

  function DecodeUnknown(m: Message, d: Bytes, i: nat): Decoded
    requires i <= |d| < TWO_63
  {
    var s := SkipFrom(d[i..], 0, 0);
    if s.err.Some? then Decoded(m, i, s.err)
    else if s.n >= TWO_63 || AddInt64(i, s.n) < 0 then Decoded(m, i, Some(InvalidLength))
    else if i + s.n > |d| then Decoded(m, i, Some(UnexpectedEof))
    else Decoded(m, i + s.n, None)
  }

  /** What a tag asks for: a value of the kind the schema gives, or something to skip. */
  function DecodeTagged(schema: Schema, m: Message, d: Bytes, i: nat, num: int, wireType: nat, after: nat): Decoded
    requires i <= |d| < TWO_63
  {
    if wireType == 4 then Decoded(m, after, Some(EndGroupForNonGroup))
    else if num <= 0 then Decoded(m, after, Some(IllegalTag))
    else if num !in schema then DecodeUnknown(m, d, i)
    else if wireType != (if schema[num].StringField? then 2 else 0) then Decoded(m, after, Some(WrongWireType))
    else if schema[num].StringField? then DecodeString(m, num, d, Read(d, after, 0))
    else DecodeNumber(m, num, schema[num], Read(d, after, 0))
  }

  /** One field, tag and value. */
  function DecodeField(schema: Schema, m: Message, d: Bytes, i: nat): (r: Decoded)
    requires i <= |d| < TWO_63
    ensures r.err.None? ==> i < r.next <= |d|
  {
    var tag := Read(d, i, 0);
    if tag.err.Some? then Decoded(m, tag.next, tag.err)
    else DecodeTagged(schema, m, d, i, FieldNumber(Word64(tag.value)), Word64(tag.value) % 8, tag.next)
  }

  /** Unmarshal from index `i` on. */
  function Decode(schema: Schema, m: Message, d: Bytes, i: nat): (r: Decoded)
    requires i <= |d| < TWO_63
    ensures r.err.None? ==> r.next == |d|
    decreases |d| - i
  {
    if i == |d| then Decoded(m, i, None)
    else
      var f := DecodeField(schema, m, d, i);
      if f.err.Some? then f else Decode(schema, f.msg, d, f.next)
  }

  // ---- Last one wins --------------------------------------------------------------------------

  /** A field decoded at the end of `a` is decoded alike when more bytes follow. */
  lemma FieldExtends(schema: Schema, m: Message, a: Bytes, b: Bytes, i: nat)
    requires i <= |a| && |a + b| < TWO_63 && DecodeField(schema, m, a, i).err.None?
    ensures DecodeField(schema, m, a + b, i) == DecodeField(schema, m, a, i)
  {
    hide Read, Word64, LowBits, SkipFrom;
    var tag := Read(a, i, 0);
    ReadExtends(a, b, i);
    var num := FieldNumber(Word64(tag.value));
    if num !in schema {
      UnknownExtends(m, a, b, i);
    } else {
      var f := DecodeField(schema, m, a, i);
      ReadExtends(a, b, tag.next);
      if schema[num].StringField? {
        var len := Read(a, tag.next, 0);
        assert (a + b)[len.next..f.next] == a[len.next..f.next];
      }
    }
  }

  lemma ReadExtends(a: Bytes, b: Bytes, i: nat)
    requires Read(a, i, 0).err.None?
    ensures Read(a + b, i, 0) == Read(a, i, 0)
  {
    var r := Read(a, i, 0);
    ReadIsVarint(a, i, 0);
    var t := a[i..r.next];
    assert (a + b)[i..i + |t|] == t;
    ReadsVarint(a + b, i, t, 0);
  }

  lemma UnknownExtends(m: Message, a: Bytes, b: Bytes, i: nat)
    requires i <= |a| && |a + b| < TWO_63 && DecodeUnknown(m, a, i).err.None?
    ensures DecodeUnknown(m, a + b, i) == DecodeUnknown(m, a, i)
  {
    hide SkipFrom;
    var n := SkipFrom(a[i..], 0, 0).n;
    var r := SkippedRecord(a[i..]);
    var rest := (a + b)[i..];
    assert At(rest, 0, Written(r)) by { assert rest[..n] == a[i..][..n]; }
    SkipsRecord(rest, 0, 0, r);
  }

  /**
   * The outcome of decoding some bytes, alone and behind others: the same message and the same error, but that what
   * runs past the end of the input alone may run past the greatest index behind others.
   */
  ghost predicate SameOutcome(alone: Decoded, behind: Decoded) {
    && alone.msg == behind.msg
    && (alone.err == behind.err || (alone.err == Some(UnexpectedEof) && behind.err == Some(InvalidLength)))
  }

  /** Reading behind a prefix is reading what follows it. */
  lemma {:induction false} ReadShifts(a: Bytes, b: Bytes, j: nat, shift: nat)
    ensures var r := Read(b, j, shift);
            Read(a + b, |a| + j, shift) == r.(next := |a| + r.next)
    decreases 64 - shift
  {
    if shift < 64 && j < |b| {
      assert (a + b)[|a| + j] == b[j];
      ReadShifts(a, b, j + 1, shift + 7);
    }
  }

  lemma FieldShifts(schema: Schema, m: Message, a: Bytes, b: Bytes, j: nat)
    requires j <= |b| && |a + b| < TWO_63
    ensures var r, s := DecodeField(schema, m, b, j), DecodeField(schema, m, a + b, |a| + j);
            SameOutcome(r, s) && (r.err.None? ==> s.next == |a| + r.next)
  {
    hide Read, Word64, DecodeTagged;
    var tag := Read(b, j, 0);
    ReadShifts(a, b, j, 0);
    if tag.err.None? {
      TaggedShifts(schema, m, a, b, j, FieldNumber(Word64(tag.value)), Word64(tag.value) % 8, tag.next);
    }
  }

  lemma TaggedShifts(schema: Schema, m: Message, a: Bytes, b: Bytes, j: nat, num: int, wireType: nat, after: nat)
    requires j <= |b| && |a + b| < TWO_63
    ensures var r := DecodeTagged(schema, m, b, j, num, wireType, after);
            var s := DecodeTagged(schema, m, a + b, |a| + j, num, wireType, |a| + after);
            SameOutcome(r, s) && (r.err.None? ==> s.next == |a| + r.next)
  {
    hide Read, Word64, LowBits, DecodeUnknown, DecodeString;
    ReadShifts(a, b, after, 0);
    UnknownShifts(m, a, b, j);
    StringShifts(m, num, a, b, Read(b, after, 0));
  }

  lemma UnknownShifts(m: Message, a: Bytes, b: Bytes, j: nat)
    requires j <= |b| && |a + b| < TWO_63
    ensures var r, s := DecodeUnknown(m, b, j), DecodeUnknown(m, a + b, |a| + j);
            SameOutcome(r, s) && (r.err.None? ==> s.next == |a| + r.next)
  {
    hide SkipFrom;
    assert (a + b)[|a| + j..] == b[j..];
  }

  lemma StringShifts(m: Message, num: int, a: Bytes, b: Bytes, len: Scan)
    requires |a + b| < TWO_63 && (len.next <= |b| || len.err.Some?)
    ensures var r, s := DecodeString(m, num, b, len), DecodeString(m, num, a + b, len.(next := |a| + len.next));
            SameOutcome(r, s) && (r.err.None? ==> s.next == |a| + r.next)
  {
    hide Word64;
    var n := ToInt64(Word64(len.value));
    if len.err.None? && 0 <= n && len.next + n <= |b| {
      assert (a + b)[|a| + len.next..|a| + len.next + n] == b[len.next..len.next + n];
    }
  }

  lemma {:induction false} DecodeShifts(schema: Schema, m: Message, a: Bytes, b: Bytes, j: nat)
    requires j <= |b| && |a + b| < TWO_63
    ensures SameOutcome(Decode(schema, m, b, j), Decode(schema, m, a + b, |a| + j))
    decreases |b| - j
  {
    hide DecodeField;
    if j < |b| {
      FieldShifts(schema, m, a, b, j);
      var f := DecodeField(schema, m, b, j);
      if f.err.None? {
        DecodeShifts(schema, f.msg, a, b, f.next);
      }
    }
  }

  lemma {:induction false} DecodePrefix(schema: Schema, m: Message, a: Bytes, b: Bytes, i: nat)
    requires i <= |a| && |a + b| < TWO_63 && Decode(schema, m, a, i).err.None?
    ensures Decode(schema, m, a + b, i) == Decode(schema, Decode(schema, m, a, i).msg, a + b, |a|)
    decreases |a| - i
  {
    hide DecodeField;
    if i < |a| {
      FieldExtends(schema, m, a, b, i);
      var f := DecodeField(schema, m, a, i);
      DecodePrefix(schema, f.msg, a, b, f.next);
    }
  }

  /**
   * Decoding a concatenation is decoding its second half onto the result of the first. Only an end of input may
   * turn into an invalid length: whether a string or an unknown record runs past the greatest index depends on where
   * it stands.
   */
  lemma LastOneWins(schema: Schema, m: Message, a: Bytes, b: Bytes)
    requires |a + b| < TWO_63 && Decode(schema, m, a, 0).err.None?
    ensures SameOutcome(Decode(schema, Decode(schema, m, a, 0).msg, b, 0), Decode(schema, m, a + b, 0))
  {
    DecodePrefix(schema, m, a, b, 0);
    DecodeShifts(schema, Decode(schema, m, a, 0).msg, a, b, 0);
  }

  const HEIGHT_ZERO: Bytes := [8, 0]
  const OVERLONG_STRING: Bytes := [34, 245, 255, 255, 255, 255, 255, 255, 255, 127]

  /** A string of length 2^63 - 11: alone it runs past the end of the input, behind another field past 2^63 - 1. */
  lemma ErrorMayDiffer(schema: Schema, m: Message)
    requires 1 in schema && schema[1] == Int64Field && 4 in schema && schema[4] == StringField
    ensures Decode(schema, m, HEIGHT_ZERO, 0) == Decoded(m[1 := Num(0)], 2, None)
    ensures Decode(schema, m[1 := Num(0)], OVERLONG_STRING, 0).err == Some(UnexpectedEof)
    ensures Decode(schema, m, HEIGHT_ZERO + OVERLONG_STRING, 0).err == Some(InvalidLength)
  {
    var d := HEIGHT_ZERO + OVERLONG_STRING;
    HeightZeroReads(schema, m, HEIGHT_ZERO);
    StringOverruns(schema, m[1 := Num(0)], OVERLONG_STRING, 0);
    HeightZeroReads(schema, m, d);
    assert d[2..12] == OVERLONG_STRING;
    StringOverruns(schema, m[1 := Num(0)], d, 2);
    hide DecodeField;
  }

  lemma HeightZeroReads(schema: Schema, m: Message, d: Bytes)
    requires 1 in schema && schema[1] == Int64Field && 2 <= |d| < TWO_63 && d[0] == 8 && d[1] == 0
    ensures DecodeField(schema, m, d, 0) == Decoded(m[1 := Num(0)], 2, None)
  {
    SmallReads(d, 0, 8);
    SmallReads(d, 1, 0);
    hide Read;
  }

  lemma SmallReads(d: Bytes, i: nat, v: Byte)
    requires i < |d| && d[i] == v < 128
    ensures Read(d, i, 0) == Scan(v, i + 1, None)
  {
    EncodeStep(v);
    ReadEncoded(d, i, v);
  }

  lemma StringOverruns(schema: Schema, m: Message, d: Bytes, i: nat)
    requires 4 in schema && schema[4] == StringField
    requires i <= 2 && |d| == i + 10 && d[i..i + 10] == OVERLONG_STRING
    ensures Decode(schema, m, d, i).err == Some(if i == 0 then UnexpectedEof else InvalidLength)
  {
    OverlongReads(d, i);
    StringTag();
    StringEnd(m, d, i);
    hide Read, Encode, DecodeUnknown, DecodeString, DecodeNumber, Word64, FieldNumber;
    var f := DecodeField(schema, m, d, i);
    assert f == DecodeString(m, 4, d, Scan(TWO_63 - 11, i + 10, None));
  }

  lemma StringTag()
    ensures Word64(34) == 34 && FieldNumber(34) == 4
  {
    hide Word64;
  }

  lemma StringEnd(m: Message, d: Bytes, i: nat)
    requires i <= 2 && |d| == i + 10
    ensures DecodeString(m, 4, d, Scan(TWO_63 - 11, i + 10, None)).err == Some(if i == 0 then UnexpectedEof else InvalidLength)
  {
    assert Word64(TWO_63 - 11) == TWO_63 - 11;
    assert ToInt64(TWO_63 - 11) == TWO_63 - 11;
  }

  lemma OverlongReads(d: Bytes, i: nat)
    requires |d| == i + 10 && d[i..i + 10] == OVERLONG_STRING
    ensures Read(d, i, 0) == Scan(34, i + 1, None)
    ensures Read(d, i + 1, 0) == Scan(TWO_63 - 11, i + 10, None)
  {
    hide Read, Encode;
    assert d[i] == d[i..i + 10][0] && d[i + 1..i + 10] == d[i..i + 10][1..];
    SmallReads(d, i, 34);
    OverlongEncoded();
    ReadEncoded(d, i + 1, TWO_63 - 11);
  }

  lemma OverlongEncoded()
    ensures Encode(TWO_63 - 11) == OVERLONG_STRING[1..]
  {
    EncodeStep(TWO_63 - 11);
    EncodeStep(0xFF_FFFF_FFFF_FFFF);
    EncodeStep(0x1_FFFF_FFFF_FFFF);
    EncodeStep(0x3FF_FFFF_FFFF);
    EncodeStep(0x7_FFFF_FFFF);
    EncodeStep(0xFFF_FFFF);
    EncodeStep(0x1F_FFFF);
    EncodeStep(0x3FFF);
    EncodeStep(0x7F);
    hide Encode;
  }

  // ---- Unknown fields -------------------------------------------------------------------------

  /** A well-formed record under a number the schema does not have is passed over, wherever it stands. */
  lemma UnknownFieldIgnored(schema: Schema, m: Message, d: Bytes, i: nat, r: Record)
    requires |d| < TWO_63 && Valid(r) && At(d, i, Written(r))
    requires var num := FieldNumber(Word64(VarintValue(r.tag))); num > 0 && num !in schema
    ensures Decode(schema, m, d, i) == Decode(schema, m, d, i + |Written(r)|)
  {
    hide DecodeField, Word64, Read, VarintValue, Valid, Written, FieldNumber, IsVarint;
    TagStands(d, i, r);
    UnknownField(schema, m, d, i, r);
  }

  lemma UnknownField(schema: Schema, m: Message, d: Bytes, i: nat, r: Record)
    requires |d| < TWO_63 && Valid(r) && At(d, i, Written(r))
    requires var num := FieldNumber(Word64(VarintValue(r.tag))); num > 0 && num !in schema
    ensures DecodeField(schema, m, d, i) == Decoded(m, i + |Written(r)|, None)
  {
    hide Word64, Read, SkipFrom, Written;
    var w := Written(r);
    TagStands(d, i, r);
    var rest := d[i..];
    assert rest[..|w|] == d[i..i + |w|];
    assert At(rest, 0, w);
    SkipsRecord(rest, 0, 0, r);
    assert DecodeField(schema, m, d, i) == Decoded(m, i + |w|, None);
  }

  /** A record's tag is read first, and it does not close a group. */
  lemma TagStands(d: Bytes, i: nat, r: Record)
    requires Valid(r) && At(d, i, Written(r))
    ensures Read(d, i, 0) == Scan(VarintValue(r.tag), i + |r.tag|, None) && i < |d|
    ensures Word64(VarintValue(r.tag)) % 8 != 4
    ensures |Written(r)| > 0
  {
    hide Word64, Read;
    var w := Written(r);
    assert w == r.tag + w[|r.tag|..];
    AtSplit(d, i, r.tag, w[|r.tag|..]);
    TagReads(d, i, r.tag);
  }

  // ---- Decoding what was encoded ----------------------------------------------------------------

  datatype Field = Field(num: int, value: Value)

  /** The field's number can be tagged, and its value is one its kind can hold. */
  ghost predicate Fits(schema: Schema, f: Field) {
    && 1 <= f.num < 0x1000_0000 && f.num in schema
    && match schema[f.num] {
         case Int64Field => f.value.Num? && -TWO_63 <= f.value.n < TWO_63
         case Uint32Field => f.value.Num? && 0 <= f.value.n < TWO_32
         case StringField => f.value.Str? && |f.value.s| < TWO_63
       }
  }

  predicate IsDefault(v: Value) {
    v == Num(0) || v == Str([])
  }

  function Tag(num: nat, v: Value): nat {
    num * 8 + if v.Str? then 2 else 0
  }

  /** A field as it is written: nothing at all for a default value. */
  function EncodeField(f: Field): Bytes
    requires f.num >= 0 && (f.value.Num? ==> -TWO_63 <= f.value.n < TWO_63)
  {
    if IsDefault(f.value) then []
    else
      Encode(Tag(f.num, f.value)) +
      match f.value
      case Num(n) => Encode(ToUint64(n))
      case Str(s) => Encode(|s|) + s
  }

  ghost predicate AllFit(schema: Schema, fs: seq<Field>) {
    forall f :: f in fs ==> Fits(schema, f)
  }

  function EncodeAll(schema: Schema, fs: seq<Field>): Bytes
    requires AllFit(schema, fs)
  {
    if fs == [] then [] else
      assert fs[0] in fs;
      EncodeField(fs[0]) + EncodeAll(schema, fs[1..])
  }

  /** The message after reading the fields' encodings: default values were never written. */
  function Assign(m: Message, fs: seq<Field>): Message
    decreases |fs|
  {
    if fs == [] then m
    else Assign(if IsDefault(fs[0].value) then m else m[fs[0].num := fs[0].value], fs[1..])
  }

  /** One encoded field is decoded to its value: no bit of it is lost. */
  lemma DecodesField(schema: Schema, m: Message, d: Bytes, i: nat, f: Field)
    requires |d| < TWO_63 && Fits(schema, f) && !IsDefault(f.value) && At(d, i, EncodeField(f))
    ensures i < |d| && DecodeField(schema, m, d, i) == Decoded(m[f.num := f.value], i + |EncodeField(f)|, None)
  {
    hide Word64, Read, At, Encode, IsVarint, VarintValue, LowBits;
    var tag := Tag(f.num, f.value);
    TagRoundTrip(f.num, f.value);
    var body := match f.value case Num(n) => Encode(ToUint64(n)) case Str(s) => Encode(|s|) + s;
    AtSplit(d, i, Encode(tag), body);
    ReadEncoded(d, i, tag);
    if f.value.Num? {
      DecodesNumber(m, f.num, schema[f.num], d, i + |Encode(tag)|, f.value.n);
    } else {
      DecodesString(m, f.num, d, i + |Encode(tag)|, f.value.s);
    }
  }

  lemma DecodesNumber(m: Message, num: int, kind: Kind, d: Bytes, i: nat, n: Int64)
    requires At(d, i, Encode(ToUint64(n))) && (kind.Uint32Field? ==> 0 <= n < TWO_32)
    ensures DecodeNumber(m, num, kind, Read(d, i, 0)) ==
            Decoded(m[num := Num(n)], i + |Encode(ToUint64(n))|, None)
  {
    hide Word64, Read, Encode, LowBits, At;
    ReadEncoded(d, i, ToUint64(n));
    if kind.Uint32Field? {
      NumberFits(n);
    }
  }

  lemma DecodesString(m: Message, num: int, d: Bytes, i: nat, s: Bytes)
    requires |d| < TWO_63 && At(d, i, Encode(|s|) + s)
    ensures var len := Read(d, i, 0);
            && (len.next <= |d| || len.err.Some?)
            && DecodeString(m, num, d, len) == Decoded(m[num := Str(s)], i + |Encode(|s|) + s|, None)
  {
    hide Word64, Read, Encode, At;
    AtSplit(d, i, Encode(|s|), s);
    ReadEncoded(d, i, |s|);
    StringStands(d, i + |Encode(|s|)|, s);
  }

  lemma StringStands(d: Bytes, i: nat, s: Bytes)
    requires At(d, i, s)
    ensures i + |s| <= |d| && d[i..i + |s|] == s
  {
  }

  lemma NumberFits(n: int)
    requires 0 <= n < TWO_32
    ensures LowBits(n, 32) == n
  {
    LowBitsBound(n, 32);
    WordSizes();
  }

  lemma TagRoundTrip(num: int, v: Value)
    requires 1 <= num < 0x1000_0000
    ensures Tag(num, v) < TWO_64 && FieldNumber(Tag(num, v)) == num && Tag(num, v) % 8 == if v.Str? then 2 else 0
  {
  }

  /** Decoding a run of encoded fields assigns them, one after the other. */
  lemma {:induction false} DecodesAll(schema: Schema, m: Message, d: Bytes, i: nat, fs: seq<Field>)
    requires |d| < TWO_63 && AllFit(schema, fs) && At(d, i, EncodeAll(schema, fs))
    ensures Decode(schema, m, d, i) == Decode(schema, Assign(m, fs), d, i + |EncodeAll(schema, fs)|)
    decreases |fs|
  {
    hide DecodeField, EncodeField, At;
    if fs != [] {
      assert fs[0] in fs;
      var f, rest := fs[0], fs[1..];
      AtSplit(d, i, EncodeField(f), EncodeAll(schema, rest));
      if IsDefault(f.value) {
        assert EncodeField(f) == [] by { NothingWritten(f); }
        DecodesAll(schema, m, d, i, rest);
      } else {
        DecodesField(schema, m, d, i, f);
        DecodesAll(schema, m[f.num := f.value], d, i + |EncodeField(f)|, rest);
      }
    }
  }

  lemma NothingWritten(f: Field)
    requires f.num >= 0 && IsDefault(f.value)
    ensures EncodeField(f) == []
  {
  }

  /** The round trip, for any schema and any values the fields can hold. */
  lemma DecodeEncode(schema: Schema, m: Message, fs: seq<Field>)
    requires AllFit(schema, fs) && |EncodeAll(schema, fs)| < TWO_63
    ensures Decode(schema, m, EncodeAll(schema, fs), 0) ==
            Decoded(Assign(m, fs), |EncodeAll(schema, fs)|, None)
  {
    hide EncodeAll, Assign, DecodeField;
    var d := EncodeAll(schema, fs);
    assert At(d, 0, d);
    DecodesAll(schema, m, d, 0, fs);
  }
}
