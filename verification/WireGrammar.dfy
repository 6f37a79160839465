/**
 * Which inputs the Unmarshal methods accept, and what they make of them, in terms of the records of the wire format; and
 * the examples of the format's documentation.
 */
module WireGrammar {
  import opened Base
  import opened Varint
  import opened WireSkip
  import opened WireFields
  import opened WireMessages

  /** The number of a tag: all but its last three bits, as a signed 32-bit number. */
  function NumberIn(tag: Bytes): int {
    FieldNumber(Word64(VarintValue(tag)))
  }

  /** A record that can stand in a message: with a positive number and, if the number is known, of the field's type. */
  ghost predicate Acceptable(schema: Schema, r: Record) {
    && Valid(r) && NumberIn(r.tag) > 0
    && (NumberIn(r.tag) in schema ==> if schema[NumberIn(r.tag)].StringField? then r.Delimited? else r.VarintRecord?)
  }

  ghost predicate AllAcceptable(schema: Schema, rs: Records) {
    match rs
    case Nil => true
    case Cons(r, rest) => Acceptable(schema, r) && AllAcceptable(schema, rest)
  }

  /** The number a varint stands for in a field: as many of its low bits as fit. */
  function NumberFor(kind: Kind, value: nat): int {
    if kind.Uint32Field? then LowBits(value, 32) else ToInt64(Word64(value))
  }

  /** The message after a record: changed by one with a known number, only. */
  ghost function With(schema: Schema, m: Message, r: Record): Message
    requires Acceptable(schema, r)
  {
    var num := NumberIn(r.tag);
    if num !in schema then m
    else if schema[num].StringField? then m[num := Str(r.payload)]
    else m[num := Num(NumberFor(schema[num], VarintValue(r.value)))]
  }

  ghost function WithAll(schema: Schema, m: Message, rs: Records): Message
    requires AllAcceptable(schema, rs)
    decreases rs
  {
    match rs
    case Nil => m
    case Cons(r, rest) => WithAll(schema, With(schema, m, r), rest)
  }

  // ---- Every acceptable input is decoded ---------------------------------------------------------------

  lemma DecodesRecord(schema: Schema, m: Message, d: Bytes, i: nat, r: Record)
    requires |d| < TWO_63 && Acceptable(schema, r) && At(d, i, Written(r))
    ensures i < |d| && DecodeField(schema, m, d, i) == Decoded(With(schema, m, r), i + |Written(r)|, None)
  {
    TagStands(d, i, r);
    var num := NumberIn(r.tag);
    if num !in schema {
      UnknownField(schema, m, d, i, r);
    } else if schema[num].StringField? {
      DecodesDelimited(schema, m, d, i, r);
    } else {
      DecodesVarint(schema, m, d, i, r);
    }
  }

  lemma DecodesVarint(schema: Schema, m: Message, d: Bytes, i: nat, r: Record)
    requires |d| < TWO_63 && Acceptable(schema, r) && At(d, i, Written(r)) && r.VarintRecord? && NumberIn(r.tag) in schema
    ensures DecodeField(schema, m, d, i) == Decoded(With(schema, m, r), i + |Written(r)|, None)
  {
    hide Word64, Read, LowBits, IsVarint, VarintValue, FieldNumber, At, DecodeUnknown;
    TagStands(d, i, r);
    AtSplit(d, i, r.tag, r.value);
    TagReads(d, i + |r.tag|, r.value);
  }

  lemma DecodesDelimited(schema: Schema, m: Message, d: Bytes, i: nat, r: Record)
    requires |d| < TWO_63 && Acceptable(schema, r) && At(d, i, Written(r)) && r.Delimited? && NumberIn(r.tag) in schema
    ensures DecodeField(schema, m, d, i) == Decoded(With(schema, m, r), i + |Written(r)|, None)
  {
    hide Word64, Read, LowBits, IsVarint, VarintValue, FieldNumber, At, DecodeUnknown, DecodeNumber;
    TagStands(d, i, r);
    AtSplit(d, i, r.tag, r.length + r.payload);
    AtSplit(d, i + |r.tag|, r.length, r.payload);
    TagReads(d, i + |r.tag|, r.length);
    StringStands(d, i + |r.tag| + |r.length|, r.payload);
  }

  lemma {:induction false} DecodesRecords(schema: Schema, m: Message, d: Bytes, i: nat, rs: Records)
    requires |d| < TWO_63 && AllAcceptable(schema, rs) && At(d, i, WrittenAll(rs)) && i + |WrittenAll(rs)| == |d|
    ensures Decode(schema, m, d, i) == Decoded(WithAll(schema, m, rs), |d|, None)
    decreases rs
  {
    hide DecodeField, Acceptable, With, Written, At;
    match rs
    case Nil => assert i == |d|;
    case Cons(r, rest) =>
      AtSplit(d, i, Written(r), WrittenAll(rest));
      DecodesRecord(schema, m, d, i, r);
      DecodesRecords(schema, With(schema, m, r), d, i + |Written(r)|, rest);
  }

  // ---- Nothing else is ----------------------------------------------------------------------------------

  lemma RecordOf(schema: Schema, m: Message, d: Bytes, i: nat) returns (r: Record)
    requires i <= |d| < TWO_63 && DecodeField(schema, m, d, i).err.None?
    ensures Acceptable(schema, r) && Written(r) == d[i..DecodeField(schema, m, d, i).next]
  {
    var tag := Read(d, i, 0);
    var num := FieldNumber(Word64(tag.value));
    if num !in schema {
      r := UnknownRecordOf(schema, m, d, i);
    } else if schema[num].StringField? {
      r := DelimitedOf(schema, m, d, i);
    } else {
      r := VarintOf(schema, m, d, i);
    }
    hide DecodeField, Acceptable, Written, Read;
  }

  lemma VarintOf(schema: Schema, m: Message, d: Bytes, i: nat) returns (r: Record)
    requires i <= |d| < TWO_63 && DecodeField(schema, m, d, i).err.None?
    requires var num := FieldNumber(Word64(Read(d, i, 0).value)); num in schema && !schema[num].StringField?
    ensures Acceptable(schema, r) && Written(r) == d[i..DecodeField(schema, m, d, i).next]
  {
    var tag := Read(d, i, 0);
    ReadTagOf(d, i);
    ReadTagOf(d, tag.next);
    hide Word64, LowBits, FieldNumber, SkipFrom, Read, IsVarint, VarintValue, DecodeUnknown, DecodeString;
    var next := Read(d, tag.next, 0).next;
    SliceJoin(d, i, tag.next, next);
    r := VarintRecord(d[i..tag.next], d[tag.next..next]);
  }

  lemma DelimitedOf(schema: Schema, m: Message, d: Bytes, i: nat) returns (r: Record)
    requires i <= |d| < TWO_63 && DecodeField(schema, m, d, i).err.None?
    requires var num := FieldNumber(Word64(Read(d, i, 0).value)); num in schema && schema[num].StringField?
    ensures Acceptable(schema, r) && Written(r) == d[i..DecodeField(schema, m, d, i).next]
  {
    var tag, f := Read(d, i, 0), DecodeField(schema, m, d, i);
    ReadTagOf(d, i);
    ReadTagOf(d, tag.next);
    hide Word64, LowBits, FieldNumber, SkipFrom, Read, IsVarint, VarintValue, DecodeUnknown, DecodeNumber;
    var next := Read(d, tag.next, 0).next;
    SliceJoin(d, i, tag.next, f.next);
    SliceJoin(d, tag.next, next, f.next);
    r := Delimited(d[i..tag.next], d[tag.next..next], d[next..f.next]);
  }

  lemma UnknownRecordOf(schema: Schema, m: Message, d: Bytes, i: nat) returns (r: Record)
    requires i <= |d| < TWO_63 && DecodeField(schema, m, d, i).err.None?
    requires FieldNumber(Word64(Read(d, i, 0).value)) !in schema
    ensures Acceptable(schema, r) && Written(r) == d[i..DecodeField(schema, m, d, i).next]
  {
    hide Word64, Read, FieldNumber, SkipFrom;
    var rest := d[i..];
    r := SkippedRecord(rest);
    var n := SkipFrom(rest, 0, 0).n;
    assert rest[..n] == d[i..i + n];
    TagStands(d, i, r);
  }

  lemma {:induction false} RecordsOf(schema: Schema, m: Message, d: Bytes, i: nat) returns (rs: Records)
    requires i <= |d| < TWO_63 && Decode(schema, m, d, i).err.None?
    ensures AllAcceptable(schema, rs) && WrittenAll(rs) == d[i..]
    decreases |d| - i
  {
    hide DecodeField, Acceptable, Written;
    if i == |d| {
      return Nil;
    }
    var f := DecodeField(schema, m, d, i);
    var r := RecordOf(schema, m, d, i);
    var rest := RecordsOf(schema, f.msg, d, f.next);
    rs := Cons(r, rest);
    SliceJoin(d, i, f.next, |d|);
    assert d[f.next..|d|] == d[f.next..] && d[i..|d|] == d[i..];
  }

  /**
   * Decoding succeeds exactly on the writings of acceptable records, and sets the fields they name, in their order; for
   * a CelestiaTxInfo, a BlockStoreState, or any other message of such fields.
   */
  lemma DecodesIff(schema: Schema, m: Message, d: Bytes)
    requires |d| < TWO_63
    ensures Decode(schema, m, d, 0).err.None? <==> exists rs :: AllAcceptable(schema, rs) && WrittenAll(rs) == d
    ensures forall rs :: AllAcceptable(schema, rs) && WrittenAll(rs) == d ==>
              Decode(schema, m, d, 0) == Decoded(WithAll(schema, m, rs), |d|, None)
  {
    hide Decode, AllAcceptable, WithAll, WrittenAll;
    if Decode(schema, m, d, 0).err.None? {
      var rs := RecordsOf(schema, m, d, 0);
      assert d[0..] == d;
    }
    forall rs | AllAcceptable(schema, rs) && WrittenAll(rs) == d
      ensures Decode(schema, m, d, 0) == Decoded(WithAll(schema, m, rs), |d|, None)
    {
      assert d[0..|d|] == d;
      DecodesRecords(schema, m, d, 0, rs);
    }
  }

  // ---- What is refused ----------------------------------------------------------------------------------

  /** A record under a known number but of another type is refused, and changes nothing. */
  lemma WrongTypeRefused(schema: Schema, m: Message, d: Bytes, i: nat, r: Record)
    requires |d| < TWO_63 && Valid(r) && At(d, i, Written(r))
    requires NumberIn(r.tag) > 0 && NumberIn(r.tag) in schema && !Acceptable(schema, r)
    ensures Decode(schema, m, d, i) == Decoded(m, i + |r.tag|, Some(WrongWireType))
  {
    TagStands(d, i, r);
    hide Word64, Read, LowBits, IsVarint, VarintValue, FieldNumber, At, DecodeUnknown, DecodeNumber, DecodeString, Written;
  }

  /** So is one whose number is not positive, and a closing tag that no group is open for. */
  lemma IllegalTagRefused(schema: Schema, m: Message, d: Bytes, i: nat, t: Bytes)
    requires |d| < TWO_63 && IsVarint(t) && At(d, i, t)
    ensures TagOf(t, 4) ==> Decode(schema, m, d, i) == Decoded(m, i + |t|, Some(EndGroupForNonGroup))
    ensures !TagOf(t, 4) && NumberIn(t) <= 0 ==> Decode(schema, m, d, i) == Decoded(m, i + |t|, Some(IllegalTag))
  {
    TagReads(d, i, t);
    hide Word64, Read, IsVarint, VarintValue, FieldNumber;
  }

  /** A record of another type for the first field, a string for the height. */
  const MISTYPED: Bytes := [10, 1, 65]

  lemma MistypedRefused()
    ensures DecodeTx(MISTYPED) == Decoded(TxMessage(0, 0, 0, []), 1, Some(WrongWireType))
  {
    SmallReads(MISTYPED, 0, 10);
    SmallTag(10, 1);
    hide Read, Word64, FieldNumber, LowBits, SkipFrom;
  }

  lemma SmallTag(tag: Byte, num: nat)
    requires num == tag / 8
    ensures Word64(tag) == tag && FieldNumber(tag) == num
  {
    hide Word64;
  }

  /** A number that breaks off half-way is kept as far as it goes. */
  lemma BrokenNumberKept()
    ensures DecodeTx([8, 150]) == Decoded(TxMessage(22, 0, 0, []), 2, Some(UnexpectedEof))
  {
    var d: Bytes := [8, 150];
    SmallReads(d, 0, 8);
    SmallTag(8, 1);
    assert Read(d, 1, 0) == Scan(22, 2, Some(UnexpectedEof));
    assert Word64(22) == 22;
    hide Read, Word64, FieldNumber, LowBits, SkipFrom;
    assert TxMessage(0, 0, 0, [])[1 := Num(22)] == TxMessage(22, 0, 0, []);
  }

  // ---- Examples -----------------------------------------------------------------------------------------

  lemma SmallVarints()
    ensures forall v: Byte :: v < 128 ==> Encode(v) == [v]
    ensures Encode(150) == [150, 1] && Encode(300) == [172, 2]
    ensures Encode(TWO_64 - 2) == [254, 255, 255, 255, 255, 255, 255, 255, 255, 1]
  {
    EncodeStep(150);
    EncodeStep(300);
    EncodeStep(TWO_64 - 2);
    EncodeStep(0x1FF_FFFF_FFFF_FFFF);
    EncodeStep(0x3_FFFF_FFFF_FFFF);
    EncodeStep(0x7FF_FFFF_FFFF);
    EncodeStep(0xF_FFFF_FFFF);
    EncodeStep(0x1FFF_FFFF);
    EncodeStep(0x3F_FFFF);
    EncodeStep(0x7FFF);
    EncodeStep(0xFF);
  }

  lemma NumberField(num: nat, tag: Byte, v: Int64, w: Bytes)
    requires num < 16 && tag == 8 * num && Encode(ToUint64(v)) == w
    ensures EncodeField(Field(num, Num(v))) == if v == 0 then [] else [tag] + w
  {
    TagByte(num, Num(v));
    assert Encode(Tag(num, Num(v))) == [tag];
    hide Encode, Tag;
  }

  lemma TextField(num: nat, tag: Byte, s: Bytes)
    requires num < 16 && tag == 8 * num + 2 && |s| < 128
    ensures EncodeField(Field(num, Str(s))) == if s == [] then [] else [tag, |s|] + s
  {
    SmallVarints();
    StringBytes(num, tag, s);
    hide Encode, EncodeField;
    assert |s| > 0 ==> [tag] + [|s|] == [tag, |s|];
  }

  lemma HeightOnly(v: Int64, w: Bytes)
    requires v != 0 && Encode(ToUint64(v)) == w
    ensures EncodeTx(v, 0, 0, []) == [8] + w
  {
    SmallVarints();
    TxParts(v, 0, 0, []);
    NumberField(1, 8, v, w);
    NumberField(2, 16, 0, [0]);
    NumberField(3, 24, 0, [0]);
    TextField(4, 34, []);
    hide Encode, EncodeTx, EncodeField;
    var f: Bytes := [8] + w;
    assert f + ([] + ([] + [])) == f;
  }

  /** 150 as the first field, and a negative number, which takes ten bytes. */
  lemma NumberExamples()
    ensures EncodeTx(150, 0, 0, []) == [8] + [150, 1]
    ensures EncodeTx(-2, 0, 0, []) == [8] + [254, 255, 255, 255, 255, 255, 255, 255, 255, 1]
  {
    SmallVarints();
    hide Encode, EncodeTx, EncodeField;
    HeightOnly(150, [150, 1]);
    HeightOnly(-2, [254, 255, 255, 255, 255, 255, 255, 255, 255, 1]);
  }

  /** All fields of a CelestiaTxInfo. */
  lemma TxExample()
    ensures EncodeTx(150, 1, 2, [65]) == [8, 150, 1, 16, 1, 24, 2, 34, 1, 65]
  {
    SmallVarints();
    TxParts(150, 1, 2, [65]);
    NumberField(1, 8, 150, [150, 1]);
    NumberField(2, 16, 1, [1]);
    NumberField(3, 24, 2, [2]);
    TextField(4, 34, [65]);
    hide Encode, EncodeTx, EncodeField;
    TxExampleBytes([8] + [150, 1], [16] + [1], [24] + [2], [34, 1] + [65]);
  }

  lemma TxExampleBytes(a: Bytes, b: Bytes, c: Bytes, e: Bytes)
    requires a == [8] + [150, 1] && b == [16] + [1] && c == [24] + [2] && e == [34, 1] + [65]
    ensures a + (b + (c + e)) == [8, 150, 1, 16, 1, 24, 2, 34, 1, 65]
  {
  }

  /** Both fields of a BlockStoreState. */
  lemma StateExample()
    ensures EncodeState(1, 300) == [8, 1, 16, 172, 2]
  {
    SmallVarints();
    StateSize(1, 300);
    NumberField(1, 8, 1, [1]);
    NumberField(2, 16, 300, [172, 2]);
    hide Encode, EncodeState, EncodeField, Sov;
  }
}
