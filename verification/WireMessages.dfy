/** The two messages of cmd/celestia/proto.go, with the methods generated for them. */
module WireMessages {
  import opened Base
  import opened Varint
  import opened WireSkip
  import opened WireFields

  // ---- Pieces the methods share --------------------------------------------------------------

  /** A varint read into a 32-bit variable. */
  method ReadUint32(d: Bytes, i: nat) returns (r: Scan)
    ensures var whole := Read(d, i, 0);
            r == whole.(value := LowBits(whole.value, 32))
    ensures r.value < TWO_32
  {
    r := ReadVarint(d, i, 32);
    LowBitsBound(Read(d, i, 0).value, 32);
    WordSizes();
  }

  /** The default case of Unmarshal: hands the rest of the input to skipTypes. */
  method SkipUnknown(d: Bytes, i: nat) returns (next: nat, err: Option<WireError>)
    requires i <= |d| < TWO_63
    ensures forall m :: DecodeUnknown(m, d, i) == Decoded(m, next, err)
  {
    var n, skipErr := SkipTypes(d[i..]);
    if skipErr.Some? {
      return i, skipErr;
    }
    if n >= TWO_63 || AddInt64(i, n) < 0 {
      return i, Some(InvalidLength);
    }
    if i + n > |d| {
      return i, Some(UnexpectedEof);
    }
    return i + n, None;
  }

  /** Writes a varint field, unless it is zero, so that it ends just before `offset`, where `done` stands. */
  method PutNumber(buf: array<Byte>, offset: nat, tag: Byte, ghost num: nat, v: Int64, ghost done: Bytes, ghost was: Bytes)
    returns (at: nat)
    requires num < 16 && tag == 8 * num
    requires |EncodeField(Field(num, Num(v)))| <= offset <= buf.Length == |was| && buf[..] == was[..offset] + done
    modifies buf
    ensures var f := EncodeField(Field(num, Num(v)));
            at == offset - |f| && buf[..] == was[..at] + (f + done)
  {
    hide Sov, Encode;
    NumberSize(num, v);
    if v == 0 {
      NothingBefore(done);
      return offset;
    }
    at := PutVarint(buf, offset, tag, ToUint64(v), done, was);
    TagByte(num, Num(v));
  }

  /** Writes a string field, unless it is empty, so that it ends at the end of the buffer. */
  method PutString(buf: array<Byte>, tag: Byte, ghost num: nat, s: Bytes) returns (at: nat)
    requires num < 16 && tag == 8 * num + 2 && |s| < TWO_63
    requires |EncodeField(Field(num, Str(s)))| <= buf.Length
    modifies buf
    ensures var f := EncodeField(Field(num, Str(s)));
            at == buf.Length - |f| && buf[..] == old(buf[..])[..at] + f
  {
    hide Sov, Encode, EncodeField;
    ghost var was := buf[..];
    StringSize(num, s);
    StringBytes(num, tag, s);
    if |s| == 0 {
      NothingBehind(was);
      return buf.Length;
    }
    Copy(buf, buf.Length - |s|, s);
    at := PutVarint(buf, buf.Length - |s|, tag, |s|, s, was);
  }

  /** A varint and the tag in front of it. */
  method PutVarint(buf: array<Byte>, offset: nat, tag: Byte, u: Uint64, ghost done: Bytes, ghost was: Bytes)
    returns (at: nat)
    requires 1 + Sov(u) <= offset <= buf.Length == |was| && buf[..] == was[..offset] + done
    modifies buf
    ensures at == offset - 1 - |Encode(u)| && buf[..] == was[..at] + (([tag] + Encode(u)) + done)
  {
    hide Sov, Encode;
    SovIsLeast(u);
    ghost var before := buf[..];
    at := EncodeVarint(buf, offset, u);
    TailEncoded(before, was, at, offset, Encode(u), done);
    at := PutTag(buf, at, tag, Encode(u), done, was);
  }

  lemma NothingBefore(s: Bytes)
    ensures [] + s == s
  {
  }

  lemma NothingBehind(s: Bytes)
    ensures s + [] == s
  {
  }

  /** `copy(buf[at:], s)` where `s` reaches the end of the buffer. */
  method Copy(buf: array<Byte>, at: nat, s: Bytes)
    requires at + |s| == buf.Length
    modifies buf
    ensures buf[..] == old(buf[..])[..at] + s
  {
    ghost var was := buf[..];
    assert was == was[..at] + s[..0] + was[at..];
    for k := 0 to |s|
      invariant buf[..] == was[..at] + s[..k] + was[at + k..]
    {
      CopyOne(was, at, s, k);
      Store(buf, at + k, s[k]);
    }
    NothingBehind(was[..at] + s);
    assert s[..|s|] == s && was[at + |s|..] == [];
  }

  lemma CopyOne(was: Bytes, at: nat, s: Bytes, k: nat)
    requires k < |s| && at + |s| == |was|
    ensures (was[..at] + s[..k] + was[at + k..])[at + k := s[k]] == was[..at] + s[..k + 1] + was[at + k + 1..]
  {
    Splice(was, at, s[..k], s[k]);
    assert s[..k] + [s[k]] == s[..k + 1];
  }

  lemma TailEncoded(now: Bytes, was: Bytes, base: nat, offset: nat, e: Bytes, done: Bytes)
    requires base <= offset <= |was| && now == was[..offset] + done
    ensures now[..base] + e + now[offset..] == was[..base] + (e + done)
  {
    assert now[..base] == was[..base] && now[offset..] == done;
    Concat3(was[..base], e, done);
  }

  method PutTag(buf: array<Byte>, offset: nat, tag: Byte, ghost body: Bytes, ghost done: Bytes, ghost was: Bytes)
    returns (at: nat)
    requires 1 <= offset <= |was| == buf.Length && buf[..] == was[..offset] + (body + done)
    modifies buf
    ensures at == offset - 1 && buf[..] == was[..at] + (([tag] + body) + done)
  {
    at := offset - 1;
    Store(buf, at, tag);
    Concat3([tag], body, done);
    assert (was[..offset] + (body + done))[at := tag] == was[..at] + ([tag] + (body + done));
  }

  /** The tags of the first fifteen fields are one byte. */
  lemma TagByte(num: nat, v: Value)
    requires num < 16
    ensures Encode(Tag(num, v)) == [Tag(num, v)]
  {
  }

  lemma StringBytes(num: nat, tag: Byte, s: Bytes)
    requires num < 16 && tag == 8 * num + 2 && |s| < TWO_63
    ensures EncodeField(Field(num, Str(s))) == if |s| > 0 then ([tag] + Encode(|s|)) + s else []
  {
    StringParts(num, s);
    TagIs(num, tag, s);
    hide Encode, EncodeField, Tag;
    Concat3([tag], Encode(|s|), s);
  }

  lemma TagIs(num: nat, tag: Byte, s: Bytes)
    requires num < 16 && tag == 8 * num + 2
    ensures Encode(Tag(num, Str(s))) == [tag]
  {
    TagByte(num, Str(s));
  }

  lemma StringParts(num: nat, s: Bytes)
    ensures EncodeField(Field(num, Str(s))) == if |s| > 0 then Encode(Tag(num, Str(s))) + (Encode(|s|) + s) else []
  {
    hide Encode, Tag;
    assert |s| == 0 ==> s == [];
  }

  // ---- CelestiaTxInfo -------------------------------------------------------------------------

  const TX_SCHEMA: Schema := map[1 := Int64Field, 2 := Uint32Field, 3 := Uint32Field, 4 := StringField]

  function TxMessage(height: int, index: int, code: int, error: Bytes): Message {
    map[1 := Num(height), 2 := Num(index), 3 := Num(code), 4 := Str(error)]
  }

  function TxFields(height: Int64, index: Uint32, code: Uint32, error: Bytes): seq<Field> {
    [Field(1, Num(height)), Field(2, Num(index)), Field(3, Num(code)), Field(4, Str(error))]
  }

  /** The bytes of a CelestiaTxInfo. */
  function EncodeTx(height: Int64, index: Uint32, code: Uint32, error: Bytes): Bytes
    requires |error| < TWO_63
  {
    EncodeAll(TX_SCHEMA, TxFields(height, index, code, error))
  }

  function DecodeTx(d: Bytes): Decoded
    requires |d| < TWO_63
  {
    Decode(TX_SCHEMA, TxMessage(0, 0, 0, []), d, 0)
  }

  /** Unmarshalling what was marshalled gives the message back, negative numbers and any bytes included. */
  lemma TxRoundTrip(height: Int64, index: Uint32, code: Uint32, error: Bytes)
    requires |error| < TWO_63 && |EncodeTx(height, index, code, error)| < TWO_63
    ensures var d := EncodeTx(height, index, code, error);
            DecodeTx(d) == Decoded(TxMessage(height, index, code, error), |d|, None)
  {
    var fs := TxFields(height, index, code, error);
    var m := TxMessage(0, 0, 0, []);
    DecodeEncode(TX_SCHEMA, m, fs);
    AssignTx(height, index, code, error);
  }

  lemma AssignTx(height: Int64, index: Uint32, code: Uint32, error: Bytes)
    ensures Assign(TxMessage(0, 0, 0, []), TxFields(height, index, code, error)) ==
            TxMessage(height, index, code, error)
  {
    var a, b, c, e := Field(1, Num(height)), Field(2, Num(index)), Field(3, Num(code)), Field(4, Str(error));
    AssignFirst(TxMessage(0, 0, 0, []), a, [b, c, e], TxMessage(height, 0, 0, []));
    AssignFirst(TxMessage(height, 0, 0, []), b, [c, e], TxMessage(height, index, 0, []));
    AssignFirst(TxMessage(height, index, 0, []), c, [e], TxMessage(height, index, code, []));
    AssignFirst(TxMessage(height, index, code, []), e, [], TxMessage(height, index, code, error));
    assert [a] + [b, c, e] == [a, b, c, e] && [b] + [c, e] == [b, c, e] && [c] + [e] == [c, e] && [e] + [] == [e];
  }

  /** Assigning a field that was left out because it is zero still leaves the message with that field. */
  lemma AssignFirst(m: Message, f: Field, rest: seq<Field>, m': Message)
    requires m' == m[f.num := f.value] && (IsDefault(f.value) ==> f.num in m && m[f.num] == f.value)
    ensures Assign(m, [f] + rest) == Assign(m', rest)
  {
    assert ([f] + rest)[1..] == rest;
    if IsDefault(f.value) {
      assert m' == m;
    }
  }

  /** Size adds up the lengths of the fields that are written. */
  lemma TxSize(height: Int64, index: Uint32, code: Uint32, error: Bytes)
    requires |error| < TWO_63
    ensures EncodeTx(height, index, code, error) ==
            EncodeField(Field(1, Num(height))) + (EncodeField(Field(2, Num(index))) +
            (EncodeField(Field(3, Num(code))) + EncodeField(Field(4, Str(error)))))
    ensures |EncodeField(Field(1, Num(height)))| == if height != 0 then 1 + Sov(ToUint64(height)) else 0
    ensures |EncodeField(Field(2, Num(index)))| == if index != 0 then 1 + Sov(index) else 0
    ensures |EncodeField(Field(3, Num(code)))| == if code != 0 then 1 + Sov(code) else 0
    ensures |EncodeField(Field(4, Str(error)))| == if |error| > 0 then 1 + |error| + Sov(|error|) else 0
  {
    TxParts(height, index, code, error);
    hide Sov, Encode, EncodeField, EncodeTx;
    NumberSize(1, height);
    NumberSize(2, index);
    NumberSize(3, code);
    StringSize(4, error);
  }

  lemma TxParts(height: Int64, index: Uint32, code: Uint32, error: Bytes)
    requires |error| < TWO_63
    ensures EncodeTx(height, index, code, error) ==
            EncodeField(Field(1, Num(height))) + (EncodeField(Field(2, Num(index))) +
            (EncodeField(Field(3, Num(code))) + EncodeField(Field(4, Str(error)))))
  {
    hide Sov, Encode, EncodeField;
    var a, b, c, e := Field(1, Num(height)), Field(2, Num(index)), Field(3, Num(code)), Field(4, Str(error));
    EncodeFirst(TX_SCHEMA, a, [b, c, e]);
    EncodeFirst(TX_SCHEMA, b, [c, e]);
    EncodeFirst(TX_SCHEMA, c, [e]);
    EncodeFirst(TX_SCHEMA, e, []);
    assert [a] + [b, c, e] == [a, b, c, e] && [b] + [c, e] == [b, c, e] && [c] + [e] == [c, e] && [e] + [] == [e];
    NothingBehind(EncodeField(e));
  }

  lemma EncodeFirst(schema: Schema, f: Field, rest: seq<Field>)
    requires Fits(schema, f) && AllFit(schema, rest)
    ensures AllFit(schema, [f] + rest)
    ensures EncodeAll(schema, [f] + rest) == EncodeField(f) + EncodeAll(schema, rest)
  {
    hide EncodeField, Fits;
    assert ([f] + rest)[1..] == rest;
  }

  lemma NumberSize(num: nat, v: Int64)
    requires num < 16
    ensures |EncodeField(Field(num, Num(v)))| == if v != 0 then 1 + Sov(ToUint64(v)) else 0
  {
    hide Sov, Encode;
    TagByte(num, Num(v));
    SovIsLeast(ToUint64(v));
  }

  lemma StringSize(num: nat, s: Bytes)
    requires num < 16
    ensures |EncodeField(Field(num, Str(s)))| == if |s| > 0 then 1 + |s| + Sov(|s|) else 0
  {
    hide Sov, Encode;
    TagByte(num, Str(s));
    SovIsLeast(|s|);
  }

  class CelestiaTxInfo {
    var height: Int64
    var index: Uint32
    var code: Uint32
    var error: Bytes

    constructor ()
      ensures Contents() == TxMessage(0, 0, 0, [])
    {
      height, index, code, error := 0, 0, 0, [];
    }

    ghost function Contents(): Message
      reads this
    {
      TxMessage(height, index, code, error)
    }

    /** Decodes onto whatever the message holds already; a failure leaves the fields read before it. */
    method Unmarshal(d: Bytes) returns (err: Option<WireError>)
      requires |d| < TWO_63
      modifies this
      ensures var r := Decode(TX_SCHEMA, old(Contents()), d, 0);
              Contents() == r.msg && err == r.err
    {
      hide Word64, Read, DecodeTagged, Contents;
      var i: nat := 0;
      while i < |d|
        invariant i <= |d|
        invariant Decode(TX_SCHEMA, old(Contents()), d, 0) == Decode(TX_SCHEMA, Contents(), d, i)
        decreases |d| - i
      {
        var tag := ReadTag(d, i);
        if tag.err.Some? {
          return tag.err;
        }
        i, err := UnmarshalTagged(d, i, FieldNumber(tag.value), tag.value % 8, tag.next);
        if err.Some? {
          return err;
        }
      }
      return None;
    }

    /** The body of Unmarshal's loop once the tag is read. */
    method UnmarshalTagged(d: Bytes, i: nat, num: int, wireType: nat, after: nat) returns (next: nat, err: Option<WireError>)
      requires i <= |d| < TWO_63
      modifies this
      ensures DecodeTagged(TX_SCHEMA, old(Contents()), d, i, num, wireType, after) == Decoded(Contents(), next, err)
    {
      hide Word64, LowBits, Read, SkipFrom;
      if wireType == 4 {
        return after, Some(EndGroupForNonGroup);
      }
      if num <= 0 {
        return after, Some(IllegalTag);
      }
      match num {
        case 1 =>
          if wireType != 0 {
            return after, Some(WrongWireType);
          }
          var v := ReadTag(d, after);
          height := ToInt64(v.value);
          assert Contents() == old(Contents())[1 := Num(height)];
          return v.next, v.err;
        case 2 =>
          if wireType != 0 {
            return after, Some(WrongWireType);
          }
          var v := ReadUint32(d, after);
          index := v.value;
          assert Contents() == old(Contents())[2 := Num(index)];
          return v.next, v.err;
        case 3 =>
          if wireType != 0 {
            return after, Some(WrongWireType);
          }
          var v := ReadUint32(d, after);
          code := v.value;
          assert Contents() == old(Contents())[3 := Num(code)];
          return v.next, v.err;
        case 4 =>
          if wireType != 2 {
            return after, Some(WrongWireType);
          }
          var v := ReadTag(d, after);
          next, err := v.next, v.err;
          if err.Some? {
            return;
          }
          var length := ToInt64(v.value);
          if length < 0 {
            return next, Some(InvalidLength);
          }
          var postIndex := AddInt64(v.next, length);
          if postIndex < 0 {
            return next, Some(InvalidLength);
          }
          if postIndex > |d| {
            return next, Some(UnexpectedEof);
          }
          error := d[v.next..postIndex];
          assert Contents() == old(Contents())[4 := Str(error)];
          return postIndex, None;
        case _ =>
          next, err := SkipUnknown(d, i);
      }
    }

    /** Size. */
    function Size(): (n: nat)
      reads this
    {
      (if height != 0 then 1 + Sov(ToUint64(height)) else 0) +
      (if index != 0 then 1 + Sov(index) else 0) +
      (if code != 0 then 1 + Sov(code) else 0) +
      (if |error| > 0 then 1 + |error| + Sov(|error|) else 0)
    }

    /** Fills the end of the buffer, from the last field back to the first. */
    method MarshalToSizedBuffer(buf: array<Byte>) returns (n: nat)
      requires |error| < TWO_63 && Size() <= buf.Length
      modifies buf
      ensures n == Size() == |EncodeTx(height, index, code, error)|
      ensures buf[..] == old(buf[..])[..buf.Length - n] + EncodeTx(height, index, code, error)
    {
      hide Sov, Encode, EncodeField, EncodeTx;
      TxSize(height, index, code, error);
      ghost var was := buf[..];
      ghost var a, b := EncodeField(Field(1, Num(height))), EncodeField(Field(2, Num(index)));
      ghost var c, e := EncodeField(Field(3, Num(code))), EncodeField(Field(4, Str(error)));
      var i := PutString(buf, 0x22, 4, error);
      i := PutNumber(buf, i, 0x18, 3, code, e, was);
      i := PutNumber(buf, i, 0x10, 2, index, c + e, was);
      i := PutNumber(buf, i, 0x8, 1, height, b + (c + e), was);
      return buf.Length - i;
    }

    method Marshal() returns (d: array<Byte>)
      requires |error| < TWO_63
      ensures fresh(d) && d[..] == EncodeTx(height, index, code, error)
    {
      d := new Byte[Size()];
      var n := MarshalToSizedBuffer(d);
    }
  }

  // ---- BlockStoreState ------------------------------------------------------------------------

  const STATE_SCHEMA: Schema := map[1 := Int64Field, 2 := Int64Field]

  function StateMessage(base: int, height: int): Message {
    map[1 := Num(base), 2 := Num(height)]
  }

  function StateFields(base: Int64, height: Int64): seq<Field> {
    [Field(1, Num(base)), Field(2, Num(height))]
  }

  /** The bytes of a BlockStoreState. */
  function EncodeState(base: Int64, height: Int64): Bytes {
    EncodeAll(STATE_SCHEMA, StateFields(base, height))
  }

  function DecodeState(d: Bytes): Decoded
    requires |d| < TWO_63
  {
    Decode(STATE_SCHEMA, StateMessage(0, 0), d, 0)
  }

  lemma StateRoundTrip(base: Int64, height: Int64)
    ensures var d := EncodeState(base, height);
            |d| <= 22 && DecodeState(d) == Decoded(StateMessage(base, height), |d|, None)
  {
    hide Assign, EncodeAll, EncodeField, Decode;
    StateSize(base, height);
    var a, b := Field(1, Num(base)), Field(2, Num(height));
    DecodeEncode(STATE_SCHEMA, StateMessage(0, 0), [a, b]);
    AssignFirst(StateMessage(0, 0), a, [b], StateMessage(base, 0));
    AssignFirst(StateMessage(base, 0), b, [], StateMessage(base, height));
    assert [a] + [b] == [a, b] && [b] + [] == [b];
    AssignNothing(StateMessage(base, height));
  }

  lemma AssignNothing(m: Message)
    ensures Assign(m, []) == m
  {
  }

  lemma StateSize(base: Int64, height: Int64)
    ensures EncodeState(base, height) == EncodeField(Field(1, Num(base))) + EncodeField(Field(2, Num(height)))
    ensures |EncodeField(Field(1, Num(base)))| == if base != 0 then 1 + Sov(ToUint64(base)) else 0
    ensures |EncodeField(Field(2, Num(height)))| == if height != 0 then 1 + Sov(ToUint64(height)) else 0
    ensures |EncodeState(base, height)| <= 22
  {
    hide Sov, Encode, EncodeField;
    var a, b := Field(1, Num(base)), Field(2, Num(height));
    EncodeFirst(STATE_SCHEMA, a, [b]);
    EncodeFirst(STATE_SCHEMA, b, []);
    assert [a] + [b] == [a, b] && [b] + [] == [b];
    NothingBehind(EncodeField(b));
    NumberSize(1, base);
    NumberSize(2, height);
    VarintLength(ToUint64(base));
    VarintLength(ToUint64(height));
  }

  /** No 64-bit number takes more than ten bytes. */
  lemma VarintLength(u: Uint64)
    ensures Sov(u) <= 10
  {
    hide Sov, Encode;
    SovIsLeast(u);
    WordSizes();
    EncodeIsVarint(u, 0);
  }

  class BlockStoreState {
    var base: Int64
    var height: Int64

    constructor ()
      ensures Contents() == StateMessage(0, 0)
    {
      base, height := 0, 0;
    }

    ghost function Contents(): Message
      reads this
    {
      StateMessage(base, height)
    }

    method Unmarshal(d: Bytes) returns (err: Option<WireError>)
      requires |d| < TWO_63
      modifies this
      ensures var r := Decode(STATE_SCHEMA, old(Contents()), d, 0);
              Contents() == r.msg && err == r.err
    {
      hide Word64, Read, DecodeTagged, Contents;
      var i: nat := 0;
      while i < |d|
        invariant i <= |d|
        invariant Decode(STATE_SCHEMA, old(Contents()), d, 0) == Decode(STATE_SCHEMA, Contents(), d, i)
        decreases |d| - i
      {
        var tag := ReadTag(d, i);
        if tag.err.Some? {
          return tag.err;
        }
        i, err := UnmarshalTagged(d, i, FieldNumber(tag.value), tag.value % 8, tag.next);
        if err.Some? {
          return err;
        }
      }
      return None;
    }

    method UnmarshalTagged(d: Bytes, i: nat, num: int, wireType: nat, after: nat) returns (next: nat, err: Option<WireError>)
      requires i <= |d| < TWO_63
      modifies this
      ensures DecodeTagged(STATE_SCHEMA, old(Contents()), d, i, num, wireType, after) == Decoded(Contents(), next, err)
    {
      hide Word64, LowBits, Read, SkipFrom;
      if wireType == 4 {
        return after, Some(EndGroupForNonGroup);
      }
      if num <= 0 {
        return after, Some(IllegalTag);
      }
      match num {
        case 1 =>
          if wireType != 0 {
            return after, Some(WrongWireType);
          }
          var v := ReadTag(d, after);
          base := ToInt64(v.value);
          assert Contents() == old(Contents())[1 := Num(base)];
          return v.next, v.err;
        case 2 =>
          if wireType != 0 {
            return after, Some(WrongWireType);
          }
          var v := ReadTag(d, after);
          height := ToInt64(v.value);
          assert Contents() == old(Contents())[2 := Num(height)];
          return v.next, v.err;
        case _ =>
          next, err := SkipUnknown(d, i);
      }
    }

    function Size(): (n: nat)
      reads this
    {
      (if base != 0 then 1 + Sov(ToUint64(base)) else 0) +
      (if height != 0 then 1 + Sov(ToUint64(height)) else 0)
    }

    method MarshalToSizedBuffer(buf: array<Byte>) returns (n: nat)
      requires Size() <= buf.Length
      modifies buf
      ensures n == Size() == |EncodeState(base, height)|
      ensures buf[..] == old(buf[..])[..buf.Length - n] + EncodeState(base, height)
    {
      hide Sov, Encode, EncodeField, EncodeState;
      StateSize(base, height);
      ghost var was := buf[..];
      NothingBehind(was);
      NothingBehind(EncodeField(Field(2, Num(height))));
      var i := PutNumber(buf, buf.Length, 0x10, 2, height, [], was);
      i := PutNumber(buf, i, 0x8, 1, base, EncodeField(Field(2, Num(height))), was);
      return buf.Length - i;
    }

    method Marshal() returns (d: array<Byte>)
      ensures fresh(d) && d[..] == EncodeState(base, height)
    {
      d := new Byte[Size()];
      var n := MarshalToSizedBuffer(d);
    }
  }
}
