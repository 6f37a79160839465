/** skipTypes of cmd/celestia/proto.go: a flat scan with a depth counter, against the nested grammar. */
module WireSkip {
  import opened Base
  import opened Varint

  // ---- The scanner ---------------------------------------------------------------------------

  datatype Token = Token(next: nat, wireType: nat, err: Option<WireError>)

  /** A token that ends at a signed index; the index has wrapped around when it is negative. */
  function Ending(next: int, wireType: nat): Token {
    if next < 0 then Token(0, wireType, Some(InvalidLength)) else Token(next, wireType, None)
  }

  /** One pass of the scanner's loop: a tag and, unless it opens or closes a group, its payload. */
  function NextToken(d: Bytes, i: nat): (t: Token)
    requires |d| < TWO_63
    ensures t.err.None? ==> t.next > i && i < |d|
  {
    var tag := Read(d, i, 0);
    if tag.err.Some? then Token(0, 0, tag.err)
    else
      var wireType := Word64(tag.value) % 8;
      match wireType
      case 0 =>
        var v := Read(d, tag.next, 0);
        Token(v.next, 0, v.err)
      case 1 => Ending(AddInt64(tag.next, 8), 1)
      case 2 =>
        var len := Read(d, tag.next, 0);
        if len.err.Some? then Token(0, 2, len.err)
        else
          var n := ToInt64(Word64(len.value));
          if n < 0 then Token(0, 2, Some(InvalidLength)) else Ending(AddInt64(len.next, n), 2)
      case 3 => Token(tag.next, 3, None)
      case 4 => Token(tag.next, 4, None)
      case 5 => Ending(AddInt64(tag.next, 4), 5)
      case _ => Token(0, wireType, Some(IllegalWireType))
  }

  datatype Skipped = Skipped(n: nat, err: Option<WireError>)

  /** The scanner from index `i` with `depth` groups open. */
  function SkipFrom(d: Bytes, i: nat, depth: nat): (r: Skipped)
    requires |d| < TWO_63
    ensures r.err.None? ==> r.n > i
    decreases if i < |d| then |d| - i else 0
  {
    if i >= |d| then Skipped(0, Some(UnexpectedEof))
    else
      var t := NextToken(d, i);
      if t.err.Some? then Skipped(0, t.err)
      else if t.wireType == 4 && depth == 0 then Skipped(0, Some(UnexpectedEndOfGroup))
      else
        var inside := Depth(t, depth);
        if inside == 0 then Skipped(t.next, None) else SkipFrom(d, t.next, inside)
  }

  /** The depth counter after a token. */
  function Depth(t: Token, depth: nat): nat
    requires t.wireType == 4 ==> depth > 0
  {
    if t.wireType == 3 then depth + 1 else if t.wireType == 4 then depth - 1 else depth
  }

  method SkipTypes(d: Bytes) returns (n: nat, err: Option<WireError>)
    requires |d| < TWO_63
    ensures Skipped(n, err) == SkipFrom(d, 0, 0)
  {
    hide Word64, Read;
    var i, depth: nat := 0, 0;
    while i < |d|
      invariant SkipFrom(d, i, depth) == SkipFrom(d, 0, 0)
      decreases if i < |d| then |d| - i else 0
    {
      var tag := ReadTag(d, i);
      if tag.err.Some? {
        return 0, tag.err;
      }
      var next: int := tag.next;
      var wireType := tag.value % 8;
      match wireType {
        case 0 =>
          var v := ReadTag(d, tag.next);
          if v.err.Some? {
            return 0, v.err;
          }
          next := v.next;
        case 1 =>
          next := AddInt64(tag.next, 8);
        case 2 =>
          var v := ReadTag(d, tag.next);
          if v.err.Some? {
            return 0, v.err;
          }
          var length := ToInt64(v.value);
          if length < 0 {
            return 0, Some(InvalidLength);
          }
          next := AddInt64(v.next, length);
        case 3 =>
          depth := depth + 1;
        case 4 =>
          if depth == 0 {
            return 0, Some(UnexpectedEndOfGroup);
          }
          depth := depth - 1;
        case 5 =>
          next := AddInt64(tag.next, 4);
        case _ =>
          return 0, Some(IllegalWireType);
      }
      if next < 0 {
        return 0, Some(InvalidLength);
      }
      if depth == 0 {
        return next, None;
      }
      i := next;
    }
    return 0, Some(UnexpectedEof);
  }

  /** A varint read into a 64-bit variable. */
  method ReadTag(d: Bytes, i: nat) returns (r: Scan)
    ensures var whole := Read(d, i, 0);
            r == whole.(value := Word64(whole.value))
  {
    r := ReadVarint(d, i, 64);
  }

  // ---- The grammar ---------------------------------------------------------------------------

  /** A record of the wire format, with the bytes of its varints as they are written. */
  datatype Record =
    | VarintRecord(tag: Bytes, value: Bytes)
    | Fixed64(tag: Bytes, payload: Bytes)
    | Delimited(tag: Bytes, length: Bytes, payload: Bytes)
    | Group(tag: Bytes, items: Records, close: Bytes)
    | Fixed32(tag: Bytes, payload: Bytes)

  datatype Records = Nil | Cons(head: Record, tail: Records)

  ghost predicate TagOf(t: Bytes, wireType: nat) {
    IsVarint(t) && Word64(VarintValue(t)) % 8 == wireType
  }

  ghost predicate Valid(r: Record) {
    match r
    case VarintRecord(tag, value) => TagOf(tag, 0) && IsVarint(value)
    case Fixed64(tag, payload) => TagOf(tag, 1) && |payload| == 8
    case Delimited(tag, length, payload) =>
      TagOf(tag, 2) && IsVarint(length) && |payload| == Word64(VarintValue(length)) < TWO_63
    case Group(tag, items, close) => TagOf(tag, 3) && ValidAll(items) && TagOf(close, 4)
    case Fixed32(tag, payload) => TagOf(tag, 5) && |payload| == 4
  }

  ghost predicate ValidAll(rs: Records) {
    match rs
    case Nil => true
    case Cons(r, rest) => Valid(r) && ValidAll(rest)
  }

  ghost function Written(r: Record): (s: Bytes)
    ensures r.tag <= s
  {
    match r
    case VarintRecord(tag, value) => tag + value
    case Fixed64(tag, payload) => tag + payload
    case Delimited(tag, length, payload) => tag + (length + payload)
    case Group(tag, items, close) => tag + (WrittenAll(items) + close)
    case Fixed32(tag, payload) => tag + payload
  }

  ghost function WrittenAll(rs: Records): Bytes {
    match rs
    case Nil => []
    case Cons(r, rest) => Written(r) + WrittenAll(rest)
  }

  // ---- Every record is skipped exactly ---------------------------------------------------------

  lemma TagReads(d: Bytes, i: nat, t: Bytes)
    requires IsVarint(t) && At(d, i, t)
    ensures Read(d, i, 0) == Scan(VarintValue(t), i + |t|, None)
  {
    ReadsVarint(d, i, t, 0);
  }

  /** A record other than a group is one token. */
  lemma ScalarToken(d: Bytes, i: nat, r: Record)
    requires |d| < TWO_63 && Valid(r) && !r.Group? && At(d, i, Written(r))
    ensures var t := NextToken(d, i);
            t.err.None? && t.next == i + |Written(r)| <= |d| && t.wireType !in {3, 4}
  {
    hide Word64, At, IsVarint, VarintValue, Read;
    match r {
      case VarintRecord(tag, value) =>
        AtSplit(d, i, tag, value);
        TagReads(d, i, tag);
        TagReads(d, i + |tag|, value);
      case Fixed64(tag, payload) =>
        AtSplit(d, i, tag, payload);
        TagReads(d, i, tag);
      case Fixed32(tag, payload) =>
        AtSplit(d, i, tag, payload);
        TagReads(d, i, tag);
      case Delimited(tag, length, payload) =>
        AtSplit(d, i, tag, length + payload);
        AtSplit(d, i + |tag|, length, payload);
        TagReads(d, i, tag);
        TagReads(d, i + |tag|, length);
    }
  }

  /** The tag that opens or closes a group is a token by itself. */
  lemma GroupToken(d: Bytes, i: nat, t: Bytes, wireType: nat)
    requires |d| < TWO_63 && At(d, i, t) && TagOf(t, wireType) && wireType in {3, 4}
    ensures NextToken(d, i) == Token(i + |t|, wireType, None) && i < |d|
  {
    hide Word64, Read;
    TagReads(d, i, t);
  }

  /**
   * Skipping a well-formed record: with no group open the scanner stops right behind it, inside a
   * group it goes on from there at the same depth, however deeply the record itself is nested.
   */
  lemma {:induction false} SkipsRecord(d: Bytes, i: nat, depth: nat, r: Record)
    requires |d| < TWO_63 && Valid(r) && At(d, i, Written(r))
    ensures var end := i + |Written(r)|;
            SkipFrom(d, i, depth) == if depth == 0 then Skipped(end, None) else SkipFrom(d, end, depth)
    decreases r
  {
    hide At, NextToken, TagOf;
    if r.Group? {
      var inner, close := WrittenAll(r.items), r.close;
      AtSplit(d, i, r.tag, inner + close);
      AtSplit(d, i + |r.tag|, inner, close);
      GroupToken(d, i, r.tag, 3);
      SkipsAll(d, i + |r.tag|, depth + 1, r.items);
      GroupToken(d, i + |r.tag| + |inner|, close, 4);
    } else {
      ScalarToken(d, i, r);
    }
  }

  lemma {:induction false} SkipsAll(d: Bytes, i: nat, depth: nat, rs: Records)
    requires |d| < TWO_63 && depth > 0 && ValidAll(rs) && At(d, i, WrittenAll(rs))
    ensures SkipFrom(d, i, depth) == SkipFrom(d, i + |WrittenAll(rs)|, depth)
    decreases rs
  {
    hide At, SkipFrom, Valid, Written;
    if rs.Cons? {
      AtSplit(d, i, Written(rs.head), WrittenAll(rs.tail));
      SkipsRecord(d, i, depth, rs.head);
      SkipsAll(d, i + |Written(rs.head)|, depth, rs.tail);
    }
  }

  // ---- Whatever is skipped is a record ----------------------------------------------------------

  /** What is still to come inside nested groups: the rest of each group's items and its closing tag. */
  datatype Levels = Top | Level(items: Records, close: Bytes, outer: Levels)

  ghost predicate ValidLevels(ls: Levels, depth: nat) {
    match ls
    case Top => depth == 0
    case Level(items, close, outer) =>
      depth > 0 && ValidAll(items) && TagOf(close, 4) && ValidLevels(outer, depth - 1)
  }

  ghost function WrittenLevels(ls: Levels): Bytes {
    match ls
    case Top => []
    case Level(items, close, outer) => WrittenAll(items) + (close + WrittenLevels(outer))
  }

  lemma ReadTagOf(d: Bytes, i: nat)
    requires Read(d, i, 0).err.None?
    ensures var r := Read(d, i, 0);
            IsVarint(d[i..r.next]) && VarintValue(d[i..r.next]) == r.value
  {
    ReadIsVarint(d, i, 0);
  }

  /** A token that is not a group tag is the bytes of a record. */
  lemma ScalarRecord(d: Bytes, i: nat) returns (r: Record)
    requires |d| < TWO_63
    requires var t := NextToken(d, i); t.err.None? && t.next <= |d| && t.wireType !in {3, 4}
    ensures Valid(r) && !r.Group? && Written(r) == d[i..NextToken(d, i).next]
  {
    hide Word64, Read, IsVarint, VarintValue;
    var tag, t := Read(d, i, 0), NextToken(d, i);
    ReadTagOf(d, i);
    SliceJoin(d, i, tag.next, t.next);
    if t.wireType == 0 {
      ReadTagOf(d, tag.next);
      r := VarintRecord(d[i..tag.next], d[tag.next..t.next]);
    } else if t.wireType == 1 {
      r := Fixed64(d[i..tag.next], d[tag.next..t.next]);
    } else if t.wireType == 2 {
      var len := Read(d, tag.next, 0);
      ReadTagOf(d, tag.next);
      SliceJoin(d, tag.next, len.next, t.next);
      r := Delimited(d[i..tag.next], d[tag.next..len.next], d[len.next..t.next]);
    } else {
      r := Fixed32(d[i..tag.next], d[tag.next..t.next]);
    }
  }

  /** A token of wire type 3 or 4 is just its tag. */
  lemma GroupTag(d: Bytes, i: nat)
    requires |d| < TWO_63
    requires var t := NextToken(d, i); t.err.None? && t.wireType in {3, 4}
    ensures var t := NextToken(d, i); t.next <= |d| && TagOf(d[i..t.next], t.wireType)
  {
    hide Word64;
    ReadTagOf(d, i);
  }

  /** With groups open, a successful scan has read the rest of every one of them. */
  lemma {:induction false} SkippedLevels(d: Bytes, i: nat, depth: nat) returns (ls: Levels)
    requires |d| < TWO_63 && depth > 0
    requires var s := SkipFrom(d, i, depth); s.err.None? && s.n <= |d|
    ensures ValidLevels(ls, depth) && ls.Level? && WrittenLevels(ls) == d[i..SkipFrom(d, i, depth).n]
    decreases if i < |d| then |d| - i else 0
  {
    hide TagOf, NextToken, Valid, Written;
    var end, t := SkipFrom(d, i, depth).n, NextToken(d, i);
    var inside := Depth(t, depth);
    if inside == 0 {
      GroupTag(d, i);
      ls := CloseGroup(d[i..end], Top, 0);
      return;
    }
    var rest := SkippedLevels(d, t.next, inside);
    SliceJoin(d, i, t.next, end);
    if t.wireType == 4 {
      GroupTag(d, i);
      ls := CloseGroup(d[i..t.next], rest, inside);
    } else if t.wireType == 3 {
      GroupTag(d, i);
      ls := NestGroup(d[i..t.next], rest, depth);
    } else {
      var r := ScalarRecord(d, i);
      ls := Prepend(r, rest, depth);
    }
  }

  lemma CloseGroup(close: Bytes, outer: Levels, depth: nat) returns (more: Levels)
    requires TagOf(close, 4) && ValidLevels(outer, depth)
    ensures more.Level? && ValidLevels(more, depth + 1) && WrittenLevels(more) == close + WrittenLevels(outer)
  {
    more := Level(Nil, close, outer);
  }

  lemma Prepend(r: Record, ls: Levels, depth: nat) returns (more: Levels)
    requires Valid(r) && ls.Level? && ValidLevels(ls, depth)
    ensures more.Level? && ValidLevels(more, depth) && WrittenLevels(more) == Written(r) + WrittenLevels(ls)
  {
    hide Valid, Written, TagOf;
    more := ls.(items := Cons(r, ls.items));
    Concat3(Written(r), WrittenAll(ls.items), ls.close + WrittenLevels(ls.outer));
  }

  lemma NestGroup(tag: Bytes, ls: Levels, depth: nat) returns (more: Levels)
    requires TagOf(tag, 3) && ls.Level? && ls.outer.Level? && ValidLevels(ls, depth + 1)
    ensures more.Level? && ValidLevels(more, depth) && WrittenLevels(more) == tag + WrittenLevels(ls)
  {
    hide TagOf, ValidAll, WrittenAll;
    var group := Group(tag, ls.items, ls.close);
    more := Prepend(group, ls.outer, depth);
    var inner, outer := WrittenAll(ls.items), WrittenLevels(ls.outer);
    Concat3(tag, inner + ls.close, outer);
    Concat3(inner, ls.close, outer);
  }

  /** A successful scan that stays inside the input has read exactly one well-formed record. */
  lemma SkippedRecord(d: Bytes) returns (r: Record)
    requires |d| < TWO_63
    requires var s := SkipFrom(d, 0, 0); s.err.None? && s.n <= |d|
    ensures Valid(r) && Written(r) == d[..SkipFrom(d, 0, 0).n]
  {
    hide NextToken, TagOf;
    var t := NextToken(d, 0);
    if t.wireType == 3 {
      GroupTag(d, 0);
      var ls := SkippedLevels(d, t.next, 1);
      r := Group(d[..t.next], ls.items, ls.close);
      assert ls.outer == Top && ls.close + [] == ls.close;
      SliceJoin(d, 0, t.next, SkipFrom(d, 0, 0).n);
    } else {
      r := ScalarRecord(d, 0);
    }
  }

  /** The flat depth counter agrees with the recursive grammar. */
  lemma SkipMeetsGrammar(d: Bytes, n: nat)
    requires |d| < TWO_63 && n <= |d|
    ensures SkipFrom(d, 0, 0) == Skipped(n, None) <==> exists r :: Valid(r) && Written(r) == d[..n]
  {
    if SkipFrom(d, 0, 0) == Skipped(n, None) {
      var r := SkippedRecord(d);
    }
    if r :| Valid(r) && Written(r) == d[..n] {
      assert d[0..] == d;
      assert At(d, 0, Written(r));
      SkipsRecord(d, 0, 0, r);
    }
  }
}
