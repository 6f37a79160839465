/** Bytewise (lexicographic) order of keys, and what it says about ranges under a common prefix. */
module Lex {
  import opened Base

  predicate Less(a: Bytes, b: Bytes) {
    if b == [] then false
    else if a == [] then true
    else a[0] < b[0] || (a[0] == b[0] && Less(a[1..], b[1..]))
  }

  /** The half-open range of an iterator; no bound at all when `hi` is absent. */
  predicate InRange(k: Bytes, lo: Bytes, hi: Option<Bytes>) {
    !Less(k, lo) && (hi.Some? ==> Less(k, hi.value))
  }

  lemma {:induction false} Irreflexive(a: Bytes)
    ensures !Less(a, a)
  {
    if a != [] {
      Irreflexive(a[1..]);
    }
  }

  lemma {:induction false} Transitive(a: Bytes, b: Bytes, c: Bytes)
    requires Less(a, b) && Less(b, c)
    ensures Less(a, c)
  {
    if a != [] && a[0] == b[0] == c[0] {
      Transitive(a[1..], b[1..], c[1..]);
    }
  }

  lemma {:induction false} Total(a: Bytes, b: Bytes)
    ensures Less(a, b) || a == b || Less(b, a)
  {
    if a != [] && b != [] && a[0] == b[0] {
      Total(a[1..], b[1..]);
      assert a == [a[0]] + a[1..] && b == [b[0]] + b[1..];
    }
  }

  lemma Asymmetric(a: Bytes, b: Bytes)
    requires Less(a, b)
    ensures !Less(b, a)
  {
    if Less(b, a) {
      Transitive(a, b, a);
      Irreflexive(a);
    }
  }

  /** A common prefix cancels. */
  lemma {:induction false} SamePrefix(p: Bytes, a: Bytes, b: Bytes)
    ensures Less(p + a, p + b) == Less(a, b)
  {
    if p == [] {
      assert p + a == a && p + b == b;
    } else {
      SamePrefix(p[1..], a, b);
      assert (p + a)[1..] == p[1..] + a && (p + b)[1..] == p[1..] + b;
    }
  }

  /** Whatever lies between two keys with a prefix has that prefix. */
  lemma {:induction false} RangeHasPrefix(k: Bytes, p: Bytes, x: Bytes, y: Bytes)
    requires !Less(k, p + x) && Less(k, p + y)
    ensures p <= k
  {
    if p != [] {
      assert (p + x)[1..] == p[1..] + x && (p + y)[1..] == p[1..] + y;
      RangeHasPrefix(k[1..], p[1..], x, y);
      assert k == [k[0]] + k[1..] && p == [p[0]] + p[1..];
    }
  }

  /** The prefix with its last byte incremented, as the callers compute the end of a prefix scan. */
  function PrefixEnd(p: Bytes): Bytes
    requires p != [] && p[|p| - 1] < 255
  {
    p[|p| - 1 := p[|p| - 1] + 1]
  }

  /** Scanning from a prefix to its end visits precisely the keys with that prefix. */
  lemma {:induction false} PrefixRange(k: Bytes, p: Bytes)
    requires p != [] && p[|p| - 1] < 255
    ensures InRange(k, p, Some(PrefixEnd(p))) <==> p <= k
  {
    if k != [] {
      if |p| == 1 {
        assert p[1..] == [] && PrefixEnd(p)[1..] == [];
        assert !Less(k[1..], p[1..]) && !Less(k[1..], PrefixEnd(p)[1..]);
        assert p == [p[0]] && (p <= k <==> p[0] == k[0]);
      } else {
        var p', k' := p[1..], k[1..];
        PrefixRange(k', p');
        assert PrefixEnd(p)[1..] == PrefixEnd(p');
        assert p == [p[0]] + p' && k == [k[0]] + k';
        assert p <= k <==> p[0] == k[0] && p' <= k';
      }
    }
  }

  // ---- Comparing strings of different lengths ---------------------------------------------------

  /** Equal lengths: the last byte decides only between equal heads. */
  lemma {:induction false} LastByte(x: Bytes, y: Bytes, c: Byte, e: Byte)
    requires |x| == |y|
    ensures Less(x + [c], y + [e]) == (Less(x, y) || (x == y && c < e))
  {
    if x == [] {
      assert x + [c] == [c] && y + [e] == [e];
    } else {
      LastByte(x[1..], y[1..], c, e);
      assert (x + [c])[1..] == x[1..] + [c] && (y + [e])[1..] == y[1..] + [e];
      assert x == [x[0]] + x[1..] && y == [y[0]] + y[1..];
    }
  }

  /** What follows the first |y| bytes does not matter. */
  lemma {:induction false} LongerLeft(x: Bytes, t: Bytes, y: Bytes)
    requires |x| >= |y|
    ensures Less(x + t, y) == Less(x, y)
  {
    if y != [] {
      LongerLeft(x[1..], t, y[1..]);
      assert (x + t)[1..] == x[1..] + t;
    }
  }

  /** The last byte of a longer right-hand side only makes room for an equal head. */
  lemma {:induction false} LongerRight(x: Bytes, y: Bytes, e: Byte)
    requires |x| <= |y|
    ensures Less(x, y + [e]) == (Less(x, y) || x == y)
  {
    if x != [] {
      LongerRight(x[1..], y[1..], e);
      assert (y + [e])[1..] == y[1..] + [e];
      assert x == [x[0]] + x[1..] && y == [y[0]] + y[1..];
    }
  }

  /** A proper prefix followed by a byte above every byte of `y` lies above `y`. */
  lemma {:induction false} AboveAfterPrefix(x: Bytes, t: Bytes, y: Bytes)
    requires |x| < |y| && t != [] && forall j :: 0 <= j < |y| ==> y[j] < t[0]
    ensures Less(x + t, y) == (Less(x, y) && !(x <= y))
  {
    if x == [] {
      assert x + t == t;
    } else {
      AboveAfterPrefix(x[1..], t, y[1..]);
      assert (x + t)[1..] == x[1..] + t;
      assert x == [x[0]] + x[1..] && y == [y[0]] + y[1..];
    }
  }

  /** A string of bytes that no byte of `y` exceeds can only be below `y` as a prefix of it. */
  lemma {:induction false} BelowOnlyAsPrefix(x: Bytes, y: Bytes)
    requires Less(x, y)
    requires forall i, j :: 0 <= i < |x| && 0 <= j < |y| ==> y[j] <= x[i]
    ensures x <= y
  {
    if x != [] {
      BelowOnlyAsPrefix(x[1..], y[1..]);
      assert x == [x[0]] + x[1..] && y == [y[0]] + y[1..];
    }
  }
}
