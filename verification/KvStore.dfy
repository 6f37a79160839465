/**
 * The key-value database as its callers see it: a finite map, iterators over a snapshot in key order, and
 * batches that take effect when they are written. Every operation may fail.
 */
module KvStore {
  import opened Base
  import opened Lex

  datatype Result<+T> = Ok(value: T) | Err

  type KvMap = map<Bytes, Bytes>

  datatype Op = Put(key: Bytes, value: Bytes) | Del(key: Bytes)

  function ApplyOne(m: KvMap, op: Op): KvMap {
    match op
    case Put(k, v) => m[k := v]
    case Del(k) => m - {k}
  }

  function Apply(m: KvMap, ops: seq<Op>): KvMap {
    if ops == [] then m else ApplyOne(Apply(m, ops[..|ops| - 1]), ops[|ops| - 1])
  }

  lemma ApplyLast(m: KvMap, ops: seq<Op>, op: Op)
    ensures Apply(m, ops + [op]) == ApplyOne(Apply(m, ops), op)
  {
    assert (ops + [op])[..|ops|] == ops;
  }

  /** What an iterator yields: keys in order, with the values they had when it was opened. */
  datatype KeyScan = KeyScan(keys: seq<Bytes>, snapshot: KvMap, failed: bool)

  ghost predicate Ascending(keys: seq<Bytes>) {
    forall i, j :: 0 <= i < j < |keys| ==> Less(keys[i], keys[j])
  }

  /** All keys of the range in order, or the first of them if reading failed half-way. */
  ghost predicate IsScan(s: KeyScan, data: KvMap, lo: Bytes, hi: Option<Bytes>) {
    && s.snapshot == data
    && Ascending(s.keys)
    && (forall k :: k in s.keys ==> k in data && InRange(k, lo, hi))
    && (!s.failed ==> forall k :: k in data && InRange(k, lo, hi) ==> k in s.keys)
  }

  lemma {:induction false} LeastExists(s: set<Bytes>)
    requires s != {}
    ensures exists m :: m in s && forall k :: k in s ==> k == m || Less(m, k)
    decreases |s|
  {
    var x :| x in s;
    if s == {x} {
    } else {
      var rest := s - {x};
      assert s == rest + {x};
      LeastExists(rest);
      var m :| m in rest && forall k :: k in rest ==> k == m || Less(m, k);
      Total(m, x);
      if Less(m, x) {
        assert forall k :: k in s ==> k == m || Less(m, k);
      } else {
        forall k | k in s
          ensures k == x || Less(x, k)
        {
          if k in rest && k != m {
            Transitive(x, m, k);
          }
        }
      }
    }
  }

  class Db {
    var data: KvMap
    /** Whether some scan of this database ended early; only iter.Error() reports that. */
    ghost var cut: bool
    /** Whether some operation on this database, or on a batch for it, has failed. */
    ghost var faulty: bool
    /** How often this handle has been closed. */
    ghost var closes: nat

    constructor (contents: KvMap)
      ensures data == contents && !cut && !faulty && closes == 0
    {
      data, cut, faulty, closes := contents, false, false, 0;
    }

    /** Closing may report an error; the handle is closed all the same. */
    method Close() returns (ok: bool)
      modifies this`closes, this`faulty
      ensures closes == old(closes) + 1 && faulty == (old(faulty) || !ok)
    {
      closes := closes + 1;
      ok := *;
      faulty := faulty || !ok;
    }

    /** Adding to a batch, or closing it. */
    method BatchStep() returns (ok: bool)
      modifies this`faulty
      ensures faulty == (old(faulty) || !ok)
    {
      ok := *;
      faulty := faulty || !ok;
    }

    method Get(k: Bytes) returns (r: Result<Option<Bytes>>)
      modifies this`faulty
      ensures r.Ok? ==> r.value == if k in data then Some(data[k]) else None
      ensures faulty == (old(faulty) || r.Err?)
    {
      if * {
        faulty := true;
        return Err;
      }
      r := Ok(if k in data then Some(data[k]) else None);
    }

    method Has(k: Bytes) returns (r: Result<bool>)
      modifies this`faulty
      ensures r.Ok? ==> r.value == (k in data)
      ensures faulty == (old(faulty) || r.Err?)
    {
      if * {
        faulty := true;
        return Err;
      }
      r := Ok(k in data);
    }

    method SetSync(k: Bytes, v: Bytes) returns (ok: bool)
      modifies this`data, this`faulty
      ensures data == if ok then old(data)[k := v] else old(data)
      ensures faulty == (old(faulty) || !ok)
    {
      ok := *;
      faulty := faulty || !ok;
      if ok {
        data := data[k := v];
      }
    }

    /** Writes a batch: all of it or, on failure, nothing. */
    method Write(batch: seq<Op>) returns (ok: bool)
      modifies this`data, this`faulty
      ensures data == if ok then Apply(old(data), batch) else old(data)
      ensures faulty == (old(faulty) || !ok)
    {
      ok := *;
      faulty := faulty || !ok;
      if ok {
        data := Apply(data, batch);
      }
    }

    method Iterator(lo: Bytes, hi: Option<Bytes>) returns (r: Result<KeyScan>)
      modifies this`cut, this`faulty
      ensures r.Ok? ==> IsScan(r.value, data, lo, hi)
      ensures cut == (old(cut) || (r.Ok? && r.value.failed))
      ensures faulty == (old(faulty) || r.Err? || r.value.failed)
    {
      if * {
        faulty := true;
        return Err;
      }
      var rest := set k | k in data && InRange(k, lo, hi);
      ghost var all := rest;
      var keys: seq<Bytes> := [];
      while rest != {}
        invariant rest <= all && cut == old(cut) && faulty == old(faulty)
        invariant Ascending(keys)
        invariant forall k :: k in keys ==> k in all
        invariant forall k :: k in all ==> k in keys || k in rest
        invariant forall k, r :: k in keys && r in rest ==> Less(k, r)
        decreases |rest|
      {
        if * {
          cut, faulty := true, true;
          return Ok(KeyScan(keys, data, true));
        }
        LeastExists(rest);
        var m :| m in rest && forall k :: k in rest ==> k == m || Less(m, k);
        keys := keys + [m];
        rest := rest - {m};
      }
      r := Ok(KeyScan(keys, data, false));
    }

    /** Where a reverse iterator over a range starts: the greatest key in it, if there is one. */
    method LastKey(lo: Bytes, hi: Option<Bytes>) returns (r: Result<Option<Bytes>>)
      modifies this`faulty
      ensures faulty == (old(faulty) || r.Err?)
      ensures r.Ok? && r.value.None? ==> forall k :: k in data ==> !InRange(k, lo, hi)
      ensures r.Ok? && r.value.Some? ==>
                && r.value.value in data && InRange(r.value.value, lo, hi)
                && forall k :: k in data && InRange(k, lo, hi) ==> k == r.value.value || Less(k, r.value.value)
    {
      if * {
        faulty := true;
        return Err;
      }
      var rest := set k | k in data && InRange(k, lo, hi);
      assert forall k :: k in data && InRange(k, lo, hi) ==> k in rest;
      ghost var all := rest;
      var last: Option<Bytes> := None;
      while rest != {}
        invariant rest <= all && (last.None? ==> rest == all) && faulty == old(faulty)
        invariant last.Some? ==>
                    && last.value in all && last.value !in rest
                    && (forall k :: k in all && k !in rest ==> k == last.value || Less(k, last.value))
                    && (forall k :: k in rest ==> Less(last.value, k))
        decreases |rest|
      {
        LeastExists(rest);
        var m :| m in rest && forall k :: k in rest ==> k == m || Less(m, k);
        if last.Some? {
          forall k | k in all && k !in rest
            ensures Less(k, m)
          {
            if k != last.value {
              Transitive(k, last.value, m);
            }
          }
        }
        last := Some(m);
        rest := rest - {m};
      }
      r := Ok(last);
    }
  }
}
