/** deleteHeightRange of cmd/generic_chain.go: deleting by height in a store ordered bytewise. */
module HeightSweep {
  import opened Base
  import opened Lex
  import opened Decimal
  import opened KvStore

  /** The two ways a height is read off the rest of a key: all of it, or what stands before the first ':'. */
  datatype Parser = OnePart | TwoParts

  function Head(s: Bytes): Bytes {
    if s == [] || s[0] == COLON then [] else [s[0]] + Head(s[1..])
  }

  /** strings.SplitN at the first ':'. */
  lemma {:induction false} HeadIs(s: Bytes)
    ensures COLON !in Head(s) && (Head(s) == s || Head(s) + [COLON] <= s)
  {
    if s != [] && s[0] != COLON {
      HeadIs(s[1..]);
    }
  }

  function Parse(parser: Parser, s: Bytes): Option<Uint64> {
    match parser
    case OnePart => ParseUint(s)
    case TwoParts => ParseUint(Head(s))
  }

  /** The only keys that may go: the prefix, then a height of at most `end`. */
  predicate Doomed(k: Bytes, prefix: Bytes, parser: Parser, end: nat) {
    prefix <= k && var n := Parse(parser, k[|prefix|..]); n.Some? && n.value <= end
  }

  // ---- What one call computes -----------------------------------------------------------------

  function RangeStart(start: nat, digits: nat): nat
    requires digits >= 1
  {
    Max(start, Pow10(digits - 1))
  }

  function RangeEnd(end: nat, digits: nat): nat {
    Min(end, Nines(digits))
  }

  predicate InPass(k: Bytes, prefix: Bytes, start: nat, end: nat, digits: nat)
    requires digits >= 1
  {
    InRange(k, prefix + PadDec(RangeStart(start, digits), digits),
            Some(prefix + PadDec(RangeEnd(end, digits), digits)))
  }

  /** What the pass for one number of digits deletes. */
  function Selected(m: KvMap, prefix: Bytes, parser: Parser, start: nat, end: nat, digits: nat): set<Bytes>
    requires digits >= 1
  {
    set k | k in m && InPass(k, prefix, start, end, digits) && Doomed(k, prefix, parser, end)
  }

  /** The passes from `digits` down to one; a pass that deletes nothing is the last. */
  function Sweep(m: KvMap, prefix: Bytes, parser: Parser, start: nat, end: nat, digits: nat): KvMap {
    if digits == 0 then m
    else if RangeStart(start, digits) > RangeEnd(end, digits) then Sweep(m, prefix, parser, start, end, digits - 1)
    else
      var gone := Selected(m, prefix, parser, start, end, digits);
      if gone == {} then m else Sweep(m - gone, prefix, parser, start, end, digits - 1)
  }

  /** `now` is `was` without some keys, all of which were doomed. */
  ghost predicate OnlyDoomedGone(was: KvMap, now: KvMap, prefix: Bytes, parser: Parser, end: nat) {
    && (forall k :: k in now ==> k in was && now[k] == was[k])
    && (forall k :: k in was && k !in now ==> Doomed(k, prefix, parser, end))
  }

  ghost predicate Deletes(batch: seq<Op>, keys: set<Bytes>) {
    && (forall op :: op in batch ==> op.Del? && op.key in keys)
    && (forall k :: k in keys ==> Del(k) in batch)
  }

  lemma {:induction false} ApplyDeletes(m: KvMap, batch: seq<Op>, keys: set<Bytes>)
    requires Deletes(batch, keys)
    ensures Apply(m, batch) == m - keys
    decreases |batch|
  {
    if batch == [] {
      assert m - keys == m;
    } else {
      var front, last := batch[..|batch| - 1], batch[|batch| - 1];
      assert last in batch && batch == front + [last];
      var earlier := set op | op in front :: op.key;
      assert Deletes(front, earlier);
      ApplyDeletes(m, front, earlier);
      assert keys == earlier + {last.key};
      assert m - earlier - {last.key} == m - keys;
    }
  }

  function DoomedIn(keys: seq<Bytes>, prefix: Bytes, parser: Parser, end: nat): set<Bytes> {
    set k | k in keys && Doomed(k, prefix, parser, end)
  }

  lemma DoomedStep(keys: seq<Bytes>, i: nat, prefix: Bytes, parser: Parser, end: nat)
    requires Ascending(keys) && i < |keys|
    ensures var gone := DoomedIn(keys[..i], prefix, parser, end);
            && keys[i] !in gone
            && DoomedIn(keys[..i + 1], prefix, parser, end) ==
               if Doomed(keys[i], prefix, parser, end) then gone + {keys[i]} else gone
  {
    hide Doomed;
    if keys[i] in keys[..i] {
      var j :| 0 <= j < i && keys[j] == keys[i];
      Irreflexive(keys[i]);
    }
    assert keys[..i + 1] == keys[..i] + [keys[i]];
  }

  lemma DeletesOneMore(batch: seq<Op>, gone: set<Bytes>, k: Bytes)
    requires Deletes(batch, gone)
    ensures Deletes(batch + [Del(k)], gone + {k})
  {
  }

  /** The loop over a pass's keys: parses the height of each and batches the deletion of the doomed ones. */
  method Collect(db: Db, keys: seq<Bytes>, prefix: Bytes, parser: Parser, end: nat) returns (batch: seq<Op>, pruned: nat, ok: bool)
    requires Ascending(keys) && forall k :: k in keys ==> prefix <= k
    modifies db`faulty
    ensures ok ==> var gone := DoomedIn(keys, prefix, parser, end);
                   Deletes(batch, gone) && pruned == |gone|
    ensures db.faulty == (old(db.faulty) || !ok)
  {
    hide Parse;
    batch, pruned := [], 0;
    ghost var gone: set<Bytes> := {};
    for i := 0 to |keys|
      invariant gone == DoomedIn(keys[..i], prefix, parser, end)
      invariant Deletes(batch, gone) && pruned == |gone| && db.faulty == old(db.faulty)
    {
      DoomedStep(keys, i, prefix, parser, end);
      var k := keys[i];
      assert k in keys;
      var number := Parse(parser, k[|prefix|..]);
      if number.None? || number.value > end {
        continue;
      }
      pruned := pruned + 1;
      ok := db.BatchStep();
      if !ok {
        return;
      }
      DeletesOneMore(batch, gone, k);
      batch := batch + [Del(k)];
      gone := gone + {k};
    }
    assert keys[..|keys|] == keys;
    ok := true;
  }

  /** One pass: an iterator over the range for `digits` digits, then a batch with the doomed keys in it. */
  method DeletePass(db: Db, prefix: Bytes, parser: Parser, start: nat, end: nat, digits: nat)
    returns (pruned: nat, ok: bool)
    requires digits >= 1
    modifies db
    ensures ok ==> && db.data == old(db.data) - Selected(old(db.data), prefix, parser, start, end, digits)
                   && pruned == |Selected(old(db.data), prefix, parser, start, end, digits)|
                   && db.cut == old(db.cut)
    ensures db.faulty == (old(db.faulty) || !ok)
    ensures OnlyDoomedGone(old(db.data), db.data, prefix, parser, end)
    ensures |old(db.data)| - |db.data| <= pruned
  {
    hide PadDec, Less, Doomed, Deletes, Apply, Selected, OnlyDoomedGone, InRange;
    DoomedGone(db.data, {}, prefix, parser, end);
    assert db.data - {} == db.data;
    var startKey := prefix + PadDec(RangeStart(start, digits), digits);
    var endKey := prefix + PadDec(RangeEnd(end, digits), digits);
    var it := db.Iterator(startKey, Some(endKey));
    if it.Err? {
      return 0, false;
    }
    var scan := it.value;
    PassHasPrefix(scan.keys, prefix, start, end, digits);
    var batch;
    batch, pruned, ok := Collect(db, scan.keys, prefix, parser, end);
    if !ok {
      return;
    }
    ghost var gone := DoomedIn(scan.keys, prefix, parser, end);
    assert forall k :: k in gone ==> k in scan.keys;
    ApplyDeletes(db.data, batch, gone);
    MinusCount(db.data, gone);
    DoomedGone(db.data, gone, prefix, parser, end);
    ok := db.Write(batch);
    if !ok {
      return;
    }
    ok := db.BatchStep();
    if !ok {
      return;
    }
    if scan.failed {
      return pruned, false; // iter.Error
    }
    ScanSelects(scan, old(db.data), prefix, parser, start, end, digits);
  }

  lemma DoomedGone(m: KvMap, gone: set<Bytes>, prefix: Bytes, parser: Parser, end: nat)
    requires forall k :: k in gone ==> Doomed(k, prefix, parser, end)
    ensures OnlyDoomedGone(m, m - gone, prefix, parser, end)
  {
    hide Doomed;
  }

  lemma ScanSelects(scan: KeyScan, m: KvMap, prefix: Bytes, parser: Parser, start: nat, end: nat, digits: nat)
    requires digits >= 1 && !scan.failed
    requires IsScan(scan, m, prefix + PadDec(RangeStart(start, digits), digits),
                    Some(prefix + PadDec(RangeEnd(end, digits), digits)))
    ensures DoomedIn(scan.keys, prefix, parser, end) == Selected(m, prefix, parser, start, end, digits)
  {
    hide Doomed, PadDec, InRange;
  }

  lemma PassHasPrefix(keys: seq<Bytes>, prefix: Bytes, start: nat, end: nat, digits: nat)
    requires digits >= 1 && forall k :: k in keys ==> InPass(k, prefix, start, end, digits)
    ensures forall k :: k in keys ==> prefix <= k
  {
    hide PadDec, Less;
    forall k | k in keys
      ensures prefix <= k
    {
      assert InPass(k, prefix, start, end, digits);
      RangeHasPrefix(k, prefix, PadDec(RangeStart(start, digits), digits), PadDec(RangeEnd(end, digits), digits));
    }
  }

  lemma MinusCount(m: KvMap, gone: set<Bytes>)
    requires gone <= m.Keys
    ensures |m - gone| == |m| - |gone|
  {
    assert m.Keys == (m - gone).Keys + gone;
  }

  /**
   * deleteHeightRange. Whatever fails on the way, only doomed keys are gone. Unless a database operation fails,
   * the call succeeds: it leaves what the sweep leaves and returns the number of keys deleted.
   */
  method DeleteHeightRange(db: Db, prefix: Bytes, start: nat, end: nat, parser: Parser)
    returns (pruned: nat, ok: bool)
    requires start < TWO_53 && end < TWO_53
    modifies db
    ensures ok ==> && db.data == Sweep(old(db.data), prefix, parser, start, end, |Dec(end)|)
                   && pruned == |old(db.data)| - |db.data|
                   && db.cut == old(db.cut)
    ensures db.faulty == (old(db.faulty) || !ok)
    ensures OnlyDoomedGone(old(db.data), db.data, prefix, parser, end)
    ensures |old(db.data)| - |db.data| <= pruned
  {
    hide Selected, Doomed, OnlyDoomedGone;
    NoneGone(db.data, prefix, parser, end);
    var digits: nat := |Dec(end)|;
    pruned, ok := 0, true;
    while digits >= 1
      invariant Sweep(old(db.data), prefix, parser, start, end, |Dec(end)|) ==
                Sweep(db.data, prefix, parser, start, end, digits)
      invariant ok && pruned == |old(db.data)| - |db.data| && db.cut == old(db.cut) && db.faulty == old(db.faulty)
      invariant OnlyDoomedGone(old(db.data), db.data, prefix, parser, end)
    {
      if RangeStart(start, digits) > RangeEnd(end, digits) {
        digits := digits - 1;
        continue;
      }
      ghost var before := db.data;
      var count;
      count, ok := DeletePass(db, prefix, parser, start, end, digits);
      StillDoomed(old(db.data), before, db.data, prefix, parser, end);
      pruned := pruned + count;
      if !ok {
        return;
      }
      SelectedCount(before, prefix, parser, start, end, digits);
      if count == 0 {
        return;
      }
      digits := digits - 1;
    }
  }

  lemma NoneGone(m: KvMap, prefix: Bytes, parser: Parser, end: nat)
    ensures OnlyDoomedGone(m, m, prefix, parser, end)
  {
  }

  lemma StillDoomed(was: KvMap, mid: KvMap, now: KvMap, prefix: Bytes, parser: Parser, end: nat)
    requires OnlyDoomedGone(was, mid, prefix, parser, end) && OnlyDoomedGone(mid, now, prefix, parser, end)
    ensures OnlyDoomedGone(was, now, prefix, parser, end)
  {
    hide Doomed;
  }

  lemma SelectedCount(m: KvMap, prefix: Bytes, parser: Parser, start: nat, end: nat, digits: nat)
    requires digits >= 1
    ensures var gone := Selected(m, prefix, parser, start, end, digits);
            |m - gone| == |m| - |gone| && (|gone| == 0 ==> gone == {} && m - gone == m)
  {
    hide InPass, Doomed;
    var gone := Selected(m, prefix, parser, start, end, digits);
    MinusCount(m, gone);
    if |gone| == 0 {
      assert m - gone == m;
    }
  }
}
