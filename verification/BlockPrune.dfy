/** Pruning the block store: cmd/generic_chain.go, and the repair tool in basefix/main.go. */
module BlockPrune {
  import opened Base
  import opened Lex
  import opened Decimal
  import opened KvStore
  import opened HeightSweep
  import opened HeightCoverage
  import opened WireFields
  import opened WireMessages

  const HEADERS: Bytes := [72, 58]              // "H:"
  const COMMITS: Bytes := [67, 58]              // "C:"
  const EXTENDED_COMMITS: Bytes := [69, 67, 58] // "EC:"
  const SEEN_COMMITS: Bytes := [83, 67, 58]     // "SC:"
  const PARTS: Bytes := [80, 58]                // "P:"
  const BLOCK_HASHES: Bytes := [66, 72, 58]     // "BH:"
  const TX_INFOS: Bytes := [84, 72, 58]         // "TH:"
  const BLOCK_STORE: Bytes := [98, 108, 111, 99, 107, 83, 116, 111, 114, 101] // "blockStore"

  // ---- deleteAllByPrefix ------------------------------------------------------------------------

  /** The callback of deleteAllByPrefix: whether to delete an entry, or an error that ends the scan. */
  type Choice = (Bytes, Bytes) -> Result<bool>

  function Chosen(m: KvMap, prefix: Bytes, choice: Choice): set<Bytes> {
    set k | k in m && prefix <= k && choice(k, m[k]) == Ok(true)
  }

  /** The callback fails on some entry. */
  ghost predicate Refused(m: KvMap, prefix: Bytes, choice: Choice) {
    exists k :: k in m && prefix <= k && choice(k, m[k]).Err?
  }

  const FLUSH_EVERY: nat := 1_000_000

  /** Where the loop is: what is written already, what waits in the batch, and the keys seen so far. */
  ghost predicate Progress(was: KvMap, now: KvMap, written: set<Bytes>, batch: seq<Op>, waiting: set<Bytes>,
                           seen: seq<Bytes>, prefix: Bytes, choice: Choice) {
    && now == was - written
    && Deletes(batch, waiting)
    && written !! waiting
    && written + waiting == set k | k in seen && k in Chosen(was, prefix, choice)
  }

  lemma ProgressStep(was: KvMap, now: KvMap, written: set<Bytes>, batch: seq<Op>, waiting: set<Bytes>,
                     keys: seq<Bytes>, i: nat, prefix: Bytes, choice: Choice)
    requires i < |keys| && Ascending(keys) && keys[i] in was && prefix <= keys[i]
    requires Progress(was, now, written, batch, waiting, keys[..i], prefix, choice)
    ensures var k := keys[i];
            if choice(k, was[k]) == Ok(true)
            then k !in written + waiting
                 && Progress(was, now, written, batch + [Del(k)], waiting + {k}, keys[..i + 1], prefix, choice)
            else Progress(was, now, written, batch, waiting, keys[..i + 1], prefix, choice)
  {
    hide Deletes;
    var k := keys[i];
    if k in keys[..i] {
      var j :| 0 <= j < i && keys[j] == keys[i];
      Irreflexive(k);
    }
    DeletesOneMore(batch, waiting, k);
    assert keys[..i + 1] == keys[..i] + [k];
  }

  lemma ProgressFlush(was: KvMap, now: KvMap, written: set<Bytes>, batch: seq<Op>, waiting: set<Bytes>,
                      seen: seq<Bytes>, prefix: Bytes, choice: Choice)
    requires Progress(was, now, written, batch, waiting, seen, prefix, choice)
    ensures Progress(was, Apply(now, batch), written + waiting, [], {}, seen, prefix, choice)
  {
    hide Apply, Chosen;
    ApplyDeletes(now, batch, waiting);
    assert was - written - waiting == was - (written + waiting);
  }

  /**
   * deleteAllByPrefix. Whatever happens, only chosen entries are `gone` and the rest is as it was. When it
   * succeeds and no scan was cut short, which it does not check, all chosen entries are gone and counted. It
   * fails only when a database operation or the callback does.
   */
  method DeleteAllByPrefix(db: Db, prefix: Bytes, choice: Choice) returns (count: nat, ok: bool, ghost gone: set<Bytes>)
    requires prefix != [] && prefix[|prefix| - 1] < 255
    modifies db
    ensures gone <= Chosen(old(db.data), prefix, choice) && db.data == old(db.data) - gone
    ensures ok ==> count == |gone|
    ensures ok && !db.cut ==> gone == Chosen(old(db.data), prefix, choice)
    ensures ok && !db.cut ==> forall k :: k in old(db.data) && prefix <= k ==> choice(k, old(db.data)[k]).Ok?
    ensures old(db.cut) ==> db.cut
    ensures !ok && !db.faulty ==> Refused(old(db.data), prefix, choice)
    ensures old(db.faulty) ==> db.faulty
  {
    hide Less, Apply, Progress, Chosen, IsScan, Ascending, Deletes, Refused, PrefixEnd, InRange;
    ghost var was := db.data;
    ProgressStarts(was, prefix, choice);
    count, ok, gone := 0, false, {};
    var it := db.Iterator(prefix, Some(PrefixEnd(prefix)));
    if it.Err? {
      return;
    }
    var scan := it.value;
    ScanHasPrefix(scan, was, prefix);
    var batch: seq<Op> := [];
    ghost var waiting: set<Bytes> := {};
    assert scan.keys[..0] == [];
    for i := 0 to |scan.keys|
      invariant Progress(was, db.data, gone, batch, waiting, scan.keys[..i], prefix, choice)
      invariant gone <= Chosen(was, prefix, choice) && db.data == was - gone
      invariant count == |gone + waiting| && db.cut == (old(db.cut) || scan.failed) && !ok
      invariant old(db.faulty) ==> db.faulty
      invariant forall k :: k in scan.keys[..i] ==> choice(k, was[k]).Ok?
    {
      var examined;
      batch, count, examined, waiting := Examine(db, scan, i, batch, count, was, db.data, gone, waiting, prefix, choice);
      if !examined {
        NotExamined(scan, i, was, prefix, choice);
        return;
      }
      SeenOneMore(scan.keys, i);
      if count > 0 && count % FLUSH_EVERY == 0 {
        var wrote, closed := Flush(db, batch, was, gone, waiting, scan.keys[..i + 1], prefix, choice);
        if !wrote {
          return;
        }
        batch, gone, waiting := [], gone + waiting, {};
        if !closed {
          return;
        }
        assert gone + waiting == gone;
      }
    }
    assert scan.keys[..|scan.keys|] == scan.keys;
    var wrote, closed := Flush(db, batch, was, gone, waiting, scan.keys, prefix, choice);
    if !wrote {
      return;
    }
    gone := gone + waiting;
    if !closed {
      return;
    }
    ok := true;
    ProgressEnds(was, db.data, gone, scan, prefix, choice);
  }

  /** The loop's body up to the flush: asks the callback and batches the deletion; both may fail. */
  method Examine(db: Db, scan: KeyScan, i: nat, batch: seq<Op>, count: nat, ghost was: KvMap, ghost now: KvMap,
                 ghost written: set<Bytes>, ghost waiting: set<Bytes>, ghost prefix: Bytes, choice: Choice)
    returns (batch': seq<Op>, count': nat, ok: bool, ghost waiting': set<Bytes>)
    requires i < |scan.keys| && scan.snapshot == was && Ascending(scan.keys)
    requires forall k :: k in scan.keys ==> prefix <= k && k in was
    requires Progress(was, now, written, batch, waiting, scan.keys[..i], prefix, choice)
    requires count == |written + waiting|
    modifies db`faulty
    ensures db.faulty == (old(db.faulty) || (!ok && choice(scan.keys[i], was[scan.keys[i]]).Ok?))
    ensures ok ==> && Progress(was, now, written, batch', waiting', scan.keys[..i + 1], prefix, choice)
                   && count' == |written + waiting'| && choice(scan.keys[i], was[scan.keys[i]]).Ok?
  {
    hide Progress;
    batch', count', waiting' := batch, count, waiting;
    var k := scan.keys[i];
    assert k in scan.keys;
    ProgressStep(was, now, written, batch, waiting, scan.keys, i, prefix, choice);
    var del := choice(k, scan.snapshot[k]);
    if del.Err? {
      return batch', count', false, waiting';
    }
    if del.value {
      count' := count + 1;
      ok := db.BatchStep();
      if !ok {
        return;
      }
      assert written + (waiting + {k}) == (written + waiting) + {k};
      batch' := batch + [Del(k)];
      waiting' := waiting + {k};
    }
    ok := true;
  }

  lemma NotExamined(scan: KeyScan, i: nat, was: KvMap, prefix: Bytes, choice: Choice)
    requires i < |scan.keys| && forall k :: k in scan.keys ==> prefix <= k && k in was
    ensures scan.keys[i] in was
    ensures choice(scan.keys[i], was[scan.keys[i]]).Err? ==> Refused(was, prefix, choice)
  {
    assert scan.keys[i] in scan.keys;
  }

  lemma SeenOneMore(keys: seq<Bytes>, i: nat)
    requires i < |keys|
    ensures forall x :: x in keys[..i + 1] ==> x in keys[..i] || x == keys[i]
  {
  }

  /** Writes and closes the batch; either may fail. */
  method Flush(db: Db, batch: seq<Op>, ghost was: KvMap, ghost written: set<Bytes>, ghost waiting: set<Bytes>,
               ghost seen: seq<Bytes>, ghost prefix: Bytes, ghost choice: Choice)
    returns (wrote: bool, closed: bool)
    requires Progress(was, db.data, written, batch, waiting, seen, prefix, choice)
    modifies db`data, db`faulty
    ensures db.faulty == (old(db.faulty) || !wrote || !closed)
    ensures !wrote ==> db.data == old(db.data)
    ensures wrote ==> && Progress(was, db.data, written + waiting, [], {}, seen, prefix, choice)
                      && written + waiting <= Chosen(was, prefix, choice) && db.data == was - (written + waiting)
  {
    hide Progress, Apply, Chosen;
    ProgressFlush(was, db.data, written, batch, waiting, seen, prefix, choice);
    ProgressPartial(was, Apply(db.data, batch), written + waiting, [], {}, seen, prefix, choice);
    wrote := db.Write(batch);
    closed := db.BatchStep();
  }

  lemma ProgressStarts(was: KvMap, prefix: Bytes, choice: Choice)
    ensures Progress(was, was, {}, [], {}, [], prefix, choice) && was - {} == was
  {
    assert was - {} == was;
  }

  lemma ProgressPartial(was: KvMap, now: KvMap, written: set<Bytes>, batch: seq<Op>, waiting: set<Bytes>,
                        seen: seq<Bytes>, prefix: Bytes, choice: Choice)
    requires Progress(was, now, written, batch, waiting, seen, prefix, choice)
    ensures written <= Chosen(was, prefix, choice) && now == was - written
  {
    forall k | k in written
      ensures k in Chosen(was, prefix, choice)
    {
      assert k in written + waiting;
    }
  }

  lemma ProgressEnds(was: KvMap, now: KvMap, written: set<Bytes>, scan: KeyScan, prefix: Bytes, choice: Choice)
    requires Progress(was, now, written, [], {}, scan.keys, prefix, choice)
    requires prefix != [] && prefix[|prefix| - 1] < 255 && IsScan(scan, was, prefix, Some(PrefixEnd(prefix)))
    ensures !scan.failed ==> written == Chosen(was, prefix, choice)
    ensures !scan.failed ==> forall k :: k in was && prefix <= k ==> k in scan.keys
  {
    hide Less, InRange;
    assert written + {} == written;
    if !scan.failed {
      forall k | k in was && prefix <= k
        ensures k in scan.keys
      {
        PrefixRange(k, prefix);
      }
      assert forall k :: k in Chosen(was, prefix, choice) ==> k in scan.keys;
    }
  }

  lemma ScanHasPrefix(scan: KeyScan, was: KvMap, prefix: Bytes)
    requires prefix != [] && prefix[|prefix| - 1] < 255 && IsScan(scan, was, prefix, Some(PrefixEnd(prefix)))
    ensures scan.snapshot == was && Ascending(scan.keys)
    ensures forall k :: k in scan.keys ==> prefix <= k && k in was
  {
    hide Less, InRange;
    forall k | k in scan.keys
      ensures prefix <= k
    {
      PrefixRange(k, prefix);
    }
  }

  // ---- pruneBlockStore ----------------------------------------------------------------------------

  const BLOCK_KEYS: seq<(Bytes, Parser)> := [
    (HEADERS, OnePart), (COMMITS, OnePart), (EXTENDED_COMMITS, OnePart), (SEEN_COMMITS, OnePart), (PARTS, TwoParts)
  ]

  /** One sweep for each kind of key, in the order of the table. */
  function SweepAll(m: KvMap, kinds: seq<(Bytes, Parser)>, end: nat): KvMap
    decreases |kinds|
  {
    if kinds == [] then m
    else SweepAll(Sweep(m, kinds[0].0, kinds[0].1, 0, end, |Dec(end)|), kinds[1..], end)
  }

  function TxHeight(m: Message): int {
    if 1 in m && m[1].Num? then m[1].n else 0
  }

  /** Deletes a transaction record of an earlier height; a record that does not decode ends the scan. */
  function TxExpired(end: nat): Choice {
    (k: Bytes, v: Bytes) =>
      if |v| >= TWO_63 then Err // no slice is that long
      else
        var r := DecodeTx(v);
        if r.err.Some? then Err else Ok(TxHeight(r.msg) < end)
  }

  function Always(): Choice {
    (k: Bytes, v: Bytes) => Ok(true)
  }

  function AfterBlockPrune(m: KvMap, end: nat): KvMap {
    var swept := SweepAll(m, BLOCK_KEYS, end);
    var unhashed := swept - Chosen(swept, BLOCK_HASHES, Always());
    unhashed - Chosen(unhashed, TX_INFOS, TxExpired(end))
  }

  /** The entries that pruning the block store may remove. */
  ghost predicate Expendable(k: Bytes, v: Bytes, end: nat) {
    || (exists kind :: kind in BLOCK_KEYS && Doomed(k, kind.0, kind.1, end))
    || BLOCK_HASHES <= k
    || (TX_INFOS <= k && TxExpired(end)(k, v) == Ok(true))
  }

  /** There is a transaction record that does not decode. */
  ghost predicate HasUndecodable(m: KvMap) {
    exists k :: k in m && TX_INFOS <= k && (|m[k]| >= TWO_63 || DecodeTx(m[k]).err.Some?)
  }

  lemma RefusedIsUndecodable(was: KvMap, now: KvMap, end: nat)
    requires OnlyExpendableGone(was, now, end)
    ensures Refused(now, TX_INFOS, TxExpired(end)) ==> HasUndecodable(was)
    ensures !Refused(now, BLOCK_HASHES, Always())
  {
    hide DecodeTx, Expendable;
    if Refused(now, TX_INFOS, TxExpired(end)) {
      var k :| k in now && TX_INFOS <= k && TxExpired(end)(k, now[k]).Err?;
      assert k in was && was[k] == now[k];
    }
  }

  ghost predicate OnlyExpendableGone(was: KvMap, now: KvMap, end: nat) {
    && (forall k :: k in now ==> k in was && now[k] == was[k])
    && (forall k :: k in was && k !in now ==> Expendable(k, was[k], end))
  }

  /** Whatever fails on the way, only expendable entries are gone; a record that does not decode is a failure, too. */
  method PruneBlockStore(db: Db, end: nat) returns (ok: bool)
    requires end < TWO_53
    modifies db
    ensures OnlyExpendableGone(old(db.data), db.data, end)
    ensures ok && !db.cut ==> db.data == AfterBlockPrune(old(db.data), end)
    ensures !ok && !db.faulty ==> HasUndecodable(old(db.data))
    ensures ok && !db.cut ==> !HasUndecodable(old(db.data))
    ensures old(db.faulty) ==> db.faulty
  {
    hide Sweep, Doomed, TxExpired, Always, Chosen, Refused, HasUndecodable, OnlyExpendableGone, OnlyDoomedGone;
    ghost var was := db.data;
    NothingGone(was, end);
    ok := true;
    for i := 0 to |BLOCK_KEYS|
      invariant ok && SweepAll(was, BLOCK_KEYS, end) == SweepAll(db.data, BLOCK_KEYS[i..], end)
      invariant OnlyExpendableGone(was, db.data, end) && (old(db.faulty) ==> db.faulty)
    {
      var kind := BLOCK_KEYS[i];
      assert kind in BLOCK_KEYS;
      ghost var before := db.data;
      var pruned;
      pruned, ok := DeleteHeightRange(db, kind.0, 0, end, kind.1);
      SweepExpendable(was, before, db.data, kind, end);
      if !ok {
        return;
      }
      assert BLOCK_KEYS[i..][0] == kind && BLOCK_KEYS[i..][1..] == BLOCK_KEYS[i + 1..];
    }
    ghost var swept := db.data;
    var count;
    ghost var gone;
    RefusedIsUndecodable(was, swept, end);
    count, ok, gone := DeleteAllByPrefix(db, BLOCK_HASHES, Always());
    ChosenExpendable(was, swept, gone, BLOCK_HASHES, Always(), end);
    ghost var hashes := gone;
    if !ok {
      return;
    }
    ghost var unhashed := db.data;
    RefusedIsUndecodable(was, unhashed, end);
    count, ok, gone := DeleteAllByPrefix(db, TX_INFOS, TxExpired(end));
    ChosenExpendable(was, unhashed, gone, TX_INFOS, TxExpired(end), end);
    if ok && !db.cut {
      AllDecodable(was, swept, unhashed, hashes, end);
    }
  }

  /** No record is lost before it is looked at, so each of them decodes if those left then do. */
  lemma AllDecodable(was: KvMap, swept: KvMap, unhashed: KvMap, hashes: set<Bytes>, end: nat)
    requires swept == SweepAll(was, BLOCK_KEYS, end) && unhashed == swept - hashes
    requires hashes <= Chosen(swept, BLOCK_HASHES, Always())
    requires forall k :: k in unhashed && TX_INFOS <= k ==> TxExpired(end)(k, unhashed[k]).Ok?
    ensures !HasUndecodable(was)
  {
    hide SweepAll, DecodeTx;
    SweepAllShrinks(was, BLOCK_KEYS, end);
    forall k | k in was && TX_INFOS <= k
      ensures k in unhashed && unhashed[k] == was[k]
    {
      forall kind | kind in BLOCK_KEYS
        ensures !(kind.0 <= k)
      {
        PrefixesApart(TX_INFOS, kind.0, k);
      }
      SweepsElsewhere(was, BLOCK_KEYS, end, k);
      PrefixesApart(TX_INFOS, BLOCK_HASHES, k);
    }
  }

  lemma NothingGone(m: KvMap, end: nat)
    ensures OnlyExpendableGone(m, m, end)
  {
  }

  lemma SweepExpendable(was: KvMap, before: KvMap, now: KvMap, kind: (Bytes, Parser), end: nat)
    requires kind in BLOCK_KEYS && OnlyExpendableGone(was, before, end)
    requires OnlyDoomedGone(before, now, kind.0, kind.1, end)
    ensures OnlyExpendableGone(was, now, end)
  {
    hide Doomed, TxExpired;
  }

  lemma ChosenExpendable(was: KvMap, before: KvMap, gone: set<Bytes>, prefix: Bytes, choice: Choice, end: nat)
    requires OnlyExpendableGone(was, before, end) && gone <= Chosen(before, prefix, choice)
    requires prefix == BLOCK_HASHES || (prefix == TX_INFOS && choice == TxExpired(end))
    ensures OnlyExpendableGone(was, before - gone, end)
  {
    hide Doomed, TxExpired;
  }

  // ---- What is left of each kind of entry ------------------------------------------------------------

  ghost predicate FirstByteDiffers(p: Bytes, q: Bytes) {
    p != [] && q != [] && p[0] != q[0]
  }

  lemma PrefixesApart(p: Bytes, q: Bytes, k: Bytes)
    requires FirstByteDiffers(p, q) && p <= k
    ensures !(q <= k)
  {
  }

  /** The sweeps of a table do not disturb each other. */
  lemma {:induction false} SweepsIndependent(m: KvMap, kinds: seq<(Bytes, Parser)>, end: nat, i: nat, k: Bytes)
    requires i < |kinds| && kinds[i].0 <= k
    requires forall x, y :: 0 <= x < y < |kinds| ==> FirstByteDiffers(kinds[x].0, kinds[y].0)
    ensures k in SweepAll(m, kinds, end) <==> k in Sweep(m, kinds[i].0, kinds[i].1, 0, end, |Dec(end)|)
    decreases |kinds|
  {
    hide Sweep, Dec;
    var d := |Dec(end)|;
    var first := kinds[0];
    var m' := Sweep(m, first.0, first.1, 0, end, d);
    if i == 0 {
      SweepsElsewhere(m', kinds[1..], end, k);
    } else {
      forall x | kinds[i].0 <= x
        ensures x in m <==> x in m'
      {
        PrefixesApart(kinds[i].0, first.0, x);
        SweepElsewhere(m, first.0, first.1, end, d, x);
      }
      SweepLocal(m, m', kinds[i].0, kinds[i].1, end, d);
      SweepsIndependent(m', kinds[1..], end, i - 1, k);
    }
  }

  lemma {:induction false} SweepsElsewhere(m: KvMap, kinds: seq<(Bytes, Parser)>, end: nat, k: Bytes)
    requires forall kind :: kind in kinds ==> !(kind.0 <= k)
    ensures k in SweepAll(m, kinds, end) <==> k in m
    decreases |kinds|
  {
    hide Sweep, Dec;
    if kinds != [] {
      assert kinds[0] in kinds;
      SweepElsewhere(m, kinds[0].0, kinds[0].1, end, |Dec(end)|, k);
      SweepsElsewhere(Sweep(m, kinds[0].0, kinds[0].1, 0, end, |Dec(end)|), kinds[1..], end, k);
    }
  }

  /** Of each kind of key swept by height, pruning the block store leaves what its own sweep leaves. */
  lemma BlockPruneKind(m: KvMap, end: nat, i: nat, k: Bytes)
    requires i < |BLOCK_KEYS| && BLOCK_KEYS[i].0 <= k
    ensures k in AfterBlockPrune(m, end) <==> k in Sweep(m, BLOCK_KEYS[i].0, BLOCK_KEYS[i].1, 0, end, |Dec(end)|)
  {
    hide Sweep, Dec, SweepAll;
    SweepsIndependent(m, BLOCK_KEYS, end, i, k);
    PrefixesApart(BLOCK_KEYS[i].0, BLOCK_HASHES, k);
    PrefixesApart(BLOCK_KEYS[i].0, TX_INFOS, k);
  }

  /** No block hash is left. */
  lemma BlockHashesGone(m: KvMap, end: nat, k: Bytes)
    requires BLOCK_HASHES <= k
    ensures k !in AfterBlockPrune(m, end)
  {
    hide SweepAll;
  }

  /** An entry that holds an encoded CelestiaTxInfo is left exactly when its height is not below the end. */
  lemma TxInfosByHeight(m: KvMap, end: nat, k: Bytes, height: Int64, index: Uint32, code: Uint32, error: Bytes)
    requires |error| < TWO_63 && |EncodeTx(height, index, code, error)| < TWO_63
    requires TX_INFOS <= k && k in m && m[k] == EncodeTx(height, index, code, error)
    ensures TxExpired(end)(k, m[k]).Ok?
    ensures k in AfterBlockPrune(m, end) <==> height >= end
  {
    hide SweepAll, EncodeTx, DecodeTx;
    TxRoundTrip(height, index, code, error);
    assert TxExpired(end)(k, m[k]) == Ok(height < end);
    var swept := SweepAll(m, BLOCK_KEYS, end);
    forall kind | kind in BLOCK_KEYS
      ensures !(kind.0 <= k)
    {
      PrefixesApart(TX_INFOS, kind.0, k);
    }
    SweepsElsewhere(m, BLOCK_KEYS, end, k);
    SweepAllShrinks(m, BLOCK_KEYS, end);
    PrefixesApart(TX_INFOS, BLOCK_HASHES, k);
  }

  lemma {:induction false} SweepAllShrinks(m: KvMap, kinds: seq<(Bytes, Parser)>, end: nat)
    ensures var s := SweepAll(m, kinds, end);
            forall k :: k in s ==> k in m && s[k] == m[k]
    decreases |kinds|
  {
    hide Sweep, Dec;
    if kinds != [] {
      SweepShrinks(m, kinds[0].0, kinds[0].1, end, |Dec(end)|);
      SweepAllShrinks(Sweep(m, kinds[0].0, kinds[0].1, 0, end, |Dec(end)|), kinds[1..], end);
    }
  }
}
