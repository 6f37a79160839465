/** gcDB of cmd/pruner.go: compaction by copying, and the swap that puts the copy in place. */
module GcSwap {
  import opened Base
  import opened Lex
  import opened KvStore
  import opened Files

  const BATCH_SIZE: nat := 1_000

  ghost predicate LiveGood(t: Tree, original: KvMap, copy: KvMap) {
    Live in t && (t[Live] == Whole(original) || t[Live] == Whole(copy))
  }

  ghost predicate BackupGood(t: Tree, original: KvMap) {
    Backup in t && t[Backup] == Whole(original)
  }

  /** The original is complete under one of its two names, or the copy made of it is live. */
  ghost predicate Safe(t: Tree, original: KvMap, copy: KvMap) {
    LiveGood(t, original, copy) || BackupGood(t, original)
  }

  ghost predicate AllSafe(history: seq<Tree>, from: nat, original: KvMap, copy: KvMap) {
    forall i :: from <= i < |history| ==> Safe(history[i], original, copy)
  }

  lemma SameElsewhere(t: Tree, t': Tree, p: Slot)
    requires t - {p} == t' - {p}
    ensures forall s :: s != p ==> (s in t <==> s in t') && (s in t ==> t[s] == t'[s])
  {
    forall s | s != p
      ensures (s in t <==> s in t') && (s in t ==> t[s] == t'[s])
    {
      assert s in t <==> s in t - {p};
      assert s in t' <==> s in t' - {p};
      assert s in t ==> (t - {p})[s] == t[s] && (t' - {p})[s] == t'[s];
    }
  }

  /** A step at one slot is harmless while the database that counts stands at another. */
  lemma StepElsewhere(history: seq<Tree>, history': seq<Tree>, from: nat, t: Tree, t': Tree, p: Slot, original: KvMap, copy: KvMap)
    requires history <= history' && from <= |history| && AllSafe(history, from, original, copy)
    requires OnlyAt(history', |history|, t, p) && t' - {p} == t - {p}
    requires (p != Live && LiveGood(t, original, copy)) || (p != Backup && BackupGood(t, original))
    ensures AllSafe(history', from, original, copy) && Safe(t', original, copy)
    ensures p != Live && LiveGood(t, original, copy) ==> LiveGood(t', original, copy)
    ensures forall s :: s != p ==> (s in t <==> s in t') && (s in t ==> t[s] == t'[s])
  {
    SameElsewhere(t, t', p);
    forall i | from <= i < |history'|
      ensures Safe(history'[i], original, copy)
    {
      if i >= |history| {
        SameElsewhere(t, history'[i], p);
      } else {
        assert history'[i] == history[i];
      }
    }
  }

  /** A state of the disk in which the original is safe, and has been since `from`. */
  ghost predicate SafeSince(disk: Disk, from: nat, original: KvMap, copy: KvMap)
    reads disk
  {
    && from <= |disk.history|
    && AllSafe(disk.history, from, original, copy)
    && Safe(disk.files, original, copy)
  }

  function Taken(original: KvMap, keys: seq<Bytes>): KvMap {
    map k | k in keys && k in original :: original[k]
  }

  /** What the copy holds, with the pending batch, after the first `i` keys. */
  ghost predicate Copied(content: KvMap, batch: seq<Op>, stale: KvMap, original: KvMap, keys: seq<Bytes>, i: nat)
    requires i <= |keys|
  {
    Apply(content, batch) == stale + Taken(original, keys[..i])
  }

  lemma CopiedStep(content: KvMap, batch: seq<Op>, stale: KvMap, original: KvMap, keys: seq<Bytes>, i: nat)
    requires i < |keys| && keys[i] in original && Copied(content, batch, stale, original, keys, i)
    ensures Copied(content, batch + [Put(keys[i], original[keys[i]])], stale, original, keys, i + 1)
  {
    hide Apply;
    var k := keys[i];
    ApplyLast(content, batch, Put(k, original[k]));
    assert keys[..i + 1] == keys[..i] + [k];
    assert Taken(original, keys[..i + 1]) == Taken(original, keys[..i])[k := original[k]];
    assert stale + Taken(original, keys[..i])[k := original[k]] == (stale + Taken(original, keys[..i]))[k := original[k]];
  }

  lemma CopiedStarts(stale: KvMap, original: KvMap, keys: seq<Bytes>)
    ensures Copied(stale, [], stale, original, keys, 0)
  {
    assert Taken(original, keys[..0]) == map[];
    assert stale + map[] == stale;
  }

  lemma CopiedAll(content: KvMap, stale: KvMap, original: KvMap, keys: seq<Bytes>)
    requires Copied(content, [], stale, original, keys, |keys|) && forall k :: k in original <==> k in keys
    ensures content == stale + original && (|keys| == 0 <==> original == map[])
  {
    assert keys[..|keys|] == keys;
    assert Taken(original, keys) == original;
    if |keys| > 0 {
      assert keys[0] in original;
    }
  }

  /** Writes the batch into the copy. */
  method WriteBatch(disk: Disk, batch: seq<Op>, ghost from: nat, ghost original: KvMap, ghost copy: KvMap) returns (ok: bool)
    requires Compacted in disk.files && disk.files[Compacted].Whole? && SafeSince(disk, from, original, copy)
    modifies disk
    ensures SafeSince(disk, from, original, copy) && old(disk.history) <= disk.history
    ensures Compacted in disk.files && disk.files - {Compacted} == old(disk.files) - {Compacted}
    ensures ok ==> disk.files[Compacted] == Whole(Apply(old(disk.files)[Compacted].kv, batch))
    ensures disk.faulty == (old(disk.faulty) || !ok)
  {
    hide AllSafe, LiveGood, BackupGood, Apply;
    ghost var was, history := disk.files, disk.history;
    ok := disk.Store(Compacted, Apply(disk.files[Compacted].kv, batch));
    StepElsewhere(history, disk.history, from, was, disk.files, Compacted, original, copy);
  }

  /** The part of gcDB that gives up: the copy is discarded, the original is not touched. */
  method Discard(disk: Disk, ghost from: nat, ghost original: KvMap, ghost copy: KvMap)
    requires SafeSince(disk, from, original, copy)
    modifies disk
    ensures SafeSince(disk, from, original, copy) && old(disk.history) <= disk.history
    ensures disk.files - {Compacted} == old(disk.files) - {Compacted}
    ensures old(disk.faulty) ==> disk.faulty
  {
    hide AllSafe, LiveGood, BackupGood;
    ghost var was, history := disk.files, disk.history;
    var removed := disk.RemoveAll(Compacted);
    StepElsewhere(history, disk.history, from, was, disk.files, Compacted, original, copy);
  }

  /** The `abort` of gcDB: the source handle is closed as well. */
  method Abort(disk: Disk, db: Db, ghost from: nat, ghost original: KvMap, ghost copy: KvMap)
    requires SafeSince(disk, from, original, copy)
    modifies disk, db`closes, db`faulty
    ensures SafeSince(disk, from, original, copy) && old(disk.history) <= disk.history
    ensures db.closes == old(db.closes) + 1
    ensures (old(disk.faulty) ==> disk.faulty) && (old(db.faulty) ==> db.faulty)
  {
    hide AllSafe, Safe;
    Discard(disk, from, original, copy);
    var released := db.Close();
  }

  /**
   * Copies every live key in batches. The count that decides about flushing restarts with each batch; the
   * total does not.
   */
  method CopyLive(disk: Disk, db: Db, ghost stale: KvMap, ghost from: nat) returns (total: nat, ok: bool)
    requires Compacted in disk.files && disk.files[Compacted] == Whole(stale)
    requires SafeSince(disk, from, db.data, stale + db.data)
    modifies disk, db`cut, db`faulty
    ensures SafeSince(disk, from, db.data, stale + db.data) && old(disk.history) <= disk.history
    ensures disk.files - {Compacted} == old(disk.files) - {Compacted}
    ensures ok ==> && Compacted in disk.files && disk.files[Compacted] == Whole(stale + db.data)
                   && (total == 0 <==> db.data == map[])
    ensures !ok ==> disk.faulty || db.faulty
    ensures (old(disk.faulty) ==> disk.faulty) && (old(db.faulty) ==> db.faulty)
  {
    hide Safe, AllSafe, Apply, Copied, Less, InRange;
    total, ok := 0, false;
    var it := db.Iterator([], None);
    if it.Err? {
      return;
    }
    var scan := it.value;
    var batch: seq<Op>, count := [], 0;
    CopiedStarts(stale, db.data, scan.keys);
    for i := 0 to |scan.keys|
      invariant Compacted in disk.files && disk.files[Compacted].Whole?
      invariant Copied(disk.files[Compacted].kv, batch, stale, db.data, scan.keys, i)
      invariant count == |batch| && total == i && !ok
      invariant SafeSince(disk, from, db.data, stale + db.data) && old(disk.history) <= disk.history
      invariant disk.files - {Compacted} == old(disk.files) - {Compacted}
      invariant (old(disk.faulty) ==> disk.faulty) && (old(db.faulty) ==> db.faulty) && (scan.failed ==> db.faulty)
    {
      var k := scan.keys[i];
      assert k in scan.keys;
      var put := disk.Attempt();
      if !put {
        return;
      }
      CopiedStep(disk.files[Compacted].kv, batch, stale, db.data, scan.keys, i);
      batch := batch + [Put(k, scan.snapshot[k])];
      count := count + 1;
      total := total + 1;
      if count >= BATCH_SIZE {
        ghost var content := disk.files[Compacted].kv;
        var wrote := WriteBatch(disk, batch, from, db.data, stale + db.data);
        if !wrote {
          return;
        }
        BatchWritten(content, batch, stale, db.data, scan.keys, i + 1);
        batch, count := [], 0;
        var closed := disk.Attempt();
        if !closed {
          return;
        }
      }
    }
    if scan.failed {
      return; // iter.Error
    }
    if count > 0 {
      ghost var content := disk.files[Compacted].kv;
      var wrote := WriteBatch(disk, batch, from, db.data, stale + db.data);
      if !wrote {
        return;
      }
      BatchWritten(content, batch, stale, db.data, scan.keys, |scan.keys|);
      batch := [];
    }
    ok := disk.Attempt();
    if !ok {
      return;
    }
    WholeRange(scan, db.data);
    CopiedAll(disk.files[Compacted].kv, stale, db.data, scan.keys);
  }

  lemma BatchWritten(content: KvMap, batch: seq<Op>, stale: KvMap, original: KvMap, keys: seq<Bytes>, i: nat)
    requires i <= |keys| && Copied(content, batch, stale, original, keys, i)
    ensures Copied(Apply(content, batch), [], stale, original, keys, i)
  {
  }

  /** A scan without bounds that was not cut short yields every key. */
  lemma WholeRange(scan: KeyScan, data: KvMap)
    requires IsScan(scan, data, [], None) && !scan.failed
    ensures forall k :: k in data <==> k in scan.keys
  {
    forall k | k in data
      ensures InRange(k, [], None)
    {
      assert !Less(k, []);
    }
  }

  /** What a compaction leaves live: the copy, unless the original was found empty. */
  function GcResult(stale: KvMap, original: KvMap): KvMap {
    if original == map[] then original else stale + original
  }

  /** It has the pairs of the original exactly if that was empty, or all left-over keys are keys of the original. */
  lemma ResultIsOriginalIff(stale: KvMap, original: KvMap)
    ensures GcResult(stale, original) == original <==> original == map[] || stale.Keys <= original.Keys
  {
    if stale.Keys <= original.Keys {
      assert (stale + original).Keys == original.Keys;
    } else {
      assert (stale + original).Keys == stale.Keys + original.Keys;
    }
  }

  /** A left-over copy with one other key shows in the result. */
  lemma LeftOverShows()
    ensures var stale, original: KvMap := map[[1] := [9]], map[[2] := [9]];
            GcResult(stale, original) == map[[1] := [9], [2] := [9]] != original
  {
    var stale, original: KvMap := map[[1] := [9]], map[[2] := [9]];
    assert [1] in stale + original && [2] in stale + original;
    assert [1] !in original;
  }

  /** The contents a compacted directory has before the run. */
  ghost predicate LeftOver(files: Tree, stale: KvMap) {
    && (Compacted !in files ==> stale == map[])
    && (Compacted in files && files[Compacted].Whole? ==> stale == files[Compacted].kv)
  }

  /**
   * gcDB. In every state the tree passes through, whatever fails, the original is complete under one of its
   * names or its copy is live. When the call succeeds the live database is the copy of the original, laid
   * over whatever the compacted directory held before, unless the original is empty. The handle passed in is
   * closed once on every path.
   */
  method GcDb(disk: Disk, db: Db) returns (ok: bool, ghost stale: KvMap)
    requires Live in disk.files && disk.files[Live] == Whole(db.data)
    modifies disk, db`cut, db`closes, db`faulty
    ensures db.closes == old(db.closes) + 1
    ensures old(disk.history) <= disk.history
    ensures SafeSince(disk, |old(disk.history)|, db.data, stale + db.data)
    ensures LeftOver(old(disk.files), stale) && |disk.history| > |old(disk.history)|
    ensures ok ==> && Live in disk.files && disk.files[Live] == Whole(GcResult(stale, db.data))
                   && (disk.files[Live] == Whole(db.data) <==> db.data == map[] || stale.Keys <= db.data.Keys)
    ensures !ok ==> disk.faulty || db.faulty
  {
    hide AllSafe, Safe, OnlyAt;
    ghost var from, start, history := |disk.history|, disk.files, disk.history;
    stale := if Compacted in start && start[Compacted].Whole? then start[Compacted].kv else map[];
    ok := disk.Open(Compacted);
    if ok {
      stale := disk.files[Compacted].kv;
    }
    StepElsewhere(history, disk.history, from, start, disk.files, Compacted, db.data, stale + db.data);
    if !ok {
      var released := db.Close();
      return;
    }
    var total;
    total, ok := CopyLive(disk, db, stale, from);
    if !ok {
      Abort(disk, db, from, db.data, stale + db.data);
      return;
    }
    ok := disk.Attempt(); // newDB.Close
    if !ok {
      Abort(disk, db, from, db.data, stale + db.data);
      return;
    }
    ok := db.Close();
    if !ok {
      Discard(disk, from, db.data, stale + db.data);
      return;
    }
    SameElsewhere(start, disk.files, Compacted);
    ResultIsOriginalIff(stale, db.data);
    if total == 0 {
      Discard(disk, from, db.data, stale + db.data);
      SameElsewhere(start, disk.files, Compacted);
      return true, stale;
    }
    ok := Swap(disk, from, db.data, stale + db.data);
  }

  const GC_THRESHOLD: nat := 10 * 1024 * 1024 * 1024

  predicate Skips(size: Option<nat>, forceCompress: bool, snapshotted: bool) {
    size.None? || (size.value >= GC_THRESHOLD && !forceCompress) || snapshotted
  }

  /**
   * maybeRunGC: a database that is too large, or was just rebuilt from a snapshot, is left alone. The handle is
   * closed once on every path, compaction or not.
   */
  method MaybeRunGc(disk: Disk, db: Db, size: Option<nat>, forceCompress: bool, snapshotted: bool) returns (ok: bool, ghost stale: KvMap)
    requires Live in disk.files && disk.files[Live] == Whole(db.data)
    modifies disk, db`cut, db`closes, db`faulty
    ensures db.closes == old(db.closes) + 1
    ensures old(disk.history) <= disk.history
    ensures SafeSince(disk, |old(disk.history)|, db.data, stale + db.data)
    ensures LeftOver(old(disk.files), stale)
    // the disk is left alone exactly if the size is unknown, too large and not forced, or there was a snapshot
    ensures disk.history == old(disk.history) <==>
              size.None? || (size.value >= 10 * 1024 * 1024 * 1024 && !forceCompress) || snapshotted
    ensures disk.history == old(disk.history) ==> disk.files == old(disk.files) && ok == size.Some?
    ensures ok ==> && Live in disk.files
                   && (disk.files[Live] == Whole(db.data) <==>
                         disk.history == old(disk.history) || db.data == map[] || stale.Keys <= db.data.Keys)
    ensures !ok ==> size.None? || disk.faulty || db.faulty
  {
    stale := if Compacted in disk.files && disk.files[Compacted].Whole? then disk.files[Compacted].kv else map[];
    if Skips(size, forceCompress, snapshotted) {
      var released := db.Close();
      return size.Some?, stale;
    }
    ok, stale := GcDb(disk, db);
  }

  /** The swap: the original steps aside, the copy takes its place, the backup goes. */
  method Swap(disk: Disk, ghost from: nat, ghost original: KvMap, ghost copy: KvMap) returns (ok: bool)
    requires Live in disk.files && disk.files[Live] == Whole(original)
    requires Compacted in disk.files && disk.files[Compacted] == Whole(copy)
    requires SafeSince(disk, from, original, copy)
    modifies disk
    ensures SafeSince(disk, from, original, copy) && old(disk.history) <= disk.history
    ensures ok ==> Live in disk.files && disk.files[Live] == Whole(copy)
    ensures !ok ==> disk.faulty
    ensures old(disk.faulty) ==> disk.faulty
  {
    hide AllSafe, OnlyAt;
    ok := MoveAside(disk, from, original, copy);
    if !ok {
      Discard(disk, from, original, copy);
      return;
    }
    ghost var history := disk.history;
    ok := disk.Rename(Compacted, Live);
    Recorded(history, disk.history, from, disk.files, original, copy);
    if !ok {
      history := disk.history;
      var restored := disk.Rename(Backup, Live);
      Recorded(history, disk.history, from, disk.files, original, copy);
      if restored {
        Discard(disk, from, original, copy);
      }
      return;
    }
    ghost var was := disk.files;
    history := disk.history;
    var dropped := disk.RemoveAll(Backup);
    StepElsewhere(history, disk.history, from, was, disk.files, Backup, original, copy);
  }

  /** Clears a stale backup and moves the original there, unless it cannot be seen; `ok` says whether to go on. */
  method MoveAside(disk: Disk, ghost from: nat, ghost original: KvMap, ghost copy: KvMap) returns (ok: bool)
    requires Live in disk.files && disk.files[Live] == Whole(original)
    requires SafeSince(disk, from, original, copy)
    modifies disk
    ensures SafeSince(disk, from, original, copy) && old(disk.history) <= disk.history
    ensures forall s :: s != Live && s != Backup && s in old(disk.files) ==> s in disk.files && disk.files[s] == old(disk.files)[s]
    ensures || (Live in disk.files && disk.files[Live] == Whole(original))
            || (Live !in disk.files && BackupGood(disk.files, original))
    ensures disk.faulty || (old(!disk.faulty) && ok && Live !in disk.files)
  {
    hide AllSafe;
    ghost var history, was := disk.history, disk.files;
    var cleared := disk.RemoveAll(Backup);
    StepElsewhere(history, disk.history, from, was, disk.files, Backup, original, copy);
    ok := true;
    var present := disk.Stat(Live);
    if present {
      history := disk.history;
      ok := disk.Rename(Live, Backup);
      Recorded(history, disk.history, from, disk.files, original, copy);
    }
  }

  lemma Recorded(history: seq<Tree>, history': seq<Tree>, from: nat, t: Tree, original: KvMap, copy: KvMap)
    requires AllSafe(history, from, original, copy) && history' == history + [t] && Safe(t, original, copy)
    ensures AllSafe(history', from, original, copy)
  {
  }
}
