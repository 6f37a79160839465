/** restoreVerifiedAndSwap of cmd/pruner.go: only a verified restore may take the place of the application database. */
module RestoreSwap {
  import opened KvStore
  import opened Files
  import opened GcSwap

  /** The check of verifyAppState on the contents of a database. */
  type Verifier = KvMap -> bool

  /** Deferred clean-up of the restore directory. */
  method CleanUp(disk: Disk, ghost from: nat, ghost original: KvMap)
    requires SafeSince(disk, from, original, original) && LiveGood(disk.files, original, original)
    modifies disk
    ensures old(disk.faulty) ==> disk.faulty
    ensures SafeSince(disk, from, original, original) && LiveGood(disk.files, original, original)
    ensures old(disk.history) <= disk.history
  {
    hide AllSafe;
    ghost var history, was := disk.history, disk.files;
    var removed := disk.RemoveAll(Restored);
    StepElsewhere(history, disk.history, from, was, disk.files, Restored, original, original);
  }

  /**
   * Restores a snapshot beside the original, checks it, and swaps it in. In every state the tree passes through
   * the original is complete under one of its names or the verified restore is live. Before the swap starts a
   * failure leaves the original live; once it has started, every exit leaves a complete verified copy behind.
   * `app` is the handle the caller goes on with: the original's, as long as it is open, or a new one, or none;
   * `temp` is the handle of the restore.
   */
  method RestoreVerifiedAndSwap(disk: Disk, appDb: Db, verify: Verifier, snapshot: KvMap)
    returns (ok: bool, app: Db?, ghost temp: Db?, ghost swapping: bool, ghost restored: KvMap)
    requires Live in disk.files && disk.files[Live] == Whole(appDb.data) && Restored !in disk.files
    modifies disk, appDb`closes, appDb`faulty
    ensures old(disk.history) <= disk.history
    ensures SafeSince(disk, |old(disk.history)|, appDb.data, restored)
    ensures if swapping then verify(restored) else restored == appDb.data
    ensures !ok ==> disk.faulty || appDb.faulty || (temp != null && temp.faulty) || !verify(snapshot)
    ensures ok ==> restored == snapshot
    ensures ok ==> swapping && app != null && Live in disk.files && disk.files[Live] == Whole(restored)
    ensures !ok && !swapping ==> Live in disk.files && disk.files[Live] == Whole(restored)
    ensures !ok && swapping ==>
              || (Restored in disk.files && disk.files[Restored] == Whole(restored))
              || (Live in disk.files && disk.files[Live] == Whole(restored))
    ensures appDb.closes == old(appDb.closes) + if app == appDb then 0 else 1
    // the handle of the temporary database, if it was opened, is closed once and not handed on
    ensures temp != null ==> fresh(temp) && temp.closes == 1 && temp != app
    ensures temp == null ==> !ok && !swapping
    ensures app != null && app != appDb ==> fresh(app) && app.closes == 0 && app.data == restored
  {
    hide AllSafe;
    ghost var from := |disk.history|;
    ok, app, temp, swapping, restored := false, appDb, null, false, appDb.data;
    ghost var history, was := disk.history, disk.files;
    var created := disk.Open(Restored);
    StepElsewhere(history, disk.history, from, was, disk.files, Restored, appDb.data, appDb.data);
    if !created {
      CleanUp(disk, from, appDb.data);
      return;
    }
    var restoreDb := new Db(snapshot);
    temp := restoreDb;
    history, was := disk.history, disk.files;
    var stored := disk.Store(Restored, snapshot); // LoadLatestVersion, RestoreLocalSnapshot
    StepElsewhere(history, disk.history, from, was, disk.files, Restored, appDb.data, appDb.data);
    if !stored || !verify(snapshot) {
      var released := restoreDb.Close();
      CleanUp(disk, from, appDb.data);
      return;
    }
    var closed := restoreDb.Close();
    if !closed {
      CleanUp(disk, from, appDb.data);
      return;
    }
    closed := appDb.Close();
    app := null;
    if !closed {
      CleanUp(disk, from, appDb.data);
      return;
    }
    swapping, restored := true, snapshot;
    VerifiedSafe(disk.history, from, disk.files, appDb.data, restored);
    ok := SwapRestored(disk, from, appDb.data, restored);
    if ok {
      ok := disk.Attempt(); // db.NewDB
      if ok {
        app := new Db(snapshot);
      }
    }
  }

  /** While the original is live, what the other database may become does not matter. */
  lemma VerifiedSafe(history: seq<Tree>, from: nat, t: Tree, original: KvMap, restored: KvMap)
    requires AllSafe(history, from, original, original) && Safe(t, original, original)
    ensures AllSafe(history, from, original, restored) && Safe(t, original, restored)
  {
  }

  /** The swap itself. */
  method SwapRestored(disk: Disk, ghost from: nat, ghost original: KvMap, ghost restored: KvMap) returns (ok: bool)
    requires Live in disk.files && disk.files[Live] == Whole(original)
    requires Restored in disk.files && disk.files[Restored] == Whole(restored)
    requires SafeSince(disk, from, original, restored)
    modifies disk
    ensures SafeSince(disk, from, original, restored) && old(disk.history) <= disk.history
    ensures ok ==> Live in disk.files && disk.files[Live] == Whole(restored)
    ensures (!ok ==> disk.faulty) && (old(disk.faulty) ==> disk.faulty)
    ensures || (Restored in disk.files && disk.files[Restored] == Whole(restored))
            || (Live in disk.files && disk.files[Live] == Whole(restored))
  {
    hide AllSafe, OnlyAt;
    ok := MoveAside(disk, from, original, restored);
    if !ok {
      return;
    }
    ghost var history := disk.history;
    ok := disk.Rename(Restored, Live);
    Recorded(history, disk.history, from, disk.files, original, restored);
    if !ok {
      history := disk.history;
      var putBack := disk.Rename(Backup, Live);
      Recorded(history, disk.history, from, disk.files, original, restored);
      return;
    }
    RemoveOther(disk, Backup, from, original, restored);
    RemoveOther(disk, Restored, from, original, restored);
  }

  /** Removes a directory once the verified database is live; failing to is only logged. */
  method RemoveOther(disk: Disk, p: Slot, ghost from: nat, ghost original: KvMap, ghost restored: KvMap)
    requires p != Live && Live in disk.files && disk.files[Live] == Whole(restored)
    requires SafeSince(disk, from, original, restored)
    modifies disk
    ensures SafeSince(disk, from, original, restored) && old(disk.history) <= disk.history
    ensures Live in disk.files && disk.files[Live] == Whole(restored)
    ensures old(disk.faulty) ==> disk.faulty
  {
    hide AllSafe;
    ghost var history, was := disk.history, disk.files;
    var removed := disk.RemoveAll(p);
    StepElsewhere(history, disk.history, from, was, disk.files, p, original, restored);
  }
}
