/**
 * The part of the file tree that the swaps of cmd/pruner.go work on. Every operation may fail, and removing a
 * directory is not atomic. The history records every state the tree passes through: a crash leaves one of them.
 */
module Files {
  import opened KvStore

  /** A database directory: the live one, its backup, the compacted copy, the restored copy. */
  datatype Slot = Live | Backup | Compacted | Restored

  /** A complete database, or files that are not one. */
  datatype Content = Whole(kv: KvMap) | Damaged

  type Tree = map<Slot, Content>

  /** All states since the first `from` agree with `base` outside one slot. */
  ghost predicate OnlyAt(history: seq<Tree>, from: nat, base: Tree, p: Slot) {
    forall i :: from <= i < |history| ==> history[i] - {p} == base - {p}
  }

  class Disk {
    var files: Tree
    ghost var history: seq<Tree>
    /** Whether some operation on the file tree, or on a database being written in it, has failed without need. */
    ghost var faulty: bool

    constructor (initial: Tree)
      ensures files == initial && history == [initial] && !faulty
    {
      files := initial;
      history := [initial];
      faulty := false;
    }

    /** Whatever else may fail: filling and closing batches for a database in the tree, closing and opening it. */
    method Attempt() returns (ok: bool)
      modifies this`faulty
      ensures faulty == (old(faulty) || !ok)
    {
      ok := *;
      faulty := faulty || !ok;
    }

    /** Moves a directory: atomic, and refused when there is one at the target. */
    method Rename(from: Slot, to: Slot) returns (ok: bool)
      modifies this
      ensures ok ==> from in old(files) && to !in old(files) && files == (old(files) - {from})[to := old(files)[from]]
      ensures !ok ==> files == old(files)
      ensures history == old(history) + [files]
      ensures faulty == (old(faulty) || (!ok && from in files && to !in files))
    {
      ok := *;
      faulty := faulty || (!ok && from in files && to !in files);
      ok := ok && from in files && to !in files;
      if ok {
        files := (files - {from})[to := files[from]];
      }
      history := history + [files];
    }

    /** os.RemoveAll: when it fails, any part of the directory may be left; other directories are not touched. */
    method RemoveAll(p: Slot) returns (ok: bool)
      modifies this
      ensures files - {p} == old(files) - {p} && (ok ==> p !in files)
      ensures faulty == (old(faulty) || !ok)
      ensures p in files ==> p in old(files) && (files[p] == old(files)[p] || files[p] == Damaged)
      ensures old(history) <= history && OnlyAt(history, |old(history)|, old(files), p)
      ensures |history| > 0 && history[|history| - 1] == files
    {
      if p !in files {
        history := history + [files];
        return true;
      }
      if * {
        history, faulty := history + [files], true;
        return false;
      }
      ghost var was := files;
      files := files[p := Damaged];
      assert files - {p} == was - {p};
      history := history + [files];
      if * {
        faulty := true;
        return false;
      }
      files := files - {p};
      assert files - {p} == was - {p};
      history := history + [files];
      ok := true;
    }

    /** os.Stat: may fail even though the directory exists. */
    method Stat(p: Slot) returns (ok: bool)
      modifies this`faulty
      ensures ok ==> p in files
      ensures faulty == (old(faulty) || (!ok && p in files))
    {
      ok := *;
      faulty := faulty || (!ok && p in files);
      ok := ok && p in files;
    }

    /**
     * Opens a database for writing, creating it when it is not there. One that exists keeps its contents; out of
     * a damaged one some contents may be recovered.
     */
    method Open(p: Slot) returns (ok: bool)
      modifies this
      ensures files - {p} == old(files) - {p}
      ensures faulty == (old(faulty) || !ok)
      ensures ok ==> p in files && files[p].Whole?
      ensures ok && p !in old(files) ==> files[p] == Whole(map[])
      ensures ok && p in old(files) && old(files)[p].Whole? ==> files[p] == old(files)[p]
      ensures p in old(files) && old(files)[p].Whole? ==> p in files
      ensures |history| > |old(history)|
      ensures old(history) <= history && OnlyAt(history, |old(history)|, old(files), p)
      ensures |history| > 0 && history[|history| - 1] == files
    {
      ghost var was := files;
      ok := *;
      faulty := faulty || !ok;
      if ok {
        var recovered: KvMap := *;
        var content := if p !in files then Whole(map[]) else if files[p].Whole? then files[p] else Whole(recovered);
        files := files[p := content];
        assert files - {p} == was - {p};
      }
      history := history + [files];
    }

    /** Puts new contents in an open database; they may end up damaged when that fails. */
    method Store(p: Slot, kv: KvMap) returns (ok: bool)
      requires p in files
      modifies this
      ensures files - {p} == old(files) - {p} && p in files && (ok ==> files[p] == Whole(kv))
      ensures faulty == (old(faulty) || !ok)
      ensures old(history) <= history && OnlyAt(history, |old(history)|, old(files), p)
      ensures |history| > 0 && history[|history| - 1] == files
    {
      ghost var was := files;
      ok := *;
      faulty := faulty || !ok;
      files := files[p := if ok then Whole(kv) else Damaged];
      assert files - {p} == was - {p};
      history := history + [files];
    }
  }
}
