/** The Store of internal/rootmulti/store.go: its fields and the methods that update them. */
module RootStores {
  import opened Base
  import opened KvStore
  import opened MultiStore
  import opened MultiRuns
  import opened MultiSnapshot

  class MultiDb {
    var trees: map<Name, Versions>
    var infos: map<int, CommitInfo>
    var latest: nat
    /** Whether deleting versions of some tree has failed. */
    ghost var faulty: bool

    constructor ()
      ensures trees == map[] && infos == map[] && latest == 0 && !faulty
    {
      trees, infos, latest, faulty := map[], map[], 0, false;
    }
  }

  class RootStore {
    const lib: Lib
    const db: MultiDb
    var lastInfo: Option<CommitInfo>
    var params: map<Name, StoreType>
    var stores: Stores
    var removal: set<Name>
    var initialVersion: int

    constructor (lib: Lib, db: MultiDb)
      ensures this.lib == lib && this.db == db
      ensures Now() == Opened(db.trees, db.infos, db.latest)
      ensures lastInfo.None? && params == map[] && stores == map[] && removal == {} && initialVersion == 0
    {
      this.lib, this.db := lib, db;
      lastInfo, params, stores, removal, initialVersion := None, map[], map[], {}, 0;
    }

    ghost function Now(): State
      reads this, db
    {
      State(params, stores, removal, lastInfo, initialVersion, db.trees, db.infos, db.latest)
    }

    /** Mounting a name twice panics. */
    method Mount(n: Name, typ: StoreType) returns (ok: bool)
      modifies this`params
      ensures ok ==> Mounted(n, typ, old(Now()), Now())
      ensures ok == (n !in old(params)) && params == if ok then old(params)[n := typ] else old(params)
    {
      ok := n !in params;
      if ok {
        params := params[n := typ];
      }
    }

    function LastVersion(): nat
      reads this
    {
      if lastInfo.Some? && lastInfo.value.version >= 0 then lastInfo.value.version else 0
    }

    function CommitVersion(): nat
      reads this
    {
      if LastVersion() == 0 && initialVersion > 1 then initialVersion else LastVersion() + 1
    }

    /** SetInitialVersion: for a chain that starts at some height; each loaded tree store is told. */
    method SetInitialVersion(version: nat)
      modifies this`initialVersion, this`stores
      ensures initialVersion == version && stores == WithInitial(old(stores), version)
      ensures old(LastVersion()) == 0 ==> CommitVersion() == Max(version, 1)
    {
      initialVersion := version;
      var rest := stores.Keys;
      while rest != {}
        invariant rest <= stores.Keys == old(stores).Keys && initialVersion == version
        invariant forall n :: n in stores ==>
                    stores[n] == if n in rest then old(stores)[n] else WithInitial(old(stores), version)[n]
        decreases |rest|
      {
        var n :| n in rest;
        rest := rest - {n};
        if stores[n].typ.Iavl? {
          stores := stores[n := stores[n].(initial := version)];
        }
      }
    }

    method WorkingHash() returns (hash: Bytes)
      ensures hash == lib.merkle(WorkingHashes(lib, stores, removal))
    {
      var hashes: map<Name, Bytes> := map[];
      var rest := stores.Keys;
      while rest != {}
        invariant rest <= stores.Keys
        invariant hashes == WorkingHashes(lib, stores, removal) - rest
        decreases |rest|
      {
        var n :| n in rest;
        rest := rest - {n};
        if stores[n].typ.Iavl? && n !in removal {
          hashes := hashes[n := lib.hash(NextTree(lib, stores[n]))];
        }
      }
      assert hashes == WorkingHashes(lib, stores, removal);
      hash := lib.merkle(hashes);
    }

    /**
     * commitStores: commits the sub-stores one after the other and collects their ids. It panics, leaving
     * `ok` false, when a different tree was saved under the same version before.
     */
    method CommitStores(version: int) returns (info: CommitInfo, ok: bool)
      modifies this`stores, db`trees
      ensures ok == !exists n :: n in old(stores) && Collides(lib, old(stores)[n], version, Saved(old(db.trees), n))
      ensures ok ==> && info == InfoFor(lib, old(stores), removal, version)
                     && stores == CommitAll(lib, old(stores), version)
                     && db.trees == SavedAfter(lib, old(stores), old(stores).Keys, version, old(db.trees))
    {
      hide CommitSome, IdsOf, SavedAfter, CommitAt, IdAt, Collides, NextVersion, NextTree, Saves, Persistent, AlreadyAt, Saved;
      ghost var was, trees, done: set<Name> := stores, db.trees, {};
      NothingCommitted(lib, was, removal, version, trees);
      var ids: map<Name, CommitId> := map[];
      var rest := stores.Keys;
      while rest != {}
        invariant rest <= was.Keys == stores.Keys && done == was.Keys - rest
        invariant stores == CommitSome(lib, was, done, version)
        invariant db.trees == SavedAfter(lib, was, done, version, trees)
        invariant ids == IdsOf(lib, was, done, removal, version)
        invariant forall n :: n in done ==> !Collides(lib, was[n], version, Saved(trees, n))
        decreases |rest|
      {
        var n :| n in rest;
        rest := rest - {n};
        CommitOneMore(lib, was, done, removal, version, trees, n);
        SaveOneMore(lib, was, done, version, trees, n);
        var s := stores[n];
        var id;
        id, ok := CommitOne(n, version);
        if !ok {
          return CommitInfo(version, ids), false;
        }
        if Persistent(s) && n !in removal {
          ids := ids[n := id];
        }
        done := done + {n};
      }
      assert done == was.Keys;
      info, ok := CommitInfo(version, ids), true;
    }

    /** Commits one store, unless it has the version already. */
    method CommitOne(n: Name, version: int) returns (id: CommitId, ok: bool)
      requires n in stores
      modifies this`stores, db`trees
      ensures ok == !Collides(lib, old(stores)[n], version, Saved(old(db.trees), n))
      ensures id == IdAt(lib, old(stores)[n], version)
      ensures ok ==> stores == old(stores)[n := CommitAt(lib, old(stores)[n], version)]
      ensures ok ==> db.trees == AfterSaving(lib, old(stores)[n], version, n, old(db.trees))
    {
      hide IdAt, Collides, CommitAt, AlreadyAt, NextVersion, NextTree;
      var s := stores[n];
      id, ok := IdAt(lib, s, version), false;
      if Collides(lib, s, version, Saved(db.trees, n)) {
        return;
      }
      if Saves(lib, s, version) {
        db.trees := db.trees[n := Saved(db.trees, n)[NextVersion(s) := NextTree(lib, s)]];
      }
      stores := stores[n := CommitAt(lib, s, version)];
      ok := true;
    }

    // ---- Commit -----------------------------------------------------------------------------------

    method FlushMetadata(version: nat, info: CommitInfo)
      modifies db`infos, db`latest
      ensures db.infos == old(db.infos)[version := info] && db.latest == version
    {
      db.infos := db.infos[version := info];
      db.latest := version;
    }

    /** Commit: the stores being removed are committed a last time, but leave the commit info and the maps. */
    method Commit() returns (id: CommitId, ok: bool)
      modifies this, db
      ensures ok == !exists n :: n in old(stores) && Collides(lib, old(stores)[n], old(CommitVersion()), Saved(old(db.trees), n))
      ensures ok ==> Committed(lib, old(Now()), Now())
      ensures ok ==>
                var version := old(CommitVersion());
                var info := InfoFor(lib, old(stores), old(removal), version);
                && id == CommitId(version, AppHash(lib, info))
                && lastInfo == Some(info)
                && stores == CommitAll(lib, old(stores), version) - old(removal)
                && params == old(params) - (old(removal) * old(stores).Keys)
                && removal == {} && initialVersion == old(initialVersion)
                && db.trees == SavedAfter(lib, old(stores), old(stores).Keys, version, old(db.trees))
                && db.infos == old(db.infos)[version := info] && db.latest == version
    {
      hide InfoFor, SavedAfter, Collides, CommitSome;
      var version := CommitVersion();
      ghost var committed := CommitAll(lib, stores, version);
      var info;
      info, ok := CommitStores(version);
      if !ok {
        return CommitId(0, []), false;
      }
      lastInfo := Some(info);
      var removed := removal * stores.Keys;
      CommitKeepsNames(lib, old(stores), version);
      stores := stores - removed;
      assert committed - removed == committed - removal;
      params := params - removed;
      removal := {};
      FlushMetadata(version, info);
      InfoVersion(lib, old(stores), old(removal), version);
      id := CommitId(version, AppHash(lib, info));
    }

    // ---- Load -------------------------------------------------------------------------------------

    /** deleteKVStore: the keys are collected first and deleted afterwards. */
    method DeleteKVStore(kv: Sub) returns (s: Sub)
      requires Lawful(lib)
      ensures EditedFrom(kv, s) && Pairs(s.working) == map[]
    {
      s := kv;
      var rest := Pairs(kv.working).Keys;
      while rest != {}
        invariant EditedFrom(kv, s) && Pairs(s.working).Keys == rest
        decreases |rest|
      {
        var k :| k in rest;
        rest := rest - {k};
        assert Pairs(lib.edit(s.working, Del(k))) == ApplyOne(Pairs(s.working), Del(k));
        s := s.(working := lib.edit(s.working, Del(k)));
      }
    }

    /** moveKVStoreData: copies all pairs, then deletes them from the old store. */
    method MoveKVStoreData(from: Sub, to: Sub) returns (emptied: Sub, filled: Sub)
      requires Lawful(lib)
      ensures EditedFrom(to, filled) && Pairs(filled.working) == Pairs(to.working) + Pairs(from.working)
      ensures EditedFrom(from, emptied) && Pairs(emptied.working) == map[]
    {
      hide Pairs;
      filled := to;
      var pairs := Pairs(from.working);
      var rest := pairs.Keys;
      NothingPut(Pairs(to.working), pairs);
      while rest != {}
        invariant rest <= pairs.Keys && EditedFrom(to, filled)
        invariant Pairs(filled.working) == Pairs(to.working) + (pairs - rest)
        decreases |rest|
      {
        var k :| k in rest;
        PutOneMore(Pairs(to.working), pairs, rest, k);
        assert Pairs(lib.edit(filled.working, Put(k, pairs[k]))) == ApplyOne(Pairs(filled.working), Put(k, pairs[k]));
        filled := filled.(working := lib.edit(filled.working, Put(k, pairs[k])));
        rest := rest - {k};
      }
      emptied := DeleteKVStore(from);
    }

    /** The body of loadVersion's loop, for one mounted store. */
    method LoadOne(n: Name, typ: StoreType, ids: map<Name, CommitId>, ver: nat, up: Upgrades)
      returns (ok: bool, s: Sub, emptied: Option<Sub>)
      requires Lawful(lib)
      ensures ok == Loadable(lib, db.trees, ids, up, ver, n, typ)
      ensures ok ==> LoadedAs(lib, db.trees, ids, up, ver, n, typ, s)
      ensures ok ==> emptied.Some? == Moves(up, n)
      ensures ok && Moves(up, n) ==> EmptiedAs(lib, db.trees, ids, up, n, typ, emptied.value)
    {
      hide LoadSub, EditedFrom, Pairs;
      ok, s, emptied := false, Sub(typ, 0, 0, [], []), None;
      if Mismatched(ids, up, ver, n, typ) {
        return;
      }
      var base := LoadedBase(lib, db.trees, ids, up, ver, n, typ);
      if base.None? {
        return;
      }
      if n in up.deleted {
        s := DeleteKVStore(base.value);
      } else if IsRenamed(up, n) {
        var before := OldBase(lib, db.trees, ids, up, n, typ);
        if before.None? {
          return;
        }
        var e;
        e, s := MoveKVStoreData(before.value, base.value);
        emptied := Some(e);
      } else {
        s := base.value;
      }
      ok := true;
    }

    /** Every mounted store can be loaded, and the commit info of the version is there. */
    ghost predicate CanLoad(ver: nat, up: Upgrades)
      reads this, db
    {
      && (ver == 0 || ver in db.infos)
      && forall n :: n in params ==> Loadable(lib, db.trees, InfoAt(ver).ids, up, ver, n, params[n])
    }

    ghost function InfoAt(ver: nat): CommitInfo
      reads this, db
    {
      if ver != 0 && ver in db.infos then db.infos[ver] else CommitInfo(0, map[])
    }

    /** The loop of loadVersion over the mounted stores, in whatever order the map yields them. */
    method LoadAll(ids: map<Name, CommitId>, ver: nat, up: Upgrades) returns (newStores: Stores, ok: bool)
      requires Lawful(lib) && WellFormed(up, params.Keys)
      modifies this`removal
      ensures ok == forall n :: n in params ==> Loadable(lib, db.trees, ids, up, ver, n, params[n])
      ensures ok ==> && LoadedSoFar(lib, db.trees, ids, up, ver, params, params.Keys, newStores)
                     && removal == old(removal) + RemovedBy(up, params.Keys)
      ensures exists done :: done <= params.Keys && removal == old(removal) + RemovedBy(up, done)
    {
      hide Loadable, LoadedAs, EmptiedAs, Moves, LoadedSoFar, RemovedBy, MarkRemoved, AddLoaded, WellFormed, Lawful;
      newStores, ok := map[], false;
      var rest := params.Keys;
      ghost var trees, mounted, was, done: set<Name> := db.trees, params, removal, {};
      NothingLoaded(lib, trees, ids, up, ver, mounted);
      while rest != {}
        invariant rest <= mounted.Keys && done == mounted.Keys - rest
        invariant removal == was + RemovedBy(up, done)
        invariant LoadedSoFar(lib, trees, ids, up, ver, mounted, done, newStores)
        invariant forall n :: n in done ==> Loadable(lib, trees, ids, up, ver, n, mounted[n])
        decreases |rest|
      {
        var n :| n in rest;
        rest := rest - {n};
        var loaded, s, emptied := LoadOne(n, params[n], ids, ver, up);
        if !loaded {
          return;
        }
        LoadOneMore(lib, trees, ids, up, ver, mounted, done, newStores, n, s, emptied);
        newStores := AddLoaded(newStores, up, n, s, emptied);
        MarkOneMore(was, up, done, n);
        removal := MarkRemoved(removal, up, n);
        done := done + {n};
      }
      assert done == mounted.Keys;
      ok := true;
    }

    /**
     * loadVersion: nothing is written to the database. A failure leaves the loaded stores as they were, but also what
     * it has marked to be removed by then.
     */
    method LoadVersion(ver: nat, up: Upgrades) returns (ok: bool)
      requires Lawful(lib) && WellFormed(up, params.Keys)
      modifies this
      ensures params == old(params) && initialVersion == old(initialVersion)
      ensures ok == old(CanLoad(ver, up))
      ensures ok ==> LoadedVersion(lib, ver, up, old(Now()), Now())
      ensures !ok ==> LoadFailed(up, old(Now()), Now())
      ensures ok ==>
                && lastInfo == Some(old(InfoAt(ver)))
                && LoadedSoFar(lib, db.trees, old(InfoAt(ver)).ids, up, ver, params, params.Keys, stores)
                && removal == old(removal) + RemovedBy(up, params.Keys)
    {
      hide Loadable, LoadedSoFar, RemovedBy, WellFormed;
      if ver != 0 && ver !in db.infos {
        NothingMarked(removal, up);
        return false;
      }
      var info := if ver != 0 then db.infos[ver] else CommitInfo(0, map[]);
      var newStores;
      newStores, ok := LoadAll(info.ids, ver, up);
      if ok {
        lastInfo, stores := Some(info), newStores;
      }
    }

    // ---- Rollback, pruning ------------------------------------------------------------------------

    method BuildCommitInfo(version: nat) returns (info: CommitInfo)
      ensures info == CurrentInfo(lib, stores, version)
    {
      info := CommitInfo(version, map n | n in stores && Persistent(stores[n]) :: LastCommitId(lib, stores[n]));
    }

    /** The loop of RollbackToVersion: loads each tree store at the target and drops its later versions. */
    method LoadForOverwriting(target: nat) returns (ok: bool)
      modifies this`stores, db`trees
      ensures ok == forall n :: n in old(stores) ==> HasVersion(old(stores), old(db.trees), target, n)
      ensures ok ==> && stores == RolledBack(old(stores), old(stores).Keys, old(db.trees), target)
                     && db.trees == Truncated(old(stores), old(stores).Keys, old(db.trees), target)
      // in any case some of them have been taken there
      ensures exists done :: TakenBack(old(stores), done, old(db.trees), target, stores, db.trees)
    {
      ghost var was, trees, done: set<Name> := stores, db.trees, {};
      hide RolledBack, Truncated, UpTo, HasVersion, Saved;
      NothingRolledBack(was, trees, target);
      var rest := stores.Keys;
      ok := false;
      while rest != {}
        invariant rest <= was.Keys == stores.Keys && done == was.Keys - rest
        invariant forall n :: n in done ==> HasVersion(was, trees, target, n)
        invariant stores == RolledBack(was, done, trees, target)
        invariant db.trees == Truncated(was, done, trees, target)
        decreases |rest|
      {
        var n :| n in rest;
        rest := rest - {n};
        NotYetRolledBack(was, done, trees, target, n);
        ok := OverwriteFrom(n, target);
        if !ok {
          assert TakenBack(was, done, trees, target, stores, db.trees);
          return;
        }
        RollBackOneMore(was, done, trees, target, n);
        done := done + {n};
      }
      assert done == was.Keys;
      assert TakenBack(was, done, trees, target, stores, db.trees);
      ok := true;
    }

    /** LoadVersionForOverwriting, if it is a tree store. */
    method OverwriteFrom(n: Name, target: nat) returns (ok: bool)
      requires n in stores
      modifies this`stores, db`trees
      ensures ok == (old(stores)[n].typ.Iavl? ==> target in Saved(old(db.trees), n))
      ensures ok && old(stores)[n].typ.Iavl? ==>
                var saved := Saved(old(db.trees), n);
                && stores == old(stores)[n := old(stores)[n].(version := target, committed := saved[target], working := saved[target])]
                && db.trees == old(db.trees)[n := UpTo(saved, target)]
      ensures !ok || !old(stores)[n].typ.Iavl? ==> stores == old(stores) && db.trees == old(db.trees)
    {
      hide UpTo;
      ok := true;
      if stores[n].typ.Iavl? {
        var saved := Saved(db.trees, n);
        if target !in saved {
          return false;
        }
        stores := stores[n := stores[n].(version := target, committed := saved[target], working := saved[target])];
        db.trees := db.trees[n := UpTo(saved, target)];
      }
    }

    /**
     * RollbackToVersion. If every loaded tree store has the target, all lose the versions behind it, and it becomes the
     * latest version of the whole, which is then loaded. Otherwise the metadata stay, but some of the stores have been
     * taken to the target before the one that lacks it was met.
     */
    method RollbackToVersion(target: nat) returns (ok: bool)
      requires Lawful(lib)
      modifies this, db
      ensures params == old(params) && removal == old(removal)
      ensures target == 0 ==> !ok && Now() == old(Now())
      ensures var all := forall n :: n in old(stores) ==> HasVersion(old(stores), old(db.trees), target, n);
              target > 0 ==>
                if !all then !ok && exists done :: RollbackRefused(target, done, old(Now()), Now())
                else if ok then RolledBackTo(lib, target, old(Now()), Now())
                else RollbackFailed(lib, target, old(Now()), Now())
    {
      hide Loadable, LoadedSoFar, HasVersion, RolledBack, Truncated, CurrentInfo;
      if target == 0 {
        return false;
      }
      ghost var before := Now();
      ok := LoadForOverwriting(target);
      if !ok {
        ghost var done :| TakenBack(before.stores, done, before.trees, target, stores, db.trees);
        assert RollbackRefused(target, done, before, Now());
        return;
      }
      var info := BuildCommitInfo(target);
      FlushMetadata(target, info);
      NothingRemoved(params.Keys);
      ghost var marks := removal;
      ok := LoadVersion(db.latest, NO_UPGRADES);
      forall done
        ensures marks + RemovedBy(NO_UPGRADES, done) == marks
      {
        NothingRemoved(done);
      }
    }

    /** GetAllVersions: the versions of whichever tree store the map yields first. */
    method GetAllVersions() returns (vs: seq<nat>)
      ensures (forall n :: n in stores ==> !stores[n].typ.Iavl?) ==> vs == []
      ensures (exists n :: n in stores && stores[n].typ.Iavl?) ==>
                exists n :: n in stores && stores[n].typ.Iavl? && VersionList(vs, Saved(db.trees, n))
    {
      vs := [];
      var rest := stores.Keys;
      while rest != {}
        invariant rest <= stores.Keys && forall n :: n in stores && n !in rest ==> !stores[n].typ.Iavl?
        invariant vs == []
        decreases |rest|
      {
        var n :| n in rest;
        rest := rest - {n};
        if stores[n].typ.Iavl? {
          vs := ListVersions(Saved(db.trees, n));
          return;
        }
      }
    }

    /**
     * PruneStores: a tree store refuses to lose its latest version. A deletion that fails half-way may have deleted
     * any of the versions; it is only logged, unless a version is missing, which ends the loop with an error.
     */
    method PruneStores(height: int) returns (ok: bool)
      modifies db`trees, db`faulty
      ensures PrunedTo(old(db.trees), db.trees, stores, height)
      ensures (!ok ==> db.faulty) && (old(db.faulty) ==> db.faulty)
      ensures !db.faulty ==> forall n :: n in db.trees ==> db.trees[n] == PrunedAt(stores, n, old(db.trees)[n], height)
    {
      hide Above, Greatest, Prunable, PartlyPruned;
      ok := true;
      NothingPruned(db.trees, stores, height);
      if height <= 0 {
        return;
      }
      var rest := stores.Keys;
      while rest != {}
        invariant rest <= stores.Keys && PrunedTo(old(db.trees), db.trees, stores, height)
        invariant ok && (old(db.faulty) ==> db.faulty)
        invariant forall n :: n in db.trees && n in rest ==> db.trees[n] == old(db.trees)[n]
        invariant !db.faulty ==> forall n :: n in db.trees && n !in rest ==>
                    db.trees[n] == PrunedAt(stores, n, old(db.trees)[n], height)
        decreases |rest|
      {
        var n :| n in rest;
        rest := rest - {n};
        if stores[n].typ.Iavl? && n in db.trees {
          var versions, failed := DeleteVersionsTo(db.trees[n], height);
          PruneOneMore(old(db.trees), db.trees, stores, height, n, versions);
          db.trees := db.trees[n := versions];
          db.faulty := db.faulty || failed;
          var missing: bool := *;
          if failed && missing { // ErrVersionDoesNotExist
            return false;
          }
        }
      }
    }

    /** DeleteVersionsTo of a tree store. */
    method DeleteVersionsTo(saved: Versions, height: int) returns (left: Versions, failed: bool)
      ensures if GoesBeyond(saved, height) then PartlyPruned(saved, left, height) else left == saved
      ensures !failed && GoesBeyond(saved, height) ==> left == Above(saved, height)
    {
      left, failed := saved, false;
      if saved.Keys != {} && Greatest(saved.Keys) > height {
        assert GoesBeyond(saved, height);
        failed := *;
        var spared: set<nat> := *;
        left := if failed then map v | v in saved && (v > height || v in spared) :: saved[v] else Above(saved, height);
      }
    }

    // ---- Snapshots --------------------------------------------------------------------------------

    /** Every store can be snapshot: plain databases cannot, and those without persistence are left out. */
    ghost predicate CanSnapshot(height: nat)
      reads this, db
    {
      && 0 < height <= db.latest
      && forall n :: n in stores ==> stores[n].typ != DbAdapter && (stores[n].typ.Iavl? ==> height in Saved(db.trees, n))
    }

    /** The names of the tree stores, unless there is a store that cannot be snapshot. */
    method CollectTrees() returns (names: set<Name>, ok: bool)
      ensures ok == forall n :: n in stores ==> stores[n].typ != DbAdapter
      ensures ok ==> names == TreeNames(stores)
    {
      names, ok := {}, false;
      var rest := stores.Keys;
      while rest != {}
        invariant rest <= stores.Keys && forall n :: n in stores && n !in rest ==> stores[n].typ != DbAdapter
        invariant names == TreeNames(stores) - rest
        decreases |rest|
      {
        var n :| n in rest;
        rest := rest - {n};
        if stores[n].typ.DbAdapter? {
          return;
        }
        if stores[n].typ.Iavl? {
          names := names + {n};
        }
      }
      ok := true;
    }

    /** Snapshot: the stores in name order, each as a store item followed by its exported nodes. */
    method Snapshot(height: nat) returns (items: seq<Item>, ok: bool, ghost names: seq<Name>)
      ensures ok == CanSnapshot(height)
      ensures ok ==> InNameOrder(names, TreeNames(stores))
      ensures ok ==> forall i :: 0 <= i < |names| ==> height in Saved(db.trees, names[i])
      ensures ok ==> items == Stream(names, db.trees, height)
    {
      hide InNameOrder;
      items, ok, names := [], false, [];
      if height == 0 || height > db.latest {
        return;
      }
      var trees, collected := CollectTrees();
      if !collected {
        return;
      }
      var sorted := SortNames(trees);
      OrderHasAll(sorted, trees);
      names := sorted;
      var i := 0;
      while i < |sorted|
        invariant i <= |sorted| && forall j :: 0 <= j < i ==> height in Saved(db.trees, sorted[j])
        invariant items == Stream(sorted[..i], db.trees, height)
      {
        if height !in Saved(db.trees, sorted[i]) {
          assert sorted[i] in sorted;
          return;
        }
        var nodes := Saved(db.trees, sorted[i])[height];
        items := items + [StoreItem(sorted[i])];
        ghost var before := items;
        var j := 0;
        while j < |nodes|
          invariant j <= |nodes| && items == before + NodeItems(nodes)[..j]
        {
          items := items + [NodeItem(nodes[j].key, nodes[j].value, nodes[j].height, nodes[j].version)];
          j := j + 1;
        }
        assert NodeItems(nodes)[..j] == NodeItems(nodes);
        StreamNext(sorted, i, db.trees, height);
        i := i + 1;
      }
      assert sorted[..i] == sorted;
      forall n | n in stores && stores[n].typ.Iavl?
        ensures height in Saved(db.trees, n)
      {
        assert n in trees && n in sorted;
      }
      ok := true;
    }

    /** Commits the importer. */
    method FinishImport(imports: Imports, height: nat, into: Option<Name>, nodes: Tree) returns (ok: bool)
      requires into.None? ==> nodes == []
      modifies this`stores, db`trees
      ensures var done := Finish(imports, height, Importing(into, nodes, old(stores), old(db.trees)));
              && ok == done.Some?
              && (ok ==> done == Some(Begin(stores, db.trees)))
              && (!ok ==> stores == old(stores) && db.trees == old(db.trees))
    {
      ok := true;
      if into.Some? {
        var n := into.value;
        if n !in stores || !imports.whole(nodes, height) {
          return false;
        }
        db.trees := db.trees[n := Saved(db.trees, n)[height := nodes]];
        stores := stores[n := stores[n].(version := height, committed := nodes, working := nodes)];
      }
    }

    /** The loop of Restore: imports what comes before the first item that is not for a store. */
    method ImportItems(imports: Imports, height: nat, items: seq<Item>) returns (i: nat, ok: bool)
      modifies this`stores, db`trees
      ensures var end := Imported(imports, height, old(stores), old(db.trees), items);
              && ok == (end.Some? && !(Leading(items) < |items| && items[Leading(items)].Corrupt?))
              && (ok ==> i == Leading(items) && end == Some(Begin(stores, db.trees)))
      ensures Reached(imports, height, Begin(old(stores), old(db.trees)), items, stores, db.trees)
    {
      ghost var was, trees := stores, db.trees;
      var into: Option<Name>, nodes: Tree := None, [];
      i, ok := 0, false;
      while i < |items| && OfStores(items[i])
        invariant i <= |items| && forall j :: 0 <= j < i ==> OfStores(items[j])
        invariant into.None? ==> nodes == []
        invariant TakeAll(imports, height, Begin(was, trees), items[..i]) == Some(Importing(into, nodes, stores, db.trees))
      {
        ghost var before := Importing(into, nodes, stores, db.trees);
        LeadingAtLeast(items, i);
        assert ReachedAt(imports, height, Begin(was, trees), items, i, before);
        var taken := true;
        match items[i] {
          case StoreItem(n) =>
            taken := FinishImport(imports, height, into, nodes);
            taken := taken && n in stores && stores[n].typ.Iavl? && Saved(db.trees, n) == map[] && stores[n].working == [];
            into, nodes := Some(n), [];
          case NodeItem(_, _, h, _) =>
            taken := into.Some? && h <= 127 && imports.fits(nodes + [Received(items[i])], height);
            nodes := nodes + [Received(items[i])];
        }
        assert taken == Take(imports, height, before, items[i]).Some?;
        assert !taken ==> LeavesOf(imports, height, before, stores, db.trees);
        TakeNext(imports, height, was, trees, items, i, before);
        i := i + 1;
        if !taken {
          return;
        }
      }
      LeadingIs(items, i);
      assert ReachedAt(imports, height, Begin(was, trees), items, i, Importing(into, nodes, stores, db.trees));
      if i < |items| && items[i].Corrupt? {
        return;
      }
      ok := FinishImport(imports, height, into, nodes);
    }

    /**
     * Restore: imports the items up to the first foreign one, which it returns, then makes the height the latest
     * version and loads it. A failed import leaves the metadata alone.
     */
    method Restore(imports: Imports, height: nat, items: seq<Item>) returns (next: Item, read: nat, ok: bool)
      requires Lawful(lib)
      modifies this, db
      ensures params == old(params)
      ensures var end := Imported(imports, height, old(stores), old(db.trees), items);
              var imported := end.Some? && !(Leading(items) < |items| && items[Leading(items)].Corrupt?);
              if !imported then
                && !ok && db.infos == old(db.infos) && db.latest == old(db.latest)
                && Reached(imports, height, Begin(old(stores), old(db.trees)), items, stores, db.trees)
              else
                var info := CurrentInfo(lib, end.value.stores, height);
                && db.trees == end.value.trees
                && db.infos == old(db.infos)[height := info] && db.latest == height
                && read == Leading(items) && next == (if read < |items| then items[read] else NoItem)
                // at height 0 no commit info is loaded
                && var latest := if height == 0 then CommitInfo(0, map[]) else info;
                && ok == (forall n :: n in params ==> Loadable(lib, db.trees, latest.ids, NO_UPGRADES, height, n, params[n]))
                && (ok ==> lastInfo == Some(latest)
                           && LoadedSoFar(lib, db.trees, latest.ids, NO_UPGRADES, height, params, params.Keys, stores))
                && (!ok ==> stores == end.value.stores)
    {
      hide Reached, Imported, CurrentInfo, Loadable, LoadedSoFar;
      next := NoItem;
      read, ok := ImportItems(imports, height, items);
      if !ok {
        return;
      }
      if read < |items| {
        next := items[read];
      }
      var info := BuildCommitInfo(height);
      FlushMetadata(height, info);
      NothingRemoved(params.Keys);
      ok := LoadVersion(db.latest, NO_UPGRADES);
    }
  }

  /** The versions of a tree in ascending order, as the tree library lists them. */
  method ListVersions(saved: Versions) returns (vs: seq<nat>)
    ensures VersionList(vs, saved)
  {
    vs := [];
    var rest := saved.Keys;
    while rest != {}
      invariant rest <= saved.Keys && (forall v :: v in vs <==> v in saved && v !in rest)
      invariant forall i, j :: 0 <= i < j < |vs| ==> vs[i] < vs[j]
      invariant forall v, r :: v in vs && r in rest ==> r < v
      decreases |rest|
    {
      var v := Greatest(rest);
      forall j | 0 <= j < |vs|
        ensures v < vs[j]
      {
        assert vs[j] in vs;
      }
      rest := rest - {v};
      vs := [v] + vs;
    }
  }
}
