/** What committing, upgrading, loading and rolling back a multistore keep. */
module MultiLaws {
  import opened KvStore
  import opened MultiStore

  // ---- Working hash and interrupted commits ----------------------------------------------------------

  /** Every tree store is about to get the version. */
  ghost predicate Uniform(stores: Stores, version: nat) {
    forall n :: n in stores && stores[n].typ.Iavl? ==> stores[n].version < version == NextVersion(stores[n])
  }

  /** The hash of a store's working tree is the hash the commit records for it. */
  ghost predicate HashStands(lib: Lib, s: Sub, version: int) {
    && !s.typ.DbAdapter?
    && (s.typ.Iavl? && AlreadyAt(lib, s, version) ==> lib.hash(NextTree(lib, s)) == lib.hash(s.committed))
  }

  /** Different lists of hashes have different hashes, as is hoped of a cryptographic hash. */
  ghost predicate Injective(lib: Lib) {
    forall a, b :: lib.merkle(a) == lib.merkle(b) ==> a == b
  }

  /**
   * The hash before a commit is the hash of the commit exactly when no plain database store takes part, and each
   * tree store that has the version already was left with an edited tree of the same hash.
   */
  lemma WorkingHashIsCommitHash(lib: Lib, stores: Stores, removal: set<Name>, version: int)
    ensures var stands := forall n :: n in stores && n !in removal ==> HashStands(lib, stores[n], version);
            var working, commit := WorkingHashes(lib, stores, removal), InfoFor(lib, stores, removal, version);
            && (working == HashesOf(commit) <==> stands)
            && (stands ==> lib.merkle(working) == AppHash(lib, commit))
            && (Injective(lib) ==> (lib.merkle(working) == AppHash(lib, commit) <==> stands))
  {
    var w, h := WorkingHashes(lib, stores, removal), HashesOf(InfoFor(lib, stores, removal, version));
    forall n | n in stores && n !in removal
      ensures HashStands(lib, stores[n], version) <==> ((n in w <==> n in h) && (n in w ==> w[n] == h[n]))
    {
      RecordedHash(lib, stores, removal, version, n);
    }
    assert forall n :: n in w || n in h ==> n in stores && n !in removal;
    if w == h {
      assert forall n :: n in stores && n !in removal ==> HashStands(lib, stores[n], version);
    }
  }

  lemma RecordedHash(lib: Lib, stores: Stores, removal: set<Name>, version: int, n: Name)
    requires n in stores && n !in removal
    ensures var h := HashesOf(InfoFor(lib, stores, removal, version));
            && (n in h <==> Persistent(stores[n]))
            && (stores[n].typ.Iavl? ==>
                  h[n] == lib.hash(if AlreadyAt(lib, stores[n], version) then stores[n].committed else NextTree(lib, stores[n])))
  {
    hide NextTree;
  }

  /**
   * It is not the hash of the commit for a new store whose first commit was interrupted: its tree of version 6 is
   * saved, so the store stands at 6 although the whole is at 5, and is not committed again.
   */
  lemma AheadStoreMisses(lib: Lib, t: Tree)
    requires lib.admits({6}, 6) && lib.hash(lib.seal(t, 7)) != lib.hash(t)
    ensures var n: Name := [1];
            var trees: map<Name, Versions>, stores: Stores := map[n := map[6 := t]], map[n := Sub(Iavl, 6, 6, t, t)];
            && LoadedSoFar(lib, trees, map[], Upgrades({n}, map[], {}), 5, map[n := Iavl], {n}, stores)
            && !Collides(lib, stores[n], 6, Saved(trees, n))
            && WorkingHashes(lib, stores, {}) != HashesOf(InfoFor(lib, stores, {}, 6))
  {
    var n: Name := [1];
    var trees: map<Name, Versions>, stores: Stores := map[n := map[6 := t]], map[n := Sub(Iavl, 6, 6, t, t)];
    var up := Upgrades({n}, map[], {});
    assert trees[n].Keys == {6} && Greatest(trees[n].Keys) == 6;
    assert LoadedIn(lib, trees, map[], up, 5, n, Iavl, stores);
    assert OldNames(up, {n}) == {};
    assert !HashStands(lib, stores[n], 6);
    WorkingHashIsCommitHash(lib, stores, {}, 6);
  }

  /** A store that was committed before an interruption is not committed again, and its id is the same. */
  lemma CommitOnce(lib: Lib, s: Sub, version: nat)
    requires s.typ.Iavl? ==> s.version < version == NextVersion(s)
    requires version > 0
    ensures var s' := CommitAt(lib, s, version);
            CommitAt(lib, s', version) == s' && IdAt(lib, s', version) == IdAt(lib, s, version) && !Saves(lib, s', version)
    ensures CommitAt(lib, s, version).typ == s.typ
  {
  }

  /**
   * Committing a version again after an interruption, whichever stores had been committed by then, commits only
   * the remaining ones and ends with the same commit info, stores and saved trees.
   */
  lemma InterruptedCommit(lib: Lib, stores: Stores, removal: set<Name>, done: set<Name>, version: nat, trees: map<Name, Versions>)
    requires Uniform(stores, version) && version > 0 && done <= stores.Keys
    ensures var half, halfTrees := CommitSome(lib, stores, done, version), SavedAfter(lib, stores, done, version, trees);
            && InfoFor(lib, half, removal, version) == InfoFor(lib, stores, removal, version)
            && CommitAll(lib, half, version) == CommitAll(lib, stores, version)
            && SavedAfter(lib, half, half.Keys, version, halfTrees) == SavedAfter(lib, stores, stores.Keys, version, trees)
            && (forall n :: n in done ==> !Saves(lib, half[n], version))
            && (forall n :: n in stores && n !in done ==> half[n] == stores[n] && Saved(halfTrees, n) == Saved(trees, n))
  {
    hide CommitAt, IdAt, Saves, NextVersion, NextTree, SavedAfter;
    var half := CommitSome(lib, stores, done, version);
    forall n | n in stores
      ensures CommitAt(lib, half[n], version) == CommitAt(lib, stores[n], version)
      ensures IdAt(lib, half[n], version) == IdAt(lib, stores[n], version) && half[n].typ == stores[n].typ
      ensures n in done ==> !Saves(lib, half[n], version)
    {
      CommitOnce(lib, stores[n], version);
    }
    TreesOfInterrupted(lib, stores, done, version, trees);
    RestAsBefore(lib, stores, done, version, trees);
  }

  lemma RestAsBefore(lib: Lib, stores: Stores, done: set<Name>, version: nat, trees: map<Name, Versions>)
    ensures forall n :: n in stores && n !in done ==>
              && CommitSome(lib, stores, done, version)[n] == stores[n]
              && Saved(SavedAfter(lib, stores, done, version, trees), n) == Saved(trees, n)
  {
    hide CommitAt, Saves, NextVersion, NextTree;
  }

  // ---- A commit interrupted by a restart ---------------------------------------------------------------

  /** The stores with some edits written to their working trees. */
  ghost predicate Edited(loaded: Stores, stores: Stores) {
    stores.Keys == loaded.Keys && forall n :: n in loaded ==> EditedFrom(loaded[n], stores[n])
  }

  /** One and the same load, from trees that differ in other versions, finds a store by the same id. */
  lemma LoadedAlike(lib: Lib, trees: map<Name, Versions>, now: map<Name, Versions>, ids: map<Name, CommitId>, up: Upgrades,
                    ver: nat, params: map<Name, StoreType>, loaded: Stores, reloaded: Stores, n: Name)
    returns (typ: StoreType, initial: nat)
    requires LoadedSoFar(lib, trees, ids, up, ver, params, params.Keys, loaded) && n in loaded
    requires LoadedSoFar(lib, now, ids, up, ver, params, params.Keys, reloaded)
    ensures n in reloaded
    ensures var base := LoadSub(lib, Saved(trees, n), typ, IdFor(ids, n), initial);
            base.Some? && EditedFrom(base.value, loaded[n])
    ensures var base := LoadSub(lib, Saved(now, n), typ, IdFor(ids, n), initial);
            base.Some? && EditedFrom(base.value, reloaded[n])
  {
    hide LoadSub, Pairs, Mismatched;
    if n in params {
      assert LoadedIn(lib, trees, ids, up, ver, n, params[n], loaded);
      assert LoadedIn(lib, now, ids, up, ver, n, params[n], reloaded);
      return params[n], InitialFor(up, n, ver);
    }
    var o :| o in params && Moves(up, o) && up.renamed[o] == n;
    assert LoadedIn(lib, trees, ids, up, ver, o, params[o], loaded);
    assert LoadedIn(lib, now, ids, up, ver, o, params[o], reloaded);
    return params[o], 0;
  }

  /** A store was saved as version `next` before the restart, or was not. */
  function SavedOnce(lib: Lib, s: Sub, saved: Versions, next: nat, committed: bool): Versions {
    if committed && Saves(lib, s, next) then saved[NextVersion(s) := NextTree(lib, s)] else saved
  }

  /**
   * A store loaded again: by its id at the version it had; without one, if it was committed before the restart, at
   * the next version already.
   */
  lemma ReloadedSub(lib: Lib, saved: Versions, typ: StoreType, id: CommitId, initial: nat, s: Sub, next: nat, committed: bool, r: Sub)
    requires var base := LoadSub(lib, saved, typ, id, initial); base.Some? && EditedFrom(base.value, s)
    requires var base := LoadSub(lib, SavedOnce(lib, s, saved, next, committed), typ, id, initial); base.Some? && EditedFrom(base.value, r)
    requires typ.Iavl? ==> s.version < next == NextVersion(s)
    ensures r.typ == s.typ == typ
    ensures typ.Iavl? && committed && id.version == 0 ==> r.version == next && r.committed == NextTree(lib, s)
    ensures !(typ.Iavl? && committed && id.version == 0) ==> EditedFrom(s, r)
  {
    hide NextTree;
    if typ.Iavl? && committed && id.version == 0 {
      var now := SavedOnce(lib, s, saved, next, committed);
      assert next in now.Keys && forall v :: v in now ==> v <= next;
      assert Greatest(now.Keys) == next;
    }
  }

  /** Committing it then gives the same id and saves the same tree, or has saved it. */
  lemma ReloadedCommits(lib: Lib, s: Sub, next: nat, r: Sub, saved: Versions, committed: bool)
    requires s.typ == r.typ && (s.typ.Iavl? ==> s.version < next == NextVersion(s)) && next > 0
    requires || (EditedFrom(s, r) && r.working == s.working)
             || (s.typ.Iavl? && committed && r.version == next && r.committed == NextTree(lib, s))
    requires !Collides(lib, s, next, saved)
    ensures IdAt(lib, r, next) == IdAt(lib, s, next)
    ensures !Collides(lib, r, next, SavedOnce(lib, s, saved, next, committed))
    ensures SavedOnce(lib, r, SavedOnce(lib, s, saved, next, committed), next, true) == SavedOnce(lib, s, saved, next, true)
    ensures r.version == next ==> !Saves(lib, r, next)
  {
    if EditedFrom(s, r) && r.working == s.working {
      assert r == s;
    }
    hide NextTree;
  }

  /**
   * A commit is interrupted after the stores in `done`. The program restarts, loads the same version with the same
   * upgrades and makes the same edits, to the stores that are loaded at the version they had; a new store that had
   * been committed is loaded at the next version, and may be edited in any way. Committing then clashes with nothing
   * and ends with the commit info and the saved trees of the commit that was interrupted.
   */
  lemma CommitAfterRestart(lib: Lib, trees: map<Name, Versions>, ids: map<Name, CommitId>, up: Upgrades, ver: nat,
                           params: map<Name, StoreType>, loaded: Stores, stores: Stores, done: set<Name>, removal: set<Name>,
                           reloaded: Stores, again: Stores)
    requires LoadedSoFar(lib, trees, ids, up, ver, params, params.Keys, loaded) && Edited(loaded, stores)
    requires Uniform(stores, ver + 1) && done <= stores.Keys
    requires forall n :: n in stores ==> !Collides(lib, stores[n], ver + 1, Saved(trees, n))
    requires var halfTrees := SavedAfter(lib, stores, done, ver + 1, trees);
             LoadedSoFar(lib, halfTrees, ids, up, ver, params, params.Keys, reloaded) && Edited(reloaded, again)
    requires forall n :: n in stores && n in again && again[n].version != ver + 1 ==> again[n].working == stores[n].working
    ensures var halfTrees := SavedAfter(lib, stores, done, ver + 1, trees);
            && again.Keys == stores.Keys
            && (forall n :: n in stores ==> !Collides(lib, again[n], ver + 1, Saved(halfTrees, n)))
            && InfoFor(lib, again, removal, ver + 1) == InfoFor(lib, stores, removal, ver + 1)
            && SavedAfter(lib, again, again.Keys, ver + 1, halfTrees) == SavedAfter(lib, stores, stores.Keys, ver + 1, trees)
    ensures forall n :: n in done && stores[n].typ.Iavl? && IdFor(ids, n).version == 0 ==>
              again[n].version == ver + 1 && !Saves(lib, again[n], ver + 1)
  {
    var halfTrees := SavedAfter(lib, stores, done, ver + 1, trees);
    SameNames(lib, trees, halfTrees, ids, up, ver, params, loaded, reloaded);
    assert again.Keys == stores.Keys;
    hide Saves, NextVersion, NextTree, SavedAfter, SavedOnce, LoadedSoFar, Edited, LoadSub, IdAt, Collides, Uniform, InfoFor;
    forall n | n in stores
      ensures again[n].typ == stores[n].typ && IdAt(lib, again[n], ver + 1) == IdAt(lib, stores[n], ver + 1)
      ensures !Collides(lib, again[n], ver + 1, Saved(halfTrees, n))
      ensures SavedOnce(lib, again[n], Saved(halfTrees, n), ver + 1, true) == SavedOnce(lib, stores[n], Saved(trees, n), ver + 1, true)
      ensures Saved(halfTrees, n) == SavedOnce(lib, stores[n], Saved(trees, n), ver + 1, n in done)
      ensures n in done && stores[n].typ.Iavl? && IdFor(ids, n).version == 0 ==>
                again[n].version == ver + 1 && !Saves(lib, again[n], ver + 1)
    {
      RestartOne(lib, trees, ids, up, ver, params, loaded, stores, done, reloaded, again, n);
    }
    SameTrees(lib, stores, again, done, ver + 1, trees);
    SameInfo(lib, stores, again, removal, ver + 1);
  }

  lemma SameNames(lib: Lib, trees: map<Name, Versions>, now: map<Name, Versions>, ids: map<Name, CommitId>, up: Upgrades,
                  ver: nat, params: map<Name, StoreType>, loaded: Stores, reloaded: Stores)
    requires LoadedSoFar(lib, trees, ids, up, ver, params, params.Keys, loaded)
    requires LoadedSoFar(lib, now, ids, up, ver, params, params.Keys, reloaded)
    ensures reloaded.Keys == loaded.Keys
  {
    hide LoadedIn;
  }

  lemma SameInfo(lib: Lib, stores: Stores, again: Stores, removal: set<Name>, next: nat)
    requires again.Keys == stores.Keys
    requires forall n :: n in stores ==> again[n].typ == stores[n].typ && IdAt(lib, again[n], next) == IdAt(lib, stores[n], next)
    ensures InfoFor(lib, again, removal, next) == InfoFor(lib, stores, removal, next)
  {
    hide IdAt;
  }

  /** Committing gives a store one more version, if it saves, and leaves the others as they are. */
  lemma SavedAt(lib: Lib, stores: Stores, done: set<Name>, version: nat, trees: map<Name, Versions>, n: Name)
    ensures var now := SavedAfter(lib, stores, done, version, trees);
            var saves := n in done && n in stores && Saves(lib, stores[n], version);
            && (n in now <==> n in trees || saves)
            && Saved(now, n) == if saves then Saved(trees, n)[NextVersion(stores[n]) := NextTree(lib, stores[n])] else Saved(trees, n)
  {
    hide Saves, NextVersion, NextTree;
  }

  lemma RestartOne(lib: Lib, trees: map<Name, Versions>, ids: map<Name, CommitId>, up: Upgrades, ver: nat,
                   params: map<Name, StoreType>, loaded: Stores, stores: Stores, done: set<Name>,
                   reloaded: Stores, again: Stores, n: Name)
    requires LoadedSoFar(lib, trees, ids, up, ver, params, params.Keys, loaded) && Edited(loaded, stores)
    requires Uniform(stores, ver + 1) && n in stores && n in again
    requires !Collides(lib, stores[n], ver + 1, Saved(trees, n))
    requires var halfTrees := SavedAfter(lib, stores, done, ver + 1, trees);
             LoadedSoFar(lib, halfTrees, ids, up, ver, params, params.Keys, reloaded) && Edited(reloaded, again)
    requires again[n].version != ver + 1 ==> again[n].working == stores[n].working
    ensures var half := SavedOnce(lib, stores[n], Saved(trees, n), ver + 1, n in done);
            && Saved(SavedAfter(lib, stores, done, ver + 1, trees), n) == half
            && again[n].typ == stores[n].typ && IdAt(lib, again[n], ver + 1) == IdAt(lib, stores[n], ver + 1)
            && !Collides(lib, again[n], ver + 1, half)
            && SavedOnce(lib, again[n], half, ver + 1, true) == SavedOnce(lib, stores[n], Saved(trees, n), ver + 1, true)
    ensures n in done && stores[n].typ.Iavl? && IdFor(ids, n).version == 0 ==>
              again[n].version == ver + 1 && !Saves(lib, again[n], ver + 1)
  {
    var halfTrees := SavedAfter(lib, stores, done, ver + 1, trees);
    SavedAt(lib, stores, done, ver + 1, trees, n);
    var typ, initial := LoadedAlike(lib, trees, halfTrees, ids, up, ver, params, loaded, reloaded, n);
    hide NextVersion, NextTree, SavedAfter, LoadedSoFar, LoadSub, IdAt, Collides, Saves;
    LoadSubTyp(lib, Saved(trees, n), typ, IdFor(ids, n), initial);
    ReloadedSub(lib, Saved(trees, n), typ, IdFor(ids, n), initial, stores[n], ver + 1, n in done, again[n]);
    ReloadedCommits(lib, stores[n], ver + 1, again[n], Saved(trees, n), n in done);
  }

  lemma LoadSubTyp(lib: Lib, saved: Versions, typ: StoreType, id: CommitId, initial: nat)
    requires LoadSub(lib, saved, typ, id, initial).Some?
    ensures LoadSub(lib, saved, typ, id, initial).value.typ == typ
  {
  }

  lemma SameTrees(lib: Lib, stores: Stores, again: Stores, done: set<Name>, next: nat, trees: map<Name, Versions>)
    requires again.Keys == stores.Keys && done <= stores.Keys
    requires var halfTrees := SavedAfter(lib, stores, done, next, trees);
             forall n :: n in stores ==>
               SavedOnce(lib, again[n], Saved(halfTrees, n), next, true) == SavedOnce(lib, stores[n], Saved(trees, n), next, true)
    ensures var halfTrees := SavedAfter(lib, stores, done, next, trees);
            SavedAfter(lib, again, again.Keys, next, halfTrees) == SavedAfter(lib, stores, stores.Keys, next, trees)
  {
    hide Saves, NextVersion, NextTree, SavedAfter;
    var halfTrees := SavedAfter(lib, stores, done, next, trees);
    var twice, once := SavedAfter(lib, again, again.Keys, next, halfTrees), SavedAfter(lib, stores, stores.Keys, next, trees);
    forall n
      ensures n in twice <==> n in once
      ensures n in twice ==> twice[n] == once[n]
    {
      SavedAt(lib, stores, done, next, trees, n);
      SavedAt(lib, again, again.Keys, next, halfTrees, n);
      SavedAt(lib, stores, stores.Keys, next, trees, n);
      if n in stores && Saves(lib, again[n], next) {
        assert NextVersion(again[n]) in SavedOnce(lib, again[n], Saved(halfTrees, n), next, true);
      }
      if n in stores && Saves(lib, stores[n], next) {
        assert NextVersion(stores[n]) in SavedOnce(lib, stores[n], Saved(trees, n), next, true);
      }
    }
  }

  lemma TreesOfInterrupted(lib: Lib, stores: Stores, done: set<Name>, version: nat, trees: map<Name, Versions>)
    requires done <= stores.Keys
    requires forall n :: n in done ==> !Saves(lib, CommitAt(lib, stores[n], version), version)
    ensures var half, halfTrees := CommitSome(lib, stores, done, version), SavedAfter(lib, stores, done, version, trees);
            SavedAfter(lib, half, half.Keys, version, halfTrees) == SavedAfter(lib, stores, stores.Keys, version, trees)
  {
    hide Saves, CommitAt, NextVersion, NextTree;
  }

  // ---- Upgrades ---------------------------------------------------------------------------------------

  /**
   * The multistore after loading version `ver` with upgrades, in terms of what was saved and asked for, and of the names
   * that earlier loads, failed or not, had marked to be removed.
   */
  ghost predicate Upgraded(lib: Lib, trees: map<Name, Versions>, ids: map<Name, CommitId>, up: Upgrades, ver: nat,
                           params: map<Name, StoreType>, stores: Stores, marks: set<Name>, removal: set<Name>) {
    && WellFormed(up, params.Keys)
    && LoadedSoFar(lib, trees, ids, up, ver, params, params.Keys, stores)
    && removal == marks + RemovedBy(up, params.Keys)
  }

  /** Committing a loaded tree store saves its pairs as the next version. */
  lemma SavesPairs(lib: Lib, stores: Stores, version: nat, trees: map<Name, Versions>, n: Name)
    requires Lawful(lib) && n in stores && stores[n].typ.Iavl? && stores[n].version < version
    ensures var saved := Saved(SavedAfter(lib, stores, stores.Keys, version, trees), n);
            NextVersion(stores[n]) in saved && Pairs(saved[NextVersion(stores[n])]) == Pairs(stores[n].working)
  {
    hide Pairs;
    var s := stores[n];
    assert Pairs(lib.seal(s.working, NextVersion(s))) == Pairs(s.working);
  }

  /**
   * A renamed tree store holds the old store's pairs, laid over whatever stood under its own name: they are all
   * exactly if no other key stood there. The old store is emptied, and its name is not in the commit info any more.
   */
  lemma RenameMovesData(lib: Lib, trees: map<Name, Versions>, ids: map<Name, CommitId>, up: Upgrades, ver: nat,
                        params: map<Name, StoreType>, stores: Stores, marks: set<Name>, removal: set<Name>, n: Name)
    requires Lawful(lib) && Upgraded(lib, trees, ids, up, ver, params, stores, marks, removal)
    requires n in params && params[n].Iavl? && n in up.renamed && up.renamed[n] != [] && n !in up.deleted
    // what stands under either name is not ahead of the version loaded
    requires forall v :: v in Saved(trees, n) || v in Saved(trees, up.renamed[n]) ==> v <= ver
    requires IdFor(ids, n).version <= ver && IdFor(ids, up.renamed[n]).version <= ver
    ensures var now := SavedAfter(lib, stores, stores.Keys, ver + 1, trees);
            var oldName := up.renamed[n];
            var from, own := OldBase(lib, trees, ids, up, n, Iavl), LoadedBase(lib, trees, ids, up, ver, n, Iavl);
            && from.Some? && own.Some? && n in stores && oldName in stores
            && NextVersion(stores[n]) in Saved(now, n)
            && Pairs(Saved(now, n)[NextVersion(stores[n])]) == Pairs(own.value.working) + Pairs(from.value.working)
            && (Pairs(Saved(now, n)[NextVersion(stores[n])]) == Pairs(from.value.working) <==>
                  Pairs(own.value.working).Keys <= Pairs(from.value.working).Keys)
            && (Saved(trees, n).Keys == {} && IdFor(ids, n) == NO_ID ==>
                  NextVersion(stores[n]) == ver + 1 && Pairs(own.value.working) == map[])
            && NextVersion(stores[oldName]) in Saved(now, oldName)
            && Pairs(Saved(now, oldName)[NextVersion(stores[oldName])]) == map[]
            && oldName in removal && oldName !in InfoFor(lib, stores, removal, ver + 1).ids
            && (n in InfoFor(lib, stores, removal, ver + 1).ids <==> n !in marks)
  {
    RenamedLoaded(lib, trees, ids, up, ver, params, stores, marks, removal, n);
    hide Pairs, NextTree, SavedAfter, CommitSub, LoadedSoFar, LoadSub, WellFormed, RemovedBy;
    SavesPairs(lib, stores, ver + 1, trees, n);
    SavesPairs(lib, stores, ver + 1, trees, up.renamed[n]);
    var from, own := OldBase(lib, trees, ids, up, n, Iavl), LoadedBase(lib, trees, ids, up, ver, n, Iavl);
    LaidUnder(Pairs(own.value.working), Pairs(from.value.working));
  }

  /** What loading makes of a renamed tree store and of the one its data comes from. */
  lemma RenamedLoaded(lib: Lib, trees: map<Name, Versions>, ids: map<Name, CommitId>, up: Upgrades, ver: nat,
                      params: map<Name, StoreType>, stores: Stores, marks: set<Name>, removal: set<Name>, n: Name)
    requires Upgraded(lib, trees, ids, up, ver, params, stores, marks, removal)
    requires n in params && params[n].Iavl? && n in up.renamed && up.renamed[n] != [] && n !in up.deleted
    requires forall v :: v in Saved(trees, n) || v in Saved(trees, up.renamed[n]) ==> v <= ver
    requires IdFor(ids, n).version <= ver && IdFor(ids, up.renamed[n]).version <= ver
    ensures var oldName := up.renamed[n];
            var from, own := OldBase(lib, trees, ids, up, n, Iavl), LoadedBase(lib, trees, ids, up, ver, n, Iavl);
            && from.Some? && own.Some? && n in stores && oldName in stores
            && stores[n].typ.Iavl? && stores[n].version <= ver
            && stores[oldName].typ.Iavl? && stores[oldName].version <= ver
            && Pairs(stores[n].working) == Pairs(own.value.working) + Pairs(from.value.working)
            && Pairs(stores[oldName].working) == map[]
            && oldName in removal && (n in removal <==> n in marks)
            && (Saved(trees, n).Keys == {} && IdFor(ids, n) == NO_ID ==>
                  NextVersion(stores[n]) == ver + 1 && Pairs(own.value.working) == map[])
  {
    hide Pairs;
    assert LoadedIn(lib, trees, ids, up, ver, n, params[n], stores);
    assert up.renamed[n] in OldNames(up, params.Keys);
    NoPairs();
  }

  /** Pairs laid under others do not show exactly if each of their keys is among the others'. */
  lemma LaidUnder(own: KvMap, from: KvMap)
    ensures own + from == from <==> own.Keys <= from.Keys
  {
    assert (own + from).Keys == own.Keys + from.Keys;
  }

  lemma NoPairs()
    ensures Pairs([]) == map[]
  {
  }

  /** A store the upgrades do not mention is carried over unchanged, and stays exactly if no earlier load has marked it. */
  lemma UnaffectedUnchanged(lib: Lib, trees: map<Name, Versions>, ids: map<Name, CommitId>, up: Upgrades, ver: nat,
                            params: map<Name, StoreType>, stores: Stores, marks: set<Name>, removal: set<Name>, n: Name)
    requires Lawful(lib) && Upgraded(lib, trees, ids, up, ver, params, stores, marks, removal)
    requires n in params && params[n].Iavl? && ver > 0
    requires n !in up.added && n !in up.deleted && (n in up.renamed ==> up.renamed[n] == [])
    ensures var now := SavedAfter(lib, stores, stores.Keys, ver + 1, trees);
            && ver in Saved(trees, n) && ver + 1 in Saved(now, n)
            && Pairs(Saved(now, n)[ver + 1]) == Pairs(Saved(trees, n)[ver])
            && (n in CommitAll(lib, stores, ver + 1) - removal <==> n !in marks)
            && (n in InfoFor(lib, stores, removal, ver + 1).ids <==> n !in marks)
            && (n !in marks ==> IdFor(InfoFor(lib, stores, removal, ver + 1).ids, n).version == ver + 1)
  {
    hide Pairs, SavedAfter;
    assert LoadedIn(lib, trees, ids, up, ver, n, params[n], stores);
    SavesPairs(lib, stores, ver + 1, trees, n);
  }

  /** A deleted store is committed empty and leaves the commit info. */
  lemma DeletedGone(lib: Lib, trees: map<Name, Versions>, ids: map<Name, CommitId>, up: Upgrades, ver: nat,
                    params: map<Name, StoreType>, stores: Stores, marks: set<Name>, removal: set<Name>, n: Name)
    requires Lawful(lib) && Upgraded(lib, trees, ids, up, ver, params, stores, marks, removal)
    requires n in params && params[n].Iavl? && n in up.deleted && ver > 0
    requires n !in up.added && (n in up.renamed ==> up.renamed[n] == [])
    ensures var now := SavedAfter(lib, stores, stores.Keys, ver + 1, trees);
            && ver + 1 in Saved(now, n) && Pairs(Saved(now, n)[ver + 1]) == map[]
            && n in removal && n !in InfoFor(lib, stores, removal, ver + 1).ids
            && n !in CommitAll(lib, stores, ver + 1) - removal
  {
    hide Pairs, SavedAfter;
    assert LoadedIn(lib, trees, ids, up, ver, n, params[n], stores);
    SavesPairs(lib, stores, ver + 1, trees, n);
  }

  // ---- The database ------------------------------------------------------------------------------------

  /** The commit info of the latest version describes trees that are there, and nothing is ahead of it. */
  ghost predicate Healthy(lib: Lib, trees: map<Name, Versions>, infos: map<int, CommitInfo>, latest: nat) {
    && latest > 0 && latest in infos && infos[latest].version == latest
    && forall n :: n in infos[latest].ids && infos[latest].ids[n].hash != [] ==>
         && Described(lib, Saved(trees, n), infos[latest].ids[n], latest)
         && forall v :: v in Saved(trees, n) ==> 1 <= v <= latest
  }

  /** The tree a commit id belongs to is there, and has its hash. */
  ghost predicate Described(lib: Lib, saved: Versions, id: CommitId, latest: nat) {
    id.version == latest && latest in saved && lib.hash(saved[latest]) == id.hash
  }
}
