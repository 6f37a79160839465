/** PruneAppState and verifyAppState of cmd/pruner.go: dropping old versions of the application state in place. */
module AppPrune {
  import opened Base
  import opened MultiStore
  import opened RootStores
  import opened MultiLaws
  import opened MultiSnapshot

  /** The wanted tree of a store: saved under the version, recorded in its commit info, and with the wanted hash. */
  ghost predicate Intact(lib: Lib, trees: map<Name, Versions>, info: CommitInfo, ver: nat, want: CommitInfo, n: Name) {
    && n in info.ids && info.ids[n].version == ver && ver in Saved(trees, n)
    && n in want.ids && lib.hash(Saved(trees, n)[ver]) == want.ids[n].hash
  }

  /** A store loads at a version, when nothing is upgraded, exactly if its commit id has it and its tree is saved. */
  lemma LoadsIff(lib: Lib, trees: map<Name, Versions>, ids: map<Name, CommitId>, ver: nat)
    requires ver > 0
    ensures forall n :: Loadable(lib, trees, ids, NO_UPGRADES, ver, n, Iavl) <==>
              n in ids && ids[n].version == ver && ver in Saved(trees, n)
  {
  }

  lemma LoadedPlainly(lib: Lib, trees: map<Name, Versions>, ids: map<Name, CommitId>, ver: nat, names: set<Name>,
                      params: map<Name, StoreType>, stores: Stores)
    requires ver > 0 && params == (map n | n in names :: Iavl)
    requires LoadedSoFar(lib, trees, ids, NO_UPGRADES, ver, params, params.Keys, stores)
    ensures stores.Keys == names
    ensures forall n :: n in names ==>
              && n in ids && ids[n].version == ver && ver in Saved(trees, n)
              && stores[n] == Sub(Iavl, ver, 0, Saved(trees, n)[ver], Saved(trees, n)[ver])
  {
    assert OldNames(NO_UPGRADES, params.Keys) == {};
    forall n | n in names
      ensures && n in ids && ids[n].version == ver && ver in Saved(trees, n)
              && stores[n] == Sub(Iavl, ver, 0, Saved(trees, n)[ver], Saved(trees, n)[ver])
    {
      assert LoadedIn(lib, trees, ids, NO_UPGRADES, ver, n, params[n], stores);
    }
  }

  /** NewStore, and mounting a tree store for every name. */
  method NewMounted(db: MultiDb, lib: Lib, names: set<Name>) returns (rs: RootStore)
    ensures fresh(rs) && rs.db == db && rs.lib == lib && rs.params == (map n | n in names :: Iavl)
    ensures rs.stores == map[] && rs.removal == {}
  {
    rs := new RootStore(lib, db);
    var rest := names;
    while rest != {}
      invariant fresh(rs) && rest <= names && rs.stores == map[] && rs.removal == {}
      invariant rs.params == (map n | n in names && n !in rest :: Iavl)
      decreases |rest|
    {
      var n :| n in rest;
      rest := rest - {n};
      var mounted := rs.Mount(n, Iavl);
    }
  }

  /** verifyAppState: succeeds exactly when every store reloads at the version with the wanted hash. */
  method VerifyAppState(db: MultiDb, lib: Lib, ver: nat, want: CommitInfo, names: set<Name>) returns (ok: bool)
    requires Lawful(lib) && ver > 0
    ensures ok == (ver in db.infos && forall n :: n in names ==> Intact(lib, db.trees, db.infos[ver], ver, want, n))
  {
    var vs := NewMounted(db, lib, names);
    NothingRemoved(vs.params.Keys);
    ok := vs.LoadVersion(ver, NO_UPGRADES);
    if ver in db.infos {
      LoadsIff(lib, db.trees, db.infos[ver].ids, ver);
    }
    if !ok {
      return;
    }
    LoadedPlainly(lib, db.trees, db.infos[ver].ids, ver, names, vs.params, vs.stores);
    var rest := names;
    while rest != {}
      invariant rest <= names
      invariant forall n :: n in names - rest ==> Intact(lib, db.trees, db.infos[ver], ver, want, n)
      decreases |rest|
    {
      var n :| n in rest;
      rest := rest - {n};
      if n !in vs.stores || n !in want.ids || LastCommitId(lib, vs.stores[n]).hash != want.ids[n].hash {
        return false;
      }
    }
  }

  /** The version up to which to prune is taken from the list of versions: always from its last one. */
  function Target(count: nat, keepVersions: nat): (idx: nat)
    requires count > 0 && keepVersions >= 1
    ensures idx == count - 1
  {
    Max(count - keepVersions, count - 1)
  }

  /** Nothing is changed, and only versions below the latest are gone. */
  ghost predicate OnlyOlderGone(was: map<Name, Versions>, now: map<Name, Versions>, latest: nat) {
    && now.Keys == was.Keys
    && forall n :: n in was ==>
         && (forall v :: v in now[n] ==> v in was[n] && now[n][v] == was[n][v])
         && (forall v :: v in was[n] && v >= latest ==> v in now[n])
  }

  ghost predicate OnlyLatest(trees: map<Name, Versions>, n: Name, latest: nat) {
    n in trees && trees[n].Keys == {latest}
  }

  /** The names PruneAppState mounts: those whose stores have data. */
  function WithData(info: CommitInfo): set<Name> {
    set n | n in info.ids && info.ids[n].hash != []
  }

  /** Whichever store the versions come from, the last of them is the latest version of the whole. */
  lemma LatestIsLast(lib: Lib, trees: map<Name, Versions>, infos: map<int, CommitInfo>, latest: nat, stores: Stores,
                     versions: seq<nat>)
    requires Healthy(lib, trees, infos, latest) && stores.Keys == WithData(infos[latest])
    requires forall n :: n in stores ==> stores[n].typ.Iavl?
    requires (exists n :: n in stores && stores[n].typ.Iavl?) ==>
               exists n :: n in stores && stores[n].typ.Iavl? && VersionList(versions, Saved(trees, n))
    ensures stores.Keys == {} || (|versions| > 0 && versions[|versions| - 1] == latest)
  {
    if o :| o in stores {
      assert stores[o].typ.Iavl?;
      var n :| n in stores && stores[n].typ.Iavl? && VersionList(versions, Saved(trees, n));
      LastIsGreatest(versions, Saved(trees, n), latest);
    }
  }

  lemma HealthyLoads(lib: Lib, trees: map<Name, Versions>, infos: map<int, CommitInfo>, latest: nat)
    requires Healthy(lib, trees, infos, latest)
    ensures latest > 0 && latest in infos && OnlyOlderGone(trees, trees, latest)
    ensures forall n :: n in WithData(infos[latest]) ==>
              && Intact(lib, trees, infos[latest], latest, infos[latest], n)
              && Loadable(lib, trees, infos[latest].ids, NO_UPGRADES, latest, n, Iavl)
  {
    LoadsIff(lib, trees, infos[latest].ids, latest);
  }

  lemma PrunedBelowLatest(lib: Lib, was: map<Name, Versions>, now: map<Name, Versions>, infos: map<int, CommitInfo>,
                          latest: nat, stores: Stores)
    requires Healthy(lib, was, infos, latest) && stores.Keys == WithData(infos[latest])
    requires PrunedTo(was, now, stores, latest - 1)
    ensures OnlyOlderGone(was, now, latest) && Healthy(lib, now, infos, latest)
  {
    hide GoesBeyond;
    forall n | n in WithData(infos[latest])
      ensures Described(lib, Saved(now, n), infos[latest].ids[n], latest)
      ensures forall v :: v in Saved(now, n) ==> 1 <= v <= latest
    {
      assert n in was && Saved(was, n) == was[n] && Saved(now, n) == now[n];
    }
    hide PartlyPruned;
    hide Described;
    assert forall n :: n in infos[latest].ids && infos[latest].ids[n].hash != [] ==> n in WithData(infos[latest]);
  }

  /** Of a store's versions, the last `keep` are still there. */
  ghost predicate KeepsLast(was: Versions, now: Versions, keep: nat) {
    forall v :: v in was && |Later(was, v)| < keep ==> v in now
  }

  function Later(saved: Versions, v: nat): set<nat> {
    set w | w in saved && w > v
  }

  /** When a store is down to its latest version, the last `keep` are there exactly if that was to be one, or was all. */
  lemma KeepsLastIff(was: Versions, now: Versions, latest: nat, keep: nat)
    requires latest in was && (forall v :: v in was ==> v <= latest) && now.Keys == {latest} && keep >= 1
    ensures KeepsLast(was, now, keep) <==> keep == 1 || was.Keys == {latest}
  {
    assert forall v :: v in was && v != latest ==> latest in Later(was, v);
    assert forall v :: v in was && v != latest ==> |Later(was, v)| >= 1;
    if keep > 1 && was.Keys != {latest} {
      var earlier := was.Keys - {latest};
      assert was.Keys == earlier + {latest};
      var v := Greatest(earlier);
      assert forall w :: w in Later(was, v) ==> w !in earlier;
      assert Later(was, v) == {latest};
      assert v in was && |Later(was, v)| < keep && v !in now;
    }
  }

  /** Two versions are to be kept, and one is. */
  lemma KeepTwoFails()
    ensures var was, now: Versions := map[4 := [], 5 := []], map[5 := []];
            now == Above(was, 4) && !KeepsLast(was, now, 2)
  {
    var was, now: Versions := map[4 := [], 5 := []], map[5 := []];
    assert Later(was, 4) == {5};
    assert 4 in was && |Later(was, 4)| < 2;
  }

  lemma PrunedToLatest(lib: Lib, was: map<Name, Versions>, now: map<Name, Versions>, infos: map<int, CommitInfo>,
                       latest: nat, stores: Stores, keep: nat)
    requires Healthy(lib, was, infos, latest) && stores.Keys == WithData(infos[latest])
    requires forall n :: n in stores ==> stores[n].typ.Iavl?
    requires PrunedTo(was, now, stores, latest - 1)
    requires forall n :: n in now && n in was ==> now[n] == PrunedAt(stores, n, was[n], latest - 1)
    requires keep >= 1
    ensures forall n :: n in WithData(infos[latest]) ==>
              && OnlyLatest(now, n, latest) && n in was
              && (KeepsLast(was[n], now[n], keep) <==> keep == 1 || was[n].Keys == {latest})
  {
    forall n | n in WithData(infos[latest])
      ensures OnlyLatest(now, n, latest) && n in was
      ensures KeepsLast(was[n], now[n], keep) <==> keep == 1 || was[n].Keys == {latest}
    {
      PrunedOne(lib, was, now, infos, latest, stores, n);
      KeepsLastIff(was[n], now[n], latest, keep);
    }
  }

  lemma PrunedOne(lib: Lib, was: map<Name, Versions>, now: map<Name, Versions>, infos: map<int, CommitInfo>,
                  latest: nat, stores: Stores, n: Name)
    requires Healthy(lib, was, infos, latest) && stores.Keys == WithData(infos[latest])
    requires n in WithData(infos[latest]) && stores[n].typ.Iavl?
    requires now.Keys == was.Keys && forall o :: o in now ==> now[o] == PrunedAt(stores, o, was[o], latest - 1)
    ensures OnlyLatest(now, n, latest)
    ensures n in was && latest in was[n] && forall v :: v in was[n] ==> v <= latest
  {
    assert n in stores && n in was && Saved(was, n) == was[n];
    assert GoesBeyond(was[n], latest - 1);
    assert forall v :: v in now[n] <==> v == latest;
  }

  // ---- Any database --------------------------------------------------------------------------------------

  ghost predicate LastOf(saved: Versions, last: nat) {
    last in saved && forall v :: v in saved ==> v <= last
  }

  ghost predicate LastOfSome(trees: map<Name, Versions>, names: set<Name>, last: nat) {
    exists n :: n in names && LastOf(Saved(trees, n), last)
  }

  /** The store inspected has nothing ahead of the latest version, or this one ends before what the other has. */
  ghost predicate Outlives(saved: Versions, latest: nat, last: nat) {
    last == latest || forall v :: v in saved ==> v < last
  }

  lemma InspectedLast(trees: map<Name, Versions>, names: set<Name>, stores: Stores, latest: nat, versions: seq<nat>)
    requires stores.Keys == names && forall n :: n in names ==> stores[n].typ.Iavl? && latest in Saved(trees, n)
    requires (forall n :: n in stores ==> !stores[n].typ.Iavl?) ==> versions == []
    requires (exists n :: n in stores && stores[n].typ.Iavl?) ==>
               exists n :: n in stores && stores[n].typ.Iavl? && VersionList(versions, Saved(trees, n))
    ensures versions == [] <==> names == {}
    ensures versions != [] ==> LastOfSome(trees, names, versions[|versions| - 1])
  {
    if o :| o in names {
      assert stores[o].typ.Iavl?;
      var n :| n in stores && stores[n].typ.Iavl? && VersionList(versions, Saved(trees, n));
      assert latest in versions;
      var last := versions[|versions| - 1];
      assert last in versions;
      assert LastOf(Saved(trees, n), last);
    }
  }

  /** Pruning up to the last version of the store inspected, which is what every store's latest version outlives or not. */
  lemma OutlivesIff(was: map<Name, Versions>, now: map<Name, Versions>, stores: Stores, latest: nat, last: nat, n: Name)
    requires PrunedTo(was, now, stores, last - 1) && n in stores && stores[n].typ.Iavl?
    requires 0 < latest <= last && latest in Saved(was, n)
    ensures Outlives(Saved(was, n), latest, last) ==> latest in Saved(now, n)
    ensures now[n] == PrunedAt(stores, n, was[n], last - 1) && last > 1 ==>
              (latest in Saved(now, n) <==> Outlives(Saved(was, n), latest, last))
  {
    assert n in was && Saved(was, n) == was[n];
    if Outlives(was[n], latest, last) && last != latest {
      assert !GoesBeyond(was[n], last - 1);
    }
    if !Outlives(was[n], latest, last) {
      assert GoesBeyond(was[n], last - 1);
    }
  }

  lemma AllOutlive(was: map<Name, Versions>, now: map<Name, Versions>, stores: Stores, latest: nat, last: nat, whole: bool)
    requires PrunedTo(was, now, stores, last - 1) && 0 < latest <= last
    requires forall n :: n in stores ==> stores[n].typ.Iavl? && latest in Saved(was, n)
    requires whole ==> forall n :: n in now && n in was ==> now[n] == PrunedAt(stores, n, was[n], last - 1)
    ensures forall n :: n in stores ==>
              && (Outlives(Saved(was, n), latest, last) ==> latest in Saved(now, n))
              && (whole && last > 1 ==> (latest in Saved(now, n) <==> Outlives(Saved(was, n), latest, last)))
  {
    hide Outlives, PrunedAt, Prunable, PartlyPruned;
    forall n | n in stores
      ensures Outlives(Saved(was, n), latest, last) ==> latest in Saved(now, n)
      ensures whole && last > 1 ==> (latest in Saved(now, n) <==> Outlives(Saved(was, n), latest, last))
    {
      OutlivesIff(was, now, stores, latest, last, n);
    }
  }

  /** After an interrupted commit of version 6: the store that has it already loses version 5, which is the latest. */
  lemma AheadLosesLatest(t: Tree, u: Tree)
    ensures var saved: Versions, stores: Stores := map[5 := t, 6 := u], map[[1] := Sub(Iavl, 5, 0, t, t)];
            LastOf(saved, 6) && !Outlives(saved, 5, 6) && 5 !in PrunedAt(stores, [1], saved, 6 - 1)
  {
    var saved: Versions, stores: Stores := map[5 := t, 6 := u], map[[1] := Sub(Iavl, 5, 0, t, t)];
    assert GoesBeyond(saved, 5) by { assert 6 in saved; }
  }

  lemma OthersUntouched(was: map<Name, Versions>, now: map<Name, Versions>, stores: Stores, height: int)
    requires PrunedTo(was, now, stores, height)
    ensures now.Keys == was.Keys && forall n :: n in now && n !in stores ==> now[n] == was[n]
  {
  }

  /** What pruning has done to a database whose stores with data could all be loaded. */
  ghost predicate PrunedOutcome(lib: Lib, was: map<Name, Versions>, now: map<Name, Versions>, infos: map<int, CommitInfo>,
                                latest: nat, last: nat, keep: nat, faulty: bool)
    requires latest in infos
  {
    var info, names := infos[latest], WithData(infos[latest]);
    && (names != {} ==> LastOfSome(was, names, last))
    && (forall n :: n in names && Outlives(Saved(was, n), latest, last) ==> latest in Saved(now, n))
    && (!faulty ==> forall n :: n in names && latest in Saved(now, n) ==> Outlives(Saved(was, n), latest, last))
    && (Healthy(lib, was, infos, latest) ==>
          && OnlyOlderGone(was, now, latest) && Healthy(lib, now, infos, latest)
          && (forall n :: n in names ==> Intact(lib, now, info, latest, info, n)))
    && (Healthy(lib, was, infos, latest) && !faulty ==>
          forall n :: n in names ==>
            && OnlyLatest(now, n, latest) && n in was
            && (KeepsLast(was[n], now[n], keep) <==> keep == 1 || was[n].Keys == {latest}))
  }

  lemma NothingMounted(lib: Lib, trees: map<Name, Versions>, infos: map<int, CommitInfo>, latest: nat, last: nat, keep: nat)
    requires latest in infos && WithData(infos[latest]) == {}
    ensures PrunedOutcome(lib, trees, trees, infos, latest, last, keep, false)
    ensures PrunedOutcome(lib, trees, trees, infos, latest, last, keep, true)
  {
  }

  lemma PruningOutcome(lib: Lib, was: map<Name, Versions>, now: map<Name, Versions>, infos: map<int, CommitInfo>, latest: nat,
                       stores: Stores, last: nat, keep: nat, faulty: bool)
    requires latest > 0 && latest in infos && stores.Keys == WithData(infos[latest]) && keep >= 1
    requires forall n :: n in stores ==> stores[n].typ.Iavl? && latest in Saved(was, n)
    requires LastOfSome(was, stores.Keys, last) && (Healthy(lib, was, infos, latest) && stores.Keys != {} ==> last == latest)
    requires PrunedTo(was, now, stores, last - 1)
    requires !faulty ==> forall n :: n in now ==> now[n] == PrunedAt(stores, n, was[n], last - 1)
    ensures PrunedOutcome(lib, was, now, infos, latest, last, keep, faulty)
  {
    hide Healthy, Intact, OnlyOlderGone, PrunedTo, WithData, KeepsLast, OnlyLatest, PrunedAt, Outlives;
    SomeName(was, stores.Keys, last);
    hide LastOfSome, Saved;
    PositiveLast(was, stores.Keys, latest, last);
    AllOutlive(was, now, stores, latest, last, !faulty);
    if Healthy(lib, was, infos, latest) {
      HealthyPruned(lib, was, now, infos, latest, stores, keep, !faulty);
    }
  }

  lemma SomeName(trees: map<Name, Versions>, names: set<Name>, last: nat)
    requires LastOfSome(trees, names, last)
    ensures names != {}
  {
  }

  /** The middle part of PruneAppState, on the stores that were loaded at the latest version. */
  method PruneToLast(db: MultiDb, lib: Lib, appStore: RootStore, names: set<Name>, keepVersions: nat) returns (ghost last: nat)
    requires appStore.db == db && keepVersions >= 1 && appStore.stores.Keys == names
    requires names != {} ==> db.latest > 0 && db.latest in db.infos && names == WithData(db.infos[db.latest])
    requires forall n :: n in names ==> appStore.stores[n].typ.Iavl? && db.latest in Saved(db.trees, n)
    modifies db`trees, db`faulty
    ensures names == {} ==> db.trees == old(db.trees)
    ensures db.trees.Keys == old(db.trees).Keys && forall n :: n in db.trees && n !in names ==> db.trees[n] == old(db.trees)[n]
    ensures names != {} ==> PrunedOutcome(lib, old(db.trees), db.trees, db.infos, db.latest, last, keepVersions, db.faulty)
  {
    hide PrunedTo, VersionList, WithData, PrunedAt, LastOfSome, PrunedOutcome, Healthy;
    NothingPruned(db.trees, appStore.stores, 0);
    OthersUntouched(db.trees, db.trees, appStore.stores, 0);
    ghost var trees, ver := db.trees, db.latest;
    last := 0;
    var versions := appStore.GetAllVersions();
    InspectedLast(trees, names, appStore.stores, ver, versions);
    if |versions| > 0 {
      var targetHeight: int := versions[Target(|versions|, keepVersions)] as int - 1;
      last := versions[|versions| - 1];
      var pruned := appStore.PruneStores(targetHeight); // an error is only logged
      OthersUntouched(trees, db.trees, appStore.stores, targetHeight);
      if Healthy(lib, trees, db.infos, ver) {
        LatestIsLast(lib, trees, db.infos, ver, appStore.stores, versions);
      }
      PruningOutcome(lib, trees, db.trees, db.infos, ver, appStore.stores, last, keepVersions, db.faulty);
    }
  }

  /**
   * PruneAppState. On a database whose commit info is whole, it succeeds: the latest version stays in every
   * store and passes verification, and at most the versions below it go. On any database, it prunes up to the `last`
   * version of the store inspected, and takes the latest version from those that do not outlive that.
   */
  method PruneAppState(db: MultiDb, lib: Lib, keepVersions: nat, verifyAfterPrune: bool) returns (ok: bool, ghost last: nat)
    requires Lawful(lib) && keepVersions >= 1
    modifies db`trees, db`faulty
    ensures Healthy(lib, old(db.trees), db.infos, db.latest) ==> ok && Healthy(lib, db.trees, db.infos, db.latest)
    ensures Healthy(lib, old(db.trees), db.infos, db.latest) ==> OnlyOlderGone(old(db.trees), db.trees, db.latest)
    // unless deleting versions failed, each store with data is down to that one version, however many were to be kept
    ensures Healthy(lib, old(db.trees), db.infos, db.latest) && !db.faulty ==>
              var ids := db.infos[db.latest].ids;
              forall n :: n in ids && ids[n].hash != [] ==>
                && n in db.trees && db.trees[n].Keys == {db.latest} && n in old(db.trees)
                && (KeepsLast(old(db.trees)[n], db.trees[n], keepVersions) <==>
                      keepVersions == 1 || old(db.trees)[n].Keys == {db.latest})
    // on any database, nothing happens if one of them cannot be loaded
    ensures db.latest == 0 ==> ok && db.trees == old(db.trees)
    ensures db.latest != 0 && db.latest !in db.infos ==> !ok && db.trees == old(db.trees)
    ensures db.latest != 0 && db.latest in db.infos ==>
              var ids := db.infos[db.latest].ids;
              (exists n :: n in ids && ids[n].hash != [] && !(ids[n].version == db.latest && db.latest in Saved(old(db.trees), n))) ==>
                !ok && db.trees == old(db.trees)
    ensures db.latest != 0 && db.latest in db.infos ==>
              var ids := db.infos[db.latest].ids;
              (forall n :: n in ids && ids[n].hash != [] ==> ids[n].version == db.latest && db.latest in Saved(old(db.trees), n)) ==>
                && ((exists n :: n in ids && ids[n].hash != []) ==>
                      exists n :: n in ids && ids[n].hash != [] && LastOf(Saved(old(db.trees), n), last))
                && (forall n :: n in ids && ids[n].hash != [] && Outlives(Saved(old(db.trees), n), db.latest, last) ==>
                      db.latest in Saved(db.trees, n))
                && (!db.faulty ==> forall n :: n in ids && ids[n].hash != [] && db.latest in Saved(db.trees, n) ==>
                                     Outlives(Saved(old(db.trees), n), db.latest, last))
                // if verified, it succeeds exactly with the trees of the latest version as the commit info has them
                && ok == (verifyAfterPrune ==> forall n :: n in ids && ids[n].hash != [] ==>
                            db.latest in Saved(db.trees, n) && lib.hash(Saved(db.trees, n)[db.latest]) == ids[n].hash)
    // a store without data is not touched, and cannot fail it
    ensures db.trees.Keys == old(db.trees).Keys
    ensures db.latest in db.infos ==>
              var ids := db.infos[db.latest].ids;
              forall n :: n in db.trees && !(n in ids && ids[n].hash != []) ==> db.trees[n] == old(db.trees)[n]
  {
    hide Healthy, OnlyOlderGone, KeepsLast, WithData, Outlives, LastOf, AllLoad, PrunedOutcome, Intact, Lawful;
    last := 0;
    ghost var trees := db.trees;
    var ver, info, names: set<Name> := db.latest, CommitInfo(0, map[]), {};
    HealthyHas(lib, trees, db.infos, ver);
    if ver != 0 {
      if ver !in db.infos {
        return false, last;
      }
      info := db.infos[ver];
      names := WithData(info);
    }
    ok, last := PruneMounted(db, lib, ver, info, names, keepVersions, verifyAfterPrune);
    if ver != 0 {
      ByData(lib, trees, db.trees, db.infos, ver, last, keepVersions, verifyAfterPrune, ok, db.faulty);
    }
  }

  /** The rest of PruneAppState, once it knows which stores to mount. */
  method PruneMounted(db: MultiDb, lib: Lib, ver: nat, info: CommitInfo, names: set<Name>, keepVersions: nat,
                      verifyAfterPrune: bool) returns (ok: bool, ghost last: nat)
    requires Lawful(lib) && keepVersions >= 1 && ver == db.latest
    requires if ver == 0 then info == CommitInfo(0, map[]) && names == {}
             else ver in db.infos && info == db.infos[ver] && names == WithData(info)
    modifies db`trees, db`faulty
    ensures ver == 0 ==> ok && db.trees == old(db.trees)
    ensures ver != 0 && !AllLoad(old(db.trees), info, ver) ==> !ok && db.trees == old(db.trees)
    ensures ver != 0 && AllLoad(old(db.trees), info, ver) ==>
              && PrunedOutcome(lib, old(db.trees), db.trees, db.infos, ver, last, keepVersions, db.faulty)
              && ok == (verifyAfterPrune ==> forall n :: n in names ==> Intact(lib, db.trees, info, ver, info, n))
    ensures db.trees.Keys == old(db.trees).Keys && forall n :: n in db.trees && n !in names ==> db.trees[n] == old(db.trees)[n]
  {
    hide Healthy, Loadable, LoadedSoFar, Intact, CurrentInfo, OnlyOlderGone, PrunedTo, WellFormed, RemovedBy, Lawful;
    hide VersionList, WithData, KeepsLast, OnlyLatest, PrunedAt, Outlives, LastOfSome, LastOf, AllLoad, PrunedOutcome;
    ghost var trees := db.trees;
    var appStore := NewMounted(db, lib, names);
    if ver != 0 {
      AllLoadIff(lib, trees, info, ver, appStore.params);
    }
    NothingRemoved(appStore.params.Keys);
    ok := appStore.LoadVersion(ver, NO_UPGRADES);
    if !ok {
      return ok, 0;
    }
    if ver != 0 {
      LoadedPlainly(lib, trees, info.ids, ver, names, appStore.params, appStore.stores);
    } else {
      LoadedNothing(lib, trees, appStore.params, appStore.stores);
    }
    last := PruneToLast(db, lib, appStore, names, keepVersions);
    if verifyAfterPrune && ver != 0 {
      ok := VerifyAppState(db, lib, ver, info, names);
    }
    if ver != 0 && names == {} {
      NothingMounted(lib, trees, db.infos, ver, last, keepVersions);
    }
  }

  lemma HealthyPruned(lib: Lib, was: map<Name, Versions>, now: map<Name, Versions>, infos: map<int, CommitInfo>, latest: nat,
                      stores: Stores, keep: nat, whole: bool)
    requires Healthy(lib, was, infos, latest) && stores.Keys == WithData(infos[latest]) && keep >= 1
    requires PrunedTo(was, now, stores, latest - 1) && forall n :: n in stores ==> stores[n].typ.Iavl?
    requires whole ==> forall n :: n in now ==> now[n] == PrunedAt(stores, n, was[n], latest - 1)
    ensures OnlyOlderGone(was, now, latest) && Healthy(lib, now, infos, latest)
    ensures forall n :: n in WithData(infos[latest]) ==> Intact(lib, now, infos[latest], latest, infos[latest], n)
    ensures whole ==>
              forall n :: n in WithData(infos[latest]) ==>
                && OnlyLatest(now, n, latest) && n in was
                && (KeepsLast(was[n], now[n], keep) <==> keep == 1 || was[n].Keys == {latest})
  {
    hide Healthy, PrunedTo, PrunedAt, KeepsLast, OnlyLatest, OnlyOlderGone, Intact, Loadable, WithData;
    PrunedBelowLatest(lib, was, now, infos, latest, stores);
    HealthyLoads(lib, now, infos, latest);
    if whole {
      PrunedToLatest(lib, was, now, infos, latest, stores, keep);
    }
  }

  ghost predicate AllLoad(trees: map<Name, Versions>, info: CommitInfo, latest: nat) {
    forall n :: n in WithData(info) ==> info.ids[n].version == latest && latest in Saved(trees, n)
  }

  lemma AllLoadIff(lib: Lib, trees: map<Name, Versions>, info: CommitInfo, latest: nat, params: map<Name, StoreType>)
    requires latest > 0 && params == (map n | n in WithData(info) :: Iavl)
    ensures AllLoad(trees, info, latest) <==>
            forall n :: n in params ==> Loadable(lib, trees, info.ids, NO_UPGRADES, latest, n, params[n])
  {
    LoadsIff(lib, trees, info.ids, latest);
    hide Loadable;
    assert forall n :: n in params <==> n in WithData(info);
  }

  /** What is done for the names mounted is done for the stores with data. */
  lemma ByData(lib: Lib, was: map<Name, Versions>, now: map<Name, Versions>, infos: map<int, CommitInfo>, latest: nat,
               last: nat, keep: nat, verified: bool, ok: bool, faulty: bool)
    requires latest in infos
    ensures var ids := infos[latest].ids;
            && (forall n :: n in WithData(infos[latest]) <==> n in ids && ids[n].hash != [])
            && (AllLoad(was, infos[latest], latest) <==>
                  forall n :: n in ids && ids[n].hash != [] ==> ids[n].version == latest && latest in Saved(was, n))
    ensures Healthy(lib, was, infos, latest) ==> AllLoad(was, infos[latest], latest)
    ensures && AllLoad(was, infos[latest], latest) && PrunedOutcome(lib, was, now, infos, latest, last, keep, faulty)
            && ok == (verified ==> forall n :: n in WithData(infos[latest]) ==> Intact(lib, now, infos[latest], latest, infos[latest], n)) ==>
              var ids := infos[latest].ids;
              && (Healthy(lib, was, infos, latest) ==> ok && Healthy(lib, now, infos, latest) && OnlyOlderGone(was, now, latest))
              && (Healthy(lib, was, infos, latest) && !faulty ==>
                    forall n :: n in ids && ids[n].hash != [] ==>
                      && n in now && now[n].Keys == {latest} && n in was
                      && (KeepsLast(was[n], now[n], keep) <==> keep == 1 || was[n].Keys == {latest}))
              && ((exists n :: n in ids && ids[n].hash != []) ==>
                    exists n :: n in ids && ids[n].hash != [] && LastOf(Saved(was, n), last))
              && (forall n :: n in ids && ids[n].hash != [] && Outlives(Saved(was, n), latest, last) ==> latest in Saved(now, n))
              && (!faulty ==> forall n :: n in ids && ids[n].hash != [] && latest in Saved(now, n) ==>
                                Outlives(Saved(was, n), latest, last))
              && ok == (verified ==> forall n :: n in ids && ids[n].hash != [] ==>
                          latest in Saved(now, n) && lib.hash(Saved(now, n)[latest]) == ids[n].hash)
  {
    hide OnlyOlderGone, KeepsLast, Outlives, LastOf;
  }

  lemma HealthyHas(lib: Lib, trees: map<Name, Versions>, infos: map<int, CommitInfo>, latest: nat)
    ensures Healthy(lib, trees, infos, latest) ==> latest > 0 && latest in infos
  {
  }

  lemma LoadedNothing(lib: Lib, trees: map<Name, Versions>, params: map<Name, StoreType>, stores: Stores)
    requires params == map[] && LoadedSoFar(lib, trees, map[], NO_UPGRADES, 0, params, params.Keys, stores)
    ensures stores == map[]
  {
    assert OldNames(NO_UPGRADES, params.Keys) == {};
  }

  /** The last version of a store is not before the latest, and outlives itself when it is the first. */
  lemma PositiveLast(trees: map<Name, Versions>, names: set<Name>, latest: nat, last: nat)
    requires LastOfSome(trees, names, last) && latest > 0 && forall n :: n in names ==> latest in Saved(trees, n)
    ensures last >= latest
    ensures last == 1 ==> latest == 1 && forall n :: n in names ==> Outlives(Saved(trees, n), latest, last)
  {
  }

  /**
   * A restore from a snapshot of the latest version of a healthy database passes verifyAppState: every store with
   * data has the tree that the source's commit info describes.
   */
  lemma RestoredPassesVerification(imports: Imports, lib: Lib, height: nat, names: seq<Name>, from: map<Name, Versions>,
                                   infos: map<int, CommitInfo>, params: map<Name, StoreType>, stores: Stores, trees: map<Name, Versions>)
    requires Healthy(lib, from, infos, height)
    requires forall n :: n in names <==> n in infos[height].ids && infos[height].ids[n].hash != []
    requires Restorable(imports, names, from, height, stores, trees) && IsTarget(names, params, stores)
    requires forall n :: n in names ==> NormalTree(Saved(from, n)[height]) == Saved(from, n)[height]
    ensures var info, now := CurrentInfo(lib, RestoredStores(names, from, height, stores), height), RestoredTrees(names, from, height, trees);
            forall n :: n in infos[height].ids && infos[height].ids[n].hash != [] ==>
              && n in info.ids && info.ids[n].version == height && height in Saved(now, n)
              && lib.hash(Saved(now, n)[height]) == infos[height].ids[n].hash
  {
    hide Accepted;
    var info, now := CurrentInfo(lib, RestoredStores(names, from, height, stores), height), RestoredTrees(names, from, height, trees);
    forall n | n in names
      ensures && n in info.ids && info.ids[n].version == height && height in Saved(now, n)
              && lib.hash(Saved(now, n)[height]) == infos[height].ids[n].hash
    {
      assert n in TreeNames(stores);
      assert Described(lib, Saved(from, n), infos[height].ids[n], height);
    }
  }
}
