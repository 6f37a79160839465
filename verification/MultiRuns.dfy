/**
 * Runs of a multistore: it is mounted, loaded at any version with or without upgrades, written to, committed, rolled
 * back, pruned and reopened, in any order and any number of times; loads and rollbacks may fail, and commits may be
 * cut short by the end of the program.
 */
module MultiRuns {
  import opened Base
  import opened MultiStore
  import opened MultiLaws

  /** The fields of a Store (`info` is its last commit info) and what its database holds. */
  datatype State = State(params: map<Name, StoreType>, stores: Stores, removal: set<Name>, info: Option<CommitInfo>,
                         initial: int, trees: map<Name, Versions>, infos: map<int, CommitInfo>, latest: nat)

  function VersionOf(st: State): nat {
    if st.info.Some? && st.info.value.version >= 0 then st.info.value.version else 0
  }

  function NextOf(st: State): nat {
    if VersionOf(st) == 0 && st.initial > 1 then st.initial else VersionOf(st) + 1
  }

  /** What is loaded as the commit info of a version. */
  function InfoOf(st: State, ver: nat): CommitInfo {
    if ver != 0 && ver in st.infos then st.infos[ver] else CommitInfo(0, map[])
  }

  // ---- Steps -----------------------------------------------------------------------------------------

  datatype Event =
    | Mount(name: Name, typ: StoreType)
    | Write(name: Name, tree: Tree)
    | SetInitial(version: nat)
    | Commit
    | Interrupt(done: set<Name>)
    | Load(ver: nat, up: Upgrades)
    | FailLoad(up: Upgrades)
    | Rollback(target: nat)
    | RefuseRollback(target: nat, done: set<Name>)
    | FailRollback(target: nat)
    | Prune(height: int)
    | Reopen

  ghost predicate Mounted(n: Name, typ: StoreType, a: State, b: State) {
    n !in a.params && b == a.(params := a.params[n := typ])
  }

  function Written(stores: Stores, n: Name, t: Tree): Stores
    requires n in stores
  {
    stores[n := stores[n].(working := t)]
  }

  function WithInitial(stores: Stores, version: nat): Stores {
    map n | n in stores :: if stores[n].typ.Iavl? then stores[n].(initial := version) else stores[n]
  }

  ghost predicate Committed(lib: Lib, a: State, b: State) {
    var version := NextOf(a);
    var info := InfoFor(lib, a.stores, a.removal, version);
    && (forall n :: n in a.stores ==> !Collides(lib, a.stores[n], version, Saved(a.trees, n)))
    && b == State(a.params - (a.removal * a.stores.Keys), CommitAll(lib, a.stores, version) - a.removal, {}, Some(info),
                  a.initial, SavedAfter(lib, a.stores, a.stores.Keys, version, a.trees), a.infos[version := info], version)
  }

  ghost predicate LoadedVersion(lib: Lib, ver: nat, up: Upgrades, a: State, b: State) {
    && WellFormed(up, a.params.Keys) && (ver == 0 || ver in a.infos)
    && LoadedSoFar(lib, a.trees, InfoOf(a, ver).ids, up, ver, a.params, a.params.Keys, b.stores)
    && b == a.(stores := b.stores, removal := a.removal + RemovedBy(up, a.params.Keys), info := Some(InfoOf(a, ver)))
  }

  ghost predicate RolledBackTo(lib: Lib, target: nat, a: State, b: State) {
    var info := CurrentInfo(lib, RolledBack(a.stores, a.stores.Keys, a.trees, target), target);
    && target > 0 && (forall n :: n in a.stores ==> HasVersion(a.stores, a.trees, target, n))
    && b == a.(stores := b.stores, info := Some(info), trees := Truncated(a.stores, a.stores.Keys, a.trees, target),
               infos := a.infos[target as int := info], latest := target)
    && LoadedSoFar(lib, b.trees, info.ids, NO_UPGRADES, target, a.params, a.params.Keys, b.stores)
  }

  /** A load that fails has marked some of the stores to be removed. */
  ghost predicate LoadFailed(up: Upgrades, a: State, b: State) {
    exists done :: done <= a.params.Keys && b == a.(removal := a.removal + RemovedBy(up, done))
  }

  /** A rollback meets a store that lacks the target, when those in `done` have been taken there. */
  ghost predicate RollbackRefused(target: nat, done: set<Name>, a: State, b: State) {
    && target > 0 && done <= a.stores.Keys && (forall n :: n in done ==> HasVersion(a.stores, a.trees, target, n))
    && (exists n :: n in a.stores && !HasVersion(a.stores, a.trees, target, n))
    && b == a.(stores := RolledBack(a.stores, done, a.trees, target), trees := Truncated(a.stores, done, a.trees, target))
  }

  /** A rollback takes every store to the target and makes it the latest version, but not everything mounted loads. */
  ghost predicate RollbackFailed(lib: Lib, target: nat, a: State, b: State) {
    var info := CurrentInfo(lib, RolledBack(a.stores, a.stores.Keys, a.trees, target), target);
    && target > 0 && (forall n :: n in a.stores ==> HasVersion(a.stores, a.trees, target, n))
    && b == a.(stores := RolledBack(a.stores, a.stores.Keys, a.trees, target),
               trees := Truncated(a.stores, a.stores.Keys, a.trees, target),
               infos := a.infos[target as int := info], latest := target)
    && (exists n :: n in a.params && !Loadable(lib, b.trees, info.ids, NO_UPGRADES, target, n, a.params[n]))
  }

  /** A new Store on a database. */
  function Opened(trees: map<Name, Versions>, infos: map<int, CommitInfo>, latest: nat): State {
    State(map[], map[], {}, None, 0, trees, infos, latest)
  }

  /** A name the commit info has no version for is unused, or its trees end with the version of the whole. */
  ghost predicate FreshName(saved: Versions, id: CommitId, ver: nat) {
    if id.version != 0 then id.version == ver
    else saved.Keys == {} || (ver in saved && forall v :: v in saved ==> v <= ver)
  }

  predicate IsNew(up: Upgrades, n: Name) {
    n in up.added || (n in up.renamed && up.renamed[n] != [])
  }

  ghost predicate Does(lib: Lib, e: Event, a: State, b: State) {
    match e
    case Mount(n, typ) => Mounted(n, typ, a, b)
    case Write(n, t) => n in a.stores && b == a.(stores := Written(a.stores, n, t))
    case SetInitial(v) => b == a.(stores := WithInitial(a.stores, v), initial := v)
    case Commit => a.info.Some? && Committed(lib, a, b)
    // the trees of some stores are saved, and the program starts again
    case Interrupt(done) =>
      done <= a.stores.Keys && b == Opened(SavedAfter(lib, a.stores, done, NextOf(a), a.trees), a.infos, a.latest)
    case Load(ver, up) => LoadedVersion(lib, ver, up, a, b)
    case FailLoad(up) => LoadFailed(up, a, b)
    case Rollback(target) => RolledBackTo(lib, target, a, b)
    case RefuseRollback(target, done) => RollbackRefused(target, done, a, b)
    case FailRollback(target) => RollbackFailed(lib, target, a, b)
    case Prune(height) => PrunedTo(a.trees, b.trees, a.stores, height) && b == a.(trees := b.trees)
    case Reopen => b == Opened(a.trees, a.infos, a.latest)
  }

  ghost predicate Run(lib: Lib, events: seq<Event>, states: seq<State>) {
    && |states| == |events| + 1 && states[0] == Opened(map[], map[], 0)
    && forall i :: 0 <= i < |events| ==> Does(lib, events[i], states[i], states[i + 1])
  }

  // ---- One version for all -----------------------------------------------------------------------------

  /** A store is at the version of the whole, or new in the commit info; either way it gets the next version. */
  ghost predicate InStep(s: Sub, st: State, n: Name) {
    && NextVersion(s) == NextOf(st)
    && (s.version == VersionOf(st) || (s.version == 0 && (st.info.None? || IdFor(st.info.value.ids, n).version == 0)))
  }

  predicate Kept(st: State, n: Name) {
    n in st.stores && st.stores[n].typ.Iavl? && n !in st.removal
  }

  ghost predicate Shared(st: State) {
    forall n :: Kept(st, n) ==> InStep(st.stores[n], st, n)
  }

  ghost predicate BaseInv(st: State) {
    && st.initial >= 0
    && (forall n, v :: v in Saved(st.trees, n) ==> v >= 1)
    && (forall v :: v in st.infos ==> st.infos[v].version == v)
    && (st.info.None? ==> st.stores == map[])
  }

  /**
   * What loading has to find under a name: nothing at version 0, where no initial version may be set either; at another
   * version, a fresh name if it is new.
   */
  ghost predicate NameFits(st: State, ver: nat, up: Upgrades, n: Name) {
    if ver == 0 then Saved(st.trees, n).Keys == {} && st.initial <= 1
    else IsNew(up, n) ==> FreshName(Saved(st.trees, n), IdFor(InfoOf(st, ver).ids, n), ver)
  }

  ghost predicate NamesFit(st: State, ver: nat, up: Upgrades) {
    forall n :: n in st.params && st.params[n].Iavl? && n !in st.removal + RemovedBy(up, st.params.Keys) ==> NameFits(st, ver, up, n)
  }

  /** No store is taken to a version that is not the root's. */
  ghost predicate StaysInPlace(st: State, target: nat, done: set<Name>) {
    forall n :: n in done && Kept(st, n) ==> target == VersionOf(st)
  }

  /** What can be checked before a step: exactly this keeps the stores in step. */
  ghost predicate Fits(e: Event, st: State) {
    match e
    case Load(ver, up) => NamesFit(st, ver, up)
    case SetInitial(v) => VersionOf(st) == 0 || forall n :: Kept(st, n) && st.stores[n].version == 0 ==> v == NextOf(st)
    case RefuseRollback(target, done) => StaysInPlace(st, target, done)
    case FailRollback(target) => StaysInPlace(st, target, st.stores.Keys)
    case _ => true
  }

  /** Loaded by its id: it stands at the version loaded and gets the next one, whatever else is saved. */
  lemma LoadedByIdStandsAt(lib: Lib, saved: Versions, id: CommitId, initial: nat)
    requires id.version > 0 && LoadSub(lib, saved, Iavl, id, initial).Some?
    ensures var s := LoadSub(lib, saved, Iavl, id, initial).value;
            s.version == id.version && NextVersion(s) == id.version + 1 && id.version in saved && s.committed == saved[id.version]
  {
  }

  /**
   * A tree store that is new in version `ver`, or any at version 0, gets the next version with the others exactly if
   * its name is fresh, whatever versions stand under it.
   */
  lemma NewNameInStepIff(lib: Lib, saved: Versions, id: CommitId, ver: nat, initial: nat)
    requires forall v :: v in saved ==> v >= 1
    requires initial == ver + 1 || (ver == 0 && initial == 0)
    requires LoadSub(lib, saved, Iavl, id, initial).Some?
    ensures var s := LoadSub(lib, saved, Iavl, id, initial).value;
            && (NextVersion(s) == ver + 1 <==> FreshName(saved, id, ver))
            && (FreshName(saved, id, ver) ==> s.version == ver || (s.version == 0 && id.version == 0))
  {
    if id.version == 0 && saved.Keys != {} {
      var g := Greatest(saved.Keys);
      assert g in saved;
    }
  }

  /**
   * Loading any version behind 0: every mounted tree store that is neither added nor renamed stands at that version,
   * and gets the next one.
   */
  lemma LoadSharesVersion(lib: Lib, ver: nat, up: Upgrades, a: State, b: State, n: Name)
    requires LoadedVersion(lib, ver, up, a, b) && ver > 0 && a.infos[ver].version == ver
    requires n in a.params && a.params[n].Iavl? && !IsNew(up, n)
    ensures n in b.stores && b.stores[n].typ.Iavl?
    ensures b.stores[n].version == VersionOf(b) == ver && NextVersion(b.stores[n]) == NextOf(b) == ver + 1
  {
    MountedLoads(lib, ver, up, a, b, n);
    hide LoadSub, LoadedSoFar, WellFormed;
    LoadSubIs(lib, Saved(a.trees, n), a.params[n], IdFor(InfoOf(a, ver).ids, n), InitialFor(up, n, ver));
    LoadedByIdStandsAt(lib, Saved(a.trees, n), IdFor(InfoOf(a, ver).ids, n), InitialFor(up, n, ver));
  }

  /** A mounted tree store is in step after loading, exactly if what stands under its name fits. */
  lemma LoadedInStepIff(lib: Lib, ver: nat, up: Upgrades, a: State, b: State, n: Name)
    requires LoadedVersion(lib, ver, up, a, b) && BaseInv(a) && n in a.params && a.params[n].Iavl?
    ensures n in b.stores && b.stores[n].typ.Iavl?
    ensures InStep(b.stores[n], b, n) <==> NameFits(a, ver, up, n)
  {
    MountedLoads(lib, ver, up, a, b, n);
    hide LoadedSoFar, WellFormed, LoadSub;
    var saved, id, initial := Saved(a.trees, n), IdFor(InfoOf(a, ver).ids, n), InitialFor(up, n, ver);
    LoadSubIs(lib, saved, a.params[n], id, initial);
    if ver == 0 {
      LoadedWithoutId(lib, saved, initial);
    } else if IsNew(up, n) {
      NewNameInStepIff(lib, saved, id, ver, initial);
    } else {
      LoadedByIdStandsAt(lib, saved, id, initial);
    }
  }

  lemma LoadedWithoutId(lib: Lib, saved: Versions, initial: nat)
    requires initial <= 1 && LoadSub(lib, saved, Iavl, NO_ID, initial).Some? && forall v :: v in saved ==> v >= 1
    ensures var s := LoadSub(lib, saved, Iavl, NO_ID, initial).value;
            if saved.Keys == {} then s.version == 0 && NextVersion(s) == 1 else s.version > 0
  {
  }

  /**
   * Loading version 0: a tree store stands at 0 with the root exactly if nothing was ever saved for it, and is also
   * about to get the root's next version exactly if no initial version was set before.
   */
  lemma LoadZeroSharesIff(lib: Lib, up: Upgrades, a: State, b: State, n: Name)
    requires LoadedVersion(lib, 0, up, a, b) && n in a.params && a.params[n].Iavl?
    requires forall v :: v in Saved(a.trees, n) ==> v >= 1
    ensures n in b.stores && b.stores[n].typ.Iavl? && VersionOf(b) == 0
    ensures b.stores[n].version == VersionOf(b) <==> Saved(a.trees, n).Keys == {}
    ensures b.stores[n].version == VersionOf(b) && NextVersion(b.stores[n]) == NextOf(b) <==>
            Saved(a.trees, n).Keys == {} && a.initial <= 1
  {
    MountedLoads(lib, 0, up, a, b, n);
    hide LoadedSoFar, WellFormed, LoadSub;
    LoadSubIs(lib, Saved(a.trees, n), a.params[n], NO_ID, InitialFor(up, n, 0));
    LoadedWithoutId(lib, Saved(a.trees, n), InitialFor(up, n, 0));
  }

  /** With a tree of version 5 saved, loading version 0 leaves the root at 0 and takes the store to 5. */
  lemma LoadZeroAhead(lib: Lib, t: Tree)
    ensures var n: Name := [1];
            var a := Opened(map[n := map[5 := t]], map[], 0).(params := map[n := Iavl]);
            var b := a.(stores := map[n := Sub(Iavl, 5, 0, t, t)], info := Some(CommitInfo(0, map[])));
            LoadedVersion(lib, 0, NO_UPGRADES, a, b) && VersionOf(b) == 0 && b.stores[n].version == 5
  {
    var n: Name := [1];
    var a := Opened(map[n := map[5 := t]], map[], 0).(params := map[n := Iavl]);
    var s := Sub(Iavl, 5, 0, t, t);
    assert a.trees[n].Keys == {5} && Greatest(a.trees[n].Keys) == 5;
    LoadsAlone(lib, a, n, s);
  }

  /** With the initial version set to 7, the root gets it next, but a store loaded afterwards gets 1. */
  lemma LoadZeroForgets(lib: Lib)
    ensures var n: Name := [1];
            var a := Opened(map[], map[], 0).(params := map[n := Iavl], initial := 7);
            var b := a.(stores := map[n := Sub(Iavl, 0, 0, [], [])], info := Some(CommitInfo(0, map[])));
            LoadedVersion(lib, 0, NO_UPGRADES, a, b) && NextOf(b) == 7 && NextVersion(b.stores[n]) == 1
  {
    var n: Name := [1];
    LoadsAlone(lib, Opened(map[], map[], 0).(params := map[n := Iavl], initial := 7), n, Sub(Iavl, 0, 0, [], []));
  }

  lemma LoadsAlone(lib: Lib, a: State, n: Name, s: Sub)
    requires a.params == map[n := Iavl] && a.removal == {} && LoadSub(lib, Saved(a.trees, n), Iavl, NO_ID, 0) == Some(s)
    ensures LoadedVersion(lib, 0, NO_UPGRADES, a, a.(stores := map[n := s], info := Some(CommitInfo(0, map[]))))
  {
    hide LoadSub, Pairs;
    var b := a.(stores := map[n := s], info := Some(CommitInfo(0, map[])));
    NothingRemoved(a.params.Keys);
    assert OldNames(NO_UPGRADES, a.params.Keys) == {};
    assert LoadedIn(lib, a.trees, map[], NO_UPGRADES, 0, n, Iavl, b.stores);
    assert a.removal + RemovedBy(NO_UPGRADES, a.params.Keys) == {};
  }

  /** What loading makes of a mounted store, but for its working tree. */
  lemma MountedLoads(lib: Lib, ver: nat, up: Upgrades, a: State, b: State, n: Name)
    requires LoadedVersion(lib, ver, up, a, b) && n in a.params
    ensures n in b.stores
    ensures var base := LoadSub(lib, Saved(a.trees, n), a.params[n], IdFor(InfoOf(a, ver).ids, n), InitialFor(up, n, ver));
            && base.Some? && EditedFrom(base.value, b.stores[n])
            && !Mismatched(InfoOf(a, ver).ids, up, ver, n, a.params[n])
  {
    hide LoadSub, Pairs, WellFormed, Mismatched;
    assert LoadedIn(lib, a.trees, InfoOf(a, ver).ids, up, ver, n, a.params[n], b.stores);
  }

  lemma LoadSubIs(lib: Lib, saved: Versions, typ: StoreType, id: CommitId, initial: nat)
    requires LoadSub(lib, saved, typ, id, initial).Some?
    ensures LoadSub(lib, saved, typ, id, initial).value.typ == typ
  {
  }

  lemma LoadSharesIff(lib: Lib, ver: nat, up: Upgrades, a: State, b: State)
    requires BaseInv(a) && LoadedVersion(lib, ver, up, a, b)
    ensures BaseInv(b)
    ensures Shared(b) <==> NamesFit(a, ver, up)
  {
    hide LoadedSoFar, WellFormed, NameFits, InStep;
    forall n | n in a.params && a.params[n].Iavl?
      ensures n in b.stores && b.stores[n].typ.Iavl? && (InStep(b.stores[n], b, n) <==> NameFits(a, ver, up, n))
    {
      LoadedInStepIff(lib, ver, up, a, b, n);
    }
    forall n | Kept(b, n)
      ensures n in a.params && a.params[n].Iavl?
    {
      KeptIsMounted(lib, ver, up, a, b, n);
      MountedLoads(lib, ver, up, a, b, n);
      LoadSubIs(lib, Saved(a.trees, n), a.params[n], IdFor(InfoOf(a, ver).ids, n), InitialFor(up, n, ver));
    }
    if Shared(b) {
      forall n | n in a.params && a.params[n].Iavl? && n !in b.removal
        ensures NameFits(a, ver, up, n)
      {
        assert Kept(b, n);
      }
    }
  }

  lemma KeptIsMounted(lib: Lib, ver: nat, up: Upgrades, a: State, b: State, n: Name)
    requires LoadedVersion(lib, ver, up, a, b) && n in b.stores && n !in b.removal
    ensures n in a.params
  {
    hide LoadedIn, WellFormed;
  }

  lemma CommitKeepsShared(lib: Lib, a: State, b: State)
    requires BaseInv(a) && Shared(a) && Committed(lib, a, b)
    ensures BaseInv(b) && Shared(b)
    ensures forall n :: Kept(b, n) ==> b.stores[n].version == VersionOf(b)
  {
    var next := NextOf(a);
    hide SavedAfter, InfoFor, Collides, NextTree;
    InfoVersion(lib, a.stores, a.removal, next);
    forall n, v | v in Saved(b.trees, n)
      ensures v >= 1
    {
      SavedAt(lib, a.stores, a.stores.Keys, next, a.trees, n);
    }
    forall n | Kept(b, n)
      ensures b.stores[n].version == next && InStep(b.stores[n], b, n)
    {
      assert Kept(a, n);
    }
  }

  lemma InfoVersion(lib: Lib, stores: Stores, removal: set<Name>, version: int)
    ensures InfoFor(lib, stores, removal, version).version == version
  {
  }

  lemma RolledBackStands(lib: Lib, target: nat, a: State, b: State, n: Name)
    requires RolledBackTo(lib, target, a, b) && n in b.stores && b.stores[n].typ.Iavl?
    ensures VersionOf(b) == target && NextOf(b) == target + 1
    ensures b.stores[n].version == target && NextVersion(b.stores[n]) == target + 1
    ensures n in b.infos[target].ids && b.infos[target].ids[n].version == target
    ensures target in Saved(b.trees, n) && n in a.stores && a.stores[n].typ.Iavl?
  {
    var info := b.infos[target];
    hide LoadedSoFar, LoadSub, RolledBack, Truncated, Saved;
    CurrentVersion(lib, RolledBack(a.stores, a.stores.Keys, a.trees, target), target);
    LoadedUnchanged(lib, b.trees, info.ids, target, a.params, b.stores, n);
    LoadSubIs(lib, Saved(b.trees, n), a.params[n], IdFor(info.ids, n), 0);
    LoadedByIdStandsAt(lib, Saved(b.trees, n), IdFor(info.ids, n), 0);
    InfoHasTrees(lib, a.stores, a.trees, target, n);
  }

  /** A store has an id of the target in the commit info of a rollback exactly if it is a tree store. */
  lemma InfoHasTrees(lib: Lib, stores: Stores, trees: map<Name, Versions>, target: nat, n: Name)
    requires target > 0 && forall o :: o in stores ==> HasVersion(stores, trees, target, o)
    ensures var ids := CurrentInfo(lib, RolledBack(stores, stores.Keys, trees, target), target).ids;
            n in ids && ids[n].version == target <==> n in stores && stores[n].typ.Iavl?
  {
    hide Saved;
    if n in stores {
      assert HasVersion(stores, trees, target, n);
    }
  }

  lemma RollbackKeepsShared(lib: Lib, target: nat, a: State, b: State)
    requires BaseInv(a) && RolledBackTo(lib, target, a, b)
    ensures BaseInv(b) && Shared(b)
    ensures forall n :: n in b.stores && b.stores[n].typ.Iavl? ==> b.stores[n].version == VersionOf(b)
  {
    CurrentVersion(lib, RolledBack(a.stores, a.stores.Keys, a.trees, target), target);
    hide LoadedSoFar, RolledBack, CurrentInfo, Truncated, Saved, HasVersion;
    forall n, v | v in Saved(b.trees, n)
      ensures v >= 1
    {
      TruncatedAt(a.stores, a.stores.Keys, a.trees, target, n);
    }
    forall n | n in b.stores && b.stores[n].typ.Iavl?
      ensures b.stores[n].version == target && InStep(b.stores[n], b, n)
    {
      RolledBackStands(lib, target, a, b, n);
    }
  }

  /** A rollback drops the versions behind the target of the tree stores it comes to, and nothing else. */
  lemma TruncatedAt(stores: Stores, done: set<Name>, trees: map<Name, Versions>, target: nat, n: Name)
    ensures Saved(Truncated(stores, done, trees, target), n) ==
            if n in done && n in stores && stores[n].typ.Iavl? then UpTo(Saved(trees, n), target) else Saved(trees, n)
  {
  }

  /** Stores taken to a target while the root stays where it is are in step exactly if the target is where it is. */
  lemma HalfRolledBackIff(target: nat, done: set<Name>, a: State, b: State)
    requires Shared(a) && target > 0 && done <= a.stores.Keys
    requires forall n :: n in done ==> HasVersion(a.stores, a.trees, target, n)
    requires b.stores == RolledBack(a.stores, done, a.trees, target) && b.removal == a.removal
    requires b.info == a.info && b.initial == a.initial
    ensures Shared(b) <==> StaysInPlace(a, target, done)
  {
    hide Saved;
    forall n | n in a.stores
      ensures b.stores[n].typ == a.stores[n].typ
      ensures Kept(a, n) ==> (InStep(b.stores[n], b, n) <==> (n in done ==> target == VersionOf(a)))
    {
      assert n in done ==> HasVersion(a.stores, a.trees, target, n);
      assert Kept(a, n) ==> InStep(a.stores[n], a, n);
    }
    assert forall n :: Kept(b, n) <==> Kept(a, n);
    hide InStep, RolledBack;
    if Shared(b) {
      forall n | n in done && Kept(a, n)
        ensures target == VersionOf(a)
      {
        assert Kept(b, n) && InStep(b.stores[n], b, n);
      }
    }
  }

  lemma TruncatedBase(target: nat, done: set<Name>, a: State, b: State)
    requires BaseInv(a) && b.trees == Truncated(a.stores, done, a.trees, target)
    ensures forall n, v :: v in Saved(b.trees, n) ==> v >= 1
    ensures a.stores == map[] ==> RolledBack(a.stores, done, a.trees, target) == map[]
  {
    forall n, v | v in Saved(b.trees, n)
      ensures v >= 1
    {
      TruncatedAt(a.stores, done, a.trees, target, n);
    }
  }

  lemma CurrentVersion(lib: Lib, stores: Stores, version: int)
    ensures CurrentInfo(lib, stores, version).version == version
  {
  }

  /** Without upgrades a store is loaded as its id says. */
  lemma LoadedUnchanged(lib: Lib, trees: map<Name, Versions>, ids: map<Name, CommitId>, ver: nat, params: map<Name, StoreType>,
                        stores: Stores, n: Name)
    requires LoadedSoFar(lib, trees, ids, NO_UPGRADES, ver, params, params.Keys, stores) && n in stores
    ensures n in params && LoadSub(lib, Saved(trees, n), params[n], IdFor(ids, n), 0) == Some(stores[n])
    ensures params[n].Iavl? ==> IdFor(ids, n).version == ver
  {
    hide LoadSub;
    assert OldNames(NO_UPGRADES, params.Keys) == {};
    assert LoadedIn(lib, trees, ids, NO_UPGRADES, ver, n, params[n], stores);
  }

  /** Pruning deletes versions, but never the greatest of a store, whatever the height. */
  lemma LatestKept(was: map<Name, Versions>, now: map<Name, Versions>, stores: Stores, height: int)
    requires PrunedTo(was, now, stores, height)
    ensures forall n, v :: v in Saved(now, n) ==> v in Saved(was, n) && Saved(now, n)[v] == Saved(was, n)[v]
    ensures forall n, v :: v in Saved(was, n) && (forall w :: w in Saved(was, n) ==> w <= v) ==> v in Saved(now, n)
  {
    forall n, v | v in Saved(was, n) && forall w :: w in Saved(was, n) ==> w <= v
      ensures v in Saved(now, n)
    {
      assert n in was && n in now;
    }
    hide GoesBeyond;
  }

  lemma InterruptedBase(lib: Lib, done: set<Name>, a: State, b: State)
    requires BaseInv(a) && b == Opened(SavedAfter(lib, a.stores, done, NextOf(a), a.trees), a.infos, a.latest)
    ensures BaseInv(b)
  {
    hide SavedAfter, NextTree;
    forall n, v | v in Saved(b.trees, n)
      ensures v >= 1
    {
      SavedAt(lib, a.stores, done, NextOf(a), a.trees, n);
    }
  }

  /** A step from stores in step leads to stores in step exactly if it fits. */
  lemma StepSharesIff(lib: Lib, e: Event, a: State, b: State)
    requires BaseInv(a) && Shared(a) && Does(lib, e, a, b)
    ensures BaseInv(b)
    ensures Shared(b) <==> Fits(e, a)
  {
    hide NamesFit, Committed, LoadedVersion, RolledBackTo, PrunedTo, RolledBack, Truncated, SavedAfter, CurrentInfo, StaysInPlace, HasVersion, RemovedBy;
    match e
    case Commit => CommitKeepsShared(lib, a, b);
    case Interrupt(done) => InterruptedBase(lib, done, a, b);
    case Load(ver, up) => LoadSharesIff(lib, ver, up, a, b);
    case Rollback(target) => RollbackKeepsShared(lib, target, a, b);
    case RefuseRollback(target, done) =>
      TruncatedBase(target, done, a, b);
      HalfRolledBackIff(target, done, a, b);
    case FailRollback(target) =>
      TruncatedBase(target, a.stores.Keys, a, b);
      CurrentVersion(lib, RolledBack(a.stores, a.stores.Keys, a.trees, target), target);
      HalfRolledBackIff(target, a.stores.Keys, a, b);
    case Prune(height) =>
      LatestKept(a.trees, b.trees, a.stores, height);
      hide Saved;
      SameStores(a, b);
    case SetInitial(v) => InitialSharesIff(v, a, b);
    case Mount(n, typ) => SameStores(a, b);
    case FailLoad(up) => SameStores(a, b);
    case Write(n, t) => assert forall o :: Kept(b, o) ==> Kept(a, o);
    case Reopen =>
  }

  lemma SameStores(a: State, b: State)
    requires Shared(a) && b.stores == a.stores && a.removal <= b.removal && b.info == a.info && b.initial == a.initial
    ensures Shared(b)
  {
    assert forall n :: Kept(b, n) ==> Kept(a, n);
  }

  lemma InitialSharesIff(v: nat, a: State, b: State)
    requires Shared(a) && b == a.(stores := WithInitial(a.stores, v), initial := v) && a.initial >= 0
    ensures Shared(b) <==> Fits(SetInitial(v), a)
  {
    forall n | Kept(a, n)
      ensures InStep(b.stores[n], b, n) <==> (VersionOf(a) == 0 || (a.stores[n].version == 0 ==> v == NextOf(a)))
    {
      assert InStep(a.stores[n], a, n);
    }
    assert forall n :: Kept(b, n) <==> Kept(a, n);
    hide InStep;
    if Shared(b) && VersionOf(a) != 0 {
      forall n | Kept(a, n) && a.stores[n].version == 0
        ensures v == NextOf(a)
      {
        assert Kept(b, n) && InStep(b.stores[n], b, n);
      }
    }
  }

  /**
   * A run, whatever it loads and however its rollbacks end, keeps the stores together in all of its states exactly if
   * every step fits: each tree store that stays in the multistore is then at the root's version, unless the commit
   * info loaded does not know it yet, and all get the next version together.
   */
  lemma RunSharesIff(lib: Lib, events: seq<Event>, states: seq<State>)
    requires Run(lib, events, states)
    ensures (forall i :: 0 <= i < |states| ==> Shared(states[i])) <==> (forall j :: 0 <= j < |events| ==> Fits(events[j], states[j]))
  {
    hide Does, Shared, Fits;
    if forall j :: 0 <= j < |events| ==> Fits(events[j], states[j]) {
      forall i | 0 <= i < |states|
        ensures Shared(states[i])
      {
        RunShares(lib, events, states, i);
      }
    }
    if forall i :: 0 <= i < |states| ==> Shared(states[i]) {
      forall j | 0 <= j < |events|
        ensures Fits(events[j], states[j])
      {
        RunBase(lib, events, states, j);
        StepSharesIff(lib, events[j], states[j], states[j + 1]);
      }
    }
  }

  lemma {:induction false} RunShares(lib: Lib, events: seq<Event>, states: seq<State>, i: nat)
    requires Run(lib, events, states) && i < |states|
    requires forall j :: 0 <= j < |events| ==> Fits(events[j], states[j])
    ensures BaseInv(states[i]) && Shared(states[i])
  {
    hide Does, Fits;
    if i > 0 {
      RunShares(lib, events, states, i - 1);
      StepSharesIff(lib, events[i - 1], states[i - 1], states[i]);
    }
  }

  lemma {:induction false} RunBase(lib: Lib, events: seq<Event>, states: seq<State>, i: nat)
    requires Run(lib, events, states) && i < |states|
    requires forall j :: 0 <= j < |states| ==> Shared(states[j])
    ensures BaseInv(states[i])
  {
    hide Does, Fits, Shared;
    if i > 0 {
      RunBase(lib, events, states, i - 1);
      StepSharesIff(lib, events[i - 1], states[i - 1], states[i]);
    } else {
      StartsWell();
    }
  }

  lemma StartsWell()
    ensures BaseInv(Opened(map[], map[], 0)) && Shared(Opened(map[], map[], 0))
  {
  }

  // ---- Runs that load the latest version -----------------------------------------------------------------

  /** Commits are not interrupted, the latest version is loaded, and a rollback that fails had that version as target. */
  ghost predicate OfLatest(e: Event, st: State) {
    match e
    case Interrupt(done) => false
    case Load(ver, up) => ver == st.latest
    case RefuseRollback(target, done) => forall n :: n in done && n in st.stores && st.stores[n].typ.Iavl? ==> target == st.latest
    case FailRollback(target) => target == st.latest
    case _ => true
  }

  /** The id of a plain database store. */
  predicate IsDatabaseId(id: CommitId) {
    id == CommitId(-1, FAKE_HASH)
  }

  /** The id is of a plain database store, or describes the store's last tree. */
  ghost predicate IdInv(lib: Lib, saved: Versions, id: CommitId, latest: nat) {
    IsDatabaseId(id) || (Described(lib, saved, id, latest) && forall v :: v in saved ==> v <= latest)
  }

  ghost predicate DiskInv(lib: Lib, trees: map<Name, Versions>, infos: map<int, CommitInfo>, latest: nat) {
    latest > 0 ==>
      && latest in infos
      && forall n :: n in infos[latest].ids ==> IdInv(lib, Saved(trees, n), infos[latest].ids[n], latest)
  }

  /** Its next version is free; one that stays has no tree ahead of the latest version. */
  ghost predicate SubInv(s: Sub, saved: Versions, latest: nat, removed: bool) {
    s.typ.Iavl? ==>
      && NextVersion(s) !in saved && (s.version == 0 ==> saved.Keys == {})
      && (!removed ==> forall v :: v in saved ==> v <= latest)
  }

  ghost predicate Inv(lib: Lib, st: State) {
    && BaseInv(st) && Shared(st)
    && DiskInv(lib, st.trees, st.infos, st.latest)
    && (st.info.Some? ==> VersionOf(st) == st.latest)
    && forall n :: n in st.stores ==> SubInv(st.stores[n], Saved(st.trees, n), st.latest, n in st.removal)
  }

  // The rest of the invariant; that stores are in step is kept by every step.

  lemma CommitDescribes(lib: Lib, a: State, n: Name)
    requires Inv(lib, a) && a.info.Some? && n in InfoFor(lib, a.stores, a.removal, NextOf(a)).ids
    ensures IdInv(lib, Saved(SavedAfter(lib, a.stores, a.stores.Keys, NextOf(a), a.trees), n),
                  InfoFor(lib, a.stores, a.removal, NextOf(a)).ids[n], NextOf(a))
  {
    if a.stores[n].typ.Iavl? {
      assert Kept(a, n);
      CommitBounds(lib, a, n);
    }
    hide NextTree, DiskInv;
  }

  lemma CommitBounds(lib: Lib, a: State, n: Name)
    requires Inv(lib, a) && a.info.Some? && Kept(a, n)
    ensures forall v :: v in Saved(SavedAfter(lib, a.stores, a.stores.Keys, NextOf(a), a.trees), n) ==> v <= NextOf(a)
    ensures a.stores[n].version < NextOf(a) == NextVersion(a.stores[n])
  {
    hide NextTree, DiskInv, SavedAfter;
    SavedAt(lib, a.stores, a.stores.Keys, NextOf(a), a.trees, n);
    assert SubInv(a.stores[n], Saved(a.trees, n), a.latest, false);
    assert InStep(a.stores[n], a, n);
  }

  lemma CommitKeepsInv(lib: Lib, a: State, b: State)
    requires Inv(lib, a) && a.info.Some? && Committed(lib, a, b)
    ensures Inv(lib, b)
  {
    CommitKeepsShared(lib, a, b);
    hide InfoFor, SavedAfter, IdInv, Collides, BaseInv, Shared, NextTree;
    InfoVersion(lib, a.stores, a.removal, NextOf(a));
    forall n | n in b.infos[b.latest].ids
      ensures IdInv(lib, Saved(b.trees, n), b.infos[b.latest].ids[n], b.latest)
    {
      CommitDescribes(lib, a, n);
    }
    forall n | n in b.stores
      ensures SubInv(b.stores[n], Saved(b.trees, n), b.latest, false)
    {
      if b.stores[n].typ.Iavl? {
        CommittedSubInv(lib, a, b, n);
      }
    }
  }

  lemma CommittedSubInv(lib: Lib, a: State, b: State, n: Name)
    requires Inv(lib, a) && a.info.Some? && Committed(lib, a, b) && Kept(b, n)
    ensures SubInv(b.stores[n], Saved(b.trees, n), b.latest, false)
  {
    assert Kept(a, n);
    hide InfoFor, SavedAfter, BaseInv, Shared, DiskInv, NextTree;
    CommitBounds(lib, a, n);
  }

  /** The next version of a tree store that has just been loaded is free. */
  lemma LoadedIsFree(lib: Lib, saved: Versions, id: CommitId, initial: nat)
    requires forall v :: v in saved ==> v >= 1 && (id.version > 0 ==> v <= id.version)
    requires LoadSub(lib, saved, Iavl, id, initial).Some?
    ensures var s := LoadSub(lib, saved, Iavl, id, initial).value;
            NextVersion(s) !in saved && (s.version == 0 ==> saved.Keys == {})
  {
  }

  /** What the loads of the invariant's states find under a name. */
  lemma FoundOnDisk(lib: Lib, st: State, n: Name)
    requires Inv(lib, st)
    ensures forall v :: v in Saved(st.trees, n) ==> v >= 1 && (IdFor(InfoOf(st, st.latest).ids, n).version > 0 ==> v <= st.latest)
    ensures var id := IdFor(InfoOf(st, st.latest).ids, n); id.version == 0 || id.version == st.latest > 0 || id.version == -1
  {
    hide Shared;
  }

  lemma LoadKeepsInv(lib: Lib, up: Upgrades, a: State, b: State)
    requires Inv(lib, a) && NamesFit(a, a.latest, up) && LoadedVersion(lib, a.latest, up, a, b)
    ensures Inv(lib, b)
  {
    LoadSharesIff(lib, a.latest, up, a, b);
    hide BaseInv, Shared, SubInv, LoadedSoFar, WellFormed, NamesFit;
    forall n | n in b.stores
      ensures SubInv(b.stores[n], Saved(b.trees, n), b.latest, n in b.removal)
    {
      if n in a.params {
        MountedSubInv(lib, up, a, b, n);
      } else {
        EmptiedSubInv(lib, up, a, b, n);
      }
    }
    assert VersionOf(b) == b.latest by { LatestInfo(lib, a); }
  }

  lemma LatestInfo(lib: Lib, st: State)
    requires Inv(lib, st)
    ensures InfoOf(st, st.latest).version == st.latest
  {
    hide Shared;
  }

  lemma MountedSubInv(lib: Lib, up: Upgrades, a: State, b: State, n: Name)
    requires Inv(lib, a) && NamesFit(a, a.latest, up) && LoadedVersion(lib, a.latest, up, a, b) && n in a.params
    ensures n in b.stores && SubInv(b.stores[n], Saved(a.trees, n), a.latest, n in b.removal)
  {
    MountedLoads(lib, a.latest, up, a, b, n);
    FoundOnDisk(lib, a, n);
    hide LoadSub, LoadedSoFar, WellFormed, BaseInv, Shared, DiskInv;
    var saved, id, initial := Saved(a.trees, n), IdFor(InfoOf(a, a.latest).ids, n), InitialFor(up, n, a.latest);
    LoadSubIs(lib, saved, a.params[n], id, initial);
    if a.params[n].Iavl? {
      LoadedIsFree(lib, saved, id, initial);
      if n !in b.removal {
        assert NameFits(a, a.latest, up, n);
      }
    }
  }

  lemma EmptiedSubInv(lib: Lib, up: Upgrades, a: State, b: State, n: Name)
    requires Inv(lib, a) && LoadedVersion(lib, a.latest, up, a, b) && n in b.stores && n !in a.params
    ensures n in b.removal && SubInv(b.stores[n], Saved(a.trees, n), a.latest, true)
  {
    var ids := InfoOf(a, a.latest).ids;
    hide LoadSub, WellFormed, BaseInv, Shared, DiskInv, Loadable, LoadedAs, Pairs;
    var o :| o in a.params && Moves(up, o) && up.renamed[o] == n;
    assert LoadedIn(lib, a.trees, ids, up, a.latest, o, a.params[o], b.stores);
    EmptiedLoads(lib, a.trees, ids, up, a.latest, o, a.params[o], b.stores);
    FoundOnDisk(lib, a, n);
    LoadSubIs(lib, Saved(a.trees, n), a.params[o], IdFor(ids, n), 0);
    if a.params[o].Iavl? {
      LoadedIsFree(lib, Saved(a.trees, n), IdFor(ids, n), 0);
    }
  }

  lemma EmptiedLoads(lib: Lib, trees: map<Name, Versions>, ids: map<Name, CommitId>, up: Upgrades, ver: nat, o: Name,
                     typ: StoreType, stores: Stores)
    requires LoadedIn(lib, trees, ids, up, ver, o, typ, stores) && Moves(up, o)
    ensures var n := up.renamed[o];
            var base := LoadSub(lib, Saved(trees, n), typ, IdFor(ids, n), 0);
            n in stores && base.Some? && EditedFrom(base.value, stores[n])
  {
    hide LoadSub, Pairs;
  }

  lemma RollbackDescribes(lib: Lib, target: nat, stores: Stores, trees: map<Name, Versions>, n: Name)
    requires n in stores && stores[n].typ.Iavl? && HasVersion(stores, trees, target, n)
    ensures var left := Saved(Truncated(stores, stores.Keys, trees, target), n);
            var ids := CurrentInfo(lib, RolledBack(stores, stores.Keys, trees, target), target).ids;
            n in ids && Described(lib, left, ids[n], target) && forall v :: v in left ==> v <= target
  {
  }

  lemma RollbackIdInv(lib: Lib, target: nat, stores: Stores, trees: map<Name, Versions>, n: Name)
    requires forall o :: o in stores ==> HasVersion(stores, trees, target, o)
    requires n in CurrentInfo(lib, RolledBack(stores, stores.Keys, trees, target), target).ids
    ensures IdInv(lib, Saved(Truncated(stores, stores.Keys, trees, target), n),
                  CurrentInfo(lib, RolledBack(stores, stores.Keys, trees, target), target).ids[n], target)
  {
    if n in stores && stores[n].typ.Iavl? {
      RollbackDescribes(lib, target, stores, trees, n);
    }
    hide Truncated, Described;
  }

  lemma RollbackDisk(lib: Lib, target: nat, a: State, b: State)
    requires target > 0 && forall n :: n in a.stores ==> HasVersion(a.stores, a.trees, target, n)
    requires b.trees == Truncated(a.stores, a.stores.Keys, a.trees, target) && b.latest == target
    requires b.infos == a.infos[target as int := CurrentInfo(lib, RolledBack(a.stores, a.stores.Keys, a.trees, target), target)]
    ensures DiskInv(lib, b.trees, b.infos, b.latest)
  {
    hide RolledBack, Truncated, CurrentInfo, IdInv, Saved, HasVersion;
    forall n | n in b.infos[target].ids
      ensures IdInv(lib, Saved(b.trees, n), b.infos[target].ids[n], target)
    {
      RollbackIdInv(lib, target, a.stores, a.trees, n);
    }
  }

  lemma RollbackKeepsInv(lib: Lib, target: nat, a: State, b: State)
    requires Inv(lib, a) && RolledBackTo(lib, target, a, b)
    ensures Inv(lib, b)
    ensures forall n :: n in b.stores && b.stores[n].typ.Iavl? ==> b.stores[n].version == target
  {
    RollbackKeepsShared(lib, target, a, b);
    CurrentVersion(lib, RolledBack(a.stores, a.stores.Keys, a.trees, target), target);
    RollbackDisk(lib, target, a, b);
    forall n | n in b.stores
      ensures SubInv(b.stores[n], Saved(b.trees, n), target, n in b.removal)
    {
      RolledBackSubInv(lib, target, a, b, n);
    }
    hide RolledBack, Truncated, CurrentInfo, BaseInv, Shared, LoadedSoFar, DiskInv, SubInv, Saved;
  }

  lemma RolledBackSubInv(lib: Lib, target: nat, a: State, b: State, n: Name)
    requires RolledBackTo(lib, target, a, b) && n in b.stores
    ensures SubInv(b.stores[n], Saved(b.trees, n), target, n in b.removal)
  {
    if b.stores[n].typ.Iavl? {
      RolledBackStands(lib, target, a, b, n);
      TruncatedAt(a.stores, a.stores.Keys, a.trees, target, n);
      hide RolledBack, Truncated, CurrentInfo, LoadedSoFar, LoadSub, Saved;
    }
  }

  /** A store that a rollback has come to, in place. */
  lemma HalfRolledBackSubInv(lib: Lib, target: nat, done: set<Name>, a: State, b: State, n: Name)
    requires Inv(lib, a) && target > 0 && done <= a.stores.Keys && n in a.stores
    requires n in done ==> HasVersion(a.stores, a.trees, target, n)
    requires n in done && a.stores[n].typ.Iavl? ==> target == a.latest
    requires b.stores == RolledBack(a.stores, done, a.trees, target) && b.removal == a.removal && b.latest == a.latest
    requires b.trees == Truncated(a.stores, done, a.trees, target)
    ensures n in b.stores && SubInv(b.stores[n], Saved(b.trees, n), b.latest, n in b.removal)
  {
    TruncatedAt(a.stores, done, a.trees, target, n);
    hide Truncated, Saved, BaseInv, Shared, DiskInv;
    assert SubInv(a.stores[n], Saved(a.trees, n), a.latest, n in a.removal);
  }

  /** A refused rollback to the latest version drops nothing the commit info is about. */
  lemma RefusedDisk(lib: Lib, target: nat, done: set<Name>, a: State, b: State)
    requires Inv(lib, a) && OfLatest(RefuseRollback(target, done), a) && RollbackRefused(target, done, a, b)
    ensures DiskInv(lib, b.trees, b.infos, b.latest)
  {
    hide BaseInv, Shared, Truncated, RolledBack;
    if b.latest > 0 {
      forall n | n in b.infos[b.latest].ids
        ensures IdInv(lib, Saved(b.trees, n), b.infos[b.latest].ids[n], b.latest)
      {
        TruncatedAt(a.stores, done, a.trees, target, n);
        assert IdInv(lib, Saved(a.trees, n), a.infos[a.latest].ids[n], a.latest);
      }
    }
  }

  lemma RefusalKeepsInv(lib: Lib, target: nat, done: set<Name>, a: State, b: State)
    requires Inv(lib, a) && OfLatest(RefuseRollback(target, done), a) && RollbackRefused(target, done, a, b)
    requires BaseInv(b) && Shared(b)
    ensures Inv(lib, b)
  {
    RefusedDisk(lib, target, done, a, b);
    forall n | n in b.stores
      ensures SubInv(b.stores[n], Saved(b.trees, n), b.latest, n in b.removal)
    {
      HalfRolledBackSubInv(lib, target, done, a, b, n);
    }
    hide BaseInv, Shared, DiskInv, SubInv, Truncated, HasVersion, Saved;
  }

  lemma FailureKeepsInv(lib: Lib, target: nat, a: State, b: State)
    requires Inv(lib, a) && target == a.latest && RollbackFailed(lib, target, a, b)
    requires BaseInv(b) && Shared(b)
    ensures Inv(lib, b)
  {
    RollbackDisk(lib, target, a, b);
    forall n | n in b.stores
      ensures SubInv(b.stores[n], Saved(b.trees, n), b.latest, n in b.removal)
    {
      HalfRolledBackSubInv(lib, target, a.stores.Keys, a, b, n);
    }
    hide BaseInv, Shared, DiskInv, SubInv, Truncated, HasVersion, Saved, CurrentInfo, Loadable;
  }

  lemma PruneKeepsInv(lib: Lib, height: int, a: State, b: State)
    requires Inv(lib, a) && PrunedTo(a.trees, b.trees, a.stores, height) && b == a.(trees := b.trees)
    requires BaseInv(b) && Shared(b)
    ensures Inv(lib, b)
  {
    LatestKept(a.trees, b.trees, a.stores, height);
    hide PrunedTo, Saved, BaseInv, Shared;
    forall n | n in b.stores
      ensures SubInv(b.stores[n], Saved(b.trees, n), b.latest, n in b.removal)
    {
      assert SubInv(a.stores[n], Saved(a.trees, n), a.latest, n in a.removal);
    }
  }

  /** Writing and setting the initial version. */
  lemma EditKeepsInv(lib: Lib, a: State, b: State)
    requires Inv(lib, a) && BaseInv(b) && Shared(b) && b == a.(stores := b.stores, initial := b.initial) && b.stores.Keys == a.stores.Keys
    requires forall n :: n in a.stores ==>
               || b.stores[n] == a.stores[n].(working := b.stores[n].working)
               || b.stores[n] == a.stores[n].(initial := b.stores[n].initial)
    ensures Inv(lib, b)
  {
    hide BaseInv, Shared, DiskInv;
    forall n | n in b.stores
      ensures SubInv(b.stores[n], Saved(b.trees, n), b.latest, n in b.removal)
    {
      assert SubInv(a.stores[n], Saved(a.trees, n), a.latest, n in a.removal);
    }
  }

  lemma FailedLoadKeepsInv(lib: Lib, up: Upgrades, a: State, b: State)
    requires Inv(lib, a) && LoadFailed(up, a, b) && BaseInv(b) && Shared(b)
    ensures Inv(lib, b)
  {
    hide BaseInv, Shared, DiskInv, RemovedBy;
    assert forall n :: n in b.stores ==> SubInv(a.stores[n], Saved(a.trees, n), a.latest, n in a.removal);
  }

  /** Every step of a run that loads the latest version, and fits, keeps the invariant. */
  lemma StepKeepsInv(lib: Lib, e: Event, a: State, b: State)
    requires Inv(lib, a) && Does(lib, e, a, b) && Fits(e, a) && OfLatest(e, a)
    ensures Inv(lib, b)
  {
    StepSharesIff(lib, e, a, b);
    hide NamesFit, Committed, LoadedVersion, LoadFailed, RolledBackTo, RollbackRefused, RollbackFailed, PrunedTo, BaseInv, Shared;
    hide DiskInv, SubInv, Saved, StaysInPlace;
    match e
    case Mount(n, typ) =>
    case Write(n, t) => EditKeepsInv(lib, a, b);
    case SetInitial(v) => EditKeepsInv(lib, a, b);
    case Commit => CommitKeepsInv(lib, a, b);
    case Load(ver, up) => LoadKeepsInv(lib, up, a, b);
    case FailLoad(up) => FailedLoadKeepsInv(lib, up, a, b);
    case Rollback(target) => RollbackKeepsInv(lib, target, a, b);
    case RefuseRollback(target, done) => RefusalKeepsInv(lib, target, done, a, b);
    case FailRollback(target) => FailureKeepsInv(lib, target, a, b);
    case Prune(height) => PruneKeepsInv(lib, height, a, b);
    case Reopen =>
  }

  lemma {:induction false} RunsKeepInv(lib: Lib, events: seq<Event>, states: seq<State>, i: nat)
    requires Run(lib, events, states) && i < |states|
    requires forall j :: 0 <= j < |events| ==> Fits(events[j], states[j]) && OfLatest(events[j], states[j])
    ensures Inv(lib, states[i])
  {
    hide Does, Fits, OfLatest;
    if i > 0 {
      RunsKeepInv(lib, events, states, i - 1);
      StepKeepsInv(lib, events[i - 1], states[i - 1], states[i]);
    }
  }

  /**
   * In every state of every run that loads the latest version and fits: the database is healthy exactly if its latest
   * commit info has no id of a plain database store; the next commit clashes with no tree saved before; and the hashes
   * collected for the working hash are the commit's exactly if no plain database store takes part.
   */
  lemma RunsStayHealthy(lib: Lib, events: seq<Event>, states: seq<State>, i: nat)
    requires Run(lib, events, states) && i < |states|
    requires forall j :: 0 <= j < |events| ==> Fits(events[j], states[j]) && OfLatest(events[j], states[j])
    ensures var st := states[i];
            && (st.latest > 0 ==>
                  (Healthy(lib, st.trees, st.infos, st.latest) <==>
                     forall n :: n in InfoOf(st, st.latest).ids ==> !IsDatabaseId(InfoOf(st, st.latest).ids[n])))
            && (forall n :: n in st.stores ==> !Collides(lib, st.stores[n], NextOf(st), Saved(st.trees, n)))
            && (WorkingHashes(lib, st.stores, st.removal) == HashesOf(InfoFor(lib, st.stores, st.removal, NextOf(st))) <==>
                  forall n :: n in st.stores && n !in st.removal ==> !st.stores[n].typ.DbAdapter?)
  {
    hide Run, Fits, OfLatest;
    RunsKeepInv(lib, events, states, i);
    InvIsHealthy(lib, states[i]);
  }

  lemma InvIsHealthy(lib: Lib, st: State)
    requires Inv(lib, st)
    ensures st.latest > 0 ==>
              (Healthy(lib, st.trees, st.infos, st.latest) <==>
                 forall n :: n in InfoOf(st, st.latest).ids ==> !IsDatabaseId(InfoOf(st, st.latest).ids[n]))
    ensures forall n :: n in st.stores ==> !Collides(lib, st.stores[n], NextOf(st), Saved(st.trees, n))
    ensures WorkingHashes(lib, st.stores, st.removal) == HashesOf(InfoFor(lib, st.stores, st.removal, NextOf(st))) <==>
            forall n :: n in st.stores && n !in st.removal ==> !st.stores[n].typ.DbAdapter?
  {
    hide WorkingHashes, InfoFor, HashesOf, NextTree;
    forall n | n in st.stores
      ensures !Collides(lib, st.stores[n], NextOf(st), Saved(st.trees, n))
      ensures n !in st.removal ==> (HashStands(lib, st.stores[n], NextOf(st)) <==> !st.stores[n].typ.DbAdapter?)
    {
      assert SubInv(st.stores[n], Saved(st.trees, n), st.latest, n in st.removal);
      assert Kept(st, n) ==> InStep(st.stores[n], st, n);
    }
    WorkingHashIsCommitHash(lib, st.stores, st.removal, NextOf(st));
    if st.latest > 0 {
      DiskIsHealthy(lib, st);
    }
  }

  lemma DiskIsHealthy(lib: Lib, st: State)
    requires BaseInv(st) && DiskInv(lib, st.trees, st.infos, st.latest) && st.latest > 0
    ensures Healthy(lib, st.trees, st.infos, st.latest) <==>
            forall n :: n in InfoOf(st, st.latest).ids ==> !IsDatabaseId(InfoOf(st, st.latest).ids[n])
  {
    var ids := InfoOf(st, st.latest).ids;
    forall n | n in ids
      ensures IdInv(lib, Saved(st.trees, n), ids[n], st.latest)
      ensures IsDatabaseId(ids[n]) ==> ids[n].hash != [] && !Described(lib, Saved(st.trees, n), ids[n], st.latest)
      ensures forall v :: v in Saved(st.trees, n) ==> v >= 1
    {
    }
    assert st.infos[st.latest].version == st.latest;
    hide Shared, Saved, Described;
  }

  // ---- Rollbacks that fail --------------------------------------------------------------------------------

  /**
   * A refused rollback leaves a healthy database healthy exactly if it has not taken a store that the latest commit
   * info is about behind the latest version.
   */
  lemma RefusedHealthyIff(lib: Lib, target: nat, done: set<Name>, a: State, b: State)
    requires Healthy(lib, a.trees, a.infos, a.latest) && RollbackRefused(target, done, a, b)
    ensures Healthy(lib, b.trees, b.infos, b.latest) <==>
            forall n :: n in done && a.stores[n].typ.Iavl? && n in a.infos[a.latest].ids && a.infos[a.latest].ids[n].hash != [] ==>
              target >= a.latest
  {
    hide Truncated, RolledBack;
    forall n
      ensures Saved(b.trees, n) == if n in done && a.stores[n].typ.Iavl? then UpTo(Saved(a.trees, n), target) else Saved(a.trees, n)
    {
      TruncatedAt(a.stores, done, a.trees, target, n);
    }
    hide Saved;
  }

  /**
   * Two stores at version 5, of which one has no version 4: a rollback to 4 that comes to the other one first takes it
   * to 4, while the root and the second store stay at 5. The first cannot be loaded at 5 any more.
   */
  lemma RefusedBreaks(lib: Lib, t: Tree, u: Tree)
    requires lib.hash(t) != []
    ensures var a, b := BeforeRefusal(lib, t, u), AfterRefusal(lib, t, u);
            && Inv(lib, a) && RollbackRefused(4, {[1]}, a, b)
            && !Shared(b) && !Healthy(lib, b.trees, b.infos, b.latest)
            && !Loadable(lib, b.trees, InfoOf(b, 5).ids, NO_UPGRADES, 5, [1], Iavl)
  {
    var a, b := BeforeRefusal(lib, t, u), AfterRefusal(lib, t, u);
    RefusalSteps(lib, t, u);
    assert Inv(lib, a) by { RefusalStartsWell(lib, t, u); }
    hide RollbackRefused, Inv, BeforeRefusal;
    assert Kept(b, [1]) && !InStep(b.stores[[1]], b, [1]);
    assert 5 !in Saved(b.trees, [1]);
  }

  function BeforeRefusal(lib: Lib, t: Tree, u: Tree): State {
    var x: Name, y: Name := [1], [2];
    var sub, info := Sub(Iavl, 5, 0, t, t), CommitInfo(5, map[x := CommitId(5, lib.hash(t)), y := CommitId(5, lib.hash(t))]);
    State(map[x := Iavl, y := Iavl], map[x := sub, y := sub], {}, Some(info), 0,
          map[x := map[4 := u, 5 := t], y := map[5 := t]], map[5 := info], 5)
  }

  function AfterRefusal(lib: Lib, t: Tree, u: Tree): State {
    var x: Name, y: Name := [1], [2];
    BeforeRefusal(lib, t, u).(stores := map[x := Sub(Iavl, 4, 0, u, u), y := Sub(Iavl, 5, 0, t, t)],
                              trees := map[x := map[4 := u], y := map[5 := t]])
  }

  lemma RefusalSteps(lib: Lib, t: Tree, u: Tree)
    ensures RollbackRefused(4, {[1]}, BeforeRefusal(lib, t, u), AfterRefusal(lib, t, u))
  {
    var x: Name, y: Name := [1], [2];
    var a, b := BeforeRefusal(lib, t, u), AfterRefusal(lib, t, u);
    RefusalStores(lib, t, u);
    RefusalTrees(lib, t, u);
    hide RolledBack, Truncated;
    assert y in a.stores && !HasVersion(a.stores, a.trees, 4, y);
  }

  lemma RefusalStores(lib: Lib, t: Tree, u: Tree)
    ensures var a := BeforeRefusal(lib, t, u); RolledBack(a.stores, {[1]}, a.trees, 4) == AfterRefusal(lib, t, u).stores
    ensures var a := BeforeRefusal(lib, t, u); HasVersion(a.stores, a.trees, 4, [1])
  {
  }

  lemma RefusalTrees(lib: Lib, t: Tree, u: Tree)
    ensures var a := BeforeRefusal(lib, t, u); Truncated(a.stores, {[1]}, a.trees, 4) == AfterRefusal(lib, t, u).trees
  {
    var saved: Versions := map[4 := u, 5 := t];
    assert UpTo(saved, 4) == map[4 := u];
  }

  lemma RefusalStartsWell(lib: Lib, t: Tree, u: Tree)
    ensures Inv(lib, BeforeRefusal(lib, t, u))
  {
  }
}
