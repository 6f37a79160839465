/**
 * The multistore of internal/rootmulti/store.go: many sub-stores committed together. A sub-store is known by its
 * interface only: saved versions of an opaque tree, a working tree, and hashes.
 */
module MultiStore {
  import opened Base
  import opened KvStore

  type Name = Bytes

  /** An exported tree node; leaves have height 0. */
  datatype Node = Node(key: Option<Bytes>, value: Option<Bytes>, height: int, version: int)

  /** A tree, as the nodes it exports. */
  type Tree = seq<Node>

  function Raw(b: Option<Bytes>): Bytes {
    match b case None => [] case Some(s) => s
  }

  /** The pairs in a tree's leaves. */
  function Pairs(t: Tree): KvMap {
    if t == [] then map[]
    else
      var front, n := Pairs(t[..|t| - 1]), t[|t| - 1];
      if n.height == 0 then front[Raw(n.key) := Raw(n.value)] else front
  }

  /**
   * What the libraries compute: editing and versioning trees, hashing trees and lists of hashes, and whether a tree
   * with these versions saved may be opened with an initial version.
   */
  datatype Lib = Lib(edit: (Tree, Op) -> Tree, seal: (Tree, int) -> Tree, hash: Tree -> Bytes,
                     merkle: map<Name, Bytes> -> Bytes, admits: (set<nat>, nat) -> bool)

  /** Editing a tree edits its pairs; giving a version to its new nodes does not. An empty tree can be opened. */
  ghost predicate Lawful(lib: Lib) {
    && (forall v :: lib.admits({}, v))
    && (forall t, op :: Pairs(lib.edit(t, op)) == ApplyOne(Pairs(t), op))
    && (forall t, v :: Pairs(lib.seal(t, v)) == Pairs(t))
  }

  datatype StoreType = Iavl | DbAdapter | Transient | Memory

  /** A loaded sub-store: the version it stands at, the tree of that version, and the tree being edited. */
  datatype Sub = Sub(typ: StoreType, version: nat, initial: nat, committed: Tree, working: Tree)

  datatype CommitId = CommitId(version: int, hash: Bytes)

  const NO_ID: CommitId := CommitId(0, [])
  const FAKE_HASH: Bytes := [70, 65, 75, 69, 95, 72, 65, 83, 72]

  /** The list of store infos, which is kept sorted by name, as a map. */
  datatype CommitInfo = CommitInfo(version: int, ids: map<Name, CommitId>)

  type Versions = map<nat, Tree>

  function Saved(trees: map<Name, Versions>, n: Name): Versions {
    if n in trees then trees[n] else map[]
  }

  // ---- One sub-store ------------------------------------------------------------------------------

  function NextVersion(s: Sub): nat {
    if s.version == 0 && s.initial > 0 then s.initial else s.version + 1
  }

  function LastCommitId(lib: Lib, s: Sub): CommitId {
    match s.typ
    case Iavl => CommitId(s.version, lib.hash(s.committed))
    case DbAdapter => CommitId(-1, FAKE_HASH)
    case _ => NO_ID
  }

  /** The tree that committing the sub-store would save. */
  function NextTree(lib: Lib, s: Sub): Tree {
    lib.seal(s.working, NextVersion(s))
  }

  function CommitSub(lib: Lib, s: Sub): Sub {
    match s.typ
    case Iavl => s.(version := NextVersion(s), committed := NextTree(lib, s), working := NextTree(lib, s))
    case DbAdapter => s
    case _ => s.(working := [])
  }

  /** A sub-store that has the version already, after an interrupted commit, is not committed again. */
  predicate AlreadyAt(lib: Lib, s: Sub, version: int) {
    LastCommitId(lib, s).version >= version
  }

  function CommitAt(lib: Lib, s: Sub, version: int): Sub {
    if AlreadyAt(lib, s, version) then s else CommitSub(lib, s)
  }

  function IdAt(lib: Lib, s: Sub, version: int): CommitId {
    if AlreadyAt(lib, s, version) then LastCommitId(lib, s).(version := version)
    else LastCommitId(lib, CommitSub(lib, s))
  }

  predicate Persistent(s: Sub) {
    s.typ.Iavl? || s.typ.DbAdapter?
  }

  // ---- All sub-stores -----------------------------------------------------------------------------

  type Stores = map<Name, Sub>

  /** The sub-stores after committing those in `done`. */
  function CommitSome(lib: Lib, stores: Stores, done: set<Name>, version: int): Stores {
    map n | n in stores :: if n in done then CommitAt(lib, stores[n], version) else stores[n]
  }

  function CommitAll(lib: Lib, stores: Stores, version: int): Stores {
    CommitSome(lib, stores, stores.Keys, version)
  }

  lemma CommitKeepsNames(lib: Lib, stores: Stores, version: int)
    ensures CommitAll(lib, stores, version).Keys == stores.Keys
  {
  }

  function IdsOf(lib: Lib, stores: Stores, done: set<Name>, removal: set<Name>, version: int): map<Name, CommitId> {
    map n | n in stores && n in done && Persistent(stores[n]) && n !in removal :: IdAt(lib, stores[n], version)
  }

  /** The commit info that commitStores builds: no transient stores, and none that are being removed. */
  function InfoFor(lib: Lib, stores: Stores, removal: set<Name>, version: int): CommitInfo {
    CommitInfo(version, IdsOf(lib, stores, stores.Keys, removal, version))
  }

  /** Committing it saves a tree. */
  predicate Saves(lib: Lib, s: Sub, version: int) {
    s.typ.Iavl? && !AlreadyAt(lib, s, version)
  }

  /** The saved trees after committing the stores in `done`. */
  function SavedAfter(lib: Lib, stores: Stores, done: set<Name>, version: int, trees: map<Name, Versions>): map<Name, Versions> {
    map n | n in trees.Keys + done && (n in trees || (n in stores && Saves(lib, stores[n], version))) ::
      if n in done && n in stores && Saves(lib, stores[n], version)
      then Saved(trees, n)[NextVersion(stores[n]) := NextTree(lib, stores[n])]
      else Saved(trees, n)
  }

  function AfterSaving(lib: Lib, s: Sub, version: int, n: Name, trees: map<Name, Versions>): map<Name, Versions> {
    if Saves(lib, s, version) then trees[n := Saved(trees, n)[NextVersion(s) := NextTree(lib, s)]] else trees
  }

  lemma CommitOneMore(lib: Lib, stores: Stores, done: set<Name>, removal: set<Name>, version: int, trees: map<Name, Versions>, n: Name)
    requires n in stores && n !in done
    ensures n in CommitSome(lib, stores, done, version) && CommitSome(lib, stores, done, version)[n] == stores[n]
    ensures CommitSome(lib, stores, done, version).Keys == stores.Keys
    ensures CommitSome(lib, stores, done, version)[n := CommitAt(lib, stores[n], version)] ==
            CommitSome(lib, stores, done + {n}, version)
    ensures Persistent(stores[n]) && n !in removal ==>
              IdsOf(lib, stores, done, removal, version)[n := IdAt(lib, stores[n], version)] ==
              IdsOf(lib, stores, done + {n}, removal, version)
    ensures !Persistent(stores[n]) || n in removal ==>
              IdsOf(lib, stores, done, removal, version) == IdsOf(lib, stores, done + {n}, removal, version)
  {
    hide CommitAt, IdAt, Persistent;
  }

  lemma SaveOneMore(lib: Lib, stores: Stores, done: set<Name>, version: int, trees: map<Name, Versions>, n: Name)
    requires n in stores && n !in done
    ensures var now := SavedAfter(lib, stores, done, version, trees);
            && Saved(now, n) == Saved(trees, n)
            && AfterSaving(lib, stores[n], version, n, now) == SavedAfter(lib, stores, done + {n}, version, trees)
  {
    hide Saves, NextVersion, NextTree;
  }

  lemma NothingCommitted(lib: Lib, stores: Stores, removal: set<Name>, version: int, trees: map<Name, Versions>)
    ensures CommitSome(lib, stores, {}, version) == stores
    ensures IdsOf(lib, stores, {}, removal, version) == map[]
    ensures SavedAfter(lib, stores, {}, version, trees) == trees
  {
  }

  function HashesOf(info: CommitInfo): map<Name, Bytes> {
    map n | n in info.ids :: info.ids[n].hash
  }

  function AppHash(lib: Lib, info: CommitInfo): Bytes {
    lib.merkle(HashesOf(info))
  }

  /** The hashes WorkingHash collects: of the tree stores only. */
  function WorkingHashes(lib: Lib, stores: Stores, removal: set<Name>): map<Name, Bytes> {
    map n | n in stores && stores[n].typ.Iavl? && n !in removal :: lib.hash(NextTree(lib, stores[n]))
  }

  /** No tree of this version has been saved that differs from the one to be saved: the library would panic. */
  predicate Collides(lib: Lib, s: Sub, version: int, saved: Versions) {
    Saves(lib, s, version) && NextVersion(s) in saved && saved[NextVersion(s)] != NextTree(lib, s)
  }

  // ---- Loading ------------------------------------------------------------------------------------

  lemma {:induction false} GreatestExists(vs: set<nat>)
    requires vs != {}
    ensures exists m :: m in vs && forall v :: v in vs ==> v <= m
    decreases |vs|
  {
    var x :| x in vs;
    var rest := vs - {x};
    assert vs == rest + {x};
    if rest != {} {
      GreatestExists(rest);
      var m :| m in rest && forall v :: v in rest ==> v <= m;
      assert Max(m, x) in vs && forall v :: v in vs ==> v <= Max(m, x);
    }
  }

  function Greatest(vs: set<nat>): (m: nat)
    requires vs != {}
    ensures m in vs && forall v :: v in vs ==> v <= m
  {
    GreatestExists(vs);
    var m :| m in vs && forall v :: v in vs ==> v <= m;
    m
  }

  /** Loading a sub-store at the version of its id; at version 0 a tree store loads the latest there is. */
  function LoadSub(lib: Lib, saved: Versions, typ: StoreType, id: CommitId, initial: nat): Option<Sub> {
    if !typ.Iavl? then Some(Sub(typ, 0, initial, [], []))
    else if initial > 0 && !lib.admits(saved.Keys, initial) then None
    else if id.version != 0 then
      if id.version > 0 && id.version in saved then Some(Sub(typ, id.version, initial, saved[id.version], saved[id.version])) else None
    else if saved.Keys == {} then Some(Sub(typ, 0, initial, [], []))
    else
      var v := Greatest(saved.Keys);
      Some(Sub(typ, v, initial, saved[v], saved[v]))
  }

  datatype Upgrades = Upgrades(added: set<Name>, renamed: map<Name, Name>, deleted: set<Name>)

  const NO_UPGRADES: Upgrades := Upgrades({}, map[], {})

  predicate IsRenamed(up: Upgrades, n: Name) {
    n in up.renamed && up.renamed[n] != []
  }

  /** Renamed stores whose data is moved; deleting takes precedence. */
  predicate Moves(up: Upgrades, n: Name) {
    IsRenamed(up, n) && n !in up.deleted
  }

  function InitialFor(up: Upgrades, n: Name, ver: nat): nat {
    if n in up.added || IsRenamed(up, n) then ver + 1 else 0
  }

  function IdFor(ids: map<Name, CommitId>, n: Name): CommitId {
    if n in ids then ids[n] else NO_ID
  }

  /** A store that is not new has to be at the version of the whole. */
  predicate Mismatched(ids: map<Name, CommitId>, up: Upgrades, ver: nat, n: Name, typ: StoreType) {
    n !in up.added && !IsRenamed(up, n) && IdFor(ids, n).version != ver && typ.Iavl?
  }

  function LoadedBase(lib: Lib, trees: map<Name, Versions>, ids: map<Name, CommitId>, up: Upgrades, ver: nat, n: Name, typ: StoreType): Option<Sub> {
    LoadSub(lib, Saved(trees, n), typ, IdFor(ids, n), InitialFor(up, n, ver))
  }

  function OldBase(lib: Lib, trees: map<Name, Versions>, ids: map<Name, CommitId>, up: Upgrades, n: Name, typ: StoreType): Option<Sub>
    requires IsRenamed(up, n)
  {
    LoadSub(lib, Saved(trees, up.renamed[n]), typ, IdFor(ids, up.renamed[n]), 0)
  }

  predicate Loadable(lib: Lib, trees: map<Name, Versions>, ids: map<Name, CommitId>, up: Upgrades, ver: nat, n: Name, typ: StoreType) {
    && !Mismatched(ids, up, ver, n, typ)
    && LoadedBase(lib, trees, ids, up, ver, n, typ).Some?
    && (Moves(up, n) ==> OldBase(lib, trees, ids, up, n, typ).Some?)
  }

  /** `s` is `base` with its working tree edited. */
  predicate EditedFrom(base: Sub, s: Sub) {
    s == base.(working := s.working)
  }

  /** What loading makes of a mounted store. */
  ghost predicate LoadedAs(lib: Lib, trees: map<Name, Versions>, ids: map<Name, CommitId>, up: Upgrades, ver: nat, n: Name, typ: StoreType, s: Sub)
    requires Loadable(lib, trees, ids, up, ver, n, typ)
  {
    var base := LoadedBase(lib, trees, ids, up, ver, n, typ).value;
    if n in up.deleted then EditedFrom(base, s) && Pairs(s.working) == map[]
    else if IsRenamed(up, n) then
      EditedFrom(base, s) && Pairs(s.working) == Pairs(base.working) + Pairs(OldBase(lib, trees, ids, up, n, typ).value.working)
    else s == base
  }

  /** What loading makes of the store a renamed one gets its data from. */
  ghost predicate EmptiedAs(lib: Lib, trees: map<Name, Versions>, ids: map<Name, CommitId>, up: Upgrades, n: Name, typ: StoreType, s: Sub)
    requires IsRenamed(up, n) && OldBase(lib, trees, ids, up, n, typ).Some?
  {
    EditedFrom(OldBase(lib, trees, ids, up, n, typ).value, s) && Pairs(s.working) == map[]
  }

  /** The old names of the stores whose data is moved. */
  function OldNames(up: Upgrades, mounted: set<Name>): set<Name> {
    set n | n in mounted && Moves(up, n) :: up.renamed[n]
  }

  /** The stores that leave the multistore with the next commit. */
  function RemovedBy(up: Upgrades, mounted: set<Name>): set<Name> {
    (up.deleted * mounted) + OldNames(up, mounted)
  }

  /** What an upgrade has to be: no store keeps an old name, and no two stores get the same data. */
  ghost predicate WellFormed(up: Upgrades, mounted: set<Name>) {
    && (forall n :: n in mounted && Moves(up, n) ==> up.renamed[n] !in mounted)
    && (forall n, o :: n in mounted && o in mounted && Moves(up, n) && Moves(up, o) && up.renamed[n] == up.renamed[o] ==> n == o)
  }

  /** One mounted store is loaded, and with it the store its data comes from. */
  ghost predicate LoadedIn(lib: Lib, trees: map<Name, Versions>, ids: map<Name, CommitId>, up: Upgrades, ver: nat, n: Name, typ: StoreType, stores: Stores) {
    && Loadable(lib, trees, ids, up, ver, n, typ)
    && n in stores && LoadedAs(lib, trees, ids, up, ver, n, typ, stores[n])
    && (Moves(up, n) ==> up.renamed[n] in stores && EmptiedAs(lib, trees, ids, up, n, typ, stores[up.renamed[n]]))
  }

  /** What loadVersion has built once the mounted stores in `done` are loaded. */
  ghost predicate LoadedSoFar(lib: Lib, trees: map<Name, Versions>, ids: map<Name, CommitId>, up: Upgrades, ver: nat,
                              params: map<Name, StoreType>, done: set<Name>, stores: Stores) {
    && done <= params.Keys
    && stores.Keys == done + OldNames(up, done)
    && forall n :: n in done ==> LoadedIn(lib, trees, ids, up, ver, n, params[n], stores)
  }

  lemma NothingLoaded(lib: Lib, trees: map<Name, Versions>, ids: map<Name, CommitId>, up: Upgrades, ver: nat, params: map<Name, StoreType>)
    ensures LoadedSoFar(lib, trees, ids, up, ver, params, {}, map[]) && RemovedBy(up, {}) == {}
  {
  }

  /** newStores after a mounted store is loaded, together with the one its data came from. */
  function AddLoaded(stores: Stores, up: Upgrades, n: Name, s: Sub, emptied: Option<Sub>): Stores
    requires emptied.Some? ==> n in up.renamed
  {
    if emptied.Some? then stores[n := s][up.renamed[n] := emptied.value] else stores[n := s]
  }

  lemma LoadOneMore(lib: Lib, trees: map<Name, Versions>, ids: map<Name, CommitId>, up: Upgrades, ver: nat,
                    params: map<Name, StoreType>, done: set<Name>, stores: Stores, n: Name, s: Sub, emptied: Option<Sub>)
    requires WellFormed(up, params.Keys) && LoadedSoFar(lib, trees, ids, up, ver, params, done, stores)
    requires n in params && n !in done && Loadable(lib, trees, ids, up, ver, n, params[n])
    requires LoadedAs(lib, trees, ids, up, ver, n, params[n], s) && emptied.Some? == Moves(up, n)
    requires Moves(up, n) ==> EmptiedAs(lib, trees, ids, up, n, params[n], emptied.value)
    ensures emptied.Some? ==> n in up.renamed
    ensures LoadedSoFar(lib, trees, ids, up, ver, params, done + {n}, AddLoaded(stores, up, n, s, emptied))
  {
    hide Loadable, LoadedAs, EmptiedAs;
    var more := AddLoaded(stores, up, n, s, emptied);
    assert OldNames(up, done + {n}) == OldNames(up, done) + if Moves(up, n) then {up.renamed[n]} else {};
    forall o | o in done + {n}
      ensures LoadedIn(lib, trees, ids, up, ver, o, params[o], more)
    {
      if o != n {
        assert LoadedIn(lib, trees, ids, up, ver, o, params[o], stores);
      }
    }
  }

  /** removalMap after a mounted store is loaded: it is added if it was deleted, its old name if it was renamed. */
  function MarkRemoved(removal: set<Name>, up: Upgrades, n: Name): set<Name> {
    var marked := if n in up.deleted then removal + {n} else removal;
    if Moves(up, n) then marked + {up.renamed[n]} else marked
  }

  lemma MarkOneMore(was: set<Name>, up: Upgrades, done: set<Name>, n: Name)
    requires n !in done
    ensures MarkRemoved(was + RemovedBy(up, done), up, n) == was + RemovedBy(up, done + {n})
  {
    assert OldNames(up, done + {n}) == OldNames(up, done) + if Moves(up, n) then {up.renamed[n]} else {};
  }

  lemma NothingMarked(was: set<Name>, up: Upgrades)
    ensures was + RemovedBy(up, {}) == was
  {
  }

  lemma PutOneMore(to: KvMap, pairs: KvMap, rest: set<Bytes>, k: Bytes)
    requires k in rest && rest <= pairs.Keys
    ensures (to + (pairs - rest))[k := pairs[k]] == to + (pairs - (rest - {k}))
  {
    assert pairs - (rest - {k}) == (pairs - rest)[k := pairs[k]];
  }

  lemma NothingPut(to: KvMap, pairs: KvMap)
    ensures to + (pairs - pairs.Keys) == to && pairs - {} == pairs
  {
    assert pairs - pairs.Keys == map[];
  }

  // ---- Rolling back and pruning -------------------------------------------------------------------

  function CurrentInfo(lib: Lib, stores: Stores, version: int): CommitInfo {
    CommitInfo(version, map n | n in stores && Persistent(stores[n]) :: LastCommitId(lib, stores[n]))
  }

  predicate HasVersion(stores: Stores, trees: map<Name, Versions>, target: nat, n: Name) {
    n in stores && stores[n].typ.Iavl? ==> target in Saved(trees, n)
  }

  function UpTo(saved: Versions, target: nat): Versions {
    map v | v in saved && v <= target :: saved[v]
  }

  function Above(saved: Versions, height: int): Versions {
    map v | v in saved && v > height :: saved[v]
  }

  /** Loading the target version, for the tree stores in `done`. */
  function RolledBack(stores: Stores, done: set<Name>, trees: map<Name, Versions>, target: nat): Stores {
    map n | n in stores ::
      if n in done && stores[n].typ.Iavl? && target in Saved(trees, n)
      then stores[n].(version := target, committed := Saved(trees, n)[target], working := Saved(trees, n)[target])
      else stores[n]
  }

  function Truncated(stores: Stores, done: set<Name>, trees: map<Name, Versions>, target: nat): map<Name, Versions> {
    map n | n in trees :: if n in done && n in stores && stores[n].typ.Iavl? then UpTo(trees[n], target) else trees[n]
  }

  /** The stores in `done` have the target and have been taken there, with their trees. */
  ghost predicate TakenBack(was: Stores, done: set<Name>, trees: map<Name, Versions>, target: nat, stores: Stores, left: map<Name, Versions>) {
    && done <= was.Keys && (forall n :: n in done ==> HasVersion(was, trees, target, n))
    && stores == RolledBack(was, done, trees, target) && left == Truncated(was, done, trees, target)
  }

  lemma NotYetRolledBack(stores: Stores, done: set<Name>, trees: map<Name, Versions>, target: nat, n: Name)
    requires n in stores && n !in done
    ensures RolledBack(stores, done, trees, target)[n] == stores[n]
    ensures HasVersion(stores, trees, target, n) <==> (stores[n].typ.Iavl? ==> target in Saved(trees, n))
    ensures Saved(Truncated(stores, done, trees, target), n) == Saved(trees, n)
  {
  }

  lemma RollBackOneMore(stores: Stores, done: set<Name>, trees: map<Name, Versions>, target: nat, n: Name)
    requires n in stores && n !in done && HasVersion(stores, trees, target, n)
    ensures stores[n].typ.Iavl? ==> target in Saved(trees, n)
    ensures var now := RolledBack(stores, done, trees, target);
            var more := RolledBack(stores, done + {n}, trees, target);
            var left := Truncated(stores, done, trees, target);
            && Saved(left, n) == Saved(trees, n) && now.Keys == stores.Keys && now[n] == stores[n]
            && (if stores[n].typ.Iavl?
                then more == now[n := stores[n].(version := target, committed := Saved(trees, n)[target],
                                                  working := Saved(trees, n)[target])]
                     && Truncated(stores, done + {n}, trees, target) == left[n := UpTo(Saved(trees, n), target)]
                else more == now && Truncated(stores, done + {n}, trees, target) == left)
  {
    hide UpTo;
  }

  ghost predicate GoesBeyond(saved: Versions, height: int) {
    exists v :: v in saved && v > height
  }

  /** A tree store with a version above the height: others refuse, which is only logged. */
  ghost predicate Prunable(stores: Stores, n: Name, saved: Versions, height: int) {
    height > 0 && n in stores && stores[n].typ.Iavl? && GoesBeyond(saved, height)
  }

  /** Some of the versions up to the height are gone. */
  ghost predicate PartlyPruned(was: Versions, now: Versions, height: int) {
    && (forall v :: v in now ==> v in was && now[v] == was[v])
    && (forall v :: v in was && v > height ==> v in now)
  }

  /** What pruning may have done, whatever failed. */
  ghost predicate PrunedTo(was: map<Name, Versions>, now: map<Name, Versions>, stores: Stores, height: int) {
    && now.Keys == was.Keys
    && forall n :: n in was ==> if Prunable(stores, n, was[n], height) then PartlyPruned(was[n], now[n], height) else now[n] == was[n]
  }

  /** What pruning a store without a failure leaves of it. */
  ghost function PrunedAt(stores: Stores, n: Name, saved: Versions, height: int): Versions {
    if Prunable(stores, n, saved, height) then Above(saved, height) else saved
  }

  lemma NothingPruned(trees: map<Name, Versions>, stores: Stores, height: int)
    ensures PrunedTo(trees, trees, stores, height)
    ensures height <= 0 ==> forall n :: n in trees ==> trees[n] == PrunedAt(stores, n, trees[n], height)
    ensures forall n :: n in trees && (n in stores ==> !stores[n].typ.Iavl?) ==> trees[n] == PrunedAt(stores, n, trees[n], height)
  {
  }

  lemma PruneOneMore(was: map<Name, Versions>, now: map<Name, Versions>, stores: Stores, height: int, n: Name, left: Versions)
    requires PrunedTo(was, now, stores, height) && height > 0
    requires n in was && now[n] == was[n] && n in stores && stores[n].typ.Iavl?
    requires if GoesBeyond(was[n], height) then PartlyPruned(was[n], left, height) else left == was[n]
    ensures PrunedTo(was, now[n := left], stores, height)
    ensures GoesBeyond(was[n], height) ==> PrunedAt(stores, n, was[n], height) == Above(was[n], height)
    ensures !GoesBeyond(was[n], height) ==> PrunedAt(stores, n, was[n], height) == was[n]
  {
    hide PartlyPruned, Above, GoesBeyond;
  }

  /** All versions in ascending order. */
  ghost predicate VersionList(vs: seq<nat>, saved: Versions) {
    && (forall i, j :: 0 <= i < j < |vs| ==> vs[i] < vs[j])
    && (forall v :: v in vs <==> v in saved)
  }

  /** The greatest version is the last in the list. */
  lemma LastIsGreatest(vs: seq<nat>, saved: Versions, v: nat)
    requires VersionList(vs, saved) && v in saved && forall w :: w in saved ==> w <= v
    ensures |vs| > 0 && vs[|vs| - 1] == v
  {
    assert v in vs;
    var last := vs[|vs| - 1];
    assert last in vs;
  }

  lemma NothingRolledBack(stores: Stores, trees: map<Name, Versions>, target: nat)
    ensures RolledBack(stores, {}, trees, target) == stores && Truncated(stores, {}, trees, target) == trees
  {
  }

  lemma NothingRemoved(mounted: set<Name>)
    ensures RemovedBy(NO_UPGRADES, mounted) == {} && WellFormed(NO_UPGRADES, mounted)
  {
    assert OldNames(NO_UPGRADES, mounted) == {};
  }

  /** After the rollback of every store, each can be loaded at the target. */
  lemma RollbackLoads(lib: Lib, stores: Stores, trees: map<Name, Versions>, params: map<Name, StoreType>, target: nat)
    requires target > 0 && params.Keys == stores.Keys && forall n :: n in stores ==> stores[n].typ == params[n]
    requires forall n :: n in stores ==> HasVersion(stores, trees, target, n)
    ensures var info := CurrentInfo(lib, RolledBack(stores, stores.Keys, trees, target), target);
            var left := Truncated(stores, stores.Keys, trees, target);
            forall n :: n in params ==> Loadable(lib, left, info.ids, NO_UPGRADES, target, n, params[n])
  {
    var info := CurrentInfo(lib, RolledBack(stores, stores.Keys, trees, target), target);
    var left := Truncated(stores, stores.Keys, trees, target);
    forall n | n in params
      ensures Loadable(lib, left, info.ids, NO_UPGRADES, target, n, params[n])
    {
      assert HasVersion(stores, trees, target, n);
      if stores[n].typ.Iavl? {
        assert n in trees && target in Saved(left, n);
        assert info.ids[n].version == target;
      }
    }
  }
}
