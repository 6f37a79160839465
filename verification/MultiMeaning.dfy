/** The operations of a multistore store by store: what each finds under a name, and what it leaves there. */
module MultiMeaning {
  import opened Base
  import opened KvStore
  import opened MultiStore
  import opened MultiLaws
  import opened MultiSnapshot
  import opened RootStores

  // ---- Trees -----------------------------------------------------------------------------------------

  /** The last leaf with the key. */
  ghost predicate LastLeaf(t: Tree, i: nat, k: Bytes) {
    && i < |t| && t[i].height == 0 && k == (if t[i].key.Some? then t[i].key.value else [])
    && forall j :: i < j < |t| && t[j].height == 0 ==> k != if t[j].key.Some? then t[j].key.value else []
  }

  /** A tree has the keys of its leaves, nil counting as empty, each with the value of the last such leaf. */
  lemma {:induction false} PairsAre(t: Tree, k: Bytes)
    ensures k in Pairs(t) <==> exists i: nat :: LastLeaf(t, i, k)
    ensures forall i: nat :: LastLeaf(t, i, k) ==> k in Pairs(t) && Pairs(t)[k] == if t[i].value.Some? then t[i].value.value else []
  {
    if t != [] {
      var front, last := t[..|t| - 1], |t| - 1;
      PairsAre(front, k);
      if LastLeaf(t, last, k) {
        assert forall i: nat :: LastLeaf(t, i, k) ==> i == last;
      } else {
        forall i: nat
          ensures LastLeaf(t, i, k) <==> LastLeaf(front, i, k)
        {
          if LastLeaf(t, i, k) {
            assert forall j :: i < j < |front| ==> front[j] == t[j];
          }
          if LastLeaf(front, i, k) {
            assert forall j :: i < j < |front| ==> front[j] == t[j];
          }
        }
      }
    }
  }

  // ---- Loading and upgrades --------------------------------------------------------------------------

  /**
   * When a mounted store is loaded. Plain stores always are. A tree store that is neither added nor renamed has to be
   * at the version of the whole; a new one is never refused for its version. Whatever version its id has must be
   * saved, and that of the store it is renamed from.
   */
  lemma LoadableIff(lib: Lib, trees: map<Name, Versions>, ids: map<Name, CommitId>, up: Upgrades, ver: nat, n: Name, typ: StoreType)
    ensures var isNew := n in up.added || (n in up.renamed && up.renamed[n] != []);
            Loadable(lib, trees, ids, up, ver, n, typ) <==>
              (typ.Iavl? ==>
                 && (if isNew then lib.admits(Saved(trees, n).Keys, ver + 1) else (if n in ids then ids[n].version else 0) == ver)
                 && (n in ids && ids[n].version != 0 ==> ids[n].version > 0 && ids[n].version in Saved(trees, n))
                 && (n in up.renamed && up.renamed[n] != [] && n !in up.deleted ==>
                       var o := up.renamed[n];
                       o in ids && ids[o].version != 0 ==> ids[o].version > 0 && ids[o].version in Saved(trees, o)))
  {
  }

  /** What a loaded tree store stands at: the version of its id or, without one, the greatest there is. */
  lemma LoadedAt(lib: Lib, trees: map<Name, Versions>, ids: map<Name, CommitId>, up: Upgrades, ver: nat, n: Name, s: Sub)
    requires Loadable(lib, trees, ids, up, ver, n, Iavl) && LoadedAs(lib, trees, ids, up, ver, n, Iavl, s)
    ensures s.typ.Iavl?
    ensures s.initial == if n in up.added || (n in up.renamed && up.renamed[n] != []) then ver + 1 else 0
    ensures n in ids && ids[n].version != 0 ==> s.version == ids[n].version
    ensures (n in ids ==> ids[n].version == 0) && n in trees ==> forall v :: v in trees[n] ==> v <= s.version
    ensures if n in trees && s.version in trees[n] then s.committed == trees[n][s.version]
            else s.version == 0 && s.committed == [] && (n in trees ==> trees[n].Keys == {})
    ensures n in up.deleted ==> Pairs(s.working) == map[]
    ensures n !in up.deleted && !(n in up.renamed && up.renamed[n] != []) ==> s.working == s.committed
  {
    hide Pairs;
  }

  /** Which stores are loaded, and which will leave with the next commit. */
  lemma LoadedNames(lib: Lib, trees: map<Name, Versions>, ids: map<Name, CommitId>, up: Upgrades, ver: nat,
                    params: map<Name, StoreType>, stores: Stores, n: Name)
    requires LoadedSoFar(lib, trees, ids, up, ver, params, params.Keys, stores)
    ensures n in stores <==>
            n in params || exists o :: o in params && o !in up.deleted && o in up.renamed && up.renamed[o] == n && n != []
    ensures n in RemovedBy(up, params.Keys) <==>
            || (n in params && n in up.deleted)
            || exists o :: o in params && o !in up.deleted && o in up.renamed && up.renamed[o] == n && n != []
  {
    hide LoadedIn;
  }

  /** The store at version 5 under one name is mounted under another, which is not listed as added. */
  lemma RenamedOnly(lib: Lib, t: Tree, stores: Stores)
    requires Lawful(lib)
    ensures var trees: map<Name, Versions>, ids := map[[2] := map[5 := t]], map[[2] := CommitId(5, lib.hash(t))];
            var up, params := Upgrades({}, map[[9] := [2]], {}), map[[9] := Iavl];
            && WellFormed(up, params.Keys) && Loadable(lib, trees, ids, up, 5, [9], Iavl)
            && (LoadedSoFar(lib, trees, ids, up, 5, params, params.Keys, stores) ==>
                  var now := SavedAfter(lib, stores, stores.Keys, 6, trees);
                  var info := InfoFor(lib, stores, RemovedBy(up, params.Keys), 6);
                  && 6 in Saved(now, [9]) && Pairs(Saved(now, [9])[6]) == Pairs(t)
                  && 6 in Saved(now, [2]) && Pairs(Saved(now, [2])[6]) == map[]
                  && [9] in info.ids && info.ids[[9]].version == 6 && [2] !in info.ids)
  {
    var trees: map<Name, Versions>, ids := map[[2] := map[5 := t]], map[[2] := CommitId(5, lib.hash(t))];
    var up, params: map<Name, StoreType> := Upgrades({}, map[[9] := [2]], {}), map[[9] := Iavl];
    assert Saved(trees, [9]).Keys == {} && 5 in Saved(trees, [2]);
    LoadableIff(lib, trees, ids, up, 5, [9], Iavl);
    hide Pairs, Loadable;
    if LoadedSoFar(lib, trees, ids, up, 5, params, params.Keys, stores) {
      RenamedOnlyCommits(lib, t, trees, ids, up, params, stores);
    }
  }

  lemma RenamedOnlyCommits(lib: Lib, t: Tree, trees: map<Name, Versions>, ids: map<Name, CommitId>, up: Upgrades,
                           params: map<Name, StoreType>, stores: Stores)
    requires Lawful(lib) && trees == map[[2] := map[5 := t]] && ids == map[[2] := CommitId(5, lib.hash(t))]
    requires up == Upgrades({}, map[[9] := [2]], {}) && params == map[[9] := Iavl] && WellFormed(up, params.Keys)
    requires LoadedSoFar(lib, trees, ids, up, 5, params, params.Keys, stores)
    ensures var now := SavedAfter(lib, stores, stores.Keys, 6, trees);
            var info := InfoFor(lib, stores, RemovedBy(up, params.Keys), 6);
            && 6 in Saved(now, [9]) && Pairs(Saved(now, [9])[6]) == Pairs(t)
            && 6 in Saved(now, [2]) && Pairs(Saved(now, [2])[6]) == map[]
            && [9] in info.ids && info.ids[[9]].version == 6 && [2] !in info.ids
  {
    hide Pairs, SavedAfter, InfoFor;
    var removal := RemovedBy(up, params.Keys);
    assert removal == {} + removal;
    RenameMovesData(lib, trees, ids, up, 5, params, stores, {}, removal, [9]);
    RenamedLoaded(lib, trees, ids, up, 5, params, stores, {}, removal, [9]);
    assert LoadedIn(lib, trees, ids, up, 5, [9], Iavl, stores);
    CommitMeans(lib, stores, removal, 6, trees, [9]);
  }

  // ---- Committing ------------------------------------------------------------------------------------

  /**
   * What a commit does under a name: a tree store behind the version saves its working tree and is recorded with its
   * hash, one that has the version is recorded as it stands, a plain database store has a fixed id, and the others are
   * cleared and not recorded. Nor is a store that is being removed.
   */
  lemma CommitMeans(lib: Lib, stores: Stores, removal: set<Name>, version: nat, trees: map<Name, Versions>, n: Name)
    requires n in stores && version > 0
    ensures var s := stores[n];
            var next := if s.version == 0 && s.initial > 0 then s.initial else s.version + 1;
            var t := lib.seal(s.working, next);
            var now, after := SavedAfter(lib, stores, stores.Keys, version, trees), CommitAll(lib, stores, version);
            var info := InfoFor(lib, stores, removal, version);
            && info.version == version && n in after
            && (n in info.ids <==> (s.typ.Iavl? || s.typ.DbAdapter?) && n !in removal)
            && (n in WorkingHashes(lib, stores, removal) <==> s.typ.Iavl? && n !in removal)
            && (s.typ.Iavl? && s.version < version ==>
                  && Saved(now, n) == Saved(trees, n)[next := t] && after[n] == Sub(Iavl, next, s.initial, t, t)
                  && (n !in removal ==> info.ids[n] == CommitId(next, lib.hash(t))))
            && (s.typ.Iavl? && s.version >= version ==>
                  && after[n] == s
                  && (n !in removal ==> info.ids[n] == CommitId(version, lib.hash(s.committed))))
            && (s.typ.Iavl? && n !in removal ==> WorkingHashes(lib, stores, removal)[n] == lib.hash(t))
            && (s.typ.DbAdapter? ==> after[n] == s && (n !in removal ==> info.ids[n] == CommitId(-1, Ascii("FAKE_HASH"))))
            && (!s.typ.Iavl? && !s.typ.DbAdapter? ==> after[n] == s.(working := []))
            && (!s.typ.Iavl? || s.version >= version ==> Saved(now, n) == Saved(trees, n))
            && (Collides(lib, s, version, Saved(trees, n)) <==>
                  s.typ.Iavl? && s.version < version && next in Saved(trees, n) && Saved(trees, n)[next] != t)
  {
    SavedAt(lib, stores, stores.Keys, version, trees, n);
    FakeHash();
    hide SavedAfter;
  }

  lemma FakeHash()
    ensures FAKE_HASH == Ascii("FAKE_HASH")
  {
  }

  /** Under other names it saves and records nothing. */
  lemma CommitElsewhere(lib: Lib, stores: Stores, removal: set<Name>, version: nat, trees: map<Name, Versions>, n: Name)
    requires n !in stores
    ensures Saved(SavedAfter(lib, stores, stores.Keys, version, trees), n) == Saved(trees, n)
    ensures n !in CommitAll(lib, stores, version) && n !in InfoFor(lib, stores, removal, version).ids
  {
    SavedAt(lib, stores, stores.Keys, version, trees, n);
  }

  // ---- Rolling back and pruning ----------------------------------------------------------------------

  /** A rollback that finds the target in every tree store drops what comes after it, and nothing else. */
  lemma RollbackMeans(lib: Lib, stores: Stores, trees: map<Name, Versions>, target: nat, n: Name)
    requires forall o :: o in stores && stores[o].typ.Iavl? ==> target in Saved(trees, o)
    ensures forall o :: o in stores ==> HasVersion(stores, trees, target, o)
    ensures var left, now := Truncated(stores, stores.Keys, trees, target), RolledBack(stores, stores.Keys, trees, target);
            var ids := CurrentInfo(lib, now, target).ids;
            && (forall v :: v in Saved(left, n) <==> v in Saved(trees, n) && (n in stores && stores[n].typ.Iavl? ==> v <= target))
            && (forall v :: v in Saved(left, n) ==> Saved(left, n)[v] == Saved(trees, n)[v])
            && (n in now <==> n in stores)
            && (n in ids <==> n in stores && (stores[n].typ.Iavl? || stores[n].typ.DbAdapter?))
            && (n in stores && stores[n].typ.Iavl? ==>
                  var t := Saved(trees, n)[target];
                  && now[n].version == target && now[n].committed == now[n].working == t
                  && ids[n] == CommitId(target, lib.hash(t)))
            && (n in stores && !stores[n].typ.Iavl? ==> now[n] == stores[n])
  {
  }

  /**
   * Pruning drops no version above the height, changes no tree, and leaves a store alone that is not a tree store or
   * has no version above the height. Unless a deletion fails, it drops the rest.
   */
  lemma PruneMeans(stores: Stores, was: map<Name, Versions>, now: map<Name, Versions>, height: int, n: Name)
    requires PrunedTo(was, now, stores, height) && n in was
    ensures n in now && forall v :: v in now[n] ==> v in was[n] && now[n][v] == was[n][v]
    ensures forall v :: v in was[n] && v > height ==> v in now[n]
    ensures n !in stores || !stores[n].typ.Iavl? || height <= 0 || (forall v :: v in was[n] ==> v <= height) ==> now[n] == was[n]
    ensures now[n] == PrunedAt(stores, n, was[n], height) ==>
              (now[n] == was[n] <==>
                 || n !in stores || !stores[n].typ.Iavl? || height <= 0
                 || (forall v :: v in was[n] ==> v <= height) || (forall v :: v in was[n] ==> v > height))
    ensures now[n] == PrunedAt(stores, n, was[n], height) && now[n] != was[n] ==> forall v :: v in now[n] <==> v in was[n] && v > height
  {
    if GoesBeyond(was[n], height) {
      assert exists v :: v in was[n] && v > height;
    }
    if now[n] == PrunedAt(stores, n, was[n], height) && forall v :: v in was[n] ==> v > height {
      assert Above(was[n], height) == was[n];
    }
  }

  // ---- Snapshots -------------------------------------------------------------------------------------

  /** Which names a stream has items for, in the order of the items. */
  function NamesIn(items: seq<Item>): seq<Name> {
    if items == [] then []
    else NamesIn(items[..|items| - 1]) + if items[|items| - 1].StoreItem? then [items[|items| - 1].name] else []
  }

  lemma {:induction false} NamesOfNodes(items: seq<Item>, nodes: seq<Item>)
    requires forall i :: 0 <= i < |nodes| ==> nodes[i].NodeItem?
    ensures NamesIn(items + nodes) == NamesIn(items)
  {
    if nodes == [] {
      assert items + nodes == items;
    } else {
      NamesOfNodes(items, nodes[..|nodes| - 1]);
      assert (items + nodes)[..|items + nodes| - 1] == items + nodes[..|nodes| - 1];
    }
  }

  /** The stores stand in the stream in the order of their names, which with the nodes between them makes up its length. */
  lemma {:induction false} StreamNames(names: seq<Name>, trees: map<Name, Versions>, height: nat)
    requires forall i :: 0 <= i < |names| ==> height in Saved(trees, names[i])
    ensures NamesIn(Stream(names, trees, height)) == names
  {
    if names != [] {
      var front, last := names[..|names| - 1], names[|names| - 1];
      StreamNames(front, trees, height);
      var before := Stream(front, trees, height);
      assert (before + [StoreItem(last)])[..|before|] == before;
      NamesOfNodes(before + [StoreItem(last)], NodeItems(Saved(trees, last)[height]));
    }
  }

  /** Once the latest version is loaded, it can be snapshot, if no plain database is mounted; no other height behind it can. */
  lemma LatestCanSnapshot(rs: RootStore)
    requires rs.db.latest > 0 && rs.db.latest in rs.db.infos
    requires LoadedSoFar(rs.lib, rs.db.trees, rs.db.infos[rs.db.latest].ids, NO_UPGRADES, rs.db.latest, rs.params, rs.params.Keys, rs.stores)
    ensures rs.CanSnapshot(rs.db.latest) <==> forall n :: n in rs.params ==> rs.params[n] != DbAdapter
    ensures forall h: nat :: rs.CanSnapshot(h) ==> 0 < h <= rs.db.latest
  {
    var ver, ids := rs.db.latest, rs.db.infos[rs.db.latest].ids;
    assert OldNames(NO_UPGRADES, rs.params.Keys) == {};
    hide Pairs;
    forall n | n in rs.params
      ensures n in rs.stores && rs.stores[n].typ == rs.params[n]
      ensures rs.params[n].Iavl? ==> ver in Saved(rs.db.trees, n)
    {
      assert LoadedIn(rs.lib, rs.db.trees, ids, NO_UPGRADES, ver, n, rs.params[n], rs.stores);
    }
  }

  /** What Restore refuses, whatever the tree library accepts. */
  ghost predicate Refused(item: Item, stores: Stores, trees: map<Name, Versions>) {
    match item
    case StoreItem(n) => n !in stores || !stores[n].typ.Iavl? || Saved(trees, n).Keys != {} || stores[n].working != []
    case NodeItem(_, _, h, _) => h > 127
    case _ => true
  }

  /** What an import in progress has taken: a store that has got a tree, or is about to, was named, and the others are as before. */
  ghost predicate Grown(im: Importing, stores: Stores, trees: map<Name, Versions>, items: seq<Item>) {
    && im.stores.Keys == stores.Keys
    && (im.into.None? <==> items == [])
    && (im.into.Some? ==> im.into.value in stores && StoreItem(im.into.value) in items)
    && (forall n :: n in stores ==> im.stores[n].typ == stores[n].typ)
    && (forall n :: StoreItem(n) in items && im.into != Some(n) ==> Saved(im.trees, n).Keys != {})
    && (forall n :: StoreItem(n) !in items ==> Saved(im.trees, n) == Saved(trees, n) && (n in stores ==> im.stores[n] == stores[n]))
  }

  /** The same, between two stores. */
  ghost predicate Whole(done: Importing, stores: Stores, trees: map<Name, Versions>, items: seq<Item>) {
    && done.stores.Keys == stores.Keys
    && (forall n :: n in stores ==> done.stores[n].typ == stores[n].typ)
    && (forall n :: StoreItem(n) in items ==> Saved(done.trees, n).Keys != {})
    && (forall n :: StoreItem(n) !in items ==> Saved(done.trees, n) == Saved(trees, n) && (n in stores ==> done.stores[n] == stores[n]))
  }

  lemma FinishGrows(imports: Imports, height: nat, stores: Stores, trees: map<Name, Versions>, front: seq<Item>, before: Importing)
    requires Grown(before, stores, trees, front) && Finish(imports, height, before).Some?
    ensures Whole(Finish(imports, height, before).value, stores, trees, front)
  {
    if before.into.Some? {
      var n := before.into.value;
      assert height in Saved(Finish(imports, height, before).value.trees, n);
    }
  }

  lemma TakeGrows(imports: Imports, height: nat, stores: Stores, trees: map<Name, Versions>, front: seq<Item>, before: Importing, item: Item)
    requires Grown(before, stores, trees, front) && Take(imports, height, before, item).Some?
    ensures Grown(Take(imports, height, before, item).value, stores, trees, front + [item])
    ensures !Refused(item, stores, trees) && (item.StoreItem? ==> item !in front) && (front == [] ==> item.StoreItem?)
  {
    if item.StoreItem? {
      FinishGrows(imports, height, stores, trees, front, before);
      hide Finish;
      var done := Finish(imports, height, before).value;
      hide Grown;
      assert Importable(item.name, done);
      StartGrows(done, item.name, stores, trees, front);
    } else {
      hide Saved;
    }
  }

  lemma StartGrows(done: Importing, n: Name, stores: Stores, trees: map<Name, Versions>, front: seq<Item>)
    requires Whole(done, stores, trees, front) && Importable(n, done)
    ensures Grown(done.(into := Some(n), nodes := []), stores, trees, front + [StoreItem(n)])
    ensures !Refused(StoreItem(n), stores, trees) && StoreItem(n) !in front
  {
    assert Saved(done.trees, n).Keys == {};
    hide Saved;
  }

  lemma {:induction false} TakesGrow(imports: Imports, height: nat, stores: Stores, trees: map<Name, Versions>, items: seq<Item>)
    requires TakeAll(imports, height, Begin(stores, trees), items).Some?
    ensures Grown(TakeAll(imports, height, Begin(stores, trees), items).value, stores, trees, items)
  {
    if items != [] {
      var front, item := items[..|items| - 1], items[|items| - 1];
      TakesGrow(imports, height, stores, trees, front);
      hide Grown, Take;
      TakeGrows(imports, height, stores, trees, front, TakeAll(imports, height, Begin(stores, trees), front).value, item);
      assert items == front + [item];
    }
  }

  lemma FitsOneMore(front: seq<Item>, item: Item, stores: Stores, trees: map<Name, Versions>)
    requires forall i :: 0 <= i < |front| ==> !Refused(front[i], stores, trees)
    requires forall i, j :: 0 <= i < j < |front| && front[i].StoreItem? && front[j].StoreItem? ==> front[i] != front[j]
    requires !Refused(item, stores, trees) && (item.StoreItem? ==> item !in front)
    ensures var items := front + [item];
            && (forall i :: 0 <= i < |items| ==> !Refused(items[i], stores, trees))
            && forall i, j :: 0 <= i < j < |items| && items[i].StoreItem? && items[j].StoreItem? ==> items[i] != items[j]
  {
    hide Refused;
  }

  /** A stream is taken only if it starts with a store, and each store in it is an empty tree store and occurs once. */
  lemma {:induction false} TakesFitting(imports: Imports, height: nat, stores: Stores, trees: map<Name, Versions>, items: seq<Item>)
    requires TakeAll(imports, height, Begin(stores, trees), items).Some?
    ensures items != [] ==> items[0].StoreItem?
    ensures forall i :: 0 <= i < |items| ==> !Refused(items[i], stores, trees)
    ensures forall i, j :: 0 <= i < j < |items| && items[i].StoreItem? && items[j].StoreItem? ==> items[i] != items[j]
  {
    if items != [] {
      var front, item := items[..|items| - 1], items[|items| - 1];
      TakesFitting(imports, height, stores, trees, front);
      TakesGrow(imports, height, stores, trees, front);
      hide Grown, Take, Refused;
      TakeGrows(imports, height, stores, trees, front, TakeAll(imports, height, Begin(stores, trees), front).value, item);
      assert items == front + [item];
      FitsOneMore(front, item, stores, trees);
    }
  }

  /** So a restore that imports anything fits its target. */
  lemma ImportedFits(imports: Imports, height: nat, stores: Stores, trees: map<Name, Versions>, items: seq<Item>)
    requires Imported(imports, height, stores, trees, items).Some?
    ensures items != [] ==> !items[0].NodeItem?
    ensures forall i :: 0 <= i < |items| && (forall j :: 0 <= j <= i ==> items[j].StoreItem? || items[j].NodeItem?) ==>
              !Refused(items[i], stores, trees)
  {
    var leading := items[..Leading(items)];
    TakesFitting(imports, height, stores, trees, leading);
    forall i | 0 <= i < |items| && forall j :: 0 <= j <= i ==> items[j].StoreItem? || items[j].NodeItem?
      ensures !Refused(items[i], stores, trees)
    {
      LeadingAtLeast(items, i + 1);
      assert leading[i] == items[i];
    }
    if items != [] && OfStores(items[0]) {
      LeadingAtLeast(items, 1);
      assert leading[0] == items[0];
    }
  }
}
