/** The snapshot stream of internal/rootmulti/store.go: what Snapshot emits and what Restore makes of a stream. */
module MultiSnapshot {
  import opened Base
  import opened Lex
  import opened MultiStore
  import opened MultiLaws

  /** A SnapshotItem; `Other` is one that is meant for somebody else, `Corrupt` one that does not decode. */
  datatype Item =
    | StoreItem(name: Name)
    | NodeItem(key: Option<Bytes>, value: Option<Bytes>, height: int, version: int)
    | Other(payload: Bytes)
    | NoItem
    | Corrupt

  predicate OfStores(item: Item) {
    item.StoreItem? || item.NodeItem?
  }

  // ---- Emitting ----------------------------------------------------------------------------------------

  function NodeItems(t: Tree): (items: seq<Item>) {
    seq(|t|, i requires 0 <= i < |t| => NodeItem(t[i].key, t[i].value, t[i].height, t[i].version))
  }

  /** The items of the named stores, one after the other. */
  function Stream(names: seq<Name>, trees: map<Name, Versions>, height: nat): seq<Item>
    requires forall i :: 0 <= i < |names| ==> height in Saved(trees, names[i])
  {
    if names == [] then []
    else
      var last := names[|names| - 1];
      Stream(names[..|names| - 1], trees, height) + [StoreItem(last)] + NodeItems(Saved(trees, last)[height])
  }

  function TreeNames(stores: Stores): set<Name> {
    set n | n in stores && stores[n].typ.Iavl?
  }

  /** The names of a set, in byte order. */
  ghost predicate InNameOrder(names: seq<Name>, all: set<Name>) {
    && (forall i, j :: 0 <= i < j < |names| ==> Less(names[i], names[j]))
    && (forall n :: n in names <==> n in all)
  }

  /** So the stream does not depend on the order in which the map yields the stores. */
  lemma {:induction false} OneNameOrder(a: seq<Name>, b: seq<Name>, all: set<Name>)
    requires InNameOrder(a, all) && InNameOrder(b, all)
    ensures a == b
  {
    NoNames(a, all);
    NoNames(b, all);
    if a != [] {
      assert a[|a| - 1] in b;
      var x, y := a[|a| - 1], b[|b| - 1];
      assert y in a;
      if x != y {
        assert Less(y, x) && Less(x, y);
        Asymmetric(x, y);
      }
      DropLast(a, all);
      DropLast(b, all);
      OneNameOrder(a[..|a| - 1], b[..|b| - 1], all - {x});
    }
  }

  lemma OrderHasAll(names: seq<Name>, all: set<Name>)
    requires InNameOrder(names, all)
    ensures forall n :: n in names <==> n in all
  {
  }

  lemma NoNames(names: seq<Name>, all: set<Name>)
    requires InNameOrder(names, all)
    ensures names == [] <==> all == {}
  {
    if names != [] {
      assert names[0] in all;
    }
  }

  lemma DropLast(names: seq<Name>, all: set<Name>)
    requires InNameOrder(names, all) && names != []
    ensures InNameOrder(names[..|names| - 1], all - {names[|names| - 1]})
  {
    var x := names[|names| - 1];
    forall i | 0 <= i < |names| - 1
      ensures names[i] != x
    {
      Irreflexive(x);
    }
    forall n | n in all - {x}
      ensures n in names[..|names| - 1]
    {
      assert n in names;
    }
  }

  lemma InsertInOrder(names: seq<Name>, all: set<Name>, n: Name, i: nat)
    requires InNameOrder(names, all) && n !in all && i <= |names|
    requires (forall j :: 0 <= j < i ==> Less(names[j], n)) && (i < |names| ==> !Less(names[i], n))
    ensures InNameOrder(names[..i] + [n] + names[i..], all + {n})
  {
    var more := names[..i] + [n] + names[i..];
    forall j | i <= j < |names|
      ensures Less(n, names[j])
    {
      assert names[i] in names;
      Total(n, names[i]);
      if i < j {
        Transitive(n, names[i], names[j]);
      }
    }
    forall m | m in all + {n}
      ensures m in more
    {
      if m != n {
        assert m in names;
      }
    }
  }

  /** The sort of Snapshot, here by insertion. */
  method SortNames(all: set<Name>) returns (names: seq<Name>)
    ensures InNameOrder(names, all)
  {
    names := [];
    var rest, done: set<Name> := all, {};
    while rest != {}
      invariant rest <= all && done == all - rest && InNameOrder(names, done)
      decreases |rest|
    {
      var n :| n in rest;
      rest := rest - {n};
      var i := 0;
      while i < |names| && Less(names[i], n)
        invariant i <= |names| && forall j :: 0 <= j < i ==> Less(names[j], n)
      {
        i := i + 1;
      }
      InsertInOrder(names, done, n, i);
      names := names[..i] + [n] + names[i..];
      done := done + {n};
    }
    assert done == all;
  }

  lemma StreamNext(names: seq<Name>, i: nat, trees: map<Name, Versions>, height: nat)
    requires i < |names| && forall j :: 0 <= j <= i ==> height in Saved(trees, names[j])
    ensures Stream(names[..i + 1], trees, height) ==
            Stream(names[..i], trees, height) + [StoreItem(names[i])] + NodeItems(Saved(trees, names[i])[height])
  {
    assert names[..i + 1][..i] == names[..i];
  }

  // ---- The wire and the importer -----------------------------------------------------------------------

  /** An empty byte string is not sent, and arrives as nil. */
  function Nil(b: Option<Bytes>): Option<Bytes> {
    if Raw(b) == [] then None else b
  }

  function Wire(item: Item): Item {
    if item.NodeItem? then item.(key := Nil(item.key), value := Nil(item.value)) else item
  }

  function Sent(items: seq<Item>): seq<Item> {
    seq(|items|, i requires 0 <= i < |items| => Wire(items[i]))
  }

  function ToInt8(x: int): int {
    (x + 128) % 256 - 128
  }

  /** The node Restore makes of an item: keys and leaf values are never nil. */
  function Received(item: Item): Node
    requires item.NodeItem?
  {
    var height := ToInt8(item.height);
    Node(Some(Raw(item.key)), if height == 0 then Some(Raw(item.value)) else item.value, height, item.version)
  }

  /** A node as it is after the wire. */
  function Normal(n: Node): Node {
    n.(key := Some(Raw(n.key)), value := if n.height == 0 then Some(Raw(n.value)) else Nil(n.value))
  }

  function NormalTree(t: Tree): (u: Tree)
    ensures |u| == |t|
  {
    seq(|t|, i requires 0 <= i < |t| => Normal(t[i]))
  }

  /** Which nodes the tree library takes next, and which node lists make a whole tree of a version. */
  datatype Imports = Imports(fits: (Tree, int) -> bool, whole: (Tree, int) -> bool)

  /** The state of a restore: the store being imported with its nodes so far, the stores and the saved trees. */
  datatype Importing = Importing(into: Option<Name>, nodes: Tree, stores: Stores, trees: map<Name, Versions>)

  function Begin(stores: Stores, trees: map<Name, Versions>): Importing {
    Importing(None, [], stores, trees)
  }

  /** Committing the importer saves the tree as the one version of its store. */
  function Finish(imports: Imports, height: nat, im: Importing): Option<Importing> {
    match im.into
    case None => Some(im)
    case Some(n) =>
      if n !in im.stores || !imports.whole(im.nodes, height) then None
      else Some(Importing(None, [], im.stores[n := im.stores[n].(version := height, committed := im.nodes, working := im.nodes)],
                          im.trees[n := Saved(im.trees, n)[height := im.nodes]]))
  }

  /** A store can be imported into when it is a tree store and empty. */
  predicate Importable(n: Name, im: Importing) {
    n in im.stores && im.stores[n].typ.Iavl? && Saved(im.trees, n) == map[] && im.stores[n].working == []
  }

  /** What Restore does with one item. */
  function Take(imports: Imports, height: nat, im: Importing, item: Item): Option<Importing> {
    match item
    case StoreItem(n) =>
      (match Finish(imports, height, im)
       case None => None
       case Some(done) => if Importable(n, done) then Some(done.(into := Some(n), nodes := [])) else None)
    case NodeItem(_, _, h, _) =>
      if im.into.None? || h > 127 || !imports.fits(im.nodes + [Received(item)], height) then None
      else Some(im.(nodes := im.nodes + [Received(item)]))
    case _ => None
  }

  function TakeAll(imports: Imports, height: nat, im: Importing, items: seq<Item>): Option<Importing> {
    if items == [] then Some(im)
    else
      match TakeAll(imports, height, im, items[..|items| - 1])
      case None => None
      case Some(before) => Take(imports, height, before, items[|items| - 1])
  }

  /** How many of the items are for stores before the first that is not. */
  function Leading(items: seq<Item>): (k: nat)
    ensures k <= |items| && (forall i :: 0 <= i < k ==> OfStores(items[i]))
    ensures k < |items| ==> !OfStores(items[k])
  {
    if items == [] || !OfStores(items[0]) then 0
    else 1 + Leading(items[1..])
  }

  /** The restore of a stream up to its first foreign item, before the metadata is written. */
  function Imported(imports: Imports, height: nat, stores: Stores, trees: map<Name, Versions>, items: seq<Item>): Option<Importing> {
    match TakeAll(imports, height, Begin(stores, trees), items[..Leading(items)])
    case None => None
    case Some(im) => Finish(imports, height, im)
  }

  /** What a restore that fails leaves behind: what had been imported by then. */
  ghost predicate Reached(imports: Imports, height: nat, was: Importing, items: seq<Item>, stores: Stores, trees: map<Name, Versions>) {
    exists k: nat, im :: ReachedAt(imports, height, was, items, k, im) && LeavesOf(imports, height, im, stores, trees)
  }

  ghost predicate ReachedAt(imports: Imports, height: nat, was: Importing, items: seq<Item>, k: nat, im: Importing) {
    k <= Leading(items) && TakeAll(imports, height, was, items[..k]) == Some(im)
  }

  /** The tree being imported is not saved yet, or has just been. */
  ghost predicate LeavesOf(imports: Imports, height: nat, im: Importing, stores: Stores, trees: map<Name, Versions>) {
    || (stores == im.stores && trees == im.trees)
    || Finish(imports, height, im) == Some(Begin(stores, trees))
  }

  /** Where there are new trees, of that height, there were none before. */
  ghost predicate OnlyAdded(was: map<Name, Versions>, now: map<Name, Versions>, height: nat) {
    forall n :: Saved(now, n) == Saved(was, n) || (Saved(was, n) == map[] && Saved(now, n).Keys == {height})
  }

  lemma FinishAddsOnly(imports: Imports, height: nat, was: map<Name, Versions>, im: Importing)
    requires OnlyAdded(was, im.trees, height) && (im.into.Some? ==> Saved(im.trees, im.into.value) == map[])
    ensures var done := Finish(imports, height, im); done.Some? ==> OnlyAdded(was, done.value.trees, height)
  {
  }

  lemma {:induction false} TakesAddOnly(imports: Imports, height: nat, stores: Stores, was: map<Name, Versions>, items: seq<Item>)
    ensures var im := TakeAll(imports, height, Begin(stores, was), items);
            im.Some? ==> && OnlyAdded(was, im.value.trees, height)
                         && (im.value.into.Some? ==> Saved(im.value.trees, im.value.into.value) == map[])
  {
    if items != [] {
      var front := items[..|items| - 1];
      TakesAddOnly(imports, height, stores, was, front);
      var before := TakeAll(imports, height, Begin(stores, was), front);
      if before.Some? {
        FinishAddsOnly(imports, height, was, before.value);
      }
    }
  }

  /** A restore, failed or not, has overwritten nothing: it has only given trees to stores that had none. */
  lemma RestoreAddsOnly(imports: Imports, height: nat, stores: Stores, was: map<Name, Versions>, items: seq<Item>,
                        stores': Stores, now: map<Name, Versions>)
    requires Reached(imports, height, Begin(stores, was), items, stores', now)
    ensures OnlyAdded(was, now, height)
  {
    hide TakeAll, Leading, Finish, OnlyAdded;
    var k: nat, im :| ReachedAt(imports, height, Begin(stores, was), items, k, im) && LeavesOf(imports, height, im, stores', now);
    TakesAddOnly(imports, height, stores, was, items[..k]);
    FinishAddsOnly(imports, height, was, im);
  }

  // ---- Restoring what was emitted ----------------------------------------------------------------------

  lemma {:induction false} TakeInTwo(imports: Imports, height: nat, im: Importing, a: seq<Item>, b: seq<Item>)
    ensures TakeAll(imports, height, im, a + b) ==
            match TakeAll(imports, height, im, a)
            case None => None
            case Some(mid) => TakeAll(imports, height, mid, b)
  {
    hide Take;
    if b == [] {
      assert a + b == a;
    } else {
      TakeInTwo(imports, height, im, a, b[..|b| - 1]);
      assert (a + b)[..|a + b| - 1] == a + b[..|b| - 1];
    }
  }

  lemma SentConcat(a: seq<Item>, b: seq<Item>)
    ensures Sent(a + b) == Sent(a) + Sent(b)
  {
  }

  /** A tree the library takes back node by node; its node heights are those of the tree library, 8 bits wide. */
  ghost predicate Accepted(imports: Imports, t: Tree, height: nat) {
    && imports.whole(NormalTree(t), height)
    && forall j :: 0 <= j < |t| ==> -128 <= t[j].height <= 127 && imports.fits(NormalTree(t)[..j + 1], height)
  }

  lemma ReceivesNode(n: Node)
    requires -128 <= n.height <= 127
    ensures Received(Wire(NodeItem(n.key, n.value, n.height, n.version))) == Normal(n)
  {
    assert ToInt8(n.height) == n.height;
  }

  lemma {:induction false} TakesNodes(imports: Imports, height: nat, im: Importing, t: Tree, k: nat)
    requires Accepted(imports, t, height) && k <= |t| && im.into.Some? && im.nodes == []
    ensures TakeAll(imports, height, im, Sent(NodeItems(t))[..k]) == Some(im.(nodes := NormalTree(t)[..k]))
  {
    var items := Sent(NodeItems(t));
    if k > 0 {
      TakesNodes(imports, height, im, t, k - 1);
      ReceivesNode(t[k - 1]);
      assert items[..k][..k - 1] == items[..k - 1];
      assert NormalTree(t)[..k - 1] + [Normal(t[k - 1])] == NormalTree(t)[..k];
    }
  }

  function Restored(s: Sub, t: Tree, height: nat): Sub {
    s.(version := height, committed := NormalTree(t), working := NormalTree(t))
  }

  /** The stores and trees of the target once those named have been restored. */
  function RestoredStores(names: seq<Name>, from: map<Name, Versions>, height: nat, stores: Stores): Stores
    requires forall i :: 0 <= i < |names| ==> height in Saved(from, names[i])
  {
    map n | n in stores :: if n in names then Restored(stores[n], Saved(from, n)[height], height) else stores[n]
  }

  function RestoredTrees(names: seq<Name>, from: map<Name, Versions>, height: nat, trees: map<Name, Versions>): map<Name, Versions>
    requires forall i :: 0 <= i < |names| ==> height in Saved(from, names[i])
  {
    map n | n in trees.Keys + (set m | m in names) ::
      if n in names then map[height := NormalTree(Saved(from, n)[height])] else trees[n]
  }

  /** The source can be snapshot at the height, and the target has an empty tree store for every name. */
  ghost predicate Restorable(imports: Imports, names: seq<Name>, from: map<Name, Versions>, height: nat,
                             stores: Stores, trees: map<Name, Versions>) {
    && (forall i :: 0 <= i < |names| ==> height in Saved(from, names[i]) && Accepted(imports, Saved(from, names[i])[height], height))
    && (forall i, j :: 0 <= i < j < |names| ==> names[i] != names[j])
    && (forall n :: n in names ==> Importable(n, Begin(stores, trees)))
  }

  lemma RestorablePrefix(imports: Imports, names: seq<Name>, from: map<Name, Versions>, height: nat,
                         stores: Stores, trees: map<Name, Versions>)
    requires Restorable(imports, names, from, height, stores, trees) && names != []
    ensures Restorable(imports, names[..|names| - 1], from, height, stores, trees)
    ensures names[|names| - 1] !in names[..|names| - 1]
  {
  }

  lemma {:induction false} TakesStream(imports: Imports, height: nat, names: seq<Name>, from: map<Name, Versions>,
                                       stores: Stores, trees: map<Name, Versions>)
    returns (im: Importing)
    requires Restorable(imports, names, from, height, stores, trees)
    ensures TakeAll(imports, height, Begin(stores, trees), Sent(Stream(names, from, height))) == Some(im)
    ensures Finish(imports, height, im) ==
            Some(Begin(RestoredStores(names, from, height, stores), RestoredTrees(names, from, height, trees)))
  {
    hide Accepted, NormalTree, Finish, Sent, NodeItems, RestoredStores, RestoredTrees, Importable;
    if names == [] {
      im := Begin(stores, trees);
      TakesNothing(imports, height, from, stores, trees);
      return;
    }
    var front, last := names[..|names| - 1], names[|names| - 1];
    RestorablePrefix(imports, names, from, height, stores, trees);
    var before := TakesStream(imports, height, front, from, stores, trees);
    RestoredOneMore(imports, front, last, from, height, stores, trees);
    im := TakesOneMore(imports, height, Begin(stores, trees), Sent(Stream(front, from, height)), before,
                       Begin(RestoredStores(front, from, height, stores), RestoredTrees(front, from, height, trees)),
                       last, Saved(from, last)[height]);
    StreamOneMore(front, last, from, height);
    assert names == front + [last];
  }

  lemma TakesNothing(imports: Imports, height: nat, from: map<Name, Versions>, stores: Stores, trees: map<Name, Versions>)
    ensures Sent(Stream([], from, height)) == []
    ensures Finish(imports, height, Begin(stores, trees)) ==
            Some(Begin(RestoredStores([], from, height, stores), RestoredTrees([], from, height, trees)))
  {
    assert RestoredStores([], from, height, stores) == stores;
    assert RestoredTrees([], from, height, trees) == trees;
  }

  lemma StreamOneMore(front: seq<Name>, last: Name, from: map<Name, Versions>, height: nat)
    requires forall i :: 0 <= i < |front| ==> height in Saved(from, front[i])
    requires height in Saved(from, last)
    ensures Sent(Stream(front + [last], from, height)) ==
            Sent(Stream(front, from, height)) + [StoreItem(last)] + Sent(NodeItems(Saved(from, last)[height]))
  {
    assert (front + [last])[..|front|] == front;
    var a, b, c := Stream(front, from, height), [StoreItem(last)], NodeItems(Saved(from, last)[height]);
    SentConcat(a + b, c);
    SentConcat(a, b);
    assert Sent(b) == b;
  }

  lemma RestoredOneMore(imports: Imports, front: seq<Name>, last: Name, from: map<Name, Versions>, height: nat,
                        stores: Stores, trees: map<Name, Versions>)
    requires Restorable(imports, front + [last], from, height, stores, trees) && last !in front
    requires forall i :: 0 <= i < |front| ==> height in Saved(from, front[i])
    requires height in Saved(from, last)
    ensures forall i :: 0 <= i < |front + [last]| ==> height in Saved(from, (front + [last])[i])
    ensures var done := Begin(RestoredStores(front, from, height, stores), RestoredTrees(front, from, height, trees));
            var t := Saved(from, last)[height];
            && Importable(last, done)
            && done.stores[last := Restored(done.stores[last], t, height)] == RestoredStores(front + [last], from, height, stores)
            && done.trees[last := map[height := NormalTree(t)]] == RestoredTrees(front + [last], from, height, trees)
  {
    hide NormalTree, Accepted, Restored;
    assert last in front + [last];
    assert Importable(last, Begin(stores, trees));
    StoresOneMore(front, last, from, height, stores);
    TreesOneMore(front, last, from, height, trees);
    hide RestoredStores, RestoredTrees;
  }

  lemma StoresOneMore(front: seq<Name>, last: Name, from: map<Name, Versions>, height: nat, stores: Stores)
    requires last !in front && last in stores
    requires forall i :: 0 <= i < |front + [last]| ==> height in Saved(from, (front + [last])[i])
    requires forall i :: 0 <= i < |front| ==> height in Saved(from, front[i])
    requires height in Saved(from, last)
    ensures var done := RestoredStores(front, from, height, stores);
            && last in done && done[last] == stores[last]
            && done[last := Restored(done[last], Saved(from, last)[height], height)] ==
               RestoredStores(front + [last], from, height, stores)
  {
    hide Restored;
  }

  lemma TreesOneMore(front: seq<Name>, last: Name, from: map<Name, Versions>, height: nat, trees: map<Name, Versions>)
    requires last !in front
    requires forall i :: 0 <= i < |front + [last]| ==> height in Saved(from, (front + [last])[i])
    requires forall i :: 0 <= i < |front| ==> height in Saved(from, front[i])
    requires height in Saved(from, last)
    ensures var done := RestoredTrees(front, from, height, trees);
            && Saved(done, last) == Saved(trees, last)
            && done[last := map[height := NormalTree(Saved(from, last)[height])]] == RestoredTrees(front + [last], from, height, trees)
  {
    hide NormalTree;
  }

  lemma TakesOneMore(imports: Imports, height: nat, start: Importing, items: seq<Item>, before: Importing, done: Importing,
                     last: Name, t: Tree)
    returns (im: Importing)
    requires TakeAll(imports, height, start, items) == Some(before) && Finish(imports, height, before) == Some(done)
    requires Importable(last, done) && Accepted(imports, t, height)
    ensures TakeAll(imports, height, start, items + [StoreItem(last)] + Sent(NodeItems(t))) == Some(im)
    ensures Finish(imports, height, im) ==
            Some(Begin(done.stores[last := Restored(done.stores[last], t, height)], done.trees[last := map[height := NormalTree(t)]]))
  {
    hide Finish, Accepted;
    var mid := done.(into := Some(last), nodes := []);
    assert (items + [StoreItem(last)])[..|items|] == items;
    TakeInTwo(imports, height, start, items + [StoreItem(last)], Sent(NodeItems(t)));
    TakesNodes(imports, height, mid, t, |t|);
    assert Sent(NodeItems(t))[..|t|] == Sent(NodeItems(t)) && NormalTree(t)[..|t|] == NormalTree(t);
    im := mid.(nodes := NormalTree(t));
    FinishesOne(imports, height, im, last, t);
  }

  lemma FinishesOne(imports: Imports, height: nat, im: Importing, last: Name, t: Tree)
    requires im.into == Some(last) && im.nodes == NormalTree(t) && Importable(last, im)
    requires Accepted(imports, t, height)
    ensures Finish(imports, height, im) ==
            Some(Begin(im.stores[last := Restored(im.stores[last], t, height)], im.trees[last := map[height := NormalTree(t)]]))
  {
  }

  // ---- Restore undoes Snapshot -------------------------------------------------------------------------

  lemma {:induction false} LeadingIs(items: seq<Item>, k: nat)
    requires k <= |items| && (forall i :: 0 <= i < k ==> OfStores(items[i])) && (k < |items| ==> !OfStores(items[k]))
    ensures Leading(items) == k
  {
    if k > 0 {
      LeadingIs(items[1..], k - 1);
    }
  }

  /** Once an item is refused, the restore has failed. */
  lemma RefusedFails(imports: Imports, height: nat, stores: Stores, trees: map<Name, Versions>, items: seq<Item>, k: nat)
    requires k <= Leading(items) && TakeAll(imports, height, Begin(stores, trees), items[..k]).None?
    ensures Imported(imports, height, stores, trees, items).None?
  {
    var all := items[..Leading(items)];
    assert all == items[..k] + items[k..Leading(items)];
    TakeInTwo(imports, height, Begin(stores, trees), items[..k], items[k..Leading(items)]);
  }

  lemma TakeNext(imports: Imports, height: nat, stores: Stores, trees: map<Name, Versions>, items: seq<Item>, i: nat,
                 before: Importing)
    requires i < |items| && forall j :: 0 <= j <= i ==> OfStores(items[j])
    requires TakeAll(imports, height, Begin(stores, trees), items[..i]) == Some(before)
    ensures TakeAll(imports, height, Begin(stores, trees), items[..i + 1]) == Take(imports, height, before, items[i])
    ensures Take(imports, height, before, items[i]).None? ==> Imported(imports, height, stores, trees, items).None?
  {
    hide Take;
    assert items[..i + 1][..i] == items[..i];
    LeadingAtLeast(items, i + 1);
    if Take(imports, height, before, items[i]).None? {
      RefusedFails(imports, height, stores, trees, items, i + 1);
    }
  }

  lemma {:induction false} LeadingAtLeast(items: seq<Item>, k: nat)
    requires k <= |items| && forall i :: 0 <= i < k ==> OfStores(items[i])
    ensures k <= Leading(items)
  {
    if k > 0 {
      LeadingAtLeast(items[1..], k - 1);
    }
  }

  lemma {:induction false} StreamOfStores(names: seq<Name>, from: map<Name, Versions>, height: nat)
    requires forall i :: 0 <= i < |names| ==> height in Saved(from, names[i])
    ensures forall item :: item in Sent(Stream(names, from, height)) ==> OfStores(item)
  {
    if names != [] {
      StreamOfStores(names[..|names| - 1], from, height);
      StreamOneMore(names[..|names| - 1], names[|names| - 1], from, height);
      assert names == names[..|names| - 1] + [names[|names| - 1]];
    }
  }

  /** The wire changes no pair of a tree. */
  lemma {:induction false} NormalPairs(t: Tree)
    ensures Pairs(NormalTree(t)) == Pairs(t)
  {
    if t != [] {
      NormalPairs(t[..|t| - 1]);
      assert NormalTree(t)[..|t| - 1] == NormalTree(t[..|t| - 1]);
    }
  }

  /** The target of a restore: what it has mounted is loaded, and its tree stores are the named ones. */
  ghost predicate IsTarget(names: seq<Name>, params: map<Name, StoreType>, stores: Stores) {
    && params.Keys == stores.Keys
    && (forall n :: n in stores ==> stores[n].typ == params[n] && stores[n].typ != DbAdapter)
    && InNameOrder(names, TreeNames(stores))
  }

  /**
   * Restoring the emitted stream, whatever follows it, stops at the first foreign item and gives every named store
   * its tree of that height as its one version; no other tree is touched, and the result can be loaded.
   */
  lemma RestoreUndoesSnapshot(imports: Imports, lib: Lib, height: nat, names: seq<Name>, from: map<Name, Versions>,
                              params: map<Name, StoreType>, stores: Stores, trees: map<Name, Versions>, tail: seq<Item>)
    requires Restorable(imports, names, from, height, stores, trees) && IsTarget(names, params, stores) && height > 0
    requires tail == [] || !OfStores(tail[0])
    ensures var sent := Sent(Stream(names, from, height));
            && Leading(sent + tail) == |sent|
            && Imported(imports, height, stores, trees, sent + tail) ==
               Some(Begin(RestoredStores(names, from, height, stores), RestoredTrees(names, from, height, trees)))
    ensures forall n :: n in names ==>
              && RestoredTrees(names, from, height, trees)[n] == map[height := NormalTree(Saved(from, n)[height])]
              && Pairs(RestoredTrees(names, from, height, trees)[n][height]) == Pairs(Saved(from, n)[height])
    ensures forall n :: n !in names ==> Saved(RestoredTrees(names, from, height, trees), n) == Saved(trees, n)
    ensures var info := CurrentInfo(lib, RestoredStores(names, from, height, stores), height);
            forall n :: n in params ==>
              Loadable(lib, RestoredTrees(names, from, height, trees), info.ids, NO_UPGRADES, height, n, params[n])
  {
    hide Restorable, Leading, Imported, RestoredStores, RestoredTrees, Stream, Loadable, CurrentInfo, InNameOrder;
    NamesSaved(imports, names, from, height, stores, trees);
    ImportsStream(imports, height, names, from, stores, trees, tail);
    RestoredPairs(names, from, height, trees);
    RestoredLoads(imports, lib, height, names, from, params, stores, trees);
  }

  lemma NamesSaved(imports: Imports, names: seq<Name>, from: map<Name, Versions>, height: nat, stores: Stores, trees: map<Name, Versions>)
    requires Restorable(imports, names, from, height, stores, trees)
    ensures forall i :: 0 <= i < |names| ==> height in Saved(from, names[i])
  {
  }

  lemma ImportsStream(imports: Imports, height: nat, names: seq<Name>, from: map<Name, Versions>, stores: Stores,
                      trees: map<Name, Versions>, tail: seq<Item>)
    requires Restorable(imports, names, from, height, stores, trees)
    requires tail == [] || !OfStores(tail[0])
    ensures var sent := Sent(Stream(names, from, height));
            && Leading(sent + tail) == |sent|
            && Imported(imports, height, stores, trees, sent + tail) ==
               Some(Begin(RestoredStores(names, from, height, stores), RestoredTrees(names, from, height, trees)))
  {
    var im := TakesStream(imports, height, names, from, stores, trees);
    hide Restorable, TakeAll, Finish, RestoredStores, RestoredTrees, Stream, Sent;
    var sent := Sent(Stream(names, from, height));
    StreamOfStores(names, from, height);
    assert forall i :: 0 <= i < |sent| ==> (sent + tail)[i] in sent;
    LeadingIs(sent + tail, |sent|);
    assert (sent + tail)[..|sent|] == sent;
  }

  lemma RestoredPairs(names: seq<Name>, from: map<Name, Versions>, height: nat, trees: map<Name, Versions>)
    requires forall i :: 0 <= i < |names| ==> height in Saved(from, names[i])
    ensures forall n :: n in names ==>
              && RestoredTrees(names, from, height, trees)[n] == map[height := NormalTree(Saved(from, n)[height])]
              && Pairs(RestoredTrees(names, from, height, trees)[n][height]) == Pairs(Saved(from, n)[height])
    ensures forall n :: n !in names ==> Saved(RestoredTrees(names, from, height, trees), n) == Saved(trees, n)
  {
    hide Pairs, NormalTree;
    forall n | n in names
      ensures && RestoredTrees(names, from, height, trees)[n] == map[height := NormalTree(Saved(from, n)[height])]
              && Pairs(RestoredTrees(names, from, height, trees)[n][height]) == Pairs(Saved(from, n)[height])
    {
      NormalPairs(Saved(from, n)[height]);
    }
  }

  lemma RestoredLoads(imports: Imports, lib: Lib, height: nat, names: seq<Name>, from: map<Name, Versions>,
                      params: map<Name, StoreType>, stores: Stores, trees: map<Name, Versions>)
    requires Restorable(imports, names, from, height, stores, trees) && IsTarget(names, params, stores) && height > 0
    ensures var info := CurrentInfo(lib, RestoredStores(names, from, height, stores), height);
            forall n :: n in params ==>
              Loadable(lib, RestoredTrees(names, from, height, trees), info.ids, NO_UPGRADES, height, n, params[n])
  {
    hide NormalTree, Accepted;
    var info := CurrentInfo(lib, RestoredStores(names, from, height, stores), height);
    var now := RestoredTrees(names, from, height, trees);
    forall n | n in params
      ensures Loadable(lib, now, info.ids, NO_UPGRADES, height, n, params[n])
    {
      if params[n].Iavl? {
        assert n in TreeNames(stores) && n in names;
        assert height in Saved(now, n) && info.ids[n].version == height;
      }
    }
  }

  /**
   * The restored commit info is the source's, provided it describes the trees of just these stores, and the trees
   * have no nil keys, no nil leaf values and no empty inner values.
   */
  lemma RestoredInfoIsSource(lib: Lib, height: nat, names: seq<Name>, from: map<Name, Versions>, info: CommitInfo,
                             params: map<Name, StoreType>, stores: Stores)
    requires IsTarget(names, params, stores) && info.version == height
    requires forall i :: 0 <= i < |names| ==> height in Saved(from, names[i])
    requires forall n :: n in names <==> n in info.ids
    requires forall n :: n in names ==> Described(lib, Saved(from, n), info.ids[n], height)
    requires forall n :: n in names ==> NormalTree(Saved(from, n)[height]) == Saved(from, n)[height]
    ensures CurrentInfo(lib, RestoredStores(names, from, height, stores), height) == info
  {
    var now := CurrentInfo(lib, RestoredStores(names, from, height, stores), height);
    forall n
      ensures n in now.ids <==> n in info.ids
    {
      assert n in names <==> n in TreeNames(stores);
    }
    forall n | n in names
      ensures now.ids[n] == info.ids[n]
    {
      assert n in TreeNames(stores);
    }
  }
}
