/** The base of the block store: setBlockStoreBase of cmd/generic_chain.go against lowestMetaHeight of basefix/main.go. */
module BlockBase {
  import opened Base
  import opened Lex
  import opened Decimal
  import opened KvStore
  import opened HeightSweep
  import opened HeightCoverage
  import opened BlockPrune
  import opened WireFields
  import opened WireMessages

  /** The block meta of a height. */
  function MetaKey(n: nat): Bytes {
    HEADERS + Dec(n)
  }

  /** The least height from `from` to `height` whose block meta is there. */
  ghost predicate LeastMeta(m: KvMap, from: nat, height: int, n: nat) {
    && from <= n <= height && MetaKey(n) in m
    && forall j: nat :: from <= j < n ==> MetaKey(j) !in m
  }

  ghost predicate NoMeta(m: KvMap, from: nat, height: int) {
    forall j: nat :: from <= j <= height ==> MetaKey(j) !in m
  }

  /** What the stored BlockStoreState decodes to. */
  ghost function StoredState(m: KvMap): Option<Decoded> {
    if BLOCK_STORE in m && 0 < |m[BLOCK_STORE]| < TWO_63 then Some(DecodeState(m[BLOCK_STORE])) else None
  }

  ghost function StateHeight(m: Message): int {
    if 2 in m && m[2].Num? then m[2].n else 0
  }

  ghost predicate SearchEnds(m: KvMap, want: nat, height: int) {
    height != TWO_63 - 1 || exists n: nat :: want <= n <= height && MetaKey(n) in m
  }

  /** The base is the least height kept that has a block meta; without one, or without a stored state, nothing changes. */
  ghost predicate BaseSet(m: KvMap, now: KvMap, want: nat, state: Option<Decoded>) {
    if state.None? || state.value.err.Some? then now == m
    else
      var height := StateHeight(state.value.msg);
      && -TWO_63 <= height < TWO_63
      && (forall n: nat :: LeastMeta(m, want, height, n) ==> n < TWO_63 && now == m[BLOCK_STORE := EncodeState(n, height)])
      && (NoMeta(m, want, height) ==> now == m)
  }

  /**
   * setBlockStoreBase: the stored base becomes the least kept height that has a block meta; the stored height
   * does not change, nor does anything else, and nothing at all when there is no such height.
   */
  method SetBlockStoreBase(db: Db, want: nat) returns (ok: bool)
    requires BLOCK_STORE in db.data ==> |db.data[BLOCK_STORE]| < TWO_63
    requires want < TWO_63
    // a search up to the greatest signed height has to find something, or it would wrap around and never end
    requires var s := StoredState(db.data); s.Some? ==> SearchEnds(db.data, want, StateHeight(s.value.msg))
    modifies db
    ensures db.cut == old(db.cut) && (old(db.faulty) ==> db.faulty)
    ensures !ok && !db.faulty ==> var s := StoredState(db.data); s.Some? && s.value.err.Some?
    ensures !ok || StoredState(old(db.data)).None? ==> db.data == old(db.data)
    ensures ok || !db.faulty ==> BaseSet(old(db.data), db.data, want, StoredState(old(db.data)))
  {
    hide Dec, EncodeState, Decode, LeastMeta, NoMeta;
    var raw := db.Get(BLOCK_STORE);
    if raw.Err? {
      return false;
    }
    if raw.value.None? || |raw.value.value| == 0 {
      return true;
    }
    var bss := new BlockStoreState();
    var err := bss.Unmarshal(raw.value.value);
    ghost var s := StoredState(db.data);
    assert s == Some(DecodeState(raw.value.value)) && s.value.err == err && s.value.msg == bss.Contents();
    assert StateHeight(s.value.msg) == bss.height;
    if err.Some? {
      return false;
    }
    var base;
    base, ok := FirstMeta(db, want, bss.height);
    if !ok {
      return;
    }
    if base > bss.height {
      NoneIsLeast(db.data, want, bss.height);
      return;
    }
    bss.base := base;
    var out := bss.Marshal();
    LeastIsUnique(db.data, want, bss.height, base);
    ok := db.SetSync(BLOCK_STORE, out[..]);
  }

  /** The search upwards from `want`: ends at the first height that has a meta, or behind the last height. */
  method FirstMeta(db: Db, want: nat, height: Int64) returns (base: nat, ok: bool)
    requires SearchEnds(db.data, want, height)
    modifies db`faulty
    ensures db.faulty == (old(db.faulty) || !ok)
    ensures ok ==> if base <= height then LeastMeta(db.data, want, height, base) else NoMeta(db.data, want, height)
  {
    hide Dec;
    ghost var last := height;
    if height == TWO_63 - 1 {
      last :| want <= last <= height && MetaKey(last) in db.data;
    }
    base, ok := want, false;
    while base <= height
      invariant want <= base && (height == TWO_63 - 1 ==> base <= last) && db.faulty == old(db.faulty)
      invariant forall j: nat :: want <= j < base ==> MetaKey(j) !in db.data
      decreases height - base
    {
      var has := db.Has(MetaKey(base));
      if has.Err? {
        return;
      }
      if has.value {
        break;
      }
      base := base + 1;
    }
    ok := true;
  }

  lemma LeastIsUnique(m: KvMap, want: nat, height: int, n: nat)
    requires LeastMeta(m, want, height, n)
    ensures forall x: nat :: LeastMeta(m, want, height, x) ==> x == n
    ensures !NoMeta(m, want, height) && n <= height
  {
    hide Dec;
  }

  lemma NoneIsLeast(m: KvMap, want: nat, height: int)
    requires NoMeta(m, want, height)
    ensures forall n: nat :: !LeastMeta(m, want, height, n)
  {
    hide Dec;
  }

  lemma MetaOrNone(m: KvMap, from: nat, height: int)
    ensures NoMeta(m, from, height) || exists n: nat :: LeastMeta(m, from, height, n)
  {
    hide Dec;
    if !NoMeta(m, from, height) {
      var j: nat :| from <= j <= height && MetaKey(j) in m;
      var n := LeastBelow(m, from, height, j);
    }
  }

  lemma LeastBelow(m: KvMap, from: nat, height: int, j: nat) returns (n: nat)
    requires from <= j <= height && MetaKey(j) in m
    ensures LeastMeta(m, from, height, n)
    decreases j
  {
    hide Dec;
    if i: nat :| from <= i < j && MetaKey(i) in m {
      n := LeastBelow(m, from, height, i);
    } else {
      n := j;
    }
  }

  // ---- lowestMetaHeight ---------------------------------------------------------------------------

  /** Under the key stands the meta of height `n`, as the repair tool reads it. */
  ghost predicate MetaAt(m: KvMap, k: Bytes, n: int) {
    k in m && HEADERS <= k && ParseInt(k[|HEADERS|..]) == Some(n)
  }

  ghost predicate IsLowest(m: KvMap, n: int) {
    && (exists k :: MetaAt(m, k, n))
    && (forall k, j :: MetaAt(m, k, j) ==> n <= j)
  }

  /** The numeric minimum, although the scan is in bytewise order. */
  method LowestMetaHeight(db: Db) returns (min: Int64, found: bool, ok: bool)
    modifies db`cut, db`faulty
    ensures db.faulty == (old(db.faulty) || !ok)
    ensures ok && found ==> IsLowest(db.data, min)
    ensures ok && !found ==> forall k, j :: !MetaAt(db.data, k, j)
  {
    hide ParseInt, Less;
    min, found := 0, false;
    var it := db.Iterator(HEADERS, Some(PrefixEnd(HEADERS)));
    if it.Err? {
      return 0, false, false;
    }
    var scan := it.value;
    ScanHasPrefix(scan, db.data, HEADERS);
    for i := 0 to |scan.keys|
      invariant found ==> exists k :: MetaAt(db.data, k, min)
      invariant db.faulty == (old(db.faulty) || scan.failed)
      invariant forall k, j :: k in scan.keys[..i] && MetaAt(db.data, k, j) ==> found && min <= j
    {
      var k := scan.keys[i];
      assert k in scan.keys;
      SeenOneMore(scan.keys, i);
      var h := ParseInt(k[|HEADERS|..]);
      if h.Some? {
        assert MetaAt(db.data, k, h.value);
        if !found || h.value < min {
          min, found := h.value, true;
        }
      }
    }
    assert scan.keys[..|scan.keys|] == scan.keys;
    ok := !scan.failed;
    if ok {
      forall k, j | MetaAt(db.data, k, j)
        ensures k in scan.keys
      {
        PrefixRange(k, HEADERS);
      }
    }
  }

  // ---- The two bases --------------------------------------------------------------------------------

  lemma MetaKeyIsKey(n: nat)
    requires n < TWO_63
    ensures MetaKey(n) == Key(HEADERS, n, []) && HEADERS <= MetaKey(n) && MetaKey(n)[|HEADERS|..] == Dec(n)
    ensures ParseInt(MetaKey(n)[|HEADERS|..]) == Some(n)
  {
    assert Dec(n) + [] == Dec(n);
    ParseIntDec(n);
  }

  lemma MetaKeyParses(m: KvMap, n: nat)
    requires n < TWO_63 && MetaKey(n) in m
    ensures MetaAt(m, MetaKey(n), n)
  {
    hide Dec, ParseInt;
    MetaKeyIsKey(n);
  }

  /**
   * Pruned up to `end`, a store of contiguous block metas has its base right behind it: the first meta kept.
   * No orphan below becomes the base.
   */
  lemma BaseIsFirstKept(m: KvMap, b: nat, h: nat, end: nat, height: int)
    requires 1 <= b < end < h <= height < TWO_63 && end < TWO_53 && Contiguous(m, HEADERS, OnePart, b, h)
    ensures LeastMeta(AfterBlockPrune(m, end), end + 1, height, end + 1)
  {
    hide Dec, AfterBlockPrune, Sweep, Key;
    assert BLOCK_KEYS[0] == (HEADERS, OnePart);
    assert Holds(m, HEADERS, OnePart, end + 1);
    MetaKeyIsKey(end + 1);
    OrphanStays(m, HEADERS, OnePart, end, end + 1, []);
    BlockPruneKind(m, end, 0, MetaKey(end + 1));
  }

  /**
   * On such a store the repair tool finds the same base exactly when the prune left no orphan: the end is
   * neither a power of ten nor among the last ten numbers of its length, and no shorter height was stored.
   */
  lemma BasesAgreeIff(m: KvMap, b: nat, h: nat, end: nat)
    requires 1 <= b < end < h < TWO_63 && end < TWO_53 && Contiguous(m, HEADERS, OnePart, b, h)
    ensures forall low :: IsLowest(AfterBlockPrune(m, end), low) ==>
              && low <= end + 1
              && (low == end + 1 <==> Pow10(|Dec(end)| - 1) <= b && end < Pow10(|Dec(end)|) - 10)
  {
    hide Dec, AfterBlockPrune, Sweep, ParseInt, Key, IsLowest;
    var left := Sweep(m, HEADERS, OnePart, 0, end, |Dec(end)|);
    PromiseKeptIff(m, HEADERS, OnePart, b, h, end);
    FirstKeptIsLowest(m, b, h, end);
    if !AllGone(left, HEADERS, OnePart, b, end) {
      var n: nat, t :| b <= n <= end && IsTail(OnePart, t) && Key(HEADERS, n, t) in left;
      MetaKeyIsKey(n);
      assert BLOCK_KEYS[0] == (HEADERS, OnePart);
      BlockPruneKind(m, end, 0, MetaKey(n));
      LowestAtMost(AfterBlockPrune(m, end), n);
    }
  }

  lemma LowestAtMost(m: KvMap, n: nat)
    requires n < TWO_63 && MetaKey(n) in m
    ensures forall low :: IsLowest(m, low) ==> low <= n
  {
    hide Dec, ParseInt;
    MetaKeyParses(m, n);
  }

  /** The first height kept is the lowest of all, if nothing else is left up to the end. */
  lemma FirstKeptIsLowest(m: KvMap, b: nat, h: nat, end: nat)
    requires 1 <= b < end < h < TWO_63 && end < TWO_53 && Contiguous(m, HEADERS, OnePart, b, h)
    ensures forall low :: IsLowest(AfterBlockPrune(m, end), low) ==>
              && low <= end + 1
              && (AllGone(Sweep(m, HEADERS, OnePart, 0, end, |Dec(end)|), HEADERS, OnePart, b, end) ==> low == end + 1)
  {
    hide Dec, AfterBlockPrune, Sweep, ParseInt, Key, AllGone;
    BaseIsFirstKept(m, b, h, end, h);
    LowestAtMost(AfterBlockPrune(m, end), end + 1);
    forall low | IsLowest(AfterBlockPrune(m, end), low) && AllGone(Sweep(m, HEADERS, OnePart, 0, end, |Dec(end)|), HEADERS, OnePart, b, end)
      ensures low > end
    {
      var k :| MetaAt(AfterBlockPrune(m, end), k, low);
      AboveEnd(m, b, h, end, k, low);
    }
  }

  lemma AboveEnd(m: KvMap, b: nat, h: nat, end: nat, k: Bytes, low: int)
    requires 1 <= b < end < h < TWO_63 && end < TWO_53 && Contiguous(m, HEADERS, OnePart, b, h)
    ensures AllGone(Sweep(m, HEADERS, OnePart, 0, end, |Dec(end)|), HEADERS, OnePart, b, end) ==>
              MetaAt(AfterBlockPrune(m, end), k, low) ==> low > end
  {
    hide Dec, AfterBlockPrune, Sweep, ParseInt, Key;
    var left := Sweep(m, HEADERS, OnePart, 0, end, |Dec(end)|);
    if AllGone(left, HEADERS, OnePart, b, end) && MetaAt(AfterBlockPrune(m, end), k, low) {
      assert BLOCK_KEYS[0] == (HEADERS, OnePart);
      BlockPruneKind(m, end, 0, k);
      SweepShrinks(m, HEADERS, OnePart, end, |Dec(end)|);
      var n: nat, t :| b <= n <= h && IsTail(OnePart, t) && k == Key(HEADERS, n, t);
      MetaKeyIsKey(n);
    }
  }
}
