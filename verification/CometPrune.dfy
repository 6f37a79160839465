/** Pruning the state store and its validator history, and both stores together: cmd/generic_chain.go. */
module CometPrune {
  import opened Base
  import opened Lex
  import opened Decimal
  import opened KvStore
  import opened HeightSweep
  import opened BlockPrune
  import opened BlockBase
  import opened WireMessages

  const VALIDATORS: Bytes := [118, 97, 108, 105, 100, 97, 116, 111, 114, 115, 75, 101, 121, 58] // "validatorsKey:"
  const ABCI_RESPONSES: Bytes := // "abciResponsesKey:"
    [97, 98, 99, 105, 82, 101, 115, 112, 111, 110, 115, 101, 115, 75, 101, 121, 58]
  const CONSENSUS_PARAMS: Bytes := // "consensusParamsKey:"
    [99, 111, 110, 115, 101, 110, 115, 117, 115, 80, 97, 114, 97, 109, 115, 75, 101, 121, 58]

  const HISTORY_TO_KEEP: nat := 1_000

  /** A validatorsKey value: a whole validator set, or the height of the entry that holds the set. */
  datatype Entry = Full(validators: Bytes) | Pointer(height: nat) | Unreadable

  /**
   * Decoding of the value of a height, by a library that is not part of this model. What it refers to may depend on the
   * height, as behind a checkpoint, where the node takes the later of the two.
   */
  type Decoder = (nat, Bytes) -> Entry

  function ValidatorsKey(h: nat): Bytes {
    VALIDATORS + Dec(h)
  }

  ghost function EntryAt(m: KvMap, decode: Decoder, h: nat): Option<Entry> {
    if ValidatorsKey(h) in m then Some(decode(h, m[ValidatorsKey(h)])) else None
  }

  ghost predicate IsFull(m: KvMap, decode: Decoder, h: nat) {
    var e := EntryAt(m, decode, h);
    e.Some? && e.value.Full?
  }

  /** The validators of a height, following a pointer once, as the node does. */
  ghost function Lookup(m: KvMap, decode: Decoder, h: nat): Option<Bytes> {
    match EntryAt(m, decode, h)
    case None => None
    case Some(Unreadable) => None
    case Some(Full(v)) => Some(v)
    case Some(Pointer(p)) => if IsFull(m, decode, p) then Some(EntryAt(m, decode, p).value.validators) else None
  }

  /** Every pointer refers to the most recent full entry at or below it. */
  ghost predicate PointersRecent(m: KvMap, decode: Decoder) {
    forall h :: EntryAt(m, decode, h).Some? && EntryAt(m, decode, h).value.Pointer? ==>
      var p := EntryAt(m, decode, h).value.height;
      p <= h && IsFull(m, decode, p) && forall q :: p < q <= h ==> !IsFull(m, decode, q)
  }

  ghost predicate HeightsBelow(m: KvMap, bound: nat) {
    forall k :: k in m && VALIDATORS <= k && ParseUint(k[|VALIDATORS|..]).Some? ==>
      ParseUint(k[|VALIDATORS|..]).value < bound
  }

  /** The key that comes last in bytewise order, and its height. */
  ghost predicate LexicallyLatest(m: KvMap, h: nat) {
    exists k :: && k in m && VALIDATORS <= k && ParseUint(k[|VALIDATORS|..]) == Some(h)
                && forall x :: x in m && VALIDATORS <= x ==> x == k || Less(x, k)
  }

  method FindLatestValidatorHeight(db: Db) returns (r: Result<nat>)
    modifies db`faulty
    ensures r.Ok? ==> LexicallyLatest(db.data, r.value)
    ensures r.Err? && !db.faulty ==> forall h :: !LexicallyLatest(db.data, h)
    ensures old(db.faulty) ==> db.faulty
  {
    hide Less, ParseUint;
    var last := db.LastKey(VALIDATORS, Some(PrefixEnd(VALIDATORS)));
    forall x | x in db.data && VALIDATORS <= x
      ensures InRange(x, VALIDATORS, Some(PrefixEnd(VALIDATORS)))
    {
      PrefixRange(x, VALIDATORS);
    }
    if last.Err? || last.value.None? {
      return Err;
    }
    var k := last.value.value;
    PrefixRange(k, VALIDATORS);
    var n := ParseUint(k[|VALIDATORS|..]);
    if n.None? {
      forall h
        ensures !LexicallyLatest(db.data, h)
      {
        LatestIsLast(db.data, k, h);
      }
      return Err;
    }
    return Ok(n.value);
  }

  lemma LatestIsLast(m: KvMap, k: Bytes, h: nat)
    requires k in m && VALIDATORS <= k && forall x :: x in m && VALIDATORS <= x ==> x == k || Less(x, k)
    ensures LexicallyLatest(m, h) ==> ParseUint(k[|VALIDATORS|..]) == Some(h)
  {
    hide ParseUint, Less;
    if LexicallyLatest(m, h) {
      var x :| && x in m && VALIDATORS <= x && ParseUint(x[|VALIDATORS|..]) == Some(h)
               && forall y :: y in m && VALIDATORS <= y ==> y == x || Less(y, x);
      if x != k {
        Asymmetric(x, k);
      }
    }
  }

  /** Searches backwards for a full entry; heights that cannot be read are passed over. */
  method FindAnchorCheckpoint(db: Db, retain: nat, decode: Decoder) returns (anchor: Option<nat>)
    modifies db`faulty
    ensures anchor.Some? ==> 1 <= anchor.value <= retain && IsFull(db.data, decode, anchor.value)
    ensures !db.faulty ==>
              forall h: nat :: (if anchor.Some? then anchor.value else 0) < h <= retain ==> !IsFull(db.data, decode, h)
    ensures old(db.faulty) ==> db.faulty
  {
    hide Dec;
    var h := retain;
    while h > 0
      invariant h <= retain && (old(db.faulty) ==> db.faulty)
      invariant !db.faulty ==> forall g: nat :: h < g <= retain ==> !IsFull(db.data, decode, g)
    {
      var value := db.Get(ValidatorsKey(h));
      if value.Ok? && value.value.Some? && decode(h, value.value.value).Full? {
        return Some(h);
      }
      h := h - 1;
    }
    return None;
  }

  /**
   * How the validator history is pruned: behind the most recent full entry at least `keep` below the lexically
   * latest height, if there is one with anything in front of it.
   */
  ghost predicate HistoryPruned(was: KvMap, now: KvMap, keep: nat, decode: Decoder, anchor: Option<nat>) {
    match anchor
    case None =>
      now == was && forall latest, h: nat :: LexicallyLatest(was, latest) && 2 <= h && h + keep <= latest ==> !IsFull(was, decode, h)
    case Some(a) =>
      && a >= 2 && now == Sweep(was, VALIDATORS, OnePart, 0, a - 1, |Dec(a - 1)|)
      && forall latest, h: nat :: LexicallyLatest(was, latest) && a < h && h + keep <= latest ==> !IsFull(was, decode, h)
  }

  /**
   * pruneValidatorHistory. Whatever fails, only entries below the anchor go; the anchor is a full entry at least
   * `keep` below the lexically latest height. Unless a database operation fails, the anchor is the most recent such
   * entry, what the sweep deletes is deleted, and the call fails only when there is no latest height.
   */
  method PruneValidatorHistory(db: Db, keep: nat, decode: Decoder) returns (ok: bool, ghost anchor: Option<nat>)
    requires HeightsBelow(db.data, TWO_53)
    modifies db
    ensures anchor.None? ==> db.data == old(db.data)
    ensures anchor.Some? ==>
              && 1 <= anchor.value && IsFull(old(db.data), decode, anchor.value)
              && OnlyDoomedGone(old(db.data), db.data, VALIDATORS, OnePart, anchor.value - 1)
              && exists latest :: LexicallyLatest(old(db.data), latest) && anchor.value + keep <= latest
    ensures !db.faulty ==> HistoryPruned(old(db.data), db.data, keep, decode, anchor)
    ensures !db.faulty ==> ok == exists h :: LexicallyLatest(old(db.data), h)
    ensures old(db.faulty) ==> db.faulty
  {
    hide LexicallyLatest, IsFull, OnlyDoomedGone, Sweep, Dec;
    anchor := None;
    var latest := FindLatestValidatorHeight(db);
    if latest.Err? {
      return false, None;
    }
    OneLatest(db.data, latest.value);
    if latest.value <= keep {
      return true, None;
    }
    var retain := latest.value - keep;
    var found := FindAnchorCheckpoint(db, retain, decode);
    if found.None? || found.value == 1 {
      return true, None;
    }
    LatestBelow(db.data, latest.value);
    anchor := found;
    var pruned;
    pruned, ok := DeleteHeightRange(db, VALIDATORS, 0, found.value - 1, OnePart);
  }

  lemma OneLatest(m: KvMap, latest: nat)
    requires LexicallyLatest(m, latest)
    ensures forall h :: LexicallyLatest(m, h) ==> h == latest
  {
    hide ParseUint, Less;
    var k :| && k in m && VALIDATORS <= k && ParseUint(k[|VALIDATORS|..]) == Some(latest)
             && forall x :: x in m && VALIDATORS <= x ==> x == k || Less(x, k);
    forall h | LexicallyLatest(m, h)
      ensures h == latest
    {
      LatestIsLast(m, k, h);
    }
  }

  lemma LatestBelow(m: KvMap, latest: nat)
    requires HeightsBelow(m, TWO_53) && LexicallyLatest(m, latest)
    ensures latest < TWO_53
  {
    hide ParseUint, Less;
  }

  /** The lexically latest height is one of the heights, so it never exceeds the true latest. */
  lemma LexicallyLatestIsStored(m: KvMap, latest: nat, trueLatest: nat)
    requires LexicallyLatest(m, latest) && HeightsBelow(m, trueLatest + 1)
    ensures latest <= trueLatest
  {
    hide ParseUint, Less;
  }

  /** Every lookup at or above the anchor gives the same set as before. */
  lemma LookupsKept(m: KvMap, m': KvMap, decode: Decoder, anchor: nat, h: nat)
    requires 1 <= anchor <= h < TWO_63 && IsFull(m, decode, anchor) && PointersRecent(m, decode)
    requires OnlyDoomedGone(m, m', VALIDATORS, OnePart, anchor - 1)
    ensures Lookup(m', decode, h) == Lookup(m, decode, h)
  {
    hide Dec, OnlyDoomedGone;
    EntryKept(m, m', decode, anchor, h);
    var e := EntryAt(m, decode, h);
    if e.Some? && e.value.Pointer? {
      EntryKept(m, m', decode, anchor, e.value.height);
    }
  }

  lemma EntryKept(m: KvMap, m': KvMap, decode: Decoder, anchor: nat, h: nat)
    requires 1 <= anchor <= h < TWO_63 && OnlyDoomedGone(m, m', VALIDATORS, OnePart, anchor - 1)
    ensures EntryAt(m', decode, h) == EntryAt(m, decode, h)
  {
    hide ParseUint;
    var k := ValidatorsKey(h);
    assert k[|VALIDATORS|..] == Dec(h);
    ParseDec(h);
    assert !Doomed(k, VALIDATORS, OnePart, anchor - 1);
  }

  // ---- pruneStateStore, pruneBlockAndStateStore ------------------------------------------------------

  const STATE_KEYS: seq<(Bytes, Parser)> := [(ABCI_RESPONSES, OnePart), (CONSENSUS_PARAMS, OnePart)]

  /** The same entries under "validatorsKey:". */
  ghost predicate SameHistory(m: KvMap, m': KvMap) {
    && (forall k :: VALIDATORS <= k ==> (k in m <==> k in m'))
    && (forall k :: VALIDATORS <= k && k in m ==> m'[k] == m[k])
  }

  lemma SweepKeepsHistory(history: KvMap, m: KvMap, m': KvMap, kind: (Bytes, Parser), end: nat)
    requires kind in STATE_KEYS && SameHistory(history, m) && OnlyDoomedGone(m, m', kind.0, kind.1, end)
    ensures SameHistory(history, m')
  {
    forall k | k in m && VALIDATORS <= k
      ensures k in m'
    {
      PrefixesApart(VALIDATORS, kind.0, k);
    }
  }

  /**
   * pruneStateStore: first the validator history, which leaves `history`; a failure there is only logged. Then the
   * responses and parameters are swept by height. Whatever fails, those sweeps do not touch the history.
   */
  method PruneStateStore(db: Db, end: nat, decode: Decoder) returns (ok: bool, ghost anchor: Option<nat>, ghost history: KvMap)
    requires end < TWO_53 && HeightsBelow(db.data, TWO_53)
    modifies db
    ensures anchor.None? ==> history == old(db.data)
    ensures anchor.Some? ==> 1 <= anchor.value && IsFull(old(db.data), decode, anchor.value)
                             && OnlyDoomedGone(old(db.data), history, VALIDATORS, OnePart, anchor.value - 1)
    ensures SameHistory(history, db.data)
    ensures ok ==> db.data == SweepAll(history, STATE_KEYS, end)
    ensures !db.faulty ==> ok && HistoryPruned(old(db.data), history, 1_000, decode, anchor)
    ensures old(db.faulty) ==> db.faulty
  {
    hide Sweep, Dec, OnlyDoomedGone, Doomed, IsFull, HistoryPruned, SameHistory;
    ok, anchor := PruneValidatorHistory(db, HISTORY_TO_KEEP, decode);
    history := db.data;
    ghost var faulty := db.faulty;
    SameAsItself(history);
    ok := true;
    for i := 0 to |STATE_KEYS|
      invariant ok && SweepAll(history, STATE_KEYS, end) == SweepAll(db.data, STATE_KEYS[i..], end)
      invariant SameHistory(history, db.data) && db.faulty == faulty
    {
      var kind := STATE_KEYS[i];
      assert kind in STATE_KEYS;
      ghost var before := db.data;
      var pruned;
      pruned, ok := DeleteHeightRange(db, kind.0, 0, end, kind.1);
      SweepKeepsHistory(history, before, db.data, kind, end);
      if !ok {
        return;
      }
      assert STATE_KEYS[i..][0] == kind && STATE_KEYS[i..][1..] == STATE_KEYS[i + 1..];
    }
  }

  lemma SameAsItself(m: KvMap)
    ensures SameHistory(m, m)
  {
  }

  /** Pruning responses and parameters by height leaves the validator history alone. */
  lemma StateSweepsKeepValidators(m: KvMap, end: nat, decode: Decoder, h: nat)
    ensures EntryAt(SweepAll(m, STATE_KEYS, end), decode, h) == EntryAt(m, decode, h)
  {
    hide Dec, SweepAll;
    var k := ValidatorsKey(h);
    forall kind | kind in STATE_KEYS
      ensures !(kind.0 <= k)
    {
      PrefixesApart(VALIDATORS, kind.0, k);
    }
    SweepsElsewhere(m, STATE_KEYS, end, k);
    SweepAllShrinks(m, STATE_KEYS, end);
  }

  /**
   * pruneBlockAndStateStore with pruneHeight `end`: the two stores are pruned independently; then the base of
   * the block store is set to the first height kept. That last step may fail without failing the call.
   */
  method PruneBlockAndStateStore(blockDb: Db, stateDb: Db, end: nat, decode: Decoder)
    returns (ok: bool, ghost anchor: Option<nat>, ghost history: KvMap)
    requires blockDb != stateDb && end < TWO_53 && HeightsBelow(stateDb.data, TWO_53)
    requires BLOCK_STORE in blockDb.data ==> |blockDb.data[BLOCK_STORE]| < TWO_63
    requires var s := StoredState(blockDb.data); s.Some? ==> SearchEnds(blockDb.data, end + 1, StateHeight(s.value.msg))
    modifies blockDb, stateDb
    // only a failed operation or a record that does not decode makes it fail
    ensures !ok && !blockDb.faulty && !stateDb.faulty ==> HasUndecodable(old(blockDb.data))
    ensures ok && !blockDb.cut && !blockDb.faulty ==>
              BaseSet(AfterBlockPrune(old(blockDb.data), end), blockDb.data, end + 1, StoredState(old(blockDb.data)))
    ensures ok ==> stateDb.data == SweepAll(history, STATE_KEYS, end)
    ensures SameHistory(history, stateDb.data)
    ensures anchor.None? ==> history == old(stateDb.data)
    ensures anchor.Some? ==> 1 <= anchor.value && IsFull(old(stateDb.data), decode, anchor.value)
                             && OnlyDoomedGone(old(stateDb.data), history, VALIDATORS, OnePart, anchor.value - 1)
    ensures !stateDb.faulty ==> HistoryPruned(old(stateDb.data), history, 1_000, decode, anchor)
    ensures !ok ==> OnlyExpendableGone(old(blockDb.data), blockDb.data, end)
    // setting the base may fail without failing the call; it changes nothing then
    ensures ok && !blockDb.cut ==>
              || blockDb.data == AfterBlockPrune(old(blockDb.data), end)
              || BaseSet(AfterBlockPrune(old(blockDb.data), end), blockDb.data, end + 1, StoredState(old(blockDb.data)))
  {
    hide AfterBlockPrune, DecodeState, EncodeState, LeastMeta, NoMeta, BaseSet, SearchEnds, Expendable, HistoryPruned, SameHistory, OnlyDoomedGone, HasUndecodable, IsFull, SweepAll;
    var okState;
    ok := PruneBlockStore(blockDb, end);
    okState, anchor, history := PruneStateStore(stateDb, end, decode);
    if !ok || !okState {
      ok := false;
      return;
    }
    StateKept(old(blockDb.data), blockDb.data, end);
    ghost var s := StoredState(old(blockDb.data));
    if s.Some? {
      MetasKept(old(blockDb.data), blockDb.data, end, StateHeight(s.value.msg));
    }
    var based := SetBlockStoreBase(blockDb, end + 1);
  }

  /** The metas behind the prune height stay, so the search for one still ends. */
  lemma MetasKept(was: KvMap, now: KvMap, end: nat, height: int)
    requires OnlyExpendableGone(was, now, end) && SearchEnds(was, end + 1, height)
    ensures SearchEnds(now, end + 1, height)
  {
    hide Dec, Parse, TxExpired, Expendable;
    forall n: nat | end < n < TWO_63 && MetaKey(n) in was
      ensures MetaKey(n) in now
    {
      MetaNotExpendable(was, n, end);
    }
  }

  lemma MetaNotExpendable(m: KvMap, n: nat, end: nat)
    requires end < n < TWO_63 && MetaKey(n) in m
    ensures !Expendable(MetaKey(n), m[MetaKey(n)], end)
  {
    hide Dec, TxExpired;
    var k := MetaKey(n);
    MetaKeyIsKey(n);
    ParseDec(n);
    assert BLOCK_KEYS[0] == (HEADERS, OnePart);
    forall kind | kind in BLOCK_KEYS
      ensures !Doomed(k, kind.0, kind.1, end)
    {
      if kind.0 != HEADERS {
        PrefixesApart(HEADERS, kind.0, k);
      }
    }
    PrefixesApart(HEADERS, BLOCK_HASHES, k);
    PrefixesApart(HEADERS, TX_INFOS, k);
  }

  lemma StateKept(was: KvMap, now: KvMap, end: nat)
    requires OnlyExpendableGone(was, now, end)
    ensures BLOCK_STORE in now <==> BLOCK_STORE in was
    ensures BLOCK_STORE in was ==> now[BLOCK_STORE] == was[BLOCK_STORE]
    ensures StoredState(now) == StoredState(was)
  {
    hide DecodeState, TxExpired, Parse;
    var k := BLOCK_STORE;
    forall kind | kind in BLOCK_KEYS
      ensures !(kind.0 <= k)
    {
      if kind.0 <= k {
        PrefixesApart(kind.0, [98], k);
      }
    }
    if k in was {
      assert !Expendable(k, was[k], end);
    }
  }
}
