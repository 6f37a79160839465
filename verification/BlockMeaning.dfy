/**
 * What pruning the block and state stores means for the entries by their names: the prefixes, the shapes of the keys and
 * the values are written out here, and not taken from the tables of BlockPrune and CometPrune.
 */
module BlockMeaning {
  import opened Base
  import opened Lex
  import opened Decimal
  import opened KvStore
  import opened HeightSweep
  import opened HeightCoverage
  import opened Varint
  import opened WireSkip
  import opened WireFields
  import opened WireMessages
  import opened WireGrammar
  import opened BlockPrune
  import opened BlockBase
  import opened CometPrune

  lemma Names()
    ensures HEADERS == Ascii("H:") && COMMITS == Ascii("C:") && EXTENDED_COMMITS == Ascii("EC:")
    ensures SEEN_COMMITS == Ascii("SC:") && PARTS == Ascii("P:") && BLOCK_HASHES == Ascii("BH:") && TX_INFOS == Ascii("TH:")
    ensures BLOCK_STORE == Ascii("blockStore")
  {
  }

  lemma StateNames()
    ensures VALIDATORS == Ascii("validatorsKey:") && ABCI_RESPONSES == Ascii("abciResponsesKey:")
    ensures CONSENSUS_PARAMS == Ascii("consensusParamsKey:")
  {
  }

  // ---- Keys with a height ------------------------------------------------------------------------------

  /** Heights from `b` to `h` under a name, with nothing behind the height, and none else. */
  ghost predicate Heights(m: KvMap, name: Bytes, b: nat, h: nat) {
    && (forall k :: k in m && name <= k ==> exists n: nat :: b <= n <= h && k == name + Dec(n))
    && (forall n: nat :: b <= n <= h ==> name + Dec(n) in m)
  }

  /** `<name><height>:<part>` */
  function PartKey(name: Bytes, n: nat, t: Bytes): Bytes {
    name + (Dec(n) + ([COLON] + t))
  }

  ghost predicate HasPart(m: KvMap, name: Bytes, n: nat) {
    exists t: Bytes :: PartKey(name, n, t) in m
  }

  /** Heights from `b` to `h` under a name, each with a part or more behind a colon, and none else. */
  ghost predicate HeightParts(m: KvMap, name: Bytes, b: nat, h: nat) {
    && (forall k :: k in m && name <= k ==> exists n: nat, t: Bytes :: b <= n <= h && k == PartKey(name, n, t))
    && (forall n: nat :: b <= n <= h ==> HasPart(m, name, n))
  }

  lemma HeightsAreContiguous(m: KvMap, name: Bytes, b: nat, h: nat)
    requires Heights(m, name, b, h)
    ensures Contiguous(m, name, OnePart, b, h)
  {
    hide Dec;
    forall n: nat
      ensures Key(name, n, []) == name + Dec(n)
    {
      assert Dec(n) + [] == Dec(n);
    }
    forall k | k in m && name <= k
      ensures exists n: nat, t :: b <= n <= h && IsTail(OnePart, t) && k == Key(name, n, t)
    {
      var n: nat :| b <= n <= h && k == name + Dec(n);
      assert IsTail(OnePart, []) && k == Key(name, n, []);
    }
    forall n: nat | b <= n <= h
      ensures Holds(m, name, OnePart, n)
    {
      assert IsTail(OnePart, []) && Key(name, n, []) in m;
    }
  }

  lemma PartKeyIs(name: Bytes, n: nat, t: Bytes)
    ensures PartKey(name, n, t) == Key(name, n, [COLON] + t) && IsTail(TwoParts, [COLON] + t)
    ensures name <= PartKey(name, n, t) && Head(PartKey(name, n, t)[|name|..]) == Dec(n)
  {
    hide Dec;
    HeadOf(Dec(n), [COLON] + t);
  }

  lemma PartsAreContiguous(m: KvMap, name: Bytes, b: nat, h: nat)
    requires HeightParts(m, name, b, h)
    ensures Contiguous(m, name, TwoParts, b, h)
  {
    hide Dec, PartKey, Key, IsTail;
    forall k | k in m && name <= k
      ensures exists n: nat, t :: b <= n <= h && IsTail(TwoParts, t) && k == Key(name, n, t)
    {
      var n: nat, t: Bytes :| b <= n <= h && k == PartKey(name, n, t);
      PartKeyIs(name, n, t);
    }
    forall n: nat | b <= n <= h
      ensures Holds(m, name, TwoParts, n)
    {
      assert HasPart(m, name, n);
      var t: Bytes :| PartKey(name, n, t) in m;
      PartKeyIs(name, n, t);
    }
  }

  /** Which of these heights are left, of a kind with nothing behind the height. */
  ghost predicate HeightsLeft(m: KvMap, now: KvMap, name: Bytes, end: nat) {
    forall n: nat :: 1 <= n < TWO_63 && name + Dec(n) in m ==> (name + Dec(n) in now <==> n > end || Orphan(OnePart, n, end))
  }

  ghost predicate PartsLeft(m: KvMap, now: KvMap, name: Bytes, end: nat) {
    forall n: nat, t: Bytes :: 1 <= n < TWO_63 && PartKey(name, n, t) in m ==>
      (PartKey(name, n, t) in now <==> n > end || Orphan(TwoParts, n, end))
  }

  lemma SweepLeavesHeights(m: KvMap, now: KvMap, name: Bytes, b: nat, h: nat, end: nat)
    requires 1 <= b < end <= h < TWO_63 && end < TWO_53 && end != Pow10(|Dec(end)| - 1) && Heights(m, name, b, h)
    requires forall k :: name <= k ==> (k in now <==> k in Sweep(m, name, OnePart, 0, end, |Dec(end)|))
    ensures HeightsLeft(m, now, name, end)
  {
    HeightsAreContiguous(m, name, b, h);
    SweepLeavesOrphans(m, name, OnePart, b, h, end);
    hide Dec, Sweep, Orphan, Contiguous;
    forall n: nat | 1 <= n < TWO_63 && name + Dec(n) in m
      ensures name + Dec(n) in now <==> n > end || Orphan(OnePart, n, end)
    {
      var i: nat :| b <= i <= h && name + Dec(n) == name + Dec(i);
      assert Dec(n) == (name + Dec(n))[|name|..] && Dec(i) == (name + Dec(i))[|name|..];
      DecInjective(n, i);
      assert Dec(n) + [] == Dec(n) && Key(name, n, []) == name + Dec(n) && IsTail(OnePart, []);
    }
  }

  lemma SweepLeavesParts(m: KvMap, now: KvMap, name: Bytes, b: nat, h: nat, end: nat)
    requires 1 <= b < end <= h < TWO_63 && end < TWO_53 && end != Pow10(|Dec(end)| - 1) && HeightParts(m, name, b, h)
    requires forall k :: name <= k ==> (k in now <==> k in Sweep(m, name, TwoParts, 0, end, |Dec(end)|))
    ensures PartsLeft(m, now, name, end)
  {
    PartsAreContiguous(m, name, b, h);
    SweepLeavesOrphans(m, name, TwoParts, b, h, end);
    hide Dec, Sweep, Orphan, Contiguous, PartKey, Key, IsTail, Head;
    forall n: nat, t: Bytes | 1 <= n < TWO_63 && PartKey(name, n, t) in m
      ensures PartKey(name, n, t) in now <==> n > end || Orphan(TwoParts, n, end)
    {
      var k := PartKey(name, n, t);
      PartKeyIs(name, n, t);
      var i: nat, u: Bytes :| b <= i <= h && k == PartKey(name, i, u);
      PartKeyIs(name, i, u);
      DecInjective(n, i);
    }
  }

  /**
   * Of contiguous block headers, commits, extended and seen commits, and block parts, pruning leaves those above the end
   * and the orphans.
   */
  lemma BlocksLeft(m: KvMap, b: nat, h: nat, end: nat)
    requires 1 <= b < end <= h < TWO_63 && end < TWO_53 && end != Pow10(|Dec(end)| - 1)
    ensures Heights(m, Ascii("H:"), b, h) ==> HeightsLeft(m, AfterBlockPrune(m, end), Ascii("H:"), end)
    ensures Heights(m, Ascii("C:"), b, h) ==> HeightsLeft(m, AfterBlockPrune(m, end), Ascii("C:"), end)
    ensures Heights(m, Ascii("EC:"), b, h) ==> HeightsLeft(m, AfterBlockPrune(m, end), Ascii("EC:"), end)
    ensures Heights(m, Ascii("SC:"), b, h) ==> HeightsLeft(m, AfterBlockPrune(m, end), Ascii("SC:"), end)
    ensures HeightParts(m, Ascii("P:"), b, h) ==> PartsLeft(m, AfterBlockPrune(m, end), Ascii("P:"), end)
  {
    Names();
    KindLeft(m, b, h, end, 0);
    KindLeft(m, b, h, end, 1);
    KindLeft(m, b, h, end, 2);
    KindLeft(m, b, h, end, 3);
    KindLeft(m, b, h, end, 4);
    hide Heights, HeightParts, HeightsLeft, PartsLeft, AfterBlockPrune, Dec, Pow10, Ascii;
  }

  lemma KindLeft(m: KvMap, b: nat, h: nat, end: nat, i: nat)
    requires 1 <= b < end <= h < TWO_63 && end < TWO_53 && end != Pow10(|Dec(end)| - 1) && i < |BLOCK_KEYS|
    ensures var (name, parser) := BLOCK_KEYS[i];
            if parser == OnePart then Heights(m, name, b, h) ==> HeightsLeft(m, AfterBlockPrune(m, end), name, end)
            else HeightParts(m, name, b, h) ==> PartsLeft(m, AfterBlockPrune(m, end), name, end)
  {
    hide Dec, Sweep, AfterBlockPrune, HeightsLeft, PartsLeft, Heights, HeightParts;
    var (name, parser) := BLOCK_KEYS[i];
    forall k | name <= k
      ensures k in AfterBlockPrune(m, end) <==> k in Sweep(m, name, parser, 0, end, |Dec(end)|)
    {
      BlockPruneKind(m, end, i, k);
    }
    if parser == OnePart && Heights(m, name, b, h) {
      SweepLeavesHeights(m, AfterBlockPrune(m, end), name, b, h, end);
    }
    if parser == TwoParts && HeightParts(m, name, b, h) {
      SweepLeavesParts(m, AfterBlockPrune(m, end), name, b, h, end);
    }
  }

  /** Up to a power of ten of two digits or more nothing of any of these kinds goes. */
  lemma PowerOfTenKeepsBlocks(m: KvMap, e: nat, k: Bytes)
    requires e >= 1 && k in m
    requires Ascii("H:") <= k || Ascii("C:") <= k || Ascii("EC:") <= k || Ascii("SC:") <= k || Ascii("P:") <= k
    ensures k in AfterBlockPrune(m, Pow10(e))
  {
    Names();
    hide Ascii, AfterBlockPrune, Sweep;
    var i := if Ascii("H:") <= k then 0 else if Ascii("C:") <= k then 1 else if Ascii("EC:") <= k then 2
             else if Ascii("SC:") <= k then 3 else 4;
    assert BLOCK_KEYS[i].0 <= k;
    PowerOfTenDeletesNothing(m, BLOCK_KEYS[i].0, BLOCK_KEYS[i].1, e);
    BlockPruneKind(m, Pow10(e), i, k);
  }

  /** Entries with any other name stay. */
  lemma OthersStay(m: KvMap, end: nat, k: Bytes)
    requires k in m
    requires !(Ascii("H:") <= k) && !(Ascii("C:") <= k) && !(Ascii("EC:") <= k) && !(Ascii("SC:") <= k)
    requires !(Ascii("P:") <= k) && !(Ascii("BH:") <= k) && !(Ascii("TH:") <= k)
    ensures k in AfterBlockPrune(m, end) && AfterBlockPrune(m, end)[k] == m[k]
  {
    Names();
    hide Ascii, SweepAll, TxExpired;
    SweepsElsewhere(m, BLOCK_KEYS, end, k);
    SweepAllShrinks(m, BLOCK_KEYS, end);
  }

  // ---- Hashes and transactions ----------------------------------------------------------------------------

  /** No block hash is left, and of the transaction records, each decodable, those not below the end. */
  lemma HashesAndTransactions(m: KvMap, end: nat, k: Bytes)
    ensures Ascii("BH:") <= k ==> k !in AfterBlockPrune(m, end)
    ensures forall height: Int64, index: Uint32, code: Uint32, error: Bytes ::
              Ascii("TH:") <= k && k in m && |error| < TWO_53 && m[k] == EncodeTx(height, index, code, error) && |m[k]| < TWO_63 ==>
                (k in AfterBlockPrune(m, end) <==> height >= end)
  {
    Names();
    hide Ascii, AfterBlockPrune, EncodeTx, TxExpired;
    if Ascii("BH:") <= k {
      BlockHashesGone(m, end, k);
    }
    forall height: Int64, index: Uint32, code: Uint32, error: Bytes |
      Ascii("TH:") <= k && k in m && |error| < TWO_53 && m[k] == EncodeTx(height, index, code, error) && |m[k]| < TWO_63
      ensures k in AfterBlockPrune(m, end) <==> height >= end
    {
      TxInfosByHeight(m, end, k, height, index, code, error);
    }
  }

  /** A record that begins with a known field of another type makes pruning fail, as undecodable, and is never deleted. */
  lemma MistypedStopsPruning(m: KvMap, k: Bytes, r: Record)
    requires Ascii("TH:") <= k && k in m && |m[k]| < TWO_63 && Valid(r) && At(m[k], 0, Written(r))
    requires NumberIn(r.tag) in {1, 2, 3, 4} && (if NumberIn(r.tag) == 4 then !r.Delimited? else !r.VarintRecord?)
    ensures HasUndecodable(m)
    ensures forall end: nat, now :: OnlyExpendableGone(m, now, end) ==> k in now && now[k] == m[k]
  {
    Names();
    WrongTypeRefused(TX_SCHEMA, TxMessage(0, 0, 0, []), m[k], 0, r);
    hide Decode, Ascii, Valid, Written, FieldNumber, Word64;
    assert DecodeTx(m[k]).err.Some?;
    UndecodableStays(m, k);
  }

  lemma UndecodableStays(m: KvMap, k: Bytes)
    requires TX_INFOS <= k && k in m && (|m[k]| < TWO_63 ==> DecodeTx(m[k]).err.Some?)
    ensures forall end: nat, now :: OnlyExpendableGone(m, now, end) ==> k in now && now[k] == m[k]
  {
    hide DecodeTx, Doomed;
    forall end: nat
      ensures !Expendable(k, m[k], end)
    {
      forall kind | kind in BLOCK_KEYS
        ensures !Doomed(k, kind.0, kind.1, end)
      {
        PrefixesApart(TX_INFOS, kind.0, k);
        NotDoomed(k, kind.0, kind.1, end);
      }
      PrefixesApart(TX_INFOS, BLOCK_HASHES, k);
    }
  }

  lemma NotDoomed(k: Bytes, prefix: Bytes, parser: Parser, end: nat)
    ensures Doomed(k, prefix, parser, end) ==> prefix <= k
  {
  }

  // ---- The base -------------------------------------------------------------------------------------------

  /** What is stored as a BlockStoreState is read back, unless both numbers are zero, which leaves nothing to store. */
  lemma StoredStateIs(m: KvMap, base: Int64, height: Int64)
    requires Ascii("blockStore") in m && m[Ascii("blockStore")] == EncodeState(base, height) && (base != 0 || height != 0)
    ensures StoredState(m).Some? && StoredState(m).value.err.None? && StateHeight(StoredState(m).value.msg) == height
  {
    Names();
    StateSize(base, height);
    StateRoundTrip(base, height);
    SovIsLeast(ToUint64(base));
    SovIsLeast(ToUint64(height));
    hide EncodeState, EncodeField, DecodeState, Ascii, Sov;
  }

  function HeaderKey(n: nat): Bytes {
    Ascii("H:") + Dec(n)
  }

  lemma HeaderKeyIs()
    ensures forall n: nat :: HeaderKey(n) == MetaKey(n)
  {
    Names();
    hide Ascii, Dec;
  }

  /** The base becomes the least height kept whose header is there, and the stored height stays. */
  lemma BaseIsLeastHeader(m: KvMap, now: KvMap, want: nat, base: Int64, height: Int64)
    requires Ascii("blockStore") in m && m[Ascii("blockStore")] == EncodeState(base, height) && (base != 0 || height != 0)
    requires BaseSet(m, now, want, StoredState(m))
    ensures (forall n: nat :: want <= n <= height ==> HeaderKey(n) !in m) ==> now == m
    ensures forall n: Int64 :: want <= n <= height && HeaderKey(n) in m && (forall j: nat :: want <= j < n ==> HeaderKey(j) !in m) ==>
              now == m[Ascii("blockStore") := EncodeState(n, height)]
  {
    Names();
    HeaderKeyIs();
    StoredStateIs(m, base, height);
    hide EncodeState, StoredState, StateHeight, Ascii, Dec, HeaderKey, MetaKey;
    forall n: Int64 | want <= n <= height && HeaderKey(n) in m && forall j: nat :: want <= j < n ==> HeaderKey(j) !in m
      ensures now == m[Ascii("blockStore") := EncodeState(n, height)]
    {
      assert LeastMeta(m, want, height, n);
    }
    if forall n: nat :: want <= n <= height ==> HeaderKey(n) !in m {
      assert NoMeta(m, want, height);
    }
  }

  // ---- The state store ----------------------------------------------------------------------------------

  /** Of contiguous responses and parameters, those above the end are left, and the orphans. */
  lemma StateLeft(m: KvMap, b: nat, h: nat, end: nat)
    requires 1 <= b < end <= h < TWO_63 && end < TWO_53 && end != Pow10(|Dec(end)| - 1)
    ensures Heights(m, Ascii("abciResponsesKey:"), b, h) ==> HeightsLeft(m, SweepAll(m, STATE_KEYS, end), Ascii("abciResponsesKey:"), end)
    ensures Heights(m, Ascii("consensusParamsKey:"), b, h) ==>
              HeightsLeft(m, SweepAll(m, STATE_KEYS, end), Ascii("consensusParamsKey:"), end)
  {
    StateNames();
    StateKindLeft(m, b, h, end, 0);
    StateKindLeft(m, b, h, end, 1);
    hide Heights, HeightsLeft, SweepAll, Dec, Pow10, Ascii;
  }

  lemma StateKindLeft(m: KvMap, b: nat, h: nat, end: nat, i: nat)
    requires 1 <= b < end <= h < TWO_63 && end < TWO_53 && end != Pow10(|Dec(end)| - 1) && i < |STATE_KEYS|
    ensures var name := STATE_KEYS[i].0; Heights(m, name, b, h) ==> HeightsLeft(m, SweepAll(m, STATE_KEYS, end), name, end)
  {
    hide Dec, Sweep, SweepAll, HeightsLeft, Heights;
    var name := STATE_KEYS[i].0;
    forall k | name <= k
      ensures k in SweepAll(m, STATE_KEYS, end) <==> k in Sweep(m, name, OnePart, 0, end, |Dec(end)|)
    {
      SweepsIndependent(m, STATE_KEYS, end, i, k);
    }
    if Heights(m, name, b, h) {
      SweepLeavesHeights(m, SweepAll(m, STATE_KEYS, end), name, b, h, end);
    }
  }

  /** Entries with any other name stay. */
  lemma OtherStatesStay(m: KvMap, end: nat, k: Bytes)
    requires k in m && !(Ascii("abciResponsesKey:") <= k) && !(Ascii("consensusParamsKey:") <= k)
    ensures k in SweepAll(m, STATE_KEYS, end) && SweepAll(m, STATE_KEYS, end)[k] == m[k]
  {
    StateNames();
    hide Ascii, SweepAll;
    SweepsElsewhere(m, STATE_KEYS, end, k);
    SweepAllShrinks(m, STATE_KEYS, end);
  }

  /** Of a contiguous validator history, the anchor and all behind it are left, and the orphans before it. */
  lemma HistoryLeft(was: KvMap, now: KvMap, keep: nat, decode: Decoder, anchor: nat, b: nat, h: nat)
    requires HistoryPruned(was, now, keep, decode, Some(anchor))
    requires Heights(was, Ascii("validatorsKey:"), b, h)
    requires 1 <= b < anchor - 1 <= h < TWO_63 && anchor < TWO_53 && anchor - 1 != Pow10(|Dec(anchor - 1)| - 1)
    ensures HeightsLeft(was, now, Ascii("validatorsKey:"), anchor - 1)
  {
    StateNames();
    hide Ascii, HeightsLeft, Heights, Sweep, Dec;
    SweepLeavesHeights(was, now, VALIDATORS, b, h, anchor - 1);
  }
}
