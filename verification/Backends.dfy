/** The two backends behind one service: after the same messages they give the same answers. */
module Backends {
  import opened Wrappers
  import opened NetworkShared
  import opened History
  import opened Pending
  import opened ChainLog
  import opened Database
  import SqliteTable
  import SqliteDatasource
  import SqliteLaws
  import CsvTable
  import CsvDatasource
  import CsvLaws
  import StorageErrors

  type SqliteState = SqliteDatasource.State
  type CsvState = CsvDatasource.State

  // ---- the service over the CSV backend, as a value ----

  function CsvReceiveBlock(s: CsvState, b: BlockUpdate): CsvState {
    CsvDatasource.State(
      if Accepts(b) then CsvTable.ApplyBlock(s.utxos, b.utxoUpdates) else s.utxos,
      if Accepts(b) then b.height else s.latestBlock,
      s.blockHashes[b.height := b.hash],
      s.blockTimestamps[b.height := b.timestamp],
      s.finalizedHeights,
      s.mainChainHeights + {b.height})
  }

  function CsvRevertTo(s: CsvState, requested: int): CsvState {
    if s.latestBlock == 0 then s
    else
      var height := EffectiveRevert(requested, s.latestBlock);
      s.(utxos := CsvTable.Revert(s.utxos, height),
         latestBlock := height,
         mainChainHeights := set h | h in s.mainChainHeights && h <= height)
  }

  /** Every height up to five below is final from now on, stored or not. */
  function CsvUpdateFinality(s: CsvState, currentHeight: int): CsvState {
    var threshold := currentHeight - FINALITY_CONFIRMATIONS + 1;
    if threshold > 0 then s.(finalizedHeights := s.finalizedHeights + CsvDatasource.HeightsTo(threshold)) else s
  }

  function CsvHandle(s: CsvState, m: NetworkMessage): CsvState {
    match m
    case BlockUpdateMsg(b) => CsvReceiveBlock(s, b)
    case ReorgEvent(f) => CsvRevertTo(s, f)
    case UpdateFinalityStatus(c) => CsvUpdateFinality(s, c)
    case _ => s
  }

  function CsvHandleAll(s: CsvState, ms: seq<NetworkMessage>): CsvState {
    if ms == [] then s else CsvHandle(CsvHandleAll(s, ms[..|ms| - 1]), ms[|ms| - 1])
  }

  function CsvHashAnswer(s: CsvState, height: int): string {
    match CsvDatasource.BlockHashAt(s, height)
    case Some(hash) => hash
    case None => ""
  }

  function CsvReply(s: CsvState, m: NetworkMessage): Option<NetworkMessage> {
    match m
    case BlockUpdateMsg(b) => Some(BlockProcessedAck(b.height))
    case GetBlockHash(h) => Some(BlockHashResponse(CsvHashAnswer(s, h)))
    case _ => None
  }

  /** `process_block` over the CSV datasource. */
  method ProcessBlockIntoCsv(ds: CsvDatasource.CsvDatasource, block: BlockUpdate)
    returns (r: StorageErrors.StorageResult<()>)
    requires ds.Valid()
    modifies ds`utxos, ds`blocks, ds`latestBlock
    ensures ds.Valid() && (r.Ok? <==> Accepts(block))
    ensures ds.utxos == if r.Ok? then CsvTable.ApplyBlock(old(ds.utxos), block.utxoUpdates) else old(ds.utxos)
    ensures ds.latestBlock == if r.Ok? then block.height else old(ds.latestBlock)
  {
    var collected := CollectChanges(block);
    if collected.Err? {
      return Err(collected.error);
    }
    var changes := collected.value;
    SplitKinds(block.utxoUpdates);
    StorageErrors.FirstRejectedIs(changes.utxosUpdate, |changes.utxosUpdate|);
    StorageErrors.FirstRejectedIs(changes.utxosInsert, |changes.utxosInsert|);
    assert changes.utxosUpdate[..|changes.utxosUpdate|] == changes.utxosUpdate;
    assert changes.utxosInsert[..|changes.utxosInsert|] == changes.utxosInsert;
    r := ds.ProcessBlockUtxos(changes);
  }

  /** One message, handled over the CSV datasource. */
  method ServeFromCsv(ds: CsvDatasource.CsvDatasource, message: NetworkMessage) returns (reply: Option<NetworkMessage>)
    requires ds.Valid()
    modifies ds
    ensures ds.Valid()
    ensures ds.Abs() == CsvHandle(old(ds.Abs()), message)
    ensures reply == CsvReply(old(ds.Abs()), message)
  {
    reply := None;
    match message {
      case BlockUpdateMsg(update) =>
        var height := update.height;
        ds.StoreBlock(height, update.hash, update.timestamp);
        var _ := ProcessBlockIntoCsv(ds, update);
        reply := Some(BlockProcessedAck(height));
      case ReorgEvent(forkHeight) =>
        var latest := ds.latestBlock;
        var safe := SafeRevertHeight(forkHeight, latest);
        if latest != 0 {
          ds.MarkBlocksAfterHeightNotMainChain(safe);
          ds.RevertUtxosAfterHeight(safe);
        }
      case GetBlockHash(height) =>
        var hash := ds.GetBlockHash(height);
        reply := Some(BlockHashResponse(if hash.Some? then hash.value else ""));
      case UpdateFinalityStatus(currentHeight) =>
        var threshold := currentHeight - FINALITY_CONFIRMATIONS + 1;
        if threshold > 0 {
          ds.MarkBlocksAsFinal(threshold);
        }
      case _ =>
    }
  }

  // ---- runs ----

  const SqliteEmpty := SqliteDatasource.State(map[], map[])
  const CsvEmpty := CsvDatasource.State(map[], 0, map[], map[], {}, {})

  /** The message fits a store whose log is `log`: the next block of a chain, or a cut not above its tip. */
  ghost predicate Fits(log: Log, m: NetworkMessage, heightOf: string -> int) {
    match m
    case BlockUpdateMsg(b) => Chain(log + [b], heightOf)
    case ReorgEvent(f) => f < |log| || |log| <= 1
    case _ => true
  }

  function LogAfter(log: Log, m: NetworkMessage): Log {
    match m
    case BlockUpdateMsg(b) => log + [b]
    case ReorgEvent(f) => if f < |log| || |log| <= 1 then LogAfterRevert(log, f) else log
    case _ => log
  }

  function LogOf(ms: seq<NetworkMessage>): Log {
    if ms == [] then [] else LogAfter(LogOf(ms[..|ms| - 1]), ms[|ms| - 1])
  }

  /** Every message fits the log left by the messages before it. */
  ghost predicate WellFormedRun(ms: seq<NetworkMessage>, heightOf: string -> int) {
    ms == [] || (WellFormedRun(ms[..|ms| - 1], heightOf) && Fits(LogOf(ms[..|ms| - 1]), ms[|ms| - 1], heightOf))
  }

  ghost predicate CsvHolds(s: CsvState, log: Log) {
    && CsvTable.SameEntries(s.utxos, CsvTable.Replay(UpdatesOf(log)))
    && s.latestBlock == Max(|log| - 1, 0)
    && (forall h :: h in s.mainChainHeights <==> 0 <= h < |log|)
    && (forall h :: 0 <= h < |log| ==> h in s.blockHashes && s.blockHashes[h] == log[h].hash)
    && (forall h :: 0 <= h < |log| ==> h in s.blockTimestamps && s.blockTimestamps[h] == log[h].timestamp)
  }

  lemma CsvReceivingAppends(s: CsvState, log: Log, b: BlockUpdate, heightOf: string -> int)
    requires Chain(log + [b], heightOf) && CsvHolds(s, log)
    ensures CsvHolds(CsvReceiveBlock(s, b), log + [b])
  {
    hide CsvTable.SameEntries, CsvTable.ApplyBlock, CsvTable.Replay, WellFormed;
    assert (log + [b])[|log|] == b;
    assert forall h :: 0 <= h < |log| ==> (log + [b])[h] == log[h];
    CsvApplyingAppends(s.utxos, log, b);
  }

  lemma CsvApplyingAppends(m: CsvTable.Buckets, log: Log, b: BlockUpdate)
    requires CsvTable.SameEntries(m, CsvTable.Replay(UpdatesOf(log)))
    ensures CsvTable.SameEntries(CsvTable.ApplyBlock(m, b.utxoUpdates), CsvTable.Replay(UpdatesOf(log + [b])))
  {
    UpdatesOfConcat(log, [b]);
    assert UpdatesOf([b]) == [b.utxoUpdates];
    CsvTable.ApplyBlocksConcat(map[], UpdatesOf(log), [b.utxoUpdates]);
    CsvTable.ApplyBlocksSame(m, CsvTable.Replay(UpdatesOf(log)), [b.utxoUpdates]);
    OneBlock(m, b.utxoUpdates);
  }

  lemma OneBlock(m: CsvTable.Buckets, us: Updates)
    ensures CsvTable.ApplyBlocks(m, [us]) == CsvTable.ApplyBlock(m, us)
  {
    assert [us][..0] == [];
  }

  lemma CsvRevertingCuts(s: CsvState, log: Log, requested: int, heightOf: string -> int)
    requires Chain(log, heightOf) && CsvHolds(s, log) && (requested < |log| || |log| <= 1)
    ensures CsvHolds(CsvRevertTo(s, requested), LogAfterRevert(log, requested))
  {
    hide CsvTable.SameEntries, CsvTable.Revert, CsvTable.Replay, WellFormed;
    if |log| > 1 {
      CsvEntriesAfterRevert(s.utxos, log, EffectiveRevert(requested, |log| - 1), heightOf);
    }
  }

  lemma CsvEntriesAfterRevert(m: CsvTable.Buckets, log: Log, h: nat, heightOf: string -> int)
    requires Chain(log, heightOf) && h < |log| && CsvTable.SameEntries(m, CsvTable.Replay(UpdatesOf(log)))
    ensures CsvTable.SameEntries(CsvTable.Revert(m, h), CsvTable.Replay(UpdatesOf(log[..h + 1])))
  {
    hide CsvTable.Revert, CsvTable.Replay, WellFormed;
    UpdatesOfPrefix(log, h + 1);
    CsvLaws.RevertRestores(UpdatesOf(log), h);
    RevertSame(m, CsvTable.Replay(UpdatesOf(log)), h);
  }

  lemma RevertSame(m: CsvTable.Buckets, n: CsvTable.Buckets, h: int)
    requires CsvTable.SameEntries(m, n)
    ensures CsvTable.SameEntries(CsvTable.Revert(m, h), CsvTable.Revert(n, h))
  {
    forall a ensures CsvTable.BucketOf(CsvTable.Revert(m, h), a) == CsvTable.BucketOf(CsvTable.Revert(n, h), a) {
      assert CsvTable.BucketOf(m, a) == CsvTable.BucketOf(n, a);
    }
  }

  /** After every well-formed run both backends hold the run's log. */
  lemma {:induction false} RunsHoldTheLog(ms: seq<NetworkMessage>, heightOf: string -> int)
    requires WellFormedRun(ms, heightOf)
    ensures Chain(LogOf(ms), heightOf)
    ensures Holds(HandleAll(SqliteEmpty, ms), LogOf(ms), heightOf)
    ensures CsvHolds(CsvHandleAll(CsvEmpty, ms), LogOf(ms))
  {
    if ms == [] {
      EmptyLog(heightOf);
    } else {
      var n := |ms| - 1;
      var log, m := LogOf(ms[..n]), ms[n];
      RunsHoldTheLog(ms[..n], heightOf);
      MessageHolds(HandleAll(SqliteEmpty, ms[..n]), CsvHandleAll(CsvEmpty, ms[..n]), log, m, heightOf);
    }
  }

  lemma EmptyLog(heightOf: string -> int)
    ensures Chain([], heightOf) && Holds(SqliteEmpty, [], heightOf) && CsvHolds(CsvEmpty, [])
  {
    assert UpdatesOf([]) == [];
    forall id ensures LifeOk(Life([], id)) {
    }
  }

  lemma CsvFinalityKeeps(s: CsvState, log: Log, currentHeight: int)
    requires CsvHolds(s, log)
    ensures CsvHolds(CsvUpdateFinality(s, currentHeight), log)
  {
  }

  lemma MessageHolds(s: SqliteState, c: CsvState, log: Log, m: NetworkMessage, heightOf: string -> int)
    requires Chain(log, heightOf) && Holds(s, log, heightOf) && CsvHolds(c, log) && Fits(log, m, heightOf)
    ensures Chain(LogAfter(log, m), heightOf)
    ensures Holds(Handle(s, m), LogAfter(log, m), heightOf)
    ensures CsvHolds(CsvHandle(c, m), LogAfter(log, m))
  {
    hide Chain, Holds, CsvHolds, ReceiveBlock, RevertTo, UpdateFinality, CsvReceiveBlock, CsvRevertTo, CsvUpdateFinality;
    match m {
      case BlockUpdateMsg(b) =>
        ReceivingOneAppends(s, log, b, heightOf);
        CsvReceivingAppends(c, log, b, heightOf);
      case ReorgEvent(f) =>
        RevertingCuts(s, log, f, heightOf);
        CsvRevertingCuts(c, log, f, heightOf);
        if |log| > 1 {
          ChainPrefix(log, EffectiveRevert(f, |log| - 1) + 1, heightOf);
        }
      case UpdateFinalityStatus(h) =>
        FinalityKeeps(s, log, h, heightOf);
        CsvFinalityKeeps(c, log, h);
      case _ =>
    }
  }

  /**
   * Backend simulation. After any well-formed run in which no surviving block creates and spends
   * one output, both backends return the same rows to every spendable query, the same hash for
   * every height, the same reply to every message, and the same latest block.
   */
  lemma SameAnswers(ms: seq<NetworkMessage>, heightOf: string -> int, q: int, address: string, h: int)
    requires WellFormedRun(ms, heightOf) && NoSameBlockSpend(UpdatesOf(LogOf(ms)))
    ensures
      var s, c := HandleAll(SqliteEmpty, ms), CsvHandleAll(CsvEmpty, ms);
      && SqliteTable.Spendable(s.utxo, q, address) == CsvTable.Spendable(c.utxos, q, address)
      && HashAnswer(s, h) == CsvHashAnswer(c, h)
      && (forall m :: Reply(s, m) == CsvReply(c, m))
      && SqliteDatasource.LatestBlock(s.blocks) == c.latestBlock
  {
    RunsHoldTheLog(ms, heightOf);
    var s, c, log := HandleAll(SqliteEmpty, ms), CsvHandleAll(CsvEmpty, ms), LogOf(ms);
    LatestOf(s.blocks, log, |log|, heightOf);
    HashAnswers(s, log, heightOf, h);
    forall m ensures Reply(s, m) == CsvReply(c, m) {
      if m.GetBlockHash? {
        HashAnswers(s, log, heightOf, m.height);
      }
    }
    SameSpendable(UpdatesOf(log), q, address);
    assert CsvTable.BucketOf(c.utxos, address) == CsvTable.BucketOf(CsvTable.Replay(UpdatesOf(log)), address);
  }

  /**
   * SQLite also keeps a row for a spend whose creation it never saw. Such a row is spent in the
   * block that created it, so no query ever returns it; every other row is in both backends.
   */
  lemma SameSpendable(hist: seq<Updates>, q: int, address: string)
    requires WellFormed(hist) && NoSameBlockSpend(hist)
    ensures SqliteTable.Spendable(SqliteTable.Replay(hist), q, address)
         == CsvTable.Spendable(CsvTable.Replay(hist), q, address)
  {
    var rows := SqliteTable.Spendable(SqliteTable.Replay(hist), q, address);
    var entries := CsvTable.Spendable(CsvTable.Replay(hist), q, address);
    forall id ensures SqliteTable.Slot(rows, id) == SqliteTable.Slot(entries, id) {
      var life := Life(hist, id);
      SqliteLaws.ReplaySlot(hist, id);
      CsvLaws.ReplaySlot(hist, address, id);
      LifeStrict(hist, id);
      LifeHeights(hist, 0, id);
      assert LifeOk(life);
      assert forall i :: 0 <= i < |life| ==> life[i] in life;
      RowAgainstEntry(life, address, q);
      assert SqliteTable.Slot(rows, id) == Visible(SqliteTable.Slot(SqliteTable.Replay(hist), id), address, q);
      assert SqliteTable.Slot(entries, id) == Visible(CsvTable.Slot(CsvTable.Replay(hist), address, id), address, q)
        by { EntriesUnderAddress(hist, address, id); }
    }
    SqliteTable.SlotsDecide(rows, entries);
  }

  function Visible(slot: Option<UtxoUpdate>, address: string, q: int): Option<UtxoUpdate> {
    if slot.Some? && slot.value.address == address && slot.value.SpendableAt(q) then slot else None
  }

  lemma RowAgainstEntry(life: Updates, address: string, q: int)
    requires LifeOk(life) && (|life| == 2 ==> life[0].blockHeight < life[1].blockHeight)
    requires forall i :: 0 <= i < |life| ==> StampedAt(life[i], life[i].blockHeight)
    ensures Visible(SqliteLaws.RowOf(life), address, q) == Visible(CsvLaws.EntryOf(life, address), address, q)
  {
  }

  lemma EntriesUnderAddress(hist: seq<Updates>, address: string, id: OutPoint)
    requires WellFormed(hist)
    ensures
      var slot := CsvTable.Slot(CsvTable.Replay(hist), address, id);
      slot.Some? ==> slot.value.address == address
  {
    CsvLaws.ReplaySlot(hist, address, id);
    assert LifeOk(Life(hist, id));
  }
}
