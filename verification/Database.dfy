/** The storage service over the SQLite backend: what each request does to the two tables. */
module Database {
  import opened Wrappers
  import opened NetworkShared
  import opened History
  import opened Pending
  import opened StorageErrors
  import opened SqliteTable
  import opened SqliteDatasource
  import Selection

  /** The height a revert request really goes to: never negative, never more than six blocks deep. */
  function EffectiveRevert(requested: int, latest: int): int {
    Max(Max(requested, 0), Max(latest - FINALITY_CONFIRMATIONS + 1, 0) - 1)
  }

  function RevertTablesTo(s: State, height: int): State {
    State(LeaveMainChain(s.blocks, height), Revert(s.utxo, height))
  }

  /** Nothing happens while the latest block is 0. */
  ghost function RevertTo(s: State, requested: int): State {
    var latest := LatestBlock(s.blocks);
    if latest == 0 then s else RevertTablesTo(s, EffectiveRevert(requested, latest))
  }

  function UpdateFinality(s: State, currentHeight: int): State {
    var threshold := currentHeight - FINALITY_CONFIRMATIONS + 1;
    if threshold > 0 then s.(blocks := MarkFinal(s.blocks, threshold)) else s
  }

  predicate Accepts(b: BlockUpdate) {
    b.height >= 0 && AllAcceptable(b.utxoUpdates)
  }

  /** The hash is kept even when the block's updates are rejected. */
  function ReceiveBlock(s: State, b: BlockUpdate): State {
    State(
      StoreBlockRow(s.blocks, b.height, b.hash, b.timestamp),
      if Accepts(b) then ApplyBlock(s.utxo, b.utxoUpdates) else s.utxo)
  }

  /** The answer the indexer gets for a height; every failure reads as the empty hash. */
  function HashAnswer(s: State, height: int): string {
    if height < 0 then "" else
      match BlockHashAt(s.blocks, height)
      case Some(hash) => hash
      case None => ""
  }

  /** One message, as storage handles it. */
  ghost function Handle(s: State, m: NetworkMessage): State {
    match m
    case BlockUpdateMsg(b) => ReceiveBlock(s, b)
    case ReorgEvent(f) => RevertTo(s, f)
    case UpdateFinalityStatus(c) => UpdateFinality(s, c)
    case _ => s
  }

  function Reply(s: State, m: NetworkMessage): Option<NetworkMessage> {
    match m
    case BlockUpdateMsg(b) => Some(BlockProcessedAck(b.height))
    case GetBlockHash(h) => Some(BlockHashResponse(HashAnswer(s, h)))
    case _ => None
  }

  ghost function HandleAll(s: State, ms: seq<NetworkMessage>): State {
    if ms == [] then s else Handle(HandleAll(s, ms[..|ms| - 1]), ms[|ms| - 1])
  }

  /** The first part of `process_block`: validates the updates and sorts them into two lists. */
  method CollectChanges(block: BlockUpdate) returns (r: StorageResult<PendingChanges>)
    ensures r.Ok? <==> Accepts(block)
    ensures r.Ok? ==> r.value == PendingChanges(block.height, Spends(block.utxoUpdates), Creations(block.utxoUpdates))
    ensures r.Err? && block.height < 0 ==> r.error == InvalidBlockHeight(block.height)
    ensures r.Err? && block.height >= 0 ==> r.error == Rejection(block.utxoUpdates[FirstRejected(block.utxoUpdates)])
    ensures r.Err? && block.height >= 0 ==>
      exists i :: 0 <= i < |block.utxoUpdates| && FirstFault(block.utxoUpdates, i, r.error)
  {
    var height := block.height;
    if height < 0 {
      return Err(InvalidBlockHeight(height));
    }
    var us := block.utxoUpdates;
    var utxosUpdate: Updates, utxosInsert: Updates := [], [];
    var i := 0;
    while i < |us|
      invariant 0 <= i <= |us|
      invariant forall k :: 0 <= k < i ==> us[k].Acceptable()
      invariant utxosUpdate == Spends(us[..i]) && utxosInsert == Creations(us[..i])
    {
      var utxo := us[i];
      if utxo.amount < 0 {
        FirstRejectedIs(us, i);
        assert FirstFault(us, i, InvalidAmount(utxo.amount));
        return Err(InvalidAmount(utxo.amount));
      }
      if utxo.address == "" {
        FirstRejectedIs(us, i);
        assert FirstFault(us, i, InvalidAddress);
        return Err(InvalidAddress);
      }
      assert us[..i + 1][..i] == us[..i];
      if utxo.spentTxid.Some? {
        utxosUpdate := utxosUpdate + [utxo];
      } else {
        utxosInsert := utxosInsert + [utxo];
      }
      i := i + 1;
    }
    assert us[..i] == us;
    FirstRejectedIs(us, i);
    r := Ok(PendingChanges(height, utxosUpdate, utxosInsert));
  }

  /** The clamp of `revert_to_height`. */
  method SafeRevertHeight(height: int, latest: int) returns (safe: int)
    ensures safe == EffectiveRevert(height, latest)
  {
    var target := Max(height, 0);
    var threshold := latest - FINALITY_CONFIRMATIONS + 1;
    threshold := Max(threshold, 0);
    safe := Max(target, threshold - 1);
  }

  class UtxoDatabase {
    const datasource: SqliteDatasource

    constructor (datasource: SqliteDatasource)
      ensures this.datasource == datasource
    {
      this.datasource := datasource;
    }

    method ProcessBlock(block: BlockUpdate) returns (r: StorageResult<()>)
      requires datasource.Valid()
      modifies datasource`utxo
      ensures datasource.Valid()
      ensures r.Ok? <==> Accepts(block)
      ensures r.Ok? ==> datasource.utxo == ApplyBlock(old(datasource.utxo), block.utxoUpdates)
      ensures r.Err? ==> datasource.utxo == old(datasource.utxo)
      ensures r.Err? && block.height < 0 ==> r.error == InvalidBlockHeight(block.height)
      ensures r.Err? && block.height >= 0 ==> r.error == Rejection(block.utxoUpdates[FirstRejected(block.utxoUpdates)])
    {
      var changes := CollectChanges(block);
      if changes.Err? {
        return Err(changes.error);
      }
      SplitKinds(block.utxoUpdates);
      r := datasource.ProcessBlockUtxos(changes.value);
    }

    method SelectUtxosForAmount(blockHeight: int, address: string, targetAmount: int)
      returns (r: StorageResult<seq<UtxoUpdate>>)
      requires datasource.Valid()
      ensures blockHeight < 0 ==> r == Err(InvalidBlockHeight(blockHeight))
      ensures blockHeight >= 0 && address == "" ==> r == Err(InvalidAddress)
      ensures blockHeight >= 0 && address != "" && targetAmount <= 0 ==> r == Err(InvalidAmount(targetAmount))
      ensures blockHeight >= 0 && address != "" && targetAmount > 0 ==>
        exists rows :: Lists(rows, Spendable(datasource.utxo, blockHeight, address))
                    && r == Selection.Select(rows, targetAmount)
    {
      if blockHeight < 0 {
        return Err(InvalidBlockHeight(blockHeight));
      }
      if address == "" {
        return Err(InvalidAddress);
      }
      if targetAmount <= 0 {
        return Err(InvalidAmount(targetAmount));
      }
      var spendable := datasource.GetSpendableUtxosAtHeight(blockHeight, address);
      var rows := spendable.value;
      if rows == [] {
        return Ok([]);
      }
      r := Selection.AccumulateOldestFirst(rows, targetAmount);
    }

    method UpdateFinalityStatus(currentHeight: int)
      modifies datasource`blocks
      ensures datasource.Abs() == UpdateFinality(old(datasource.Abs()), currentHeight)
    {
      var threshold := currentHeight - FINALITY_CONFIRMATIONS + 1;
      if threshold > 0 {
        datasource.MarkBlocksAsFinal(threshold);
      }
    }

    method RevertToHeight(height: int)
      requires datasource.Valid()
      modifies datasource
      ensures datasource.Valid()
      ensures datasource.Abs() == RevertTo(old(datasource.Abs()), height)
    {
      var latest := datasource.GetLatestBlock();
      var safe := SafeRevertHeight(height, latest);
      if latest == 0 {
        return;
      }
      datasource.MarkBlocksAfterHeightNotMainChain(safe);
      datasource.RevertUtxosAfterHeight(safe);
    }

    method GetBlockHash(height: int) returns (r: StorageResult<string>)
      ensures r.Ok? <==> height >= 0 && BlockHashAt(datasource.blocks, height).Some?
      ensures (if r.Ok? then r.value else "") == HashAnswer(datasource.Abs(), height)
    {
      var found := datasource.GetBlockHash(height);
      match found
      case Ok(Some(hash)) => r := Ok(hash);
      case Ok(None) => r := Err(BlockNotFound(height));
      case Err(e) => r := Err(e);
    }
  }

  /** The socket server: store the block, apply its updates, acknowledge; errors are only logged. */
  method HandleSocketConnection(db: UtxoDatabase, message: NetworkMessage) returns (reply: Option<NetworkMessage>)
    requires db.datasource.Valid()
    modifies db.datasource
    ensures db.datasource.Valid()
    ensures db.datasource.Abs() == Handle(old(db.datasource.Abs()), message)
    ensures reply == Reply(old(db.datasource.Abs()), message)
  {
    reply := None;
    match message {
      case BlockUpdateMsg(update) =>
        var height := update.height;
        var _ := db.datasource.StoreBlock(height, update.hash, update.timestamp);
        var _ := db.ProcessBlock(update);
        reply := Some(BlockProcessedAck(height));
      case ReorgEvent(forkHeight) =>
        db.RevertToHeight(forkHeight);
      case GetBlockHash(height) =>
        var hash := db.GetBlockHash(height);
        reply := Some(BlockHashResponse(if hash.Ok? then hash.value else ""));
      case UpdateFinalityStatus(currentHeight) =>
        db.UpdateFinalityStatus(currentHeight);
      case _ =>
    }
  }
}
