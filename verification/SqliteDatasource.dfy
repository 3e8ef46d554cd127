/** The SQLite backend: two tables, each changed by one statement at a time. */
module SqliteDatasource {
  import opened Wrappers
  import opened NetworkShared
  import opened History
  import opened Pending
  import opened StorageErrors
  import opened SqliteTable

  datatype BlockRow = BlockRow(hash: string, timestamp: int, isMainChain: bool, isFinal: bool)

  type BlockTable = map<int, BlockRow>

  datatype State = State(blocks: BlockTable, utxo: Table)

  // ---- the statements on `blocks`, as values ----

  /** The column `hash` is unique: no other height may hold it. */
  predicate HashFree(blocks: BlockTable, height: int, hash: string) {
    forall k :: k in blocks && k != height ==> blocks[k].hash != hash
  }

  function StoreBlockRow(blocks: BlockTable, height: int, hash: string, timestamp: int): BlockTable {
    if HashFree(blocks, height, hash) then
      blocks[height := BlockRow(hash, timestamp, true, height in blocks && blocks[height].isFinal)]
    else blocks
  }

  function MarkFinal(blocks: BlockTable, threshold: int): BlockTable {
    map h | h in blocks :: if h <= threshold then blocks[h].(isFinal := true) else blocks[h]
  }

  function LeaveMainChain(blocks: BlockTable, height: int): BlockTable {
    map h | h in blocks :: if h > height then blocks[h].(isMainChain := false) else blocks[h]
  }

  function MainChainHeights(blocks: BlockTable): set<int> {
    set h | h in blocks && blocks[h].isMainChain
  }

  /** The highest main-chain height, 0 when there is none. */
  ghost predicate IsLatest(blocks: BlockTable, latest: int) {
    var heights := MainChainHeights(blocks);
    if heights == {} then latest == 0 else latest in heights && forall h :: h in heights ==> h <= latest
  }

  ghost function LatestBlock(blocks: BlockTable): (latest: int)
    ensures IsLatest(blocks, latest)
  {
    if MainChainHeights(blocks) == {} then 0
    else
      GreatestExists(MainChainHeights(blocks));
      var latest :| latest in MainChainHeights(blocks) && forall h :: h in MainChainHeights(blocks) ==> h <= latest;
      latest
  }

  /** The hash storage gives for a height: `Some("")` for a missing block 0, nothing off the main chain. */
  function BlockHashAt(blocks: BlockTable, height: int): Option<string> {
    if height == 0 && 0 !in blocks then Some("")
    else if height in blocks && blocks[height].isMainChain then Some(blocks[height].hash)
    else None
  }

  class SqliteDatasource {
    var blocks: BlockTable
    var utxo: Table

    ghost function Abs(): State
      reads this
    {
      State(blocks, utxo)
    }

    ghost predicate Valid()
      reads this
    {
      Keyed(utxo)
    }

    constructor ()
      ensures Valid() && Abs() == State(map[], map[])
    {
      blocks, utxo := map[], map[];
    }

    /** One transaction: on the first rejected update nothing is kept. */
    method BulkUpsertUtxos(utxos: Updates) returns (r: StorageResult<()>)
      requires Valid()
      modifies this`utxo
      ensures Valid()
      ensures r.Ok? <==> AllAcceptable(utxos)
      ensures r.Ok? ==> utxo == UpsertAll(old(utxo), utxos)
      ensures r.Err? ==> utxo == old(utxo) && r.error == Rejection(utxos[FirstRejected(utxos)])
    {
      var table := utxo;
      var i := 0;
      while i < |utxos|
        invariant 0 <= i <= |utxos|
        invariant forall k :: 0 <= k < i ==> utxos[k].Acceptable()
        invariant table == UpsertAll(utxo, utxos[..i]) && Keyed(table)
      {
        var u := utxos[i];
        if !u.Acceptable() {
          FirstRejectedIs(utxos, i);
          return Err(if u.amount < 0 then InvalidAmount(u.amount) else InvalidAddress);
        }
        assert utxos[..i + 1][..i] == utxos[..i];
        if u.Id() in table {
          table := table[u.Id() := table[u.Id()].SpentAs(u)];
        } else {
          table := table[u.Id() := u];
        }
        i := i + 1;
      }
      assert utxos[..i] == utxos;
      FirstRejectedIs(utxos, i);
      utxo := table;
      r := Ok(());
    }

    method ProcessBlockUtxos(changes: PendingChanges) returns (r: StorageResult<()>)
      requires Valid()
      modifies this`utxo
      ensures Valid()
      ensures r.Ok? <==> changes.height >= 0 && AllAcceptable(changes.utxosUpdate + changes.utxosInsert)
      ensures utxo == if r.Ok? then UpsertAll(old(utxo), changes.utxosUpdate + changes.utxosInsert) else old(utxo)
      ensures r.Err? && changes.height < 0 ==> r.error == InvalidBlockHeight(changes.height)
      ensures r.Err? && changes.height >= 0 ==>
        var all := changes.utxosUpdate + changes.utxosInsert;
        r.error == Rejection(all[FirstRejected(all)])
    {
      if changes.height < 0 {
        return Err(InvalidBlockHeight(changes.height));
      }
      var allUtxos := changes.utxosUpdate;
      allUtxos := allUtxos + changes.utxosInsert;
      r := BulkUpsertUtxos(allUtxos);
    }

    /** Lists the spendable rows of one address, in no particular order. */
    method GetSpendableUtxosAtHeight(blockHeight: int, address: string) returns (r: StorageResult<seq<UtxoUpdate>>)
      requires Valid()
      ensures blockHeight < 0 ==> r == Err(InvalidBlockHeight(blockHeight))
      ensures blockHeight >= 0 && address == "" ==> r == Err(InvalidAddress)
      ensures blockHeight >= 0 && address != "" ==> r.Ok? && Lists(r.value, Spendable(utxo, blockHeight, address))
    {
      if blockHeight < 0 {
        return Err(InvalidBlockHeight(blockHeight));
      }
      if address == "" {
        return Err(InvalidAddress);
      }
      var rows := Spendable(utxo, blockHeight, address);
      var results := ListRows(rows);
      r := Ok(results);
    }

    method StoreBlock(height: int, hash: string, timestamp: int) returns (r: StorageResult<()>)
      modifies this`blocks
      ensures blocks == StoreBlockRow(old(blocks), height, hash, timestamp)
      ensures r == if HashFree(old(blocks), height, hash) then Ok(()) else Err(DatabaseQueryFailed)
    {
      if exists k :: k in blocks && k != height && blocks[k].hash == hash {
        return Err(DatabaseQueryFailed);
      }
      if height in blocks {
        blocks := blocks[height := blocks[height].(hash := hash, timestamp := timestamp, isMainChain := true)];
      } else {
        blocks := blocks[height := BlockRow(hash, timestamp, true, false)];
      }
      r := Ok(());
    }

    method GetBlockHash(height: int) returns (r: StorageResult<Option<string>>)
      ensures r == if height < 0 then Err(InvalidBlockHeight(height)) else Ok(BlockHashAt(blocks, height))
    {
      if height < 0 {
        return Err(InvalidBlockHeight(height));
      }
      if height == 0 && 0 !in blocks {
        return Ok(Some(""));
      }
      if height in blocks && blocks[height].isMainChain {
        r := Ok(Some(blocks[height].hash));
      } else {
        r := Ok(None);
      }
    }

    method GetLatestBlock() returns (latest: int)
      ensures latest == LatestBlock(blocks)
    {
      var heights := MainChainHeights(blocks);
      if heights == {} {
        latest := 0;
      } else {
        GreatestExists(heights);
        latest :| latest in heights && forall h :: h in heights ==> h <= latest;
      }
    }

    method MarkBlocksAsFinal(threshold: int)
      modifies this`blocks
      ensures blocks == MarkFinal(old(blocks), threshold)
    {
      blocks := map h | h in blocks ::
        if h <= threshold && !blocks[h].isFinal then blocks[h].(isFinal := true) else blocks[h];
    }

    method MarkBlocksAfterHeightNotMainChain(height: int)
      modifies this`blocks
      ensures blocks == LeaveMainChain(old(blocks), height)
    {
      blocks := map h | h in blocks :: if h > height then blocks[h].(isMainChain := false) else blocks[h];
    }

    /** Unspends first, then deletes. */
    method RevertUtxosAfterHeight(height: int)
      requires Valid()
      modifies this`utxo
      ensures Valid()
      ensures utxo == Revert(old(utxo), height)
    {
      utxo := map id | id in utxo ::
        if utxo[id].spentBlock.Some? && utxo[id].spentBlock.value > height then utxo[id].Unspent() else utxo[id];
      utxo := map id | id in utxo && !(utxo[id].blockHeight > height) :: utxo[id];
    }
  }
}
