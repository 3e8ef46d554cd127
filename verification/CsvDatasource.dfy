/** The CSV backend: maps and sets in memory, changed entry by entry. */
module CsvDatasource {
  import opened Wrappers
  import opened NetworkShared
  import opened History
  import opened Pending
  import opened StorageErrors
  import opened CsvTable

  type BlockData = map<string, seq<UtxoUpdate>>

  /** The state but for `blocks`, on which no query here depends. */
  datatype State = State(
    utxos: Buckets,
    latestBlock: int,
    blockHashes: map<int, string>,
    blockTimestamps: map<int, int>,
    finalizedHeights: set<int>,
    mainChainHeights: set<int>)

  function GroupByAddress(us: Updates): BlockData {
    if us == [] then map[]
    else
      var before, u := GroupByAddress(us[..|us| - 1]), us[|us| - 1];
      before[u.address := (if u.address in before then before[u.address] else []) + [u]]
  }

  /** The first thing wrong with the changes of a block: inserts are looked at before updates. */
  function ErrorOf(changes: PendingChanges): StorageError
    requires !(changes.height >= 0 && AllAcceptable(changes.utxosInsert) && AllAcceptable(changes.utxosUpdate))
  {
    if changes.height < 0 then InvalidBlockHeight(changes.height)
    else
      var us := if AllAcceptable(changes.utxosInsert) then changes.utxosUpdate else changes.utxosInsert;
      FirstRejectedIs(us, FirstRejected(us));
      Rejection(us[FirstRejected(us)])
  }

  /** Each address gets exactly its own outputs of the block, in their order. */
  lemma {:induction false} GroupHolds(us: Updates, address: string)
    ensures address in GroupByAddress(us) <==> exists u :: u in us && u.address == address
    ensures address in GroupByAddress(us) ==> GroupByAddress(us)[address] == PaidTo(us, address)
    ensures address !in GroupByAddress(us) ==> PaidTo(us, address) == []
  {
    if us != [] {
      assert us == us[..|us| - 1] + [us[|us| - 1]];
      GroupHolds(us[..|us| - 1], address);
    }
  }

  function PaidTo(us: Updates, address: string): Updates {
    if us == [] then []
    else PaidTo(us[..|us| - 1], address) + (if us[|us| - 1].address == address then [us[|us| - 1]] else [])
  }

  lemma NothingYet(m: Buckets, us: Updates)
    ensures InsertAll(m, us[..0]) == m && GroupByAddress(us[..0]) == map[]
  {
  }

  lemma OneMore(m: Buckets, us: Updates, i: nat)
    requires i < |us|
    ensures InsertAll(m, us[..i + 1]) == Insert(InsertAll(m, us[..i]), us[i])
    ensures
      var before, u := GroupByAddress(us[..i]), us[i];
      GroupByAddress(us[..i + 1]) == before[u.address := (if u.address in before then before[u.address] else []) + [u]]
  {
    assert us[..i + 1][..i] == us[..i];
  }

  function HeightsTo(top: int): (heights: set<int>)
    ensures forall h :: h in heights <==> 0 <= h <= top
    decreases top + 1
  {
    if top < 0 then {} else HeightsTo(top - 1) + {top}
  }

  function BlockHashAt(s: State, height: int): Option<string> {
    if height in s.mainChainHeights && height in s.blockHashes then Some(s.blockHashes[height]) else None
  }

  class CsvDatasource {
    var utxos: Buckets
    var blocks: map<int, BlockData>
    var latestBlock: int
    var blockHashes: map<int, string>
    var blockTimestamps: map<int, int>
    var finalizedHeights: set<int>
    var mainChainHeights: set<int>

    ghost function Abs(): State
      reads this
    {
      State(utxos, latestBlock, blockHashes, blockTimestamps, finalizedHeights, mainChainHeights)
    }

    ghost predicate Valid()
      reads this
    {
      Keyed(utxos)
    }

    constructor ()
      ensures Valid() && Abs() == State(map[], 0, map[], map[], {}, {})
    {
      utxos, blocks, latestBlock := map[], map[], 0;
      blockHashes, blockTimestamps := map[], map[];
      finalizedHeights, mainChainHeights := {}, {};
    }

    /** Not a transaction: whatever was written before a rejected update stays. */
    method ProcessBlockUtxos(changes: PendingChanges) returns (r: StorageResult<()>)
      requires Valid()
      modifies this`utxos, this`blocks, this`latestBlock
      ensures Valid()
      ensures r.Ok? <==> changes.height >= 0 && AllAcceptable(changes.utxosInsert) && AllAcceptable(changes.utxosUpdate)
      ensures changes.height < 0 ==> utxos == old(utxos)
      ensures changes.height >= 0 ==>
        var inserted := InsertAll(old(utxos), changes.utxosInsert[..FirstRejected(changes.utxosInsert)]);
        utxos == if AllAcceptable(changes.utxosInsert)
                 then MarkAllSpent(inserted, changes.utxosUpdate[..FirstRejected(changes.utxosUpdate)])
                 else inserted
      ensures blocks ==
        if changes.height >= 0 && AllAcceptable(changes.utxosInsert)
        then old(blocks)[changes.height := GroupByAddress(changes.utxosInsert)] else old(blocks)
      ensures latestBlock == if r.Ok? then changes.height else old(latestBlock)
      ensures r.Err? ==> r.error == ErrorOf(changes)
    {
      hide InsertAll, MarkAllSpent, GroupByAddress, FirstRejected;
      if changes.height < 0 {
        return Err(InvalidBlockHeight(changes.height));
      }
      var blockUtxos;
      r, blockUtxos := InsertNew(changes.utxosInsert);
      if r.Err? {
        return;
      }
      assert changes.utxosInsert[..|changes.utxosInsert|] == changes.utxosInsert;
      blocks := blocks[changes.height := blockUtxos];
      r := MarkExisting(changes.utxosUpdate);
      if r.Err? {
        return;
      }
      latestBlock := changes.height;
    }

    /** The first loop: new outputs go into their address' bucket. */
    method InsertNew(us: Updates) returns (r: StorageResult<()>, blockUtxos: BlockData)
      requires Valid()
      modifies this`utxos
      ensures Valid()
      ensures r.Ok? <==> AllAcceptable(us)
      ensures utxos == InsertAll(old(utxos), us[..FirstRejected(us)])
      ensures blockUtxos == GroupByAddress(us[..FirstRejected(us)])
      ensures r.Ok? ==> FirstRejected(us) == |us|
      ensures r.Err? ==> r.error == Rejection(us[FirstRejected(us)])
    {
      hide InsertAll, GroupByAddress, FirstRejected;
      NothingYet(utxos, us);
      blockUtxos := map[];
      var i := 0;
      while i < |us|
        invariant 0 <= i <= |us| && Keyed(utxos)
        invariant forall k :: 0 <= k < i ==> us[k].Acceptable()
        invariant utxos == InsertAll(old(utxos), us[..i]) && blockUtxos == GroupByAddress(us[..i])
      {
        var utxo := us[i];
        if !utxo.Acceptable() {
          FirstRejectedIs(us, i);
          r := Err(if utxo.amount < 0 then InvalidAmount(utxo.amount) else InvalidAddress);
          return;
        }
        OneMore(old(utxos), us, i);
        var bucket := if utxo.address in utxos then utxos[utxo.address] else map[];
        utxos := utxos[utxo.address := bucket[utxo.Id() := utxo]];
        var group := if utxo.address in blockUtxos then blockUtxos[utxo.address] else [];
        blockUtxos := blockUtxos[utxo.address := group + [utxo]];
        i := i + 1;
      }
      FirstRejectedIs(us, i);
      assert us[..i] == us;
      r := Ok(());
    }

    /** The second loop: outputs that are present get their spent columns. */
    method MarkExisting(us: Updates) returns (r: StorageResult<()>)
      requires Valid()
      modifies this`utxos
      ensures Valid()
      ensures r.Ok? <==> AllAcceptable(us)
      ensures utxos == MarkAllSpent(old(utxos), us[..FirstRejected(us)])
      ensures r.Err? ==> r.error == Rejection(us[FirstRejected(us)])
    {
      var i := 0;
      while i < |us|
        invariant 0 <= i <= |us| && Keyed(utxos)
        invariant forall k :: 0 <= k < i ==> us[k].Acceptable()
        invariant utxos == MarkAllSpent(old(utxos), us[..i])
      {
        var utxo := us[i];
        if !utxo.Acceptable() {
          FirstRejectedIs(us, i);
          return Err(if utxo.amount < 0 then InvalidAmount(utxo.amount) else InvalidAddress);
        }
        assert us[..i + 1][..i] == us[..i];
        if utxo.address in utxos {
          var bucket := utxos[utxo.address];
          if utxo.Id() in bucket {
            utxos := utxos[utxo.address := bucket[utxo.Id() := bucket[utxo.Id()].SpentAs(utxo)]];
          }
        }
        i := i + 1;
      }
      FirstRejectedIs(us, i);
      r := Ok(());
    }

    method StoreBlock(height: int, hash: string, timestamp: int)
      modifies this`blockHashes, this`blockTimestamps, this`mainChainHeights
      ensures blockHashes == old(blockHashes)[height := hash]
      ensures blockTimestamps == old(blockTimestamps)[height := timestamp]
      ensures mainChainHeights == old(mainChainHeights) + {height}
    {
      blockHashes := blockHashes[height := hash];
      blockTimestamps := blockTimestamps[height := timestamp];
      mainChainHeights := mainChainHeights + {height};
    }

    method GetBlockHash(height: int) returns (r: Option<string>)
      ensures r == BlockHashAt(Abs(), height)
    {
      if height in mainChainHeights {
        r := if height in blockHashes then Some(blockHashes[height]) else None;
      } else {
        r := None;
      }
    }

    method MarkBlocksAsFinal(threshold: int)
      modifies this`finalizedHeights
      ensures finalizedHeights == old(finalizedHeights) + HeightsTo(threshold)
    {
      var height := 0;
      while height <= threshold
        invariant 0 <= height <= Max(threshold, -1) + 1
        invariant finalizedHeights == old(finalizedHeights) + HeightsTo(height - 1)
      {
        finalizedHeights := finalizedHeights + {height};
        height := height + 1;
      }
    }

    method MarkBlocksAfterHeightNotMainChain(height: int)
      modifies this`mainChainHeights
      ensures mainChainHeights == set h | h in old(mainChainHeights) && h <= height
    {
      mainChainHeights := set h | h in mainChainHeights && h <= height;
    }

    /** One bucket: drop what was created after `height`, then unspend what was spent after it. */
    static method RevertOne(entries: Bucket, height: int) returns (bucket: Bucket)
      ensures bucket == RevertBucket(entries, height)
    {
      bucket := map id | id in entries && entries[id].blockHeight <= height :: entries[id];
      bucket := map id | id in bucket ::
        if bucket[id].spentBlock.Some? && bucket[id].spentBlock.value > height then bucket[id].Unspent() else bucket[id];
    }

    /** Bucket by bucket: drop what was created after `height`, then unspend what was spent after it. */
    method RevertUtxosAfterHeight(height: int)
      requires Valid()
      modifies this`utxos, this`blocks, this`latestBlock
      ensures Valid()
      ensures utxos == Revert(old(utxos), height)
      ensures blocks == map h | h in old(blocks) && h <= height :: old(blocks)[h]
      ensures latestBlock == height
    {
      hide RevertBucket;
      RevertKeepsKeyed(utxos, height);
      var todo := utxos.Keys;
      while todo != {}
        invariant blocks == old(blocks)
        invariant utxos.Keys == old(utxos).Keys && todo <= utxos.Keys
        invariant forall a :: a in utxos ==>
          utxos[a] == if a in todo then old(utxos)[a] else RevertBucket(old(utxos)[a], height)
        decreases todo
      {
        var address :| address in todo;
        var bucket := utxos[address];
        bucket := RevertOne(bucket, height);
        utxos := utxos[address := bucket];
        todo := todo - {address};
      }
      assert utxos == Revert(old(utxos), height);
      blocks := map h | h in blocks && h <= height :: blocks[h];
      latestBlock := height;
    }

    /** Lists the spendable entries of one bucket, in no particular order. */
    method GetSpendableUtxosAtHeight(blockHeight: int, address: string) returns (r: StorageResult<seq<UtxoUpdate>>)
      requires Valid()
      ensures blockHeight < 0 ==> r == Err(InvalidBlockHeight(blockHeight))
      ensures blockHeight >= 0 && address == "" ==> r == Err(InvalidAddress)
      ensures blockHeight >= 0 && address != "" ==> r.Ok? && Lists(r.value, Spendable(utxos, blockHeight, address))
    {
      if blockHeight < 0 {
        return Err(InvalidBlockHeight(blockHeight));
      }
      if address == "" {
        return Err(InvalidAddress);
      }
      var results := ListRows(Spendable(utxos, blockHeight, address));
      r := Ok(results);
    }
  }
}
