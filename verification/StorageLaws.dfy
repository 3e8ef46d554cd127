/**
 * What every run of messages does to the rows of `blocks`, row by row. Nothing is asked of the
 * messages: blocks may come in any order, twice, or with hashes that are taken.
 */
module StorageLaws {
  import opened NetworkShared
  import opened SqliteDatasource
  import opened Database
  import opened Backends
  import opened Wrappers
  import opened History
  import ChainLog
  import Pending
  import SqliteTable

  /** No two heights hold the same hash. */
  ghost predicate HashesUnique(blocks: BlockTable) {
    forall h, k :: h in blocks && k in blocks && blocks[h].hash == blocks[k].hash ==> h == k
  }

  /** Another height holds the hash of the block. */
  ghost predicate HashTaken(blocks: BlockTable, b: BlockUpdate) {
    exists k :: k in blocks && k != b.height && blocks[k].hash == b.hash
  }

  /**
   * A received block puts its hash and time on the main chain at its height, and leaves a final
   * flag there as it was; unless another height holds its hash: then no row changes.
   */
  lemma ReceivedRow(s: State, b: BlockUpdate, h: int)
    ensures
      var before, after := s.blocks, Handle(s, BlockUpdateMsg(b)).blocks;
      if h != b.height || HashTaken(before, b) then
        (h in after <==> h in before) && (h in before ==> after[h] == before[h])
      else
        && h in after && after[h].hash == b.hash && after[h].timestamp == b.timestamp && after[h].isMainChain
        && (after[h].isFinal <==> h in before && before[h].isFinal)
  {
  }

  /** A reorg event takes blocks off the main chain, and changes nothing else about any row. */
  lemma RevertedRow(s: State, fork: int, h: int)
    ensures
      var before, after := s.blocks, Handle(s, ReorgEvent(fork)).blocks;
      && (h in after <==> h in before)
      && (h in before ==>
            && after[h].hash == before[h].hash && after[h].timestamp == before[h].timestamp
            && after[h].isFinal == before[h].isFinal && (after[h].isMainChain ==> before[h].isMainChain))
  {
  }

  /**
   * What a reorg event leaves, from any state. While the latest block is 0, everything. Otherwise it
   * goes to the height asked for, but not below 0 nor more than six below the latest block: rows
   * created later are gone, spends made later are undone, and later blocks are off the main chain.
   */
  lemma RevertedTables(s: State, fork: int)
    ensures
      var latest, after := LatestBlock(s.blocks), Handle(s, ReorgEvent(fork));
      var h := if fork >= 0 && fork >= latest - 6 then fork else if latest >= 6 then latest - 6 else 0;
      && (latest == 0 ==> after == s)
      && (latest != 0 ==>
            && (forall id :: id in after.utxo <==> id in s.utxo && s.utxo[id].blockHeight <= h)
            && (forall id :: id in after.utxo ==> SameCoin(after.utxo[id], s.utxo[id]))
            && (forall id :: id in after.utxo && SpentAfter(s.utxo[id], h) ==> NotSpent(after.utxo[id]))
            && (forall id :: id in after.utxo && !SpentAfter(s.utxo[id], h) ==> SameSpend(after.utxo[id], s.utxo[id]))
            && (forall k :: k in after.blocks ==> (after.blocks[k].isMainChain <==> s.blocks[k].isMainChain && k <= h)))
  {
    hide LatestBlock;
    var latest := LatestBlock(s.blocks);
    if latest != 0 {
      ChainLog.ClampExact(fork, latest);
    }
  }

  predicate SpentAfter(u: UtxoUpdate, h: int) {
    u.spentBlock.Some? && u.spentBlock.value > h
  }

  predicate NotSpent(u: UtxoUpdate) {
    u.spentTxid == None && u.spentAt == None && u.spentBlock == None
  }

  /** A finality message flags the rows at least five below its height, and changes nothing else. */
  lemma FlaggedRow(s: State, currentHeight: int, h: int)
    ensures
      var before, after := s.blocks, Handle(s, UpdateFinalityStatus(currentHeight)).blocks;
      && (h in after <==> h in before)
      && (h in before ==>
            && after[h].hash == before[h].hash && after[h].timestamp == before[h].timestamp
            && after[h].isMainChain == before[h].isMainChain
            && (after[h].isFinal <==> before[h].isFinal || (currentHeight > 5 && h <= currentHeight - 5)))
  {
  }

  lemma {:induction false} HashesStayUnique(ms: seq<NetworkMessage>)
    ensures HashesUnique(HandleAll(SqliteEmpty, ms).blocks)
  {
    if ms != [] {
      HashesStayUnique(ms[..|ms| - 1]);
    }
  }

  ghost predicate RowsAcceptable(rows: map<OutPoint, UtxoUpdate>) {
    forall id :: id in rows ==> rows[id].amount >= 0 && rows[id].address != ""
  }

  /** A block is taken whole or not at all: one bad update, or a negative height, and no row changes. */
  lemma RejectedBlock(s: State, b: BlockUpdate)
    requires b.height < 0 || exists u :: u in b.utxoUpdates && (u.amount < 0 || u.address == "")
    ensures Handle(s, BlockUpdateMsg(b)).utxo == s.utxo
  {
  }

  /** Over CSV as well: the hash is kept, the buckets and the latest block are not touched. */
  lemma CsvRejectedBlock(s: CsvState, b: BlockUpdate)
    requires b.height < 0 || exists u :: u in b.utxoUpdates && (u.amount < 0 || u.address == "")
    ensures
      var after := CsvHandle(s, BlockUpdateMsg(b));
      && after.utxos == s.utxos && after.latestBlock == s.latestBlock && CsvHashAnswer(after, b.height) == b.hash
  {
  }

  lemma {:induction false} UpsertsAcceptable(t: SqliteTable.Table, us: seq<UtxoUpdate>)
    requires RowsAcceptable(t) && forall u :: u in us ==> u.amount >= 0 && u.address != ""
    ensures RowsAcceptable(SqliteTable.UpsertAll(t, us))
  {
    if us != [] {
      UpsertsAcceptable(t, us[..|us| - 1]);
      assert us[|us| - 1] in us;
    }
  }

  /** No run of messages stores a negative amount or an empty address. */
  lemma {:induction false} RowsStayAcceptable(ms: seq<NetworkMessage>)
    ensures RowsAcceptable(HandleAll(SqliteEmpty, ms).utxo)
  {
    if ms != [] {
      var n := |ms| - 1;
      var before := HandleAll(SqliteEmpty, ms[..n]);
      RowsStayAcceptable(ms[..n]);
      match ms[n] {
        case BlockUpdateMsg(b) => BlockAcceptable(before, b);
        case _ =>
      }
    }
  }

  lemma BlockAcceptable(s: State, b: BlockUpdate)
    requires RowsAcceptable(s.utxo)
    ensures RowsAcceptable(Handle(s, BlockUpdateMsg(b)).utxo)
  {
    if exists u :: u in b.utxoUpdates && (u.amount < 0 || u.address == "") {
      RejectedBlock(s, b);
    } else {
      Pending.SplitKinds(b.utxoUpdates);
      UpsertsAcceptable(s.utxo, SqliteTable.StoreOrder(b.utxoUpdates));
    }
  }

  /** Message `i` of the run reaches height `h` with a finality message while the block is stored. */
  ghost predicate Flags(ms: seq<NetworkMessage>, i: nat, h: int)
    requires i < |ms|
  {
    && ms[i].UpdateFinalityStatus? && ms[i].currentHeight > 5 && h <= ms[i].currentHeight - 5
    && h in HandleAll(SqliteEmpty, ms[..i]).blocks
  }

  lemma FlagsLast(ms: seq<NetworkMessage>, h: int)
    requires ms != []
    ensures
      var front := ms[..|ms| - 1];
      (exists i :: 0 <= i < |ms| && Flags(ms, i, h)) <==>
      Flags(ms, |ms| - 1, h) || exists i :: 0 <= i < |front| && Flags(front, i, h)
  {
    var front := ms[..|ms| - 1];
    forall i | 0 <= i < |front| ensures Flags(front, i, h) <==> Flags(ms, i, h) {
      assert front[..i] == ms[..i];
    }
  }

  /**
   * A block is final exactly when some finality message reached it while it was stored. Nothing
   * ever clears the flag: not storing the block again, not a revert, not a later message.
   */
  lemma {:induction false} FinalIff(ms: seq<NetworkMessage>, h: int)
    ensures
      var blocks := HandleAll(SqliteEmpty, ms).blocks;
      (h in blocks && blocks[h].isFinal) <==> exists i :: 0 <= i < |ms| && Flags(ms, i, h)
  {
    hide Flags, Handle;
    if ms != [] {
      var n := |ms| - 1;
      var before := HandleAll(SqliteEmpty, ms[..n]);
      FinalIff(ms[..n], h);
      FlagsLast(ms, h);
      MessageFlags(before, ms, h);
    }
  }

  lemma MessageFlags(before: State, ms: seq<NetworkMessage>, h: int)
    requires ms != [] && before == HandleAll(SqliteEmpty, ms[..|ms| - 1])
    ensures
      var blocks := Handle(before, ms[|ms| - 1]).blocks;
      (h in blocks && blocks[h].isFinal) <==> (h in before.blocks && before.blocks[h].isFinal) || Flags(ms, |ms| - 1, h)
  {
    match ms[|ms| - 1] {
      case BlockUpdateMsg(b) => ReceivedRow(before, b, h);
      case ReorgEvent(f) => RevertedRow(before, f, h);
      case UpdateFinalityStatus(c) => FlaggedRow(before, c, h);
      case _ =>
    }
  }

  /**
   * The CSV backend flags heights, stored or not: exactly those from 0 on that some finality
   * message reached.
   */
  lemma {:induction false} CsvFinalIff(ms: seq<NetworkMessage>, h: int)
    ensures h in CsvHandleAll(CsvEmpty, ms).finalizedHeights <==>
      exists i :: 0 <= i < |ms| && ms[i].UpdateFinalityStatus? && 0 <= h <= ms[i].currentHeight - 5 && ms[i].currentHeight > 5
  {
    if ms != [] {
      var n := |ms| - 1;
      CsvFinalIff(ms[..n], h);
      forall i | 0 <= i < n ensures ms[..n][i] == ms[i] {
      }
    }
  }

  /** What SQLite calls final, CSV calls final. */
  lemma FinalInBoth(ms: seq<NetworkMessage>, h: int)
    requires h >= 0 && h in HandleAll(SqliteEmpty, ms).blocks && HandleAll(SqliteEmpty, ms).blocks[h].isFinal
    ensures h in CsvHandleAll(CsvEmpty, ms).finalizedHeights
  {
    FinalIff(ms, h);
    CsvFinalIff(ms, h);
  }

  /** The converse fails: a finality message ahead of the block flags it in CSV only. */
  lemma FinalInCsvOnly(b: BlockUpdate)
    requires b.height == 0
    ensures
      var ms := [UpdateFinalityStatus(6), BlockUpdateMsg(b)];
      && 0 in CsvHandleAll(CsvEmpty, ms).finalizedHeights
      && 0 in HandleAll(SqliteEmpty, ms).blocks && !HandleAll(SqliteEmpty, ms).blocks[0].isFinal
  {
    var ms := [UpdateFinalityStatus(6), BlockUpdateMsg(b)];
    CsvFinalIff(ms, 0);
    assert ms[0].UpdateFinalityStatus?;
    assert ms[..1] == [ms[0]] && [ms[0]][..0] == [];
    calc {
      HandleAll(SqliteEmpty, ms[..1]);
      Handle(HandleAll(SqliteEmpty, []), ms[0]);
      SqliteEmpty;
    }
    assert HandleAll(SqliteEmpty, ms) == Handle(SqliteEmpty, ms[1]);
    ReceivedRow(SqliteEmpty, b, 0);
  }
}
