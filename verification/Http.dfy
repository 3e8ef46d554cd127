/** The two query routes that the indexer's selection loops see. */
module Http {
  import opened Wrappers
  import opened NetworkShared
  import opened StorageErrors
  import opened Selection
  import SqliteTable
  import SqliteDatasource
  import SqliteLaws
  import History
  import ChainLog

  datatype Reply = Success(utxos: Coins) | BadRequest | NotFound | InternalServerError

  /** Storage at one moment: its latest block, which addresses parse, and what each query lists. */
  datatype View = View(latest: int, parses: string -> bool, rows: (int, string) -> Coins)

  /** The view is one of this state: rows in some order, which stays the same while the state does. */
  ghost predicate Shows(v: View, s: SqliteDatasource.State) {
    && v.latest == SqliteDatasource.LatestBlock(s.blocks)
    && !v.parses("")
    && forall h, a :: Lists(v.rows(h, a), SqliteTable.Spendable(s.utxo, h, a))
  }

  function GetSpendableUtxos(v: View, blockHeight: int, address: string): Reply {
    if blockHeight < 0 then BadRequest
    else if !v.parses(address) then BadRequest
    else if blockHeight > v.latest then NotFound
    else Success(v.rows(blockHeight, address))
  }

  function SelectUtxos(v: View, blockHeight: int, address: string, target: int): Reply {
    if blockHeight < 0 then BadRequest
    else if !v.parses(address) then BadRequest
    else if target <= 0 then BadRequest
    else if blockHeight > v.latest then NotFound
    else
      match Select(v.rows(blockHeight, address), target)
      case Ok(selected) => Success(selected)
      case Err(InsufficientFunds(_, _)) => NotFound
      case Err(_) => InternalServerError
  }

  /** The spendable route answers with exactly the listed rows, and refuses only what its guards name. */
  lemma SpendableRoute(v: View, blockHeight: int, address: string)
    ensures
      var r := GetSpendableUtxos(v, blockHeight, address);
      && (r.Success? <==> 0 <= blockHeight <= v.latest && v.parses(address))
      && (r.Success? ==> r.utxos == v.rows(blockHeight, address))
      && (r.NotFound? <==> blockHeight >= 0 && v.parses(address) && blockHeight > v.latest)
      && (r.BadRequest? <==> blockHeight < 0 || !v.parses(address))
  {
  }

  lemma LatestShown(v: View, s: SqliteDatasource.State, log: ChainLog.Log, heightOf: string -> int)
    requires Shows(v, s) && ChainLog.Holds(s, log, heightOf)
    ensures v.latest == Max(|log| - 1, 0)
  {
    ChainLog.LatestOf(s.blocks, log, |log|, heightOf);
  }

  /**
   * The select route over a storage state: no request that passes its guards is answered with an
   * internal error; an address without outputs is answered with an empty success, and one with too
   * few as if the block did not exist. What is selected is the shortest oldest-first prefix.
   */
  lemma SelectRoute(v: View, s: SqliteDatasource.State, log: ChainLog.Log, heightOf: string -> int,
                    blockHeight: int, address: string, target: int)
    requires Shows(v, s) && ChainLog.Chain(log, heightOf) && ChainLog.Holds(s, log, heightOf)
    ensures
      var r, rows := SelectUtxos(v, blockHeight, address, target), v.rows(blockHeight, address);
      var asked := blockHeight >= 0 && v.parses(address) && target > 0;
      && (r.BadRequest? <==> !asked)
      && (r.Success? <==> asked && blockHeight <= Max(|log| - 1, 0) && (rows == [] || Total(rows) >= target))
      && (r.NotFound? <==> asked && (blockHeight > Max(|log| - 1, 0) || (rows != [] && Total(rows) < target)))
      && (r.Success? && rows == [] ==> r.utxos == [])
      && (r.Success? && rows != [] ==>
            && OldestFirst(rows, target, r.utxos) && r.utxos != []
            && multiset(r.utxos) <= multiset(rows)
            && target <= Total(r.utxos) < target + r.utxos[|r.utxos| - 1].amount)
  {
    hide OldestFirst, Total, Shows, ChainLog.Chain, ChainLog.Holds;
    var rows := v.rows(blockHeight, address);
    assert rows == [] ==> Select(rows, target) == Ok([]);
    hide Select;
    LatestShown(v, s, log, heightOf);
    StoredAmounts(v, s, log, heightOf, blockHeight, address);
    TotalNonNegative(rows);
    if rows != [] {
      SelectFailsIff(rows, target);
      if 0 < target <= Total(rows) {
        SelectIsOldestFirst(rows, target);
      }
    }
  }

  /** Every row of a store that holds a chain passed validation, so no query lists a negative amount. */
  lemma StoredAmounts(v: View, s: SqliteDatasource.State, log: ChainLog.Log, heightOf: string -> int, h: int, a: string)
    requires Shows(v, s) && ChainLog.Chain(log, heightOf) && ChainLog.Holds(s, log, heightOf)
    ensures NonNegative(v.rows(h, a))
  {
    var rows, hist := v.rows(h, a), ChainLog.UpdatesOf(log);
    assert Lists(rows, SqliteTable.Spendable(s.utxo, h, a));
    forall u | u in rows ensures u.amount >= 0 {
      var i :| 0 <= i < |rows| && rows[i] == u;
      var id := u.Id();
      assert SqliteTable.Slot(s.utxo, id) == Some(u);
      SqliteLaws.ReplaySlot(hist, id);
      var life := History.Life(hist, id);
      assert History.LifeOk(life);
      var w := if |life| == 1 || life[0].blockHeight < life[1].blockHeight then life[0] else life[1];
      History.LifeMembers(hist, id, w);
      var k :| 0 <= k < |hist| && w in hist[k];
      assert w in log[k].utxoUpdates;
    }
  }
}
