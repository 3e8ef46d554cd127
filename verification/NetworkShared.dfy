/** The data that crosses the socket between the indexer and the storage service. */
module NetworkShared {
  import opened Wrappers

  const FINALITY_CONFIRMATIONS := 6

  /** The composite key "txid:vout"; its two parts are kept apart. */
  datatype OutPoint = OutPoint(txid: string, vout: int)

  datatype UtxoUpdate = UtxoUpdate(
    address: string,
    publicKey: Option<string>,
    txid: string,
    vout: int,
    amount: int,
    scriptPubKey: string,
    scriptType: string,
    createdAt: int,
    blockHeight: int,
    spentTxid: Option<string>,
    spentAt: Option<int>,
    spentBlock: Option<int>)
  {
    function Id(): OutPoint {
      OutPoint(txid, vout)
    }

    /** Storage tells spends from creations by this column alone. */
    predicate IsSpend() {
      spentTxid.Some?
    }

    /** This record with the three spent columns of `s`. */
    function SpentAs(s: UtxoUpdate): UtxoUpdate {
      this.(spentTxid := s.spentTxid, spentAt := s.spentAt, spentBlock := s.spentBlock)
    }

    /** This record with the three spent columns cleared. */
    function Unspent(): UtxoUpdate {
      this.(spentTxid := None, spentAt := None, spentBlock := None)
    }

    /** Created at or before `q`, and not spent at or before `q`. */
    predicate SpendableAt(q: int) {
      blockHeight <= q && (spentBlock.None? || spentBlock.value > q)
    }

    /** What storage checks before it accepts an update. */
    predicate Acceptable() {
      amount >= 0 && address != ""
    }
  }

  datatype BlockUpdate = BlockUpdate(height: int, hash: string, timestamp: int, utxoUpdates: seq<UtxoUpdate>)

  datatype NetworkMessage =
    | BlockUpdateMsg(update: BlockUpdate)
    | ReorgEvent(forkHeight: int)
    | GetBlockHash(height: int)
    | BlockHashResponse(hash: string)
    | UpdateFinalityStatus(currentHeight: int)
    | BlockProcessedAck(height: int)

  /** `rows` lists the rows of `t`, each once, in some order. */
  ghost predicate Lists(rows: seq<UtxoUpdate>, t: map<OutPoint, UtxoUpdate>) {
    && |rows| == |t|
    && (forall i :: 0 <= i < |rows| ==> rows[i].Id() in t && t[rows[i].Id()] == rows[i])
    && (forall i, j :: 0 <= i < j < |rows| ==> rows[i].Id() != rows[j].Id())
  }

  /** Reads a query result out row by row; the order is not specified. */
  method ListRows(t: map<OutPoint, UtxoUpdate>) returns (rows: seq<UtxoUpdate>)
    requires forall id :: id in t ==> t[id].Id() == id
    ensures Lists(rows, t)
  {
    var todo := t.Keys;
    rows := [];
    while todo != {}
      invariant todo <= t.Keys
      invariant |rows| + |todo| == |t|
      invariant forall i :: 0 <= i < |rows| ==> rows[i].Id() in t && rows[i].Id() !in todo && t[rows[i].Id()] == rows[i]
      invariant forall i, j :: 0 <= i < j < |rows| ==> rows[i].Id() != rows[j].Id()
      decreases todo
    {
      var id :| id in todo;
      assert t[id].Id() == id;
      rows := rows + [t[id]];
      todo := todo - {id};
    }
  }

  function Max(a: int, b: int): int {
    if a > b then a else b
  }

  function Min(a: int, b: int): int {
    if a < b then a else b
  }

  lemma {:induction false} GreatestExists(s: set<int>)
    requires s != {}
    ensures exists m :: m in s && forall h :: h in s ==> h <= m
  {
    assert (forall y: int :: y !in s) ==> s == {};
    var x :| x in s;
    var rest := s - {x};
    assert forall h :: h in s ==> h == x || h in rest;
    if exists y :: y in rest {
      GreatestExists(rest);
      var m :| m in rest && forall h :: h in rest ==> h <= m;
      assert Max(x, m) in s && forall h :: h in s ==> h <= Max(x, m);
    } else {
      assert x in s && forall h :: h in s ==> h <= x;
    }
  }
}
