/** Balances: what an address can spend at a height is what it received minus what it spent. */
module Ledger {
  import opened NetworkShared
  import opened SqliteTable
  import opened Database
  import opened ChainLog
  import Backends
  import SqliteLaws

  /** The sum of the amounts of all rows. */
  ghost function Value(t: Table): int
    decreases |t|
  {
    if t == map[] then 0
    else
      var id := AnyKey(t);
      t[id].amount + Value(t - {id})
  }

  ghost function AnyKey(t: Table): (id: OutPoint)
    requires t != map[]
    ensures id in t
  {
    assert (forall k :: k !in t) ==> t == map[];
    var id :| id in t;
    id
  }

  lemma {:induction false} ValueOfOneMore(t: Table, id: OutPoint)
    requires id in t
    ensures Value(t) == t[id].amount + Value(t - {id})
    decreases |t|
  {
    var first := AnyKey(t);
    if first != id {
      ValueOfOneMore(t - {first}, id);
      ValueOfOneMore(t - {id}, first);
      assert t - {first} - {id} == t - {id} - {first};
    }
  }

  lemma {:induction false} ValueSplits(t: Table, part: Table)
    requires forall id :: id in part ==> id in t && part[id] == t[id]
    ensures Value(t) == Value(part) + Value(t - part.Keys)
    decreases |part|
  {
    if part == map[] {
      assert t - part.Keys == t;
    } else {
      var id := AnyKey(part);
      var less := part - {id};
      ValueSplits(t, less);
      ValueOfOneMore(part, id);
      ValueOfOneMore(t - less.Keys, id);
      assert t - less.Keys - {id} == t - part.Keys;
    }
  }

  /** Rows of `address` created at or before `q`. */
  function Received(t: Table, q: int, address: string): Table {
    map id | id in t && t[id].address == address && t[id].blockHeight <= q :: t[id]
  }

  /** Rows of `address` spent at or before `q`. */
  function SpentBy(t: Table, q: int, address: string): Table {
    map id | id in t && t[id].address == address && t[id].spentBlock.Some? && t[id].spentBlock.value <= q :: t[id]
  }

  lemma BalanceOfTable(t: Table, q: int, address: string)
    requires SqliteLaws.RowsOk(t)
    ensures Value(Spendable(t, q, address)) == Value(Received(t, q, address)) - Value(SpentBy(t, q, address))
  {
    var received, spent := Received(t, q, address), SpentBy(t, q, address);
    forall id | id in spent ensures id in received {
      assert SqliteLaws.RowOk(t[id]);
    }
    ValueSplits(received, spent);
    assert received - spent.Keys == Spendable(t, q, address);
  }

  /**
   * In every state a well-formed run reaches, each row's spent columns are set or clear together,
   * no row is spent before its block, and the ledger balances for every address and height.
   */
  lemma BalanceLedger(ms: seq<NetworkMessage>, heightOf: string -> int, q: int, address: string)
    requires Backends.WellFormedRun(ms, heightOf)
    ensures
      var t := HandleAll(Backends.SqliteEmpty, ms).utxo;
      && SqliteLaws.RowsOk(t)
      && Value(Spendable(t, q, address)) == Value(Received(t, q, address)) - Value(SpentBy(t, q, address))
  {
    Backends.RunsHoldTheLog(ms, heightOf);
    SqliteLaws.ReplayRowsOk(UpdatesOf(Backends.LogOf(ms)));
    BalanceOfTable(HandleAll(Backends.SqliteEmpty, ms).utxo, q, address);
  }
}
