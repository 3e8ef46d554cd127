/**
 * A store in which pooling the watched addresses and selecting address by address give different
 * answers: one block that pays one coin each to two addresses.
 */
module TwoCoins {
  import opened Wrappers
  import opened NetworkShared
  import opened History
  import opened Selection
  import opened ChainLog
  import opened Http
  import opened Api
  import Pending
  import SqliteTable
  import SqliteDatasource
  import SqliteLaws

  const ToA := UtxoUpdate("a", None, "t", 0, 1, "", "", 0, 0, None, None, None)
  const ToB := UtxoUpdate("b", None, "t", 1, 1, "", "", 0, 0, None, None, None)

  const Blocks: Log := [BlockUpdate(0, "x", 0, [ToA, ToB])]

  function Rows(h: int, address: string): Coins {
    if h < 0 then [] else if address == "a" then [ToA] else if address == "b" then [ToB] else []
  }

  const Seen := View(0, (address: string) => address != "", Rows)

  lemma LifeOfCoin(id: OutPoint)
    ensures UpdatesOf(Blocks) == [[ToA, ToB]]
    ensures Life(UpdatesOf(Blocks), id) == if id == ToA.Id() then [ToA] else if id == ToB.Id() then [ToB] else []
  {
    hide Touching;
    var hist := UpdatesOf(Blocks);
    assert hist == [[ToA, ToB]] && hist[..0] == [];
    calc {
      Life(hist, id);
      Life([], id) + Touching([ToA, ToB], id);
      { assert [ToA, ToB] == [ToA] + [ToB]; TouchingConcat([ToA], [ToB], id); }
      Touching([ToA], id) + Touching([ToB], id);
      { Pending.OneUpdate(ToA, id); Pending.OneUpdate(ToB, id); }
      if id == ToA.Id() then [ToA] else if id == ToB.Id() then [ToB] else [];
    }
  }

  lemma BlocksAreChain()
    ensures Chain(Blocks, _ => 0)
  {
    LifeOfCoin(ToA.Id());
    forall id ensures LifeOk(Life(UpdatesOf(Blocks), id)) {
      LifeOfCoin(id);
    }
  }

  lemma TableOfBlocks()
    ensures SqliteTable.Replay(UpdatesOf(Blocks)) == map[ToA.Id() := ToA, ToB.Id() := ToB]
  {
    BlocksAreChain();
    var t, expected := SqliteTable.Replay(UpdatesOf(Blocks)), map[ToA.Id() := ToA, ToB.Id() := ToB];
    forall id ensures SqliteTable.Slot(t, id) == SqliteTable.Slot(expected, id) {
      LifeOfCoin(id);
      SqliteLaws.ReplaySlot(UpdatesOf(Blocks), id);
    }
    SqliteTable.SlotsDecide(t, expected);
  }

  lemma ListedRows(h: int, address: string)
    ensures Lists(Rows(h, address), SqliteTable.Spendable(map[ToA.Id() := ToA, ToB.Id() := ToB], h, address))
  {
    var listed := SqliteTable.Spendable(map[ToA.Id() := ToA, ToB.Id() := ToB], h, address);
    if h >= 0 && address == "a" {
      assert listed == map[ToA.Id() := ToA];
    } else if h >= 0 && address == "b" {
      assert listed == map[ToB.Id() := ToB];
    } else {
      assert listed == map[];
    }
  }

  /** Storage after the block, and what it shows. */
  lemma StoreOfBlocks() returns (s: SqliteDatasource.State)
    ensures Chain(Blocks, _ => 0) && Holds(s, Blocks, _ => 0) && Shows(Seen, s)
  {
    var row := SqliteDatasource.BlockRow("x", 0, true, false);
    s := SqliteDatasource.State(map[0 := row], SqliteTable.Replay(UpdatesOf(Blocks)));
    BlocksAreChain();
    TableOfBlocks();
    LatestOf(s.blocks, Blocks, 1, _ => 0);
    forall h, address ensures Lists(Seen.rows(h, address), SqliteTable.Spendable(s.utxo, h, address)) {
      ListedRows(h, address);
    }
  }

  lemma PoolOfBoth()
    ensures Pool(Seen, 0, ["a", "b"]) == [ToA, ToB] && Total([ToA, ToB]) == 2 && Total([ToA]) == 1
  {
    assert ["a", "b"][..1] == ["a"] && ["a"][..0] == [];
    assert Pool(Seen, 0, ["a"]) == [ToA];
    TotalOfOne(ToA);
    TotalOfOne(ToB);
    assert [ToA, ToB] == [ToA] + [ToB];
    TotalAppend([ToA], [ToB]);
  }

  /** In that store, two coins are paid by the pooling route and refused by the per-address selection. */
  lemma PoolDoesNotImplyFetch() returns (s: SqliteDatasource.State)
    ensures Chain(Blocks, _ => 0) && Holds(s, Blocks, _ => 0) && Shows(Seen, s)
    ensures Queryable(Seen, 0, ["a", "b"])
    ensures Gather(Seen, 0, ["a", "b"], 2, []).Err?
    ensures Total(Take(SortByHeight(Pool(Seen, 0, ["a", "b"])), 2)) >= 2
  {
    hide Take, SortByHeight, Gather, Pool, Total;
    s := StoreOfBlocks();
    PoolOfBoth();
    PoolButNotFetchIff(Seen, 0, ["a", "b"], 2);
  }
}
