/**
 * The `utxo` table of the SQLite backend as a value, and what its statements do to it.
 * One write inserts a row, or overwrites only the spent columns of the row already there.
 */
module SqliteTable {
  import opened Wrappers
  import opened NetworkShared
  import opened History
  import opened Pending

  type Table = map<OutPoint, UtxoUpdate>

  function Upsert(t: Table, u: UtxoUpdate): Table {
    if u.Id() in t then t[u.Id() := t[u.Id()].SpentAs(u)] else t[u.Id() := u]
  }

  function UpsertAll(t: Table, us: Updates): Table {
    if us == [] then t else Upsert(UpsertAll(t, us[..|us| - 1]), us[|us| - 1])
  }

  /** The order in which the statements of one block reach the table: spends first, then creations. */
  function StoreOrder(us: Updates): Updates {
    Spends(us) + Creations(us)
  }

  function ApplyBlock(t: Table, us: Updates): Table {
    UpsertAll(t, StoreOrder(us))
  }

  function ApplyBlocks(t: Table, blocks: seq<Updates>): Table {
    if blocks == [] then t else ApplyBlock(ApplyBlocks(t, blocks[..|blocks| - 1]), blocks[|blocks| - 1])
  }

  /** The table of a store that saw exactly `hist`. */
  function Replay(hist: seq<Updates>): Table {
    ApplyBlocks(map[], hist)
  }

  function RevertRow(u: UtxoUpdate, h: int): UtxoUpdate {
    if u.spentBlock.Some? && u.spentBlock.value > h then u.Unspent() else u
  }

  function Revert(t: Table, h: int): Table {
    map id | id in t && t[id].blockHeight <= h :: RevertRow(t[id], h)
  }

  function Spendable(t: Table, q: int, address: string): Table {
    map id | id in t && t[id].address == address && t[id].SpendableAt(q) :: t[id]
  }

  /** The rows of `t` without their spent columns: the coins themselves. */
  function Coins(t: Table): Table {
    map id | id in t :: t[id].Unspent()
  }

  ghost predicate Keyed(t: Table) {
    forall id :: id in t ==> t[id].Id() == id
  }

  // ---- one row at a time ----

  function Slot(t: Table, id: OutPoint): Option<UtxoUpdate> {
    if id in t then Some(t[id]) else None
  }

  function WriteSlot(slot: Option<UtxoUpdate>, u: UtxoUpdate): Option<UtxoUpdate> {
    if slot.None? then Some(u) else Some(slot.value.SpentAs(u))
  }

  function WriteSlots(slot: Option<UtxoUpdate>, ws: Updates): Option<UtxoUpdate> {
    if ws == [] then slot else WriteSlot(WriteSlots(slot, ws[..|ws| - 1]), ws[|ws| - 1])
  }

  lemma SlotsDecide(a: Table, b: Table)
    requires forall id :: Slot(a, id) == Slot(b, id)
    ensures a == b
  {
    forall id ensures id in a <==> id in b {
      assert Slot(a, id) == Slot(b, id);
    }
    forall id | id in a ensures a[id] == b[id] {
      assert Slot(a, id) == Slot(b, id);
    }
  }

  lemma {:induction false} SlotOfUpsertAll(t: Table, us: Updates, id: OutPoint)
    ensures Slot(UpsertAll(t, us), id) == WriteSlots(Slot(t, id), Touching(us, id))
  {
    if us != [] {
      var front, last := us[..|us| - 1], us[|us| - 1];
      SlotOfUpsertAll(t, front, id);
      if last.Id() == id {
        assert Touching(us, id)[..|Touching(us, id)| - 1] == Touching(front, id);
      } else {
        assert Touching(us, id) == Touching(front, id);
      }
    }
  }

  lemma {:induction false} ApplyBlocksConcat(t: Table, a: seq<Updates>, b: seq<Updates>)
    ensures ApplyBlocks(t, a + b) == ApplyBlocks(ApplyBlocks(t, a), b)
  {
    hide ApplyBlock;
    if b == [] {
      assert a + b == a;
    } else {
      assert (a + b)[..|a + b| - 1] == a + b[..|b| - 1];
      ApplyBlocksConcat(t, a, b[..|b| - 1]);
    }
  }

  lemma WriteOne(slot: Option<UtxoUpdate>, u: UtxoUpdate)
    ensures WriteSlots(slot, [u]) == WriteSlot(slot, u)
  {
    assert [u][..0] == [];
  }

  /** Splitting a block into spends and creations commutes with looking at one outpoint. */
  lemma TouchingStoreOrder(us: Updates, id: OutPoint)
    ensures Touching(StoreOrder(us), id) == StoreOrder(Touching(us, id))
  {
    TouchingConcat(Spends(us), Creations(us), id);
    TouchingSpends(us, id);
    TouchingCreations(us, id);
  }

  lemma StoreOrderShort(ws: Updates)
    requires LifeOk(ws)
    ensures |ws| <= 1 ==> StoreOrder(ws) == ws
    ensures |ws| == 2 ==> StoreOrder(ws) == [ws[1], ws[0]]
  {
    if |ws| == 1 {
      OneUpdate(ws[0], ws[0].Id());
      assert ws == [ws[0]];
    } else if |ws| == 2 {
      assert ws[..1] == [ws[0]];
      OneUpdate(ws[0], ws[0].Id());
    }
  }

  lemma WriteTwo(slot: Option<UtxoUpdate>, a: UtxoUpdate, b: UtxoUpdate)
    ensures WriteSlots(slot, [a, b]) == WriteSlot(WriteSlot(slot, a), b)
  {
    WriteOne(slot, a);
    assert [a, b][..1] == [a];
  }
}
