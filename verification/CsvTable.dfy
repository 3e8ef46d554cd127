/**
 * The `utxos` map of the CSV backend as a value: one bucket of outputs per address. An insert
 * replaces the whole entry; an update changes the spent columns of an entry that exists.
 */
module CsvTable {
  import opened Wrappers
  import opened NetworkShared
  import opened History
  import opened Pending

  type Bucket = map<OutPoint, UtxoUpdate>
  type Buckets = map<string, Bucket>

  function BucketOf(m: Buckets, address: string): Bucket {
    if address in m then m[address] else map[]
  }

  function Insert(m: Buckets, u: UtxoUpdate): Buckets {
    m[u.address := BucketOf(m, u.address)[u.Id() := u]]
  }

  function MarkSpent(m: Buckets, u: UtxoUpdate): Buckets {
    if u.address in m && u.Id() in m[u.address]
    then m[u.address := m[u.address][u.Id() := m[u.address][u.Id()].SpentAs(u)]]
    else m
  }

  function InsertAll(m: Buckets, us: Updates): Buckets {
    if us == [] then m else Insert(InsertAll(m, us[..|us| - 1]), us[|us| - 1])
  }

  function MarkAllSpent(m: Buckets, us: Updates): Buckets {
    if us == [] then m else MarkSpent(MarkAllSpent(m, us[..|us| - 1]), us[|us| - 1])
  }

  function ApplyBlock(m: Buckets, us: Updates): Buckets {
    MarkAllSpent(InsertAll(m, Creations(us)), Spends(us))
  }

  function ApplyBlocks(m: Buckets, blocks: seq<Updates>): Buckets {
    if blocks == [] then m else ApplyBlock(ApplyBlocks(m, blocks[..|blocks| - 1]), blocks[|blocks| - 1])
  }

  /** The buckets of a store that saw exactly `hist`. */
  function Replay(hist: seq<Updates>): Buckets {
    ApplyBlocks(map[], hist)
  }

  function RevertEntry(u: UtxoUpdate, h: int): UtxoUpdate {
    if u.spentBlock.Some? && u.spentBlock.value > h then u.Unspent() else u
  }

  function RevertBucket(b: Bucket, h: int): Bucket {
    map id | id in b && b[id].blockHeight <= h :: RevertEntry(b[id], h)
  }

  /** Reverting empties buckets but never removes them. */
  function Revert(m: Buckets, h: int): Buckets {
    map address | address in m :: RevertBucket(m[address], h)
  }

  function Spendable(m: Buckets, q: int, address: string): Bucket {
    map id | id in BucketOf(m, address) && BucketOf(m, address)[id].SpendableAt(q) :: BucketOf(m, address)[id]
  }

  ghost predicate Keyed(m: Buckets) {
    forall address, id :: address in m && id in m[address] ==> m[address][id].Id() == id
  }

  lemma RevertKeepsKeyed(m: Buckets, h: int)
    requires Keyed(m)
    ensures Keyed(Revert(m, h))
  {
  }

  // ---- one entry at a time ----

  function Slot(m: Buckets, address: string, id: OutPoint): Option<UtxoUpdate> {
    if id in BucketOf(m, address) then Some(BucketOf(m, address)[id]) else None
  }

  /** Equal up to empty buckets. */
  ghost predicate SameEntries(m: Buckets, n: Buckets) {
    forall address :: BucketOf(m, address) == BucketOf(n, address)
  }

  lemma SlotsDecide(m: Buckets, n: Buckets)
    requires forall address, id :: Slot(m, address, id) == Slot(n, address, id)
    ensures SameEntries(m, n)
  {
    forall address ensures BucketOf(m, address) == BucketOf(n, address) {
      var a, b := BucketOf(m, address), BucketOf(n, address);
      forall id ensures id in a <==> id in b {
        assert Slot(m, address, id) == Slot(n, address, id);
      }
      forall id | id in a ensures a[id] == b[id] {
        assert Slot(m, address, id) == Slot(n, address, id);
      }
    }
  }

  /** What one update does to the entry at `address`; a creation inserts and a spend marks. */
  function PutSlot(slot: Option<UtxoUpdate>, address: string, u: UtxoUpdate): Option<UtxoUpdate> {
    if u.address != address then slot
    else if !u.IsSpend() then Some(u)
    else if slot.Some? then Some(slot.value.SpentAs(u))
    else None
  }

  function PutSlots(slot: Option<UtxoUpdate>, address: string, ws: Updates): Option<UtxoUpdate> {
    if ws == [] then slot else PutSlot(PutSlots(slot, address, ws[..|ws| - 1]), address, ws[|ws| - 1])
  }

  lemma {:induction false} PutSlotsConcat(slot: Option<UtxoUpdate>, address: string, a: Updates, b: Updates)
    ensures PutSlots(slot, address, a + b) == PutSlots(PutSlots(slot, address, a), address, b)
  {
    hide PutSlot;
    if b == [] {
      assert a + b == a;
    } else {
      assert (a + b)[..|a + b| - 1] == a + b[..|b| - 1];
      PutSlotsConcat(slot, address, a, b[..|b| - 1]);
    }
  }

  lemma {:induction false} SlotOfInsertAll(m: Buckets, us: Updates, address: string, id: OutPoint)
    requires forall u :: u in us ==> !u.IsSpend()
    ensures Slot(InsertAll(m, us), address, id) == PutSlots(Slot(m, address, id), address, Touching(us, id))
  {
    if us != [] {
      var front, last := us[..|us| - 1], us[|us| - 1];
      SlotOfInsertAll(m, front, address, id);
      TouchingLast(us, id);
    }
  }

  lemma {:induction false} SlotOfMarkAllSpent(m: Buckets, us: Updates, address: string, id: OutPoint)
    requires forall u :: u in us ==> u.IsSpend()
    ensures Slot(MarkAllSpent(m, us), address, id) == PutSlots(Slot(m, address, id), address, Touching(us, id))
  {
    if us != [] {
      var front, last := us[..|us| - 1], us[|us| - 1];
      SlotOfMarkAllSpent(m, front, address, id);
      TouchingLast(us, id);
    }
  }

  lemma TouchingLast(us: Updates, id: OutPoint)
    requires us != []
    ensures us[|us| - 1].Id() != id ==> Touching(us, id) == Touching(us[..|us| - 1], id)
    ensures us[|us| - 1].Id() == id ==>
      && Touching(us, id) != []
      && Touching(us, id)[..|Touching(us, id)| - 1] == Touching(us[..|us| - 1], id)
      && Touching(us, id)[|Touching(us, id)| - 1] == us[|us| - 1]
  {
  }

  lemma SlotOfBlock(m: Buckets, us: Updates, address: string, id: OutPoint)
    ensures Slot(ApplyBlock(m, us), address, id)
         == PutSlots(Slot(m, address, id), address, Creations(Touching(us, id)) + Spends(Touching(us, id)))
  {
    SplitKinds(us);
    var inserted := InsertAll(m, Creations(us));
    SlotOfInsertAll(m, Creations(us), address, id);
    SlotOfMarkAllSpent(inserted, Spends(us), address, id);
    TouchingCreations(us, id);
    TouchingSpends(us, id);
    PutSlotsConcat(Slot(m, address, id), address, Creations(Touching(us, id)), Spends(Touching(us, id)));
  }

  lemma {:induction false} ApplyBlocksConcat(m: Buckets, a: seq<Updates>, b: seq<Updates>)
    ensures ApplyBlocks(m, a + b) == ApplyBlocks(ApplyBlocks(m, a), b)
  {
    hide ApplyBlock;
    if b == [] {
      assert a + b == a;
    } else {
      assert (a + b)[..|a + b| - 1] == a + b[..|b| - 1];
      ApplyBlocksConcat(m, a, b[..|b| - 1]);
    }
  }

  /** Blocks act alike on buckets that differ only in empty ones. */
  lemma {:induction false} ApplyBlocksSame(m: Buckets, n: Buckets, blocks: seq<Updates>)
    requires SameEntries(m, n)
    ensures SameEntries(ApplyBlocks(m, blocks), ApplyBlocks(n, blocks))
  {
    if blocks != [] {
      var front, last := blocks[..|blocks| - 1], blocks[|blocks| - 1];
      ApplyBlocksSame(m, n, front);
      var x, y := ApplyBlocks(m, front), ApplyBlocks(n, front);
      forall address, id ensures Slot(ApplyBlock(x, last), address, id) == Slot(ApplyBlock(y, last), address, id) {
        SlotOfBlock(x, last, address, id);
        SlotOfBlock(y, last, address, id);
        assert BucketOf(x, address) == BucketOf(y, address);
      }
      SlotsDecide(ApplyBlock(x, last), ApplyBlock(y, last));
    }
  }
}
