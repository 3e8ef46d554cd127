/** What the CSV buckets mean, for every well-formed history. */
module CsvLaws {
  import opened Wrappers
  import opened NetworkShared
  import opened History
  import opened Pending
  import opened CsvTable

  /** The entry of an outpoint under `address`, read off its life alone. */
  function EntryOf(life: Updates, address: string): Option<UtxoUpdate>
    requires LifeOk(life)
  {
    if life == [] || life[0].IsSpend() || life[0].address != address then None
    else if |life| == 1 then Some(life[0])
    else Some(life[0].SpentAs(life[1]))
  }

  lemma {:induction false} ReplaySlot(hist: seq<Updates>, address: string, id: OutPoint)
    requires WellFormed(hist)
    ensures Slot(Replay(hist), address, id) == EntryOf(Life(hist, id), address)
  {
    if hist != [] {
      var n := |hist| - 1;
      var front, last := Life(hist[..n], id), Touching(hist[n], id);
      LifeOfLastBlock(hist, id);
      calc {
        Slot(Replay(hist), address, id);
        Slot(ApplyBlock(Replay(hist[..n]), hist[n]), address, id);
        { SlotOfBlock(Replay(hist[..n]), hist[n], address, id); }
        PutSlots(Slot(Replay(hist[..n]), address, id), address, Creations(last) + Spends(last));
        { ReplaySlot(hist[..n], address, id); }
        PutSlots(EntryOf(front, address), address, Creations(last) + Spends(last));
        { PutLast(front, last, address); }
        EntryOf(front + last, address);
      }
    }
  }

  /** One more block: inserting and marking `last` over the entry of `front`. */
  lemma PutLast(front: Updates, last: Updates, address: string)
    requires LifeOk(front) && LifeOk(front + last)
    ensures PutSlots(EntryOf(front, address), address, Creations(last) + Spends(last)) == EntryOf(front + last, address)
  {
    var slot := EntryOf(front, address);
    if last == [] {
      assert front + last == front;
    } else if front == [] {
      assert front + last == last;
      SplitLife(last);
      PutFresh(last, address);
    } else {
      assert front + last == [front[0], last[0]] && last == [last[0]];
      assert Creations(last) + Spends(last) == last by {
        OneUpdate(last[0], last[0].Id());
      }
      PutOne(slot, address, last[0]);
    }
  }

  lemma SplitLife(last: Updates)
    requires LifeOk(last) && last != []
    ensures Creations(last) + Spends(last) == last
  {
    hide Spends, Creations;
    if |last| == 1 {
      assert last == [last[0]];
      OneUpdate(last[0], last[0].Id());
    } else {
      assert last == [last[0], last[1]];
      TwoUpdates(last[0], last[1]);
    }
  }

  lemma PutFresh(last: Updates, address: string)
    requires LifeOk(last) && last != []
    ensures PutSlots(None, address, last) == EntryOf(last, address)
  {
    PutOne(None, address, last[0]);
    if |last| == 1 {
      assert last == [last[0]];
    } else {
      assert last == [last[0]] + [last[1]];
      PutSlotsConcat(None, address, [last[0]], [last[1]]);
      PutOne(PutSlot(None, address, last[0]), address, last[1]);
    }
  }

  lemma PutOne(slot: Option<UtxoUpdate>, address: string, u: UtxoUpdate)
    ensures PutSlots(slot, address, [u]) == PutSlot(slot, address, u)
  {
    assert [u][..0] == [];
  }

  /** Column by column, what the entry of an outpoint says; it is there only if the outpoint was created. */
  lemma EntryColumns(hist: seq<Updates>, address: string, id: OutPoint) returns (k: nat, c: UtxoUpdate)
    requires WellFormed(hist) && id in BucketOf(Replay(hist), address)
    ensures c.Id() == id && !c.IsSpend() && c.address == address
    ensures RowTold(BucketOf(Replay(hist), address)[id], hist, k, c)
  {
    var entry, life := BucketOf(Replay(hist), address)[id], Life(hist, id);
    ReplaySlot(hist, address, id);
    assert Slot(Replay(hist), address, id) == Some(entry);
    LifeHeights(hist, 0, id);
    EntryMatchesLife(life, address);
    c := life[0];
    k := ToldByLife(entry, hist, id);
  }

  lemma EntryMatchesLife(life: Updates, address: string)
    requires LifeOk(life) && EntryOf(life, address).Some?
    requires forall u :: u in life ==> StampedAt(u, u.blockHeight)
    ensures
      var entry := EntryOf(life, address).value;
      && SameCoin(entry, life[0]) && !life[0].IsSpend() && life[0].address == address
      && (forall u :: u in life && u.IsSpend() ==> SameSpend(entry, u))
      && ((forall u :: u in life ==> !u.IsSpend()) ==> entry.spentTxid == None && entry.spentAt == None && entry.spentBlock == None)
  {
    assert forall i :: 0 <= i < |life| ==> life[i] in life;
  }

  /** Reverting to `h` restores the entries held after block `h`; only empty buckets may remain. */
  lemma RevertRestores(hist: seq<Updates>, h: int)
    requires WellFormed(hist) && -1 <= h < |hist|
    ensures SameEntries(Revert(Replay(hist), h), Replay(hist[..h + 1]))
  {
    var past := hist[..h + 1];
    WellFormedPrefix(hist, h + 1);
    forall address, id ensures Slot(Revert(Replay(hist), h), address, id) == Slot(Replay(past), address, id) {
      var front, back := Life(past, id), Life(hist[h + 1..], id);
      calc {
        Slot(Revert(Replay(hist), h), address, id);
        RevertSlot(Slot(Replay(hist), address, id), h);
        { ReplaySlot(hist, address, id); LifeSplit(hist, h + 1, id); }
        RevertSlot(EntryOf(front + back, address), h);
        { LifeSplit(hist, h + 1, id); assert LifeOk(front) && LifeOk(front + back); RevertEntryOf(front, back, address, h); }
        EntryOf(front, address);
        { ReplaySlot(past, address, id); }
        Slot(Replay(past), address, id);
      }
    }
    SlotsDecide(Revert(Replay(hist), h), Replay(past));
  }

  function RevertSlot(slot: Option<UtxoUpdate>, h: int): Option<UtxoUpdate> {
    if slot.None? || slot.value.blockHeight > h then None else Some(RevertEntry(slot.value, h))
  }

  lemma RevertEntryOf(front: Updates, back: Updates, address: string, h: int)
    requires LifeOk(front) && LifeOk(front + back)
    requires forall u :: u in front ==> u.blockHeight <= h && StampedAt(u, u.blockHeight)
    requires forall u :: u in back ==> h < u.blockHeight && StampedAt(u, u.blockHeight)
    ensures RevertSlot(EntryOf(front + back, address), h) == EntryOf(front, address)
  {
    var life := front + back;
    assert forall i :: 0 <= i < |front| ==> front[i] in front;
    assert forall i :: 0 <= i < |back| ==> back[i] in back;
    if back == [] {
      assert life == front;
    } else if |front| == 1 {
      assert life == [front[0], back[0]];
    } else {
      assert life == back;
    }
  }

  /** A store that followed the old branch and reverted ends with the entries of the new chain alone. */
  lemma ReorgEqualsRewrite(common: seq<Updates>, oldBranch: seq<Updates>, newBranch: seq<Updates>)
    requires WellFormed(common + oldBranch)
    ensures SameEntries(
      ApplyBlocks(Revert(ApplyBlocks(Replay(common), oldBranch), |common| - 1), newBranch),
      Replay(common + newBranch))
  {
    var hist := common + oldBranch;
    ApplyBlocksConcat(map[], common, oldBranch);
    ApplyBlocksConcat(map[], common, newBranch);
    RevertRestores(hist, |common| - 1);
    assert hist[..|common|] == common;
    ApplyBlocksSame(Revert(Replay(hist), |common| - 1), Replay(common), newBranch);
  }

  /** Inserting before marking keeps even an output that is created and spent in one block off the list. */
  lemma SpendableMatchesChain(hist: seq<Updates>, q: int, address: string, id: OutPoint)
    requires WellFormed(hist) && 0 <= q < |hist|
    ensures id in Spendable(Replay(hist), q, address) <==> UnspentOnChain(hist, q, address, id)
  {
    UnspentByLife(hist, q, address, id);
    ReplaySlot(hist, address, id);
    LifeSplit(hist, q + 1, id);
    var front, back := Life(hist[..q + 1], id), Life(hist[q + 1..], id);
    assert LifeOk(front + back);
    SpendableByLife(front, back, q, address);
  }

  lemma SpendableByLife(front: Updates, back: Updates, q: int, address: string)
    requires LifeOk(front + back)
    requires forall u :: u in front ==> u.blockHeight <= q && StampedAt(u, u.blockHeight)
    requires forall u :: u in back ==> q < u.blockHeight && StampedAt(u, u.blockHeight)
    ensures
      var entry := EntryOf(front + back, address);
      && (exists c :: c in front && !c.IsSpend() && c.address == address)
      && (forall s :: s in front ==> !s.IsSpend())
      <==> entry.Some? && entry.value.SpendableAt(q)
  {
    if front == [] {
      assert front + back == back;
      NotYet(back, q, address);
    } else if |front| == 1 {
      assert front == [front[0]] && front[0] in front;
      assert forall c :: c in front <==> c == front[0];
      CreatedOrUnknown(front[0], back, q, address);
    } else {
      assert front[1] in front && front + back == front;
      SpentByThen(front, q, address);
    }
  }

  lemma NotYet(life: Updates, q: int, address: string)
    requires LifeOk(life) && forall u :: u in life ==> q < u.blockHeight
    ensures EntryOf(life, address).None? || !EntryOf(life, address).value.SpendableAt(q)
  {
    if life != [] {
      assert life[0] in life;
    }
  }

  lemma CreatedOrUnknown(first: UtxoUpdate, later: Updates, q: int, address: string)
    requires LifeOk([first] + later) && first.blockHeight <= q && StampedAt(first, first.blockHeight)
    requires forall u :: u in later ==> q < u.blockHeight && StampedAt(u, u.blockHeight)
    ensures
      var entry := EntryOf([first] + later, address);
      !first.IsSpend() && first.address == address <==> entry.Some? && entry.value.SpendableAt(q)
  {
    if later != [] {
      assert later[0] in later && ([first] + later)[1] == later[0];
    }
  }

  lemma SpentByThen(life: Updates, q: int, address: string)
    requires LifeOk(life) && |life| == 2
    requires forall u :: u in life ==> u.blockHeight <= q && StampedAt(u, u.blockHeight)
    ensures life[1].IsSpend()
    ensures EntryOf(life, address).None? || !EntryOf(life, address).value.SpendableAt(q)
  {
    assert life[0] in life && life[1] in life;
  }

  // ---- re-sent batches ----

  /** All changes of a batch of blocks, in order. */
  function Changes(blocks: seq<Updates>, id: OutPoint): Updates {
    if blocks == [] then []
    else
      var last := Touching(blocks[|blocks| - 1], id);
      Changes(blocks[..|blocks| - 1], id) + (Creations(last) + Spends(last))
  }

  lemma {:induction false} ChangesConcat(a: seq<Updates>, b: seq<Updates>, id: OutPoint)
    ensures Changes(a + b, id) == Changes(a, id) + Changes(b, id)
  {
    hide Creations, Spends, Touching;
    if b == [] {
      assert a + b == a;
    } else {
      assert (a + b)[..|a + b| - 1] == a + b[..|b| - 1];
      ChangesConcat(a, b[..|b| - 1], id);
    }
  }

  lemma {:induction false} SlotOfBlocks(m: Buckets, blocks: seq<Updates>, address: string, id: OutPoint)
    ensures Slot(ApplyBlocks(m, blocks), address, id) == PutSlots(Slot(m, address, id), address, Changes(blocks, id))
  {
    if blocks != [] {
      var n := |blocks| - 1;
      var last := Touching(blocks[n], id);
      SlotOfBlocks(m, blocks[..n], address, id);
      SlotOfBlock(ApplyBlocks(m, blocks[..n]), blocks[n], address, id);
      PutSlotsConcat(Slot(m, address, id), address, Changes(blocks[..n], id), Creations(last) + Spends(last));
    }
  }

  /** Everything a run of changes can do to one entry: nothing, mark it if it is there, or set it. */
  datatype Effect = Keep | Mark(spend: UtxoUpdate) | Set(entry: UtxoUpdate)

  function EffectOf(address: string, ws: Updates): Effect {
    if ws == [] then Keep
    else
      var before, u := EffectOf(address, ws[..|ws| - 1]), ws[|ws| - 1];
      if u.address != address then before
      else if !u.IsSpend() then Set(u)
      else if before.Set? then Set(before.entry.SpentAs(u))
      else Mark(u)
  }

  lemma {:induction false} EffectDecides(slot: Option<UtxoUpdate>, address: string, ws: Updates)
    ensures PutSlots(slot, address, ws) == match EffectOf(address, ws)
      case Keep => slot
      case Mark(spend) => if slot.Some? then Some(slot.value.SpentAs(spend)) else None
      case Set(entry) => Some(entry)
  {
    if ws != [] {
      EffectDecides(slot, address, ws[..|ws| - 1]);
    }
  }

  /** More changes never weaken an effect. */
  lemma {:induction false} EffectGrows(address: string, a: Updates, b: Updates)
    ensures EffectOf(address, a).Set? ==> EffectOf(address, a + b).Set?
    ensures EffectOf(address, a).Mark? ==> !EffectOf(address, a + b).Keep?
  {
    if b == [] {
      assert a + b == a;
    } else {
      assert (a + b)[..|a + b| - 1] == a + b[..|b| - 1];
      EffectGrows(address, a, b[..|b| - 1]);
    }
  }

  /** A batch that stopped after any of its blocks and is sent again in full leaves the entries of one complete sending. */
  lemma RetryIsHarmless(m: Buckets, sent: seq<Updates>, rest: seq<Updates>)
    ensures SameEntries(ApplyBlocks(ApplyBlocks(m, sent), sent + rest), ApplyBlocks(m, sent + rest))
  {
    var once, twice := ApplyBlocks(m, sent + rest), ApplyBlocks(ApplyBlocks(m, sent), sent + rest);
    forall address, id ensures Slot(twice, address, id) == Slot(once, address, id) {
      var slot, a, b := Slot(m, address, id), Changes(sent, id), Changes(rest, id);
      SlotOfBlocks(m, sent, address, id);
      SlotOfBlocks(m, sent + rest, address, id);
      SlotOfBlocks(ApplyBlocks(m, sent), sent + rest, address, id);
      ChangesConcat(sent, rest, id);
      EffectDecides(slot, address, a);
      EffectDecides(slot, address, a + b);
      EffectDecides(PutSlots(slot, address, a), address, a + b);
      EffectGrows(address, a, b);
    }
    SlotsDecide(twice, once);
  }
}
