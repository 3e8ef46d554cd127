/** What the SQLite table means, for every well-formed history. */
module SqliteLaws {
  import opened Wrappers
  import opened NetworkShared
  import opened History
  import opened SqliteTable

  /**
   * The row of an outpoint, read off its life alone. An output created and spent in one block is
   * written spend first, so its creation clears the spent columns again.
   */
  function RowOf(life: Updates): Option<UtxoUpdate>
    requires LifeOk(life)
  {
    if life == [] then None
    else if |life| == 1 then Some(life[0])
    else if life[0].blockHeight < life[1].blockHeight then Some(life[0].SpentAs(life[1]))
    else Some(life[1].Unspent())
  }

  /** First write fixes the row, last write fixes its spent columns: the table in closed form. */
  lemma {:induction false} ReplaySlot(hist: seq<Updates>, id: OutPoint)
    requires WellFormed(hist)
    ensures Slot(Replay(hist), id) == RowOf(Life(hist, id))
  {
    if hist != [] {
      var n := |hist| - 1;
      var front, last := Life(hist[..n], id), Touching(hist[n], id);
      LifeOfLastBlock(hist, id);
      forall u | u in last ensures StampedAt(u, n) {
        TouchingMembers(hist[n], id, u);
      }
      ReplaySlot(hist[..n], id);
      calc {
        Slot(Replay(hist), id);
        Slot(UpsertAll(Replay(hist[..n]), StoreOrder(hist[n])), id);
        { SlotOfUpsertAll(Replay(hist[..n]), StoreOrder(hist[n]), id); }
        WriteSlots(RowOf(front), Touching(StoreOrder(hist[n]), id));
        { TouchingStoreOrder(hist[n], id); }
        WriteSlots(RowOf(front), StoreOrder(last));
        { WriteLast(front, last, n); }
        RowOf(front + last);
      }
    }
  }

  /** One more block: writing `last` over the row of `front`. */
  lemma WriteLast(front: Updates, last: Updates, n: int)
    requires LifeOk(front) && LifeOk(front + last)
    requires forall u :: u in front ==> u.blockHeight < n
    requires forall u :: u in last ==> StampedAt(u, n)
    ensures WriteSlots(RowOf(front), StoreOrder(last)) == RowOf(front + last)
  {
    hide WriteSlots, StoreOrder;
    WriteNone(RowOf(front));
    StoreOrderShort(last);
    assert forall i :: 0 <= i < |front| ==> front[i] in front;
    assert forall i :: 0 <= i < |last| ==> last[i] in last;
    if last == [] {
      assert front + last == front;
    } else if front == [] {
      assert front + last == last;
      if |last| == 1 {
        WriteOne(None, last[0]);
        assert last == [last[0]];
      } else {
        WriteTwo(None, last[1], last[0]);
      }
    } else {
      assert front + last == [front[0], last[0]] && last == [last[0]];
      WriteOne(RowOf(front), last[0]);
    }
  }

  /** Column by column, what the row of an outpoint says. */
  lemma RowColumns(hist: seq<Updates>, id: OutPoint) returns (k: nat, c: UtxoUpdate)
    requires WellFormed(hist) && NoSameBlockSpend(hist) && id in Replay(hist)
    ensures c.Id() == id && RowTold(Replay(hist)[id], hist, k, c)
  {
    var row, life := Replay(hist)[id], Life(hist, id);
    ReplaySlot(hist, id);
    assert Slot(Replay(hist), id) == Some(row);
    LifeStrict(hist, id);
    LifeHeights(hist, 0, id);
    RowMatchesLife(life);
    c := life[0];
    k := ToldByLife(row, hist, id);
  }

  lemma RowMatchesLife(life: Updates)
    requires LifeOk(life) && life != [] && (|life| == 2 ==> life[0].blockHeight < life[1].blockHeight)
    requires forall u :: u in life ==> StampedAt(u, u.blockHeight)
    ensures
      var row := RowOf(life).value;
      && SameCoin(row, life[0])
      && (forall u :: u in life && u.IsSpend() ==> SameSpend(row, u))
      && ((forall u :: u in life ==> !u.IsSpend()) ==> row.spentTxid == None && row.spentAt == None && row.spentBlock == None)
  {
    assert forall i :: 0 <= i < |life| ==> life[i] in life;
  }

  /** Reverting to `h` restores exactly the table held after block `h`, row for row. */
  lemma RevertRestores(hist: seq<Updates>, h: int)
    requires WellFormed(hist) && -1 <= h < |hist|
    ensures Revert(Replay(hist), h) == Replay(hist[..h + 1])
  {
    var past := hist[..h + 1];
    WellFormedPrefix(hist, h + 1);
    forall id ensures Slot(Revert(Replay(hist), h), id) == Slot(Replay(past), id) {
      var front, back := Life(past, id), Life(hist[h + 1..], id);
      calc {
        Slot(Revert(Replay(hist), h), id);
        RevertSlot(Slot(Replay(hist), id), h);
        { ReplaySlot(hist, id); LifeSplit(hist, h + 1, id); }
        RevertSlot(RowOf(front + back), h);
        { LifeSplit(hist, h + 1, id); assert LifeOk(front) && LifeOk(front + back); RevertRowOf(front, back, h); }
        RowOf(front);
        { ReplaySlot(past, id); }
        Slot(Replay(past), id);
      }
    }
    SlotsDecide(Revert(Replay(hist), h), Replay(past));
  }

  function RevertSlot(slot: Option<UtxoUpdate>, h: int): Option<UtxoUpdate> {
    if slot.None? || slot.value.blockHeight > h then None else Some(RevertRow(slot.value, h))
  }

  lemma RevertRowOf(front: Updates, back: Updates, h: int)
    requires LifeOk(front) && LifeOk(front + back)
    requires forall u :: u in front ==> u.blockHeight <= h && StampedAt(u, u.blockHeight)
    requires forall u :: u in back ==> h < u.blockHeight && StampedAt(u, u.blockHeight)
    ensures RevertSlot(RowOf(front + back), h) == RowOf(front)
  {
    var life := front + back;
    assert forall i :: 0 <= i < |front| ==> front[i] in front;
    assert forall i :: 0 <= i < |back| ==> back[i] in back;
    if |front| == 2 {
      assert life == front;
    } else if |front| == 1 && back == [] {
      assert life == front;
    } else if |front| == 1 {
      assert life == [front[0], back[0]];
    } else {
      assert life == back;
    }
  }

  /** A store that followed the old branch and reverted ends as if it had only ever seen the new chain. */
  lemma ReorgEqualsRewrite(common: seq<Updates>, oldBranch: seq<Updates>, newBranch: seq<Updates>)
    requires WellFormed(common + oldBranch)
    ensures ApplyBlocks(Revert(ApplyBlocks(Replay(common), oldBranch), |common| - 1), newBranch)
         == Replay(common + newBranch)
  {
    var hist := common + oldBranch;
    ApplyBlocksConcat(map[], common, oldBranch);
    ApplyBlocksConcat(map[], common, newBranch);
    RevertRestores(hist, |common| - 1);
    assert hist[..|common|] == common;
  }

  /** A query at `q` after any longer history, or after a revert to any `h >= q`, sees the coins of block `q`. */
  lemma TimeTravel(hist: seq<Updates>, q: int, h: int, address: string)
    requires WellFormed(hist) && 0 <= q <= h < |hist|
    ensures Coins(Spendable(Replay(hist), q, address)) == Spendable(Replay(hist[..q + 1]), q, address)
    ensures Coins(Spendable(Revert(Replay(hist), h), q, address)) == Spendable(Replay(hist[..q + 1]), q, address)
  {
    SpendableIsPast(hist, q, address);
    RevertRestores(hist, h);
    WellFormedPrefix(hist, h + 1);
    SpendableIsPast(hist[..h + 1], q, address);
    assert hist[..h + 1][..q + 1] == hist[..q + 1];
  }

  /** The three spent columns are set or clear together, and a spend is never older than its row. */
  predicate RowOk(u: UtxoUpdate) {
    && u.spentTxid.Some? == u.spentAt.Some? == u.spentBlock.Some?
    && (u.spentBlock.Some? ==> u.blockHeight <= u.spentBlock.value)
  }

  ghost predicate RowsOk(t: Table) {
    forall id :: id in t ==> RowOk(t[id]) && t[id].Id() == id
  }

  lemma ReplayRowsOk(hist: seq<Updates>)
    requires WellFormed(hist)
    ensures RowsOk(Replay(hist))
    ensures forall id :: id in Replay(hist) ==> 0 <= Replay(hist)[id].blockHeight < |hist|
  {
    var t := Replay(hist);
    forall id | id in t ensures RowOk(t[id]) && t[id].Id() == id && 0 <= t[id].blockHeight < |hist| {
      ReplaySlot(hist, id);
      LifeHeights(hist, 0, id);
      LifeOrdered(hist, 0, id);
      RowOfLife(Life(hist, id));
      assert Slot(t, id) == Some(t[id]);
    }
  }

  lemma RowOfLife(life: Updates)
    requires LifeOk(life) && life != []
    requires forall u :: u in life ==> StampedAt(u, u.blockHeight)
    requires forall i, j :: 0 <= i <= j < |life| ==> life[i].blockHeight <= life[j].blockHeight
    ensures RowOk(RowOf(life).value)
    ensures exists u :: u in life && u.Id() == RowOf(life).value.Id() && u.blockHeight == RowOf(life).value.blockHeight
  {
    assert forall i :: 0 <= i < |life| ==> life[i] in life;
  }

  /** Forgetting what was spent after `q` and reverting to `q` give the same answer at `q`. */
  lemma QueryCommutesWithRevert(t: Table, q: int, address: string)
    requires RowsOk(t)
    ensures Coins(Spendable(t, q, address)) == Spendable(Revert(t, q), q, address)
  {
    var l, r := Coins(Spendable(t, q, address)), Spendable(Revert(t, q), q, address);
    forall id ensures id in l <==> id in r {
      if id in t {
        assert RowOk(t[id]);
      }
    }
    forall id | id in l ensures l[id] == r[id] {
      assert RowOk(t[id]);
    }
  }

  lemma SpendableIsPast(hist: seq<Updates>, q: int, address: string)
    requires WellFormed(hist) && 0 <= q < |hist|
    ensures Coins(Spendable(Replay(hist), q, address)) == Spendable(Replay(hist[..q + 1]), q, address)
  {
    RevertRestores(hist, q);
    ReplayRowsOk(hist);
    QueryCommutesWithRevert(Replay(hist), q, address);
  }

  /** The rows offered as spendable at `q` are the chain's unspent outputs, one row each. */
  lemma SpendableMatchesChain(hist: seq<Updates>, q: int, address: string, id: OutPoint)
    requires WellFormed(hist) && NoSameBlockSpend(hist) && 0 <= q < |hist|
    ensures id in Spendable(Replay(hist), q, address) <==> UnspentOnChain(hist, q, address, id)
  {
    hide NoSameBlockSpend, Replay, UnspentOnChain, Life;
    var past := hist[..q + 1];
    SpendableIsPast(hist, q, address);
    WellFormedPrefix(hist, q + 1);
    NoSameBlockPrefix(hist, q + 1);
    ReplaySlot(past, id);
    LifeStrict(past, id);
    UnspentByLife(hist, q, address, id);
    LifeHeights(past, 0, id);
    RowSpendable(Life(past, id), q, address);
    assert id in Spendable(Replay(hist), q, address) <==> id in Coins(Spendable(Replay(hist), q, address));
  }

  lemma RowSpendable(life: Updates, q: int, address: string)
    requires LifeOk(life) && (|life| == 2 ==> life[0].blockHeight < life[1].blockHeight)
    requires forall u :: u in life ==> u.blockHeight <= q && StampedAt(u, u.blockHeight)
    ensures
      var row := RowOf(life);
      (row.Some? && row.value.address == address && row.value.SpendableAt(q)) <==>
      && (exists c :: c in life && !c.IsSpend() && c.address == address)
      && (forall s :: s in life ==> !s.IsSpend())
  {
    assert forall i :: 0 <= i < |life| ==> life[i] in life;
    if |life| == 1 {
      assert forall c :: c in life <==> c == life[0];
    } else if |life| == 2 {
      assert life[1].IsSpend();
    }
  }

  /**
   * Writing spends before creations is right exactly when no block creates and spends one
   * outpoint: otherwise the spent output is offered as spendable from that block on.
   */
  lemma SpendableExactIff(hist: seq<Updates>)
    requires WellFormed(hist)
    ensures NoSameBlockSpend(hist) <==>
      forall q, address, id :: 0 <= q < |hist| ==>
        (id in Spendable(Replay(hist), q, address) <==> UnspentOnChain(hist, q, address, id))
  {
    if NoSameBlockSpend(hist) {
      forall q, address, id | 0 <= q < |hist|
        ensures id in Spendable(Replay(hist), q, address) <==> UnspentOnChain(hist, q, address, id)
      {
        SpendableMatchesChain(hist, q, address, id);
      }
    } else {
      var k, c, s :| 0 <= k < |hist| && c in hist[k] && s in hist[k] && !c.IsSpend() && s.IsSpend() && c.Id() == s.Id();
      SameBlockSpendIsOffered(hist, k, c, s);
      assert c.Id() in Spendable(Replay(hist), k, c.address) && !UnspentOnChain(hist, k, c.address, c.Id());
    }
  }

  lemma SameBlockSpendIsOffered(hist: seq<Updates>, k: nat, c: UtxoUpdate, s: UtxoUpdate)
    requires WellFormed(hist) && k < |hist| && c in hist[k] && s in hist[k]
    requires !c.IsSpend() && s.IsSpend() && c.Id() == s.Id()
    ensures forall q :: k <= q < |hist| ==>
      c.Id() in Spendable(Replay(hist), q, c.address) && !UnspentOnChain(hist, q, c.address, c.Id())
  {
    var id := c.Id();
    ReplaySlot(hist, id);
    LifeMembers(hist, id, c);
    LifeMembers(hist, id, s);
    assert Life(hist, id)[0] == c && Life(hist, id)[1] == s;
  }

  // ---- re-sent batches ----

  /** All statements of a batch of blocks, in order. */
  function Writes(blocks: seq<Updates>): Updates {
    if blocks == [] then [] else Writes(blocks[..|blocks| - 1]) + StoreOrder(blocks[|blocks| - 1])
  }

  lemma {:induction false} UpsertAllConcat(t: Table, a: Updates, b: Updates)
    ensures UpsertAll(t, a + b) == UpsertAll(UpsertAll(t, a), b)
  {
    if b == [] {
      assert a + b == a;
    } else {
      hide Upsert;
      assert (a + b)[..|a + b| - 1] == a + b[..|b| - 1];
      UpsertAllConcat(t, a, b[..|b| - 1]);
    }
  }

  lemma {:induction false} ApplyBlocksIsUpsertAll(t: Table, blocks: seq<Updates>)
    ensures ApplyBlocks(t, blocks) == UpsertAll(t, Writes(blocks))
  {
    hide StoreOrder;
    if blocks != [] {
      var n := |blocks| - 1;
      ApplyBlocksIsUpsertAll(t, blocks[..n]);
      UpsertAllConcat(t, Writes(blocks[..n]), StoreOrder(blocks[n]));
    }
  }

  /** Any run of writes to one row: the first one fixes it, the last one sets its spent columns. */
  lemma {:induction false} FirstAndLastWrite(slot: Option<UtxoUpdate>, ws: Updates)
    requires ws != []
    ensures WriteSlots(slot, ws) ==
      Some((if slot.Some? then slot.value else ws[0]).SpentAs(ws[|ws| - 1]))
  {
    if |ws| > 1 {
      FirstAndLastWrite(slot, ws[..|ws| - 1]);
    } else {
      assert ws[..0] == [];
    }
  }

  /** What was written to one row before the retry cannot be told from the row afterwards. */
  predicate LeavesNoTrace(slot: Option<UtxoUpdate>, stale: Updates, again: Updates) {
    stale == [] ||
    if again == [] then slot.Some? && slot.value.SpentAs(stale[|stale| - 1]) == slot.value
    else slot.Some? || stale[0].Unspent() == again[0].Unspent()
  }

  /**
   * When a batch stops early, the next cycle may send other blocks. The blocks of the failed batch
   * are wiped out exactly when each row they wrote either was there before, and is written again or
   * got the spent columns it had, or is created again as the same coin.
   */
  lemma RetryWithOtherBlocksIff(t: Table, stale: seq<Updates>, again: seq<Updates>)
    ensures ApplyBlocks(ApplyBlocks(t, stale), again) == ApplyBlocks(t, again) <==>
      forall id :: LeavesNoTrace(Slot(t, id), Touching(Writes(stale), id), Touching(Writes(again), id))
  {
    var once, twice := ApplyBlocks(t, again), ApplyBlocks(ApplyBlocks(t, stale), again);
    forall id ensures Slot(twice, id) == Slot(once, id) <==>
      LeavesNoTrace(Slot(t, id), Touching(Writes(stale), id), Touching(Writes(again), id))
    {
      SlotOfBlocks(t, stale, id);
      SlotOfBlocks(t, again, id);
      SlotOfBlocks(ApplyBlocks(t, stale), again, id);
      NoTraceDecides(Slot(t, id), Touching(Writes(stale), id), Touching(Writes(again), id));
    }
    if forall id :: LeavesNoTrace(Slot(t, id), Touching(Writes(stale), id), Touching(Writes(again), id)) {
      SlotsDecide(twice, once);
    }
  }

  lemma SlotOfBlocks(t: Table, blocks: seq<Updates>, id: OutPoint)
    ensures Slot(ApplyBlocks(t, blocks), id) == WriteSlots(Slot(t, id), Touching(Writes(blocks), id))
  {
    ApplyBlocksIsUpsertAll(t, blocks);
    SlotOfUpsertAll(t, Writes(blocks), id);
  }

  lemma NoTraceDecides(slot: Option<UtxoUpdate>, stale: Updates, again: Updates)
    ensures WriteSlots(WriteSlots(slot, stale), again) == WriteSlots(slot, again) <==> LeavesNoTrace(slot, stale, again)
  {
    hide WriteSlots;
    if stale == [] || again == [] {
      WriteNone(slot);
      WriteNone(WriteSlots(slot, stale));
    }
    if stale != [] {
      FirstAndLastWrite(slot, stale);
    }
    if again != [] {
      FirstAndLastWrite(slot, again);
      FirstAndLastWrite(WriteSlots(slot, stale), again);
      if stale != [] && slot.None? {
        SameCoinIff(stale[0], stale[|stale| - 1], again[0], again[|again| - 1]);
      }
    }
  }

  lemma WriteNone(slot: Option<UtxoUpdate>)
    ensures WriteSlots(slot, []) == slot
  {
  }

  lemma SameCoinIff(a: UtxoUpdate, x: UtxoUpdate, b: UtxoUpdate, s: UtxoUpdate)
    ensures a.SpentAs(x).SpentAs(s) == b.SpentAs(s) <==> a.Unspent() == b.Unspent()
  {
    assert a.SpentAs(s).Unspent() == a.Unspent() && b.SpentAs(s).Unspent() == b.Unspent();
    assert a.Unspent().SpentAs(s) == a.SpentAs(s) && b.Unspent().SpentAs(s) == b.SpentAs(s);
  }

  /**
   * A batch that stopped after any of its blocks and is sent again in full leaves the table that
   * one complete sending leaves, whatever the updates are and whatever the table held before.
   */
  lemma RetryIsHarmless(t: Table, sent: seq<Updates>, rest: seq<Updates>)
    ensures ApplyBlocks(ApplyBlocks(t, sent), sent + rest) == ApplyBlocks(t, sent + rest)
  {
    WritesConcat(sent, rest);
    forall id ensures LeavesNoTrace(Slot(t, id), Touching(Writes(sent), id), Touching(Writes(sent + rest), id)) {
      TouchingConcat(Writes(sent), Writes(rest), id);
    }
    RetryWithOtherBlocksIff(t, sent, sent + rest);
  }

  /**
   * A table that `rest` would complete to the replay of a chain is also completed by sending the
   * chain again from its first block, wherever the table came from.
   */
  lemma ResendFromStart(t: Table, done: seq<Updates>, rest: seq<Updates>)
    requires ApplyBlocks(t, rest) == Replay(done + rest)
    ensures ApplyBlocks(t, done + rest) == Replay(done + rest)
  {
    var again, fromNothing := ApplyBlocks(t, done + rest), Replay(done + rest);
    WritesConcat(done, rest);
    forall id ensures Slot(again, id) == Slot(fromNothing, id) {
      TouchingConcat(Writes(done), Writes(rest), id);
      SlotOfBlocks(t, rest, id);
      SlotOfBlocks(t, done + rest, id);
      SlotOfBlocks(map[], done + rest, id);
      ResendSlot(Slot(t, id), Touching(Writes(done), id), Touching(Writes(rest), id));
    }
    SlotsDecide(again, fromNothing);
  }

  lemma ResendSlot(slot: Option<UtxoUpdate>, done: Updates, rest: Updates)
    requires WriteSlots(slot, rest) == WriteSlots(None, done + rest)
    ensures WriteSlots(slot, done + rest) == WriteSlots(None, done + rest)
  {
    hide WriteSlots;
    WriteNone(slot);
    WriteNone(None);
    if done + rest != [] {
      FirstAndLastWrite(slot, done + rest);
      FirstAndLastWrite(None, done + rest);
      if rest != [] {
        FirstAndLastWrite(slot, rest);
      } else {
        assert done + rest == done;
      }
    } else {
      assert rest == [];
    }
  }

  /** A chain that is being sent again: each row is as of the blocks sent so far, if they mention it. */
  lemma SlotWhileSentAgain(sent: seq<Updates>, rest: seq<Updates>, id: OutPoint)
    ensures
      var soFar := Slot(Replay(sent), id);
      Slot(ApplyBlocks(Replay(sent + rest), sent), id) == if soFar.Some? then soFar else Slot(Replay(sent + rest), id)
  {
    var first, all := Touching(Writes(sent), id), Touching(Writes(sent + rest), id);
    WritesConcat(sent, rest);
    TouchingConcat(Writes(sent), Writes(rest), id);
    SlotOfBlocks(map[], sent, id);
    SlotOfBlocks(map[], sent + rest, id);
    SlotOfBlocks(Replay(sent + rest), sent, id);
    if first != [] {
      FirstAndLastWrite(None, first);
      FirstAndLastWrite(None, all);
      FirstAndLastWrite(Slot(Replay(sent + rest), id), first);
    }
  }

  /** What is unspent late and known early was unspent early. */
  lemma UnspentEarlier(hist: seq<Updates>, k: int, q: int, address: string, id: OutPoint)
    requires WellFormed(hist) && 0 <= k <= q < |hist| && Life(hist[..k + 1], id) != []
    requires UnspentOnChain(hist, q, address, id)
    ensures UnspentOnChain(hist, k, address, id)
  {
    var early, late := Life(hist[..k + 1], id), Life(hist[..q + 1], id);
    WellFormedPrefix(hist, q + 1);
    assert hist[..q + 1][..k + 1] == hist[..k + 1];
    LifeSplit(hist[..q + 1], k + 1, id);
    UnspentByLife(hist, q, address, id);
    UnspentByLife(hist, k, address, id);
    assert LifeOk(late) && forall i :: 0 <= i < |late| ==> late[i] in late;
    assert early == late;
  }

  /**
   * Sending the chain again from its first block, as an indexer does that was started again, opens
   * closed outputs for a while. With the blocks up to `k` sent, a query at `q` lists what the chain
   * has unspent at `q` and also what it had unspent at `k`.
   */
  lemma SpendableWhileSentAgain(hist: seq<Updates>, k: int, q: int, address: string, id: OutPoint)
    requires WellFormed(hist) && NoSameBlockSpend(hist) && 0 <= k < |hist| && 0 <= q < |hist|
    ensures id in Spendable(ApplyBlocks(Replay(hist), hist[..k + 1]), q, address)
       <==> UnspentOnChain(hist, q, address, id) || (k < q && UnspentOnChain(hist, k, address, id))
  {
    hide NoSameBlockSpend, Replay, UnspentOnChain, Life, ApplyBlocks;
    var sent := hist[..k + 1];
    var life := Life(sent, id);
    assert hist == sent + hist[k + 1..];
    SlotWhileSentAgain(sent, hist[k + 1..], id);
    WellFormedPrefix(hist, k + 1);
    NoSameBlockPrefix(hist, k + 1);
    ReplaySlot(sent, id);
    UnspentByLife(hist, k, address, id);
    if life == [] || q <= k {
      SpendableMatchesChain(hist, q, address, id);
      if life != [] {
        SpendableMatchesChain(sent, q, address, id);
        UnspentByLife(hist, q, address, id);
        UnspentByLife(sent, q, address, id);
        assert sent[..q + 1] == hist[..q + 1];
      }
    } else {
      LifeStrict(sent, id);
      LifeHeights(sent, 0, id);
      RowSpendable(life, q, address);
      if UnspentOnChain(hist, q, address, id) {
        UnspentEarlier(hist, k, q, address, id);
      }
    }
  }

  lemma {:induction false} WritesConcat(a: seq<Updates>, b: seq<Updates>)
    ensures Writes(a + b) == Writes(a) + Writes(b)
  {
    hide StoreOrder;
    if b == [] {
      assert a + b == a;
    } else {
      assert (a + b)[..|a + b| - 1] == a + b[..|b| - 1];
      WritesConcat(a, b[..|b| - 1]);
    }
  }
}
