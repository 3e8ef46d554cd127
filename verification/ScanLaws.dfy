/** What the update list of a block says, output by output and input by input. */
module ScanLaws {
  import opened Wrappers
  import opened NetworkShared
  import opened Scan

  /** Where an update comes from: an output or an input of a transaction of the block. */
  datatype Origin = Origin(tx: nat, spends: bool, at: nat)

  /** Transactions in block order; within one, outputs before inputs, each by position. */
  predicate Before(a: Origin, b: Origin) {
    if a.tx != b.tx then a.tx < b.tx
    else if a.spends != b.spends then b.spends
    else a.at < b.at
  }

  /** The output is watched, or the input spends a watched output that can be found. */
  predicate Reported(o: Origin, block: Block, prev: Resolver, s: Setting) {
    o.tx < |block| &&
    if !o.spends then o.at < |block[o.tx].outputs| && Pays(block[o.tx].outputs[o.at], s)
    else
      && o.tx > 0 && o.at < |block[o.tx].inputs| && !block[o.tx].inputs[o.at].isNull
      && var found := prev(block[o.tx].inputs[o.at].prevTxid, block[o.tx].inputs[o.at].prevVout);
      found.Some? && Pays(found.value, s)
  }

  predicate Pays(o: TxOutput, s: Setting) {
    exists a :: a in s.watched && s.addressOf(o.script) == Some(a)
  }

  /** The columns that describe an output, whether it is being created or spent. */
  predicate DescribesOutput(u: UtxoUpdate, o: TxOutput, s: Setting) {
    && s.addressOf(o.script) == Some(u.address)
    && u.amount == o.value && u.scriptPubKey == o.script && u.scriptType == s.scriptType(o.script)
    && u.createdAt == s.blockTime && u.blockHeight == s.height
  }

  predicate Describes(u: UtxoUpdate, o: Origin, block: Block, prev: Resolver, s: Setting)
    requires Reported(o, block, prev, s)
  {
    var tx := block[o.tx];
    if !o.spends then
      && DescribesOutput(u, tx.outputs[o.at], s)
      && u.txid == tx.txid && u.vout == o.at
      && u.publicKey == None && u.spentTxid == None && u.spentAt == None && u.spentBlock == None
    else
      var input := tx.inputs[o.at];
      && DescribesOutput(u, prev(input.prevTxid, input.prevVout).value, s)
      && u.txid == input.prevTxid && u.vout == input.prevVout
      && u.publicKey == input.publicKey && u.spentTxid == Some(tx.txid)
      && u.spentAt == Some(s.blockTime) && u.spentBlock == Some(s.height)
  }

  /** Update by update, `us` is what the origins `os` call for, in the order of the block. */
  ghost predicate InOrder(us: seq<UtxoUpdate>, os: seq<Origin>, block: Block, prev: Resolver, s: Setting) {
    && |us| == |os|
    && (forall i :: 0 <= i < |os| ==> Reported(os[i], block, prev, s) && Describes(us[i], os[i], block, prev, s))
    && (forall i, j :: 0 <= i < j < |os| ==> Before(os[i], os[j]))
  }

  lemma ListsConcat(us: seq<UtxoUpdate>, os: seq<Origin>, vs: seq<UtxoUpdate>, ps: seq<Origin>,
                    block: Block, prev: Resolver, s: Setting)
    requires InOrder(us, os, block, prev, s) && InOrder(vs, ps, block, prev, s)
    requires forall a, b :: a in os && b in ps ==> Before(a, b)
    ensures InOrder(us + vs, os + ps, block, prev, s)
  {
    hide Reported, Describes, Before;
    assert forall i :: 0 <= i < |os| ==> os[i] in os;
    assert forall i :: 0 <= i < |ps| ==> ps[i] in ps;
  }

  lemma ListsOne(u: UtxoUpdate, o: Origin, block: Block, prev: Resolver, s: Setting)
    requires Reported(o, block, prev, s) && Describes(u, o, block, prev, s)
    ensures InOrder([u], [o], block, prev, s)
  {
  }

  lemma {:induction false} CreatedOrigins(block: Block, t: nat, n: nat, prev: Resolver, s: Setting) returns (os: seq<Origin>)
    requires t < |block| && n <= |block[t].outputs|
    ensures InOrder(Created(block[t], n, s), os, block, prev, s)
    ensures forall o :: o in os <==> o.tx == t && !o.spends && o.at < n && Reported(o, block, prev, s)
  {
    if n == 0 {
      os := [];
    } else {
      var o := Origin(t, false, n - 1);
      os := CreatedOrigins(block, t, n - 1, prev, s);
      if s.Watches(block[t].outputs[n - 1]) {
        ListsOne(s.CreationOf(block[t], n - 1), o, block, prev, s);
        ListsConcat(Created(block[t], n - 1, s), os, [s.CreationOf(block[t], n - 1)], [o], block, prev, s);
        os := os + [o];
      } else {
        assert !Reported(o, block, prev, s);
        assert Created(block[t], n, s) == Created(block[t], n - 1, s);
      }
    }
  }

  lemma {:induction false} SpentOrigins(block: Block, t: nat, n: nat, prev: Resolver, s: Setting) returns (os: seq<Origin>)
    requires 0 < t < |block| && n <= |block[t].inputs|
    ensures InOrder(Spent(block[t], n, prev, s), os, block, prev, s)
    ensures forall o :: o in os <==> o.tx == t && o.spends && o.at < n && Reported(o, block, prev, s)
  {
    if n == 0 {
      os := [];
    } else {
      var o, input := Origin(t, true, n - 1), block[t].inputs[n - 1];
      var found := prev(input.prevTxid, input.prevVout);
      os := SpentOrigins(block, t, n - 1, prev, s);
      if !input.isNull && found.Some? && s.Watches(found.value) {
        var u := s.SpendOf(block[t], input, found.value);
        ListsOne(u, o, block, prev, s);
        ListsConcat(Spent(block[t], n - 1, prev, s), os, [u], [o], block, prev, s);
        os := os + [o];
      } else {
        assert !Reported(o, block, prev, s);
        assert Spent(block[t], n, prev, s) == Spent(block[t], n - 1, prev, s);
      }
    }
  }

  lemma TxOrigins(block: Block, t: nat, prev: Resolver, s: Setting) returns (os: seq<Origin>)
    requires t < |block|
    ensures InOrder(TxUpdates(block[t], t == 0, prev, s), os, block, prev, s)
    ensures forall o :: o in os <==> o.tx == t && Reported(o, block, prev, s)
  {
    hide InOrder, Created, Spent;
    var tx := block[t];
    os := CreatedOrigins(block, t, |tx.outputs|, prev, s);
    if t > 0 {
      var ps := SpentOrigins(block, t, |tx.inputs|, prev, s);
      ListsConcat(Created(tx, |tx.outputs|, s), os, Spent(tx, |tx.inputs|, prev, s), ps, block, prev, s);
      os := os + ps;
    } else {
      assert Created(tx, |tx.outputs|, s) + [] == Created(tx, |tx.outputs|, s);
    }
  }

  lemma {:induction false} FrontOrigins(block: Block, n: nat, prev: Resolver, s: Setting) returns (os: seq<Origin>)
    requires n <= |block|
    ensures InOrder(PlainScan(block[..n], 0, prev, s), os, block, prev, s)
    ensures forall o :: o in os <==> o.tx < n && Reported(o, block, prev, s)
  {
    hide TxUpdates, Reported, Describes;
    if n == 0 {
      os := [];
    } else {
      os := FrontOrigins(block, n - 1, prev, s);
      var ps := TxOrigins(block, n - 1, prev, s);
      assert block[..n][..n - 1] == block[..n - 1];
      ListsConcat(PlainScan(block[..n - 1], 0, prev, s), os, TxUpdates(block[n - 1], n - 1 == 0, prev, s), ps, block, prev, s);
      os := os + ps;
    }
  }

  /**
   * The update list of a block is exact: it has one update for each watched output and for each
   * input that spends a findable watched output, none besides, in the order of the block, and
   * every column of every update is the one that the output, the input and the block call for.
   */
  lemma ScanIsExact(block: Block, prev: Resolver, s: Setting) returns (os: seq<Origin>)
    ensures InOrder(PlainScan(block, 0, prev, s), os, block, prev, s)
    ensures forall o :: o in os <==> Reported(o, block, prev, s)
  {
    os := FrontOrigins(block, |block|, prev, s);
    assert block[..|block|] == block;
    assert forall o :: Reported(o, block, prev, s) ==> o.tx < |block|;
  }

  /** The update says that this input of this transaction spends the output it names. */
  predicate SpentBy(u: UtxoUpdate, tx: Transaction, input: TxInput, s: Setting) {
    && input.prevTxid == u.txid && input.prevVout == u.vout
    && u.spentTxid == Some(tx.txid) && u.publicKey == input.publicKey
    && u.spentAt == Some(s.blockTime) && u.spentBlock == Some(s.height)
  }

  /**
   * Update by update: where `prev` knows the block's own outputs, each update names an output that
   * is there, with that output's value and script; a spend also names its transaction and key.
   */
  lemma UpdateCarriesOutput(block: Block, prev: Resolver, s: Setting, u: UtxoUpdate)
    requires u in PlainScan(block, 0, prev, s)
    requires forall i, vout: nat :: 0 <= i < |block| && vout < |block[i].outputs| ==>
      prev(block[i].txid, vout) == Some(block[i].outputs[vout])
    ensures u.vout >= 0 && prev(u.txid, u.vout).Some? && DescribesOutput(u, prev(u.txid, u.vout).value, s)
    ensures u.IsSpend() ==>
      exists i, a :: 0 < i < |block| && 0 <= a < |block[i].inputs| && SpentBy(u, block[i], block[i].inputs[a], s)
    ensures !u.IsSpend() ==> exists i :: 0 <= i < |block| && block[i].txid == u.txid && u.vout < |block[i].outputs|
  {
    var us := PlainScan(block, 0, prev, s);
    var os := ScanIsExact(block, prev, s);
    var i :| 0 <= i < |us| && us[i] == u;
    assert Reported(os[i], block, prev, s) && Describes(us[i], os[i], block, prev, s);
    if os[i].spends {
      assert SpentBy(u, block[os[i].tx], block[os[i].tx].inputs[os[i].at], s);
    } else {
      assert block[os[i].tx].txid == u.txid;
    }
  }
}
