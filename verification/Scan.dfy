/** Scanning a block: cached lookups, batched fetches and chunks, against one plain pass. */
module Scan {
  import opened Wrappers
  import opened NetworkShared
  import opened Rpc
  import opened TxCache

  datatype TxOutput = TxOutput(value: int, script: string)

  /** `publicKey` is what the witness yields. A null previous output marks no spend at all. */
  datatype TxInput = TxInput(isNull: bool, prevTxid: string, prevVout: nat, publicKey: Option<string>)

  datatype Transaction = Transaction(txid: string, outputs: seq<TxOutput>, inputs: seq<TxInput>)

  type Block = seq<Transaction>

  /** The script library of the node, and the watch set, fixed for the scan. */
  datatype Setting = Setting(
    height: int,
    blockTime: int,
    watched: set<string>,
    addressOf: string -> Option<string>,
    scriptType: string -> string)
  {
    predicate Watches(o: TxOutput) {
      addressOf(o.script).Some? && addressOf(o.script).value in watched
    }

    function CreationOf(tx: Transaction, vout: nat): UtxoUpdate
      requires vout < |tx.outputs| && Watches(tx.outputs[vout])
    {
      var o := tx.outputs[vout];
      UtxoUpdate(addressOf(o.script).value, None, tx.txid, vout, o.value, o.script, scriptType(o.script),
                 blockTime, height, None, None, None)
    }

    function SpendOf(tx: Transaction, input: TxInput, o: TxOutput): UtxoUpdate
      requires Watches(o)
    {
      UtxoUpdate(addressOf(o.script).value, input.publicKey, input.prevTxid, input.prevVout, o.value, o.script,
                 scriptType(o.script), blockTime, height, Some(tx.txid), Some(blockTime), Some(height))
    }
  }

  // ---- one plain pass ----

  /** The previous output of an input, if it can be found. */
  type Resolver = (string, nat) -> Option<TxOutput>

  function Created(tx: Transaction, n: nat, s: Setting): seq<UtxoUpdate>
    requires n <= |tx.outputs|
  {
    if n == 0 then []
    else Created(tx, n - 1, s) + (if s.Watches(tx.outputs[n - 1]) then [s.CreationOf(tx, n - 1)] else [])
  }

  function Spent(tx: Transaction, n: nat, prev: Resolver, s: Setting): seq<UtxoUpdate>
    requires n <= |tx.inputs|
  {
    if n == 0 then []
    else
      var input := tx.inputs[n - 1];
      var o := prev(input.prevTxid, input.prevVout);
      Spent(tx, n - 1, prev, s)
      + (if !input.isNull && o.Some? && s.Watches(o.value) then [s.SpendOf(tx, input, o.value)] else [])
  }

  /** Watched outputs by position, then one spend per input; the first transaction spends nothing. */
  function TxUpdates(tx: Transaction, isCoinbase: bool, prev: Resolver, s: Setting): seq<UtxoUpdate> {
    Created(tx, |tx.outputs|, s) + (if isCoinbase then [] else Spent(tx, |tx.inputs|, prev, s))
  }

  /** The updates of consecutive transactions, the first of which has position `start`. */
  function PlainScan(txs: Block, start: nat, prev: Resolver, s: Setting): seq<UtxoUpdate> {
    if txs == [] then []
    else
      var n := |txs| - 1;
      PlainScan(txs[..n], start, prev, s) + TxUpdates(txs[n], start + n == 0, prev, s)
  }

  lemma {:induction false} PlainScanConcat(a: Block, b: Block, start: nat, prev: Resolver, s: Setting)
    ensures PlainScan(a + b, start, prev, s) == PlainScan(a, start, prev, s) + PlainScan(b, start + |a|, prev, s)
  {
    hide TxUpdates;
    if b == [] {
      assert a + b == a;
    } else {
      assert (a + b)[..|a + b| - 1] == a + b[..|b| - 1];
      PlainScanConcat(a, b[..|b| - 1], start, prev, s);
    }
  }

  lemma NextChunk(block: Block, from: nat, upto: nat, prev: Resolver, s: Setting)
    requires from <= upto <= |block|
    ensures PlainScan(block[..upto], 0, prev, s)
         == PlainScan(block[..from], 0, prev, s) + PlainScan(block[from..upto], from, prev, s)
  {
    hide PlainScan;
    assert block[..upto] == block[..from] + block[from..upto];
    PlainScanConcat(block[..from], block[from..upto], 0, prev, s);
  }

  // ---- the node ----

  /** What the node answers to `getrawtransaction` and to `gettxout`. */
  datatype Node = Node(tx: string -> Option<Transaction>, txOut: ((string, nat)) -> Option<TxOutput>)

  /** What the node knows about an output: from its transaction if that can be had, else on its own. */
  function NodeOutput(node: Node): Resolver {
    (txid: string, vout: nat) =>
      if node.tx(txid).None? then node.txOut((txid, vout))
      else if vout < |node.tx(txid).value.outputs| then Some(node.tx(txid).value.outputs[vout])
      else None
  }

  /** Where both calls answer, they do not contradict each other. */
  ghost predicate Coherent(node: Node) {
    forall txid, vout :: node.txOut((txid, vout)).Some? ==> node.txOut((txid, vout)) == NodeOutput(node)(txid, vout)
  }

  ghost predicate Consistent(m: map<string, Transaction>, node: Node) {
    forall k :: k in m ==> node.tx(k) == Some(m[k])
  }

  // ---- the scan ----

  /** Where the scan looks: the transaction map first, and the output map when that finds no watched output. */
  function Lookup(txMap: map<string, Transaction>, utxoMap: map<(string, nat), TxOutput>, s: Setting): Resolver {
    (txid: string, vout: nat) =>
      if txid in txMap && vout < |txMap[txid].outputs| && s.Watches(txMap[txid].outputs[vout])
      then Some(txMap[txid].outputs[vout])
      else if (txid, vout) in utxoMap then Some(utxoMap[(txid, vout)])
      else None
  }

  method ScanOutputs(tx: Transaction, s: Setting) returns (updates: seq<UtxoUpdate>)
    ensures updates == Created(tx, |tx.outputs|, s)
  {
    updates := [];
    var vout := 0;
    while vout < |tx.outputs|
      invariant 0 <= vout <= |tx.outputs| && updates == Created(tx, vout, s)
    {
      var output := tx.outputs[vout];
      var address := s.addressOf(output.script);
      if address.Some? && address.value in s.watched {
        updates := updates + [UtxoUpdate(address.value, None, tx.txid, vout, output.value, output.script,
                                         s.scriptType(output.script), s.blockTime, s.height, None, None, None)];
      }
      vout := vout + 1;
    }
  }

  method ScanInputs(tx: Transaction, txMap: map<string, Transaction>, utxoMap: map<(string, nat), TxOutput>, s: Setting)
    returns (updates: seq<UtxoUpdate>)
    ensures updates == Spent(tx, |tx.inputs|, Lookup(txMap, utxoMap, s), s)
  {
    updates := [];
    var i := 0;
    while i < |tx.inputs|
      invariant 0 <= i <= |tx.inputs| && updates == Spent(tx, i, Lookup(txMap, utxoMap, s), s)
    {
      var input := tx.inputs[i];
      i := i + 1;
      if input.isNull {
        continue;
      }
      if input.prevTxid in txMap {
        var prevTx := txMap[input.prevTxid];
        if input.prevVout < |prevTx.outputs| {
          var prevOutput := prevTx.outputs[input.prevVout];
          if s.Watches(prevOutput) {
            updates := updates + [s.SpendOf(tx, input, prevOutput)];
            continue;
          }
        }
      }
      if (input.prevTxid, input.prevVout) in utxoMap {
        var txout := utxoMap[(input.prevTxid, input.prevVout)];
        if s.Watches(txout) {
          updates := updates + [s.SpendOf(tx, input, txout)];
        }
      }
    }
  }

  method ProcessTransactionChunk(chunk: Block, startIndex: nat, txMap: map<string, Transaction>,
                                 utxoMap: map<(string, nat), TxOutput>, s: Setting)
    returns (updates: seq<UtxoUpdate>)
    ensures updates == PlainScan(chunk, startIndex, Lookup(txMap, utxoMap, s), s)
  {
    updates := [];
    var i := 0;
    while i < |chunk|
      invariant 0 <= i <= |chunk| && updates == PlainScan(chunk[..i], startIndex, Lookup(txMap, utxoMap, s), s)
    {
      assert chunk[..i + 1][..i] == chunk[..i];
      var tx := chunk[i];
      var isCoinbase := startIndex + i == 0;
      var outputs := ScanOutputs(tx, s);
      var inputs := [];
      if !isCoinbase {
        inputs := ScanInputs(tx, txMap, utxoMap, s);
      }
      updates := updates + (outputs + inputs);
      i := i + 1;
    }
    assert chunk[..i] == chunk;
  }

  /** Chunks of any size, one after the other. */
  method ProcessChunks(block: Block, chunkSize: nat, txMap: map<string, Transaction>,
                       utxoMap: map<(string, nat), TxOutput>, s: Setting)
    returns (updates: seq<UtxoUpdate>)
    requires chunkSize > 0
    ensures updates == PlainScan(block, 0, Lookup(txMap, utxoMap, s), s)
  {
    updates := [];
    var start := 0;
    while start < |block|
      invariant 0 <= start <= |block| && updates == PlainScan(block[..start], 0, Lookup(txMap, utxoMap, s), s)
    {
      var end := if start + chunkSize < |block| then start + chunkSize else |block|;
      var chunkUpdates := ProcessTransactionChunk(block[start..end], start, txMap, utxoMap, s);
      NextChunk(block, start, end, Lookup(txMap, utxoMap, s), s);
      updates := updates + chunkUpdates;
      start := end;
    }
    assert block[..start] == block;
  }

  // ---- lookups that agree on the block give the same updates ----

  /** On every input of the block, both resolvers find the same watched output or none. */
  ghost predicate Agree(txs: Block, start: nat, p: Resolver, q: Resolver, s: Setting) {
    forall i, input :: 0 <= i < |txs| && start + i > 0 && input in txs[i].inputs && !input.isNull ==>
      SameFind(p(input.prevTxid, input.prevVout), q(input.prevTxid, input.prevVout), s)
  }

  predicate SameFind(a: Option<TxOutput>, b: Option<TxOutput>, s: Setting) {
    && ((a.Some? && s.Watches(a.value)) <==> (b.Some? && s.Watches(b.value)))
    && (a.Some? && s.Watches(a.value) ==> a == b)
  }

  lemma {:induction false} SpentAgrees(tx: Transaction, n: nat, p: Resolver, q: Resolver, s: Setting)
    requires n <= |tx.inputs|
    requires forall input :: input in tx.inputs && !input.isNull ==>
      SameFind(p(input.prevTxid, input.prevVout), q(input.prevTxid, input.prevVout), s)
    ensures Spent(tx, n, p, s) == Spent(tx, n, q, s)
  {
    if n > 0 {
      assert tx.inputs[n - 1] in tx.inputs;
      SpentAgrees(tx, n - 1, p, q, s);
    }
  }

  lemma {:induction false} ScanAgrees(txs: Block, start: nat, p: Resolver, q: Resolver, s: Setting)
    requires Agree(txs, start, p, q, s)
    ensures PlainScan(txs, start, p, s) == PlainScan(txs, start, q, s)
  {
    if txs != [] {
      var n := |txs| - 1;
      assert Agree(txs[..n], start, p, q, s) by {
        forall i, input | 0 <= i < n && start + i > 0 && input in txs[..n][i].inputs && !input.isNull
          ensures SameFind(p(input.prevTxid, input.prevVout), q(input.prevTxid, input.prevVout), s)
        {
          assert input in txs[i].inputs;
        }
      }
      ScanAgrees(txs[..n], start, p, q, s);
      if start + n > 0 {
        SpentAgrees(txs[n], |txs[n].inputs|, p, q, s);
      }
    }
  }

  /** Nobody watched, nothing to report: the shortcut for an empty watch set skips no update. */
  lemma {:induction false} NobodyWatched(txs: Block, start: nat, prev: Resolver, s: Setting)
    requires s.watched == {}
    ensures PlainScan(txs, start, prev, s) == []
  {
    if txs != [] {
      var n := |txs| - 1;
      NobodyWatched(txs[..n], start, prev, s);
      NoneCreated(txs[n], |txs[n].outputs|, s);
      NoneSpent(txs[n], |txs[n].inputs|, prev, s);
    }
  }

  lemma {:induction false} NoneCreated(tx: Transaction, n: nat, s: Setting)
    requires s.watched == {} && n <= |tx.outputs|
    ensures Created(tx, n, s) == []
  {
    if n > 0 {
      NoneCreated(tx, n - 1, s);
    }
  }

  lemma {:induction false} NoneSpent(tx: Transaction, n: nat, prev: Resolver, s: Setting)
    requires s.watched == {} && n <= |tx.inputs|
    ensures Spent(tx, n, prev, s) == []
  {
    if n > 0 {
      NoneSpent(tx, n - 1, prev, s);
    }
  }

  // ---- the whole scan ----

  /** What the lookup phase collects: hits, transactions to fetch, and the outputs wanted from them. */
  datatype Wanted = Wanted(cached: map<string, Transaction>, txids: set<string>, outpoints: set<(string, nat)>)

  ghost predicate Covers(w: Wanted, input: TxInput) {
    input.isNull || input.prevTxid in w.cached ||
    (input.prevTxid in w.txids && (input.prevTxid, input.prevVout) in w.outpoints)
  }

  ghost predicate Grows(a: Wanted, b: Wanted) {
    (forall k :: k in a.cached ==> k in b.cached) && a.txids <= b.txids && a.outpoints <= b.outpoints
  }

  /** One transaction's inputs against the cache. */
  method LookUpInputs(tx: Transaction, cache: LruCache<Transaction>, before: Wanted, ghost node: Node)
    returns (w: Wanted)
    requires cache.Valid() && Consistent(cache.entries, node) && Consistent(before.cached, node)
    modifies cache`order
    ensures cache.Valid()
    ensures Consistent(w.cached, node) && Grows(before, w)
    ensures forall k :: k in w.txids ==> k in before.txids || k !in cache.entries
    ensures forall input :: input in tx.inputs ==> Covers(w, input)
  {
    w := before;
    var i := 0;
    while i < |tx.inputs|
      invariant 0 <= i <= |tx.inputs| && cache.Valid()
      invariant Consistent(w.cached, node) && Grows(before, w)
      invariant forall k :: k in w.txids ==> k in before.txids || k !in cache.entries
      invariant forall k :: 0 <= k < i ==> Covers(w, tx.inputs[k])
    {
      var input := tx.inputs[i];
      i := i + 1;
      if input.isNull {
        continue;
      }
      var hit := cache.Get(input.prevTxid);
      if hit.Some? {
        w := w.(cached := w.cached[input.prevTxid := hit.value]);
      } else {
        w := w.(txids := w.txids + {input.prevTxid}, outpoints := w.outpoints + {(input.prevTxid, input.prevVout)});
      }
    }
  }

  /** The lookup phase: every transaction but the first. */
  method LookUpBlock(block: Block, cache: LruCache<Transaction>, ghost node: Node) returns (w: Wanted)
    requires cache.Valid() && Consistent(cache.entries, node)
    modifies cache`order
    ensures cache.Valid()
    ensures Consistent(w.cached, node)
    ensures forall k :: k in w.txids ==> k !in cache.entries
    ensures forall i, input :: 0 < i < |block| && input in block[i].inputs ==> Covers(w, input)
  {
    w := Wanted(map[], {}, {});
    var idx := 0;
    while idx < |block|
      invariant 0 <= idx <= |block| && cache.Valid()
      invariant Consistent(w.cached, node)
      invariant forall k :: k in w.txids ==> k !in cache.entries
      invariant forall i, input :: 0 < i < idx && input in block[i].inputs ==> Covers(w, input)
    {
      if idx > 0 {
        ghost var before := w;
        w := LookUpInputs(block[idx], cache, w, node);
        forall i, input | 0 < i < idx && input in block[i].inputs ensures Covers(w, input) {
          assert Covers(before, input) && Grows(before, w);
        }
      }
      idx := idx + 1;
    }
  }

  /** Puts one fetched transaction into the cache; `put` are those put there just before. */
  method PutFetched(cache: LruCache<Transaction>, txid: string, tx: Transaction, ghost node: Node, ghost put: seq<string>)
    requires cache.Valid() && Consistent(cache.entries, node) && node.tx(txid) == Some(tx) && txid !in put
    modifies cache
    ensures cache.Valid() && Consistent(cache.entries, node)
    ensures forall k :: k in cache.entries ==> k == txid || k in old(cache.entries)
    ensures put <= old(cache.order) && |put| < cache.capacity ==> [txid] + put <= cache.order
  {
    hide Distinct, Without;
    ghost var order, full := cache.order, txid !in cache.entries && |cache.order| == cache.capacity;
    cache.Put(txid, tx);
    if put <= order && |put| < cache.capacity {
      UseKeepsFront(put, order, txid, cache.capacity, full);
    }
  }

  /**
   * Puts everything fetched into the cache, in some order. Whatever is evicted, the rest stays
   * right; and if the fetched transactions fit, they are all there afterwards.
   */
  method FillCache(cache: LruCache<Transaction>, fetched: map<string, Transaction>, ghost node: Node)
    requires cache.Valid() && Consistent(cache.entries, node) && Consistent(fetched, node)
    modifies cache
    ensures cache.Valid() && Consistent(cache.entries, node)
    ensures forall k :: k in cache.entries ==> k in fetched || k in old(cache.entries)
    ensures |fetched| <= cache.capacity ==> forall k :: k in fetched ==> k in cache.entries
  {
    hide Distinct, Without;
    var todo := fetched.Keys;
    ghost var put: seq<string> := [];
    while todo != {}
      invariant todo <= fetched.Keys && cache.Valid() && Consistent(cache.entries, node)
      invariant forall k :: k in cache.entries ==> k in fetched || k in old(cache.entries)
      invariant |put| + |todo| == |fetched| && forall k :: k in fetched <==> k in todo || k in put
      invariant forall k :: k in put ==> k !in todo
      invariant |fetched| <= cache.capacity ==> put <= cache.order
      decreases todo
    {
      var txid :| txid in todo;
      PutFetched(cache, txid, fetched[txid], node, put);
      put := [txid] + put;
      todo := todo - {txid};
    }
  }

  method Listed<T(==)>(s: set<T>) returns (items: seq<T>)
    ensures forall x :: x in items <==> x in s
  {
    items := [];
    var todo := s;
    while todo != {}
      invariant todo <= s && forall x :: x in items <==> x in s && x !in todo
      decreases todo
    {
      var x :| x in todo;
      items := items + [x];
      todo := todo - {x};
    }
  }

  /** The wanted outputs that the transactions at hand do not have. */
  method MissingOutputs(outpoints: set<(string, nat)>, txMap: map<string, Transaction>)
    returns (missing: seq<(string, nat)>)
    ensures forall p :: p in missing <==> p in outpoints && !(p.0 in txMap && p.1 < |txMap[p.0].outputs|)
  {
    var absent := set p | p in outpoints && !(p.0 in txMap && p.1 < |txMap[p.0].outputs|);
    missing := Listed(absent);
  }

  /**
   * The scan of a block. The updates are those of one plain pass over the block that asks the node
   * directly, for any chunk size, cache capacity and cache contents that agree with the node, and
   * for either kind of client. Where the node has every previous transaction, the spends are exact.
   */
  method ProcessTransactions(block: Block, s: Setting, chunkSize: nat, cache: LruCache<Transaction>, node: Node,
                             txClient: Client<string, Transaction>, outClient: Client<(string, nat), TxOutput>)
    returns (r: Option<seq<UtxoUpdate>>)
    requires chunkSize > 0 && cache.Valid() && Consistent(cache.entries, node) && Coherent(node)
    requires Faithful(txClient, node.tx) && Faithful(outClient, node.txOut)
    modifies cache
    ensures cache.Valid() && Consistent(cache.entries, node)
    ensures r.Some? ==> r.value == PlainScan(block, 0, NodeOutput(node), s)
    ensures txClient.Core? && outClient.Core? ==> r.Some?
  {
    hide Distinct, Without, PlainScan, NodeOutput, Lookup, Coherent, Agree;
    if s.watched == {} {
      NobodyWatched(block, 0, NodeOutput(node), s);
      return Some([]);
    }
    var w := LookUpBlock(block, cache, node);
    var txids := Listed(w.txids);
    var fetched := Fetch(txClient, txids, node.tx);
    if fetched.None? {
      return None;
    }
    FillCache(cache, fetched.value, node);
    var allTxs := w.cached + fetched.value;
    var missing := MissingOutputs(w.outpoints, allTxs);
    var utxoMap := Fetch(outClient, missing, node.txOut);
    if utxoMap.None? {
      return None;
    }
    var updates := ProcessChunks(block, chunkSize, allTxs, utxoMap.value, s);
    LookupsAgree(block, w, allTxs, utxoMap.value, node, s);
    ScanAgrees(block, 0, Lookup(allTxs, utxoMap.value, s), NodeOutput(node), s);
    r := Some(updates);
  }

  lemma LookupsAgree(block: Block, w: Wanted, txMap: map<string, Transaction>, utxoMap: map<(string, nat), TxOutput>,
                     node: Node, s: Setting)
    requires Coherent(node) && Consistent(txMap, node) && Consistent(w.cached, node)
    requires forall i, input :: 0 < i < |block| && input in block[i].inputs ==> Covers(w, input)
    requires forall k :: k in w.cached || (k in w.txids && node.tx(k).Some?) ==> k in txMap
    requires forall p :: p in utxoMap ==> node.txOut(p) == Some(utxoMap[p])
    requires forall p :: p in w.outpoints && p.0 !in txMap && node.txOut(p).Some? ==> p in utxoMap
    ensures Agree(block, 0, Lookup(txMap, utxoMap, s), NodeOutput(node), s)
  {
    forall i, input | 0 < i < |block| && input in block[i].inputs && !input.isNull
      ensures SameFind(Lookup(txMap, utxoMap, s)(input.prevTxid, input.prevVout),
                       NodeOutput(node)(input.prevTxid, input.prevVout), s)
    {
      assert Covers(w, input);
      assert input.prevTxid in txMap <==> node.tx(input.prevTxid).Some?;
      if (input.prevTxid, input.prevVout) in utxoMap {
        assert node.txOut((input.prevTxid, input.prevVout)) == NodeOutput(node)(input.prevTxid, input.prevVout);
      }
    }
  }
}
