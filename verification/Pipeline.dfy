/**
 * From the node's chain to a query: scanning a valid chain gives a well-formed history, so what
 * storage offers as spendable is the set of unspent outputs of the chain itself.
 */
module Pipeline {
  import opened Wrappers
  import opened NetworkShared
  import opened History
  import opened Scan
  import ScanLaws
  import ChainLog
  import Convergence
  import Indexer
  import SqliteDatasource
  import SqliteTable
  import SqliteLaws
  import CsvTable
  import CsvLaws

  /** A transaction at its place in the chain; the first of a block is its coinbase. */
  datatype Placed = Placed(height: int, time: int, tx: Transaction, first: bool)

  function Lay(block: Block, height: int, time: int): seq<Placed> {
    if block == [] then []
    else Lay(block[..|block| - 1], height, time) + [Placed(height, time, block[|block| - 1], |block| == 1)]
  }

  function Flatten(chain: seq<Block>, time: int -> int): seq<Placed> {
    if chain == [] then []
    else Flatten(chain[..|chain| - 1], time) + Lay(chain[|chain| - 1], |chain| - 1, time(|chain| - 1))
  }

  function At(s: Setting, height: int, time: int): Setting {
    s.(height := height, blockTime := time)
  }

  /** What the indexer sends for a chain, block by block. */
  function Scanned(chain: seq<Block>, time: int -> int, prev: Resolver, s: Setting): seq<Updates> {
    if chain == [] then []
    else
      var n := |chain| - 1;
      Scanned(chain[..n], time, prev, s) + [PlainScan(chain[n], 0, prev, At(s, n, time(n)))]
  }

  predicate Refers(p: Placed, a: nat, id: OutPoint)
    requires a < |p.tx.inputs|
  {
    !p.first && !p.tx.inputs[a].isNull && OutPoint(p.tx.inputs[a].prevTxid, p.tx.inputs[a].prevVout) == id
  }

  predicate Makes(p: Placed, id: OutPoint) {
    p.tx.txid == id.txid && 0 <= id.vout < |p.tx.outputs|
  }

  predicate Uses(p: Placed, id: OutPoint) {
    exists a :: 0 <= a < |p.tx.inputs| && Refers(p, a, id)
  }

  /**
   * The rules of the chain that matter here: no txid occurs twice (BIP 30), no output is spent
   * twice, a spend comes after the transaction it spends from, and previous outputs of the
   * chain's own transactions resolve to those outputs.
   */
  ghost predicate ValidChain(ps: seq<Placed>, prev: Resolver) {
    && (forall i, j :: 0 <= i < j < |ps| ==> ps[i].tx.txid != ps[j].tx.txid)
    && (forall i, j, id :: 0 <= i < j < |ps| && Uses(ps[i], id) ==> !Uses(ps[j], id))
    && (forall i, a, b, id :: 0 <= i < |ps| && 0 <= a < b < |ps[i].tx.inputs| && Refers(ps[i], a, id) ==> !Refers(ps[i], b, id))
    && (forall i, j, id :: 0 <= i <= j < |ps| && Uses(ps[i], id) ==> ps[j].tx.txid != id.txid)
    && (forall i, vout: nat :: 0 <= i < |ps| && vout < |ps[i].tx.outputs| ==>
          prev(ps[i].tx.txid, vout) == Some(ps[i].tx.outputs[vout]))
  }

  // ---- one transaction ----

  function CreationAt(tx: Transaction, vout: nat, s: Setting): Updates
    requires vout < |tx.outputs|
  {
    if s.Watches(tx.outputs[vout]) then [s.CreationOf(tx, vout)] else []
  }

  lemma CreatedExtends(tx: Transaction, n: nat, s: Setting, id: OutPoint)
    requires 0 < n <= |tx.outputs|
    ensures Touching(Created(tx, n, s), id) == Touching(Created(tx, n - 1, s), id)
      + (if OutPoint(tx.txid, n - 1) == id then CreationAt(tx, n - 1, s) else [])
  {
    var last := CreationAt(tx, n - 1, s);
    TouchingConcat(Created(tx, n - 1, s), last, id);
    if last != [] {
      assert last == [last[0]] && [last[0]][..0] == [];
    }
  }

  lemma CreatedNone(tx: Transaction, s: Setting, id: OutPoint)
    ensures Touching(Created(tx, 0, s), id) == []
  {
  }

  lemma {:induction false} TouchCreated(tx: Transaction, n: nat, s: Setting, id: OutPoint)
    requires n <= |tx.outputs|
    ensures Touching(Created(tx, n, s), id) ==
      if tx.txid == id.txid && 0 <= id.vout < n then CreationAt(tx, id.vout, s) else []
  {
    hide Touching, Created, CreationAt;
    if n > 0 {
      CreatedExtends(tx, n, s, id);
      TouchCreated(tx, n - 1, s, id);
    } else {
      CreatedNone(tx, s, id);
    }
  }

  /** The output is there and pays a watched address. */
  ghost predicate Watched(id: OutPoint, prev: Resolver, s: Setting) {
    id.vout >= 0 && prev(id.txid, id.vout).Some? && s.Watches(prev(id.txid, id.vout).value)
  }

  /** A spend update of `id` comes from an input that refers to it, and carries the spent output's address. */
  ghost predicate SpendFrom(u: UtxoUpdate, id: OutPoint, prev: Resolver, s: Setting) {
    && u.IsSpend() && u.Id() == id && Watched(id, prev, s)
    && u.address == s.addressOf(prev(id.txid, id.vout).value.script).value
  }

  /** The spend that input `a` adds, if it is one. */
  function SpendAt(p: Placed, a: nat, prev: Resolver, s: Setting): Updates
    requires a < |p.tx.inputs|
  {
    var input := p.tx.inputs[a];
    var o := prev(input.prevTxid, input.prevVout);
    if !input.isNull && o.Some? && s.Watches(o.value) then [s.SpendOf(p.tx, input, o.value)] else []
  }

  lemma TouchSpendAt(p: Placed, a: nat, prev: Resolver, s: Setting, id: OutPoint)
    requires a < |p.tx.inputs| && !p.first
    ensures
      var t := Touching(SpendAt(p, a, prev, s), id);
      && |t| == (if Refers(p, a, id) && Watched(id, prev, s) then 1 else 0)
      && forall u :: u in t ==> SpendFrom(u, id, prev, s)
  {
    var last := SpendAt(p, a, prev, s);
    if last != [] {
      assert last == [last[0]] && [last[0]][..0] == [];
    }
  }

  lemma SpentNone(p: Placed, prev: Resolver, s: Setting, id: OutPoint)
    ensures Touching(Spent(p.tx, 0, prev, s), id) == []
  {
  }

  /** Spends of `id` come from inputs that refer to it. */
  lemma {:induction false} SpentRefers(p: Placed, n: nat, prev: Resolver, s: Setting, id: OutPoint) returns (a: nat)
    requires n <= |p.tx.inputs| && !p.first && Touching(Spent(p.tx, n, prev, s), id) != []
    ensures Watched(id, prev, s) && a < n && Refers(p, a, id)
  {
    hide Refers, Spent, SpendAt, Touching, Watched, SpendFrom;
    SpentNone(p, prev, s, id);
    var t, last := SpentExtends(p, n, prev, s, id);
    if t != [] {
      a := SpentRefers(p, n - 1, prev, s, id);
    } else {
      a := n - 1;
      TouchSpendAt(p, a, prev, s, id);
    }
  }

  /** An input that refers to a watched outpoint is a spend of it. */
  lemma {:induction false} RefersSpent(p: Placed, n: nat, prev: Resolver, s: Setting, id: OutPoint, a: nat)
    requires a < n <= |p.tx.inputs| && !p.first && Watched(id, prev, s) && Refers(p, a, id)
    ensures Touching(Spent(p.tx, n, prev, s), id) != []
  {
    hide Refers, Spent, SpendAt, Touching, Watched, SpendFrom;
    var t, last := SpentExtends(p, n, prev, s, id);
    if a == n - 1 {
      TouchSpendAt(p, a, prev, s, id);
    } else {
      RefersSpent(p, n - 1, prev, s, id, a);
    }
  }

  /** At most one input of the transaction refers to the outpoint. */
  ghost predicate RefersOnce(p: Placed, id: OutPoint) {
    forall a, b :: 0 <= a < b < |p.tx.inputs| && Refers(p, a, id) ==> !Refers(p, b, id)
  }

  lemma OneReference(p: Placed, id: OutPoint, a: nat, b: nat)
    requires RefersOnce(p, id) && a < b < |p.tx.inputs| && Refers(p, a, id)
    ensures !Refers(p, b, id)
  {
  }

  /** One input per outpoint, so at most one spend. */
  lemma {:induction false} SpentOnce(p: Placed, n: nat, prev: Resolver, s: Setting, id: OutPoint)
    requires n <= |p.tx.inputs| && !p.first && RefersOnce(p, id)
    ensures |Touching(Spent(p.tx, n, prev, s), id)| <= 1
  {
    hide Refers, RefersOnce, Spent, SpendAt, Touching, Watched, SpendFrom;
    SpentNone(p, prev, s, id);
    if n > 0 {
      var t, last := SpentExtends(p, n, prev, s, id);
      SpentOnce(p, n - 1, prev, s, id);
      TouchSpendAt(p, n - 1, prev, s, id);
      if t != [] {
        var a := SpentRefers(p, n - 1, prev, s, id);
        OneReference(p, id, a, n - 1);
      }
    }
  }

  lemma {:induction false} SpentIsSpend(p: Placed, n: nat, prev: Resolver, s: Setting, id: OutPoint, u: UtxoUpdate)
    requires n <= |p.tx.inputs| && !p.first && u in Touching(Spent(p.tx, n, prev, s), id)
    ensures SpendFrom(u, id, prev, s)
  {
    hide Refers, Spent, SpendAt, Touching, Watched, SpendFrom;
    SpentNone(p, prev, s, id);
    var t, last := SpentExtends(p, n, prev, s, id);
    if u in t {
      SpentIsSpend(p, n - 1, prev, s, id, u);
    } else {
      TouchSpendAt(p, n - 1, prev, s, id);
    }
  }

  lemma SpentExtends(p: Placed, n: nat, prev: Resolver, s: Setting, id: OutPoint) returns (t: Updates, last: Updates)
    requires 0 < n <= |p.tx.inputs|
    ensures t == Touching(Spent(p.tx, n - 1, prev, s), id) && last == Touching(SpendAt(p, n - 1, prev, s), id)
    ensures Touching(Spent(p.tx, n, prev, s), id) == t + last
  {
    t, last := Touching(Spent(p.tx, n - 1, prev, s), id), Touching(SpendAt(p, n - 1, prev, s), id);
    TouchingConcat(Spent(p.tx, n - 1, prev, s), SpendAt(p, n - 1, prev, s), id);
  }

  // ---- the whole chain ----

  function ScanPlaced(p: Placed, prev: Resolver, s: Setting): Updates {
    TxUpdates(p.tx, p.first, prev, At(s, p.height, p.time))
  }

  function ScanAll(ps: seq<Placed>, prev: Resolver, s: Setting): Updates {
    if ps == [] then [] else ScanAll(ps[..|ps| - 1], prev, s) + ScanPlaced(ps[|ps| - 1], prev, s)
  }

  lemma {:induction false} ScanAllConcat(a: seq<Placed>, b: seq<Placed>, prev: Resolver, s: Setting)
    ensures ScanAll(a + b, prev, s) == ScanAll(a, prev, s) + ScanAll(b, prev, s)
  {
    hide ScanPlaced;
    if b == [] {
      assert a + b == a;
    } else {
      assert (a + b)[..|a + b| - 1] == a + b[..|b| - 1];
      ScanAllConcat(a, b[..|b| - 1], prev, s);
    }
  }

  lemma {:induction false} ScanOfBlock(block: Block, height: int, time: int, prev: Resolver, s: Setting)
    ensures ScanAll(Lay(block, height, time), prev, s) == PlainScan(block, 0, prev, At(s, height, time))
  {
    if block != [] {
      var n := |block| - 1;
      var front, last := Lay(block[..n], height, time), Placed(height, time, block[n], |block| == 1);
      ScanOfBlock(block[..n], height, time, prev, s);
      assert (front + [last])[..|front|] == front;
    }
  }

  /** A life over the history is what the scan of the whole chain says about the outpoint. */
  lemma {:induction false} LifeOfScan(chain: seq<Block>, time: int -> int, prev: Resolver, s: Setting, id: OutPoint)
    ensures Life(Scanned(chain, time, prev, s), id) == Touching(ScanAll(Flatten(chain, time), prev, s), id)
  {
    if chain != [] {
      var n := |chain| - 1;
      var hist, last := Scanned(chain[..n], time, prev, s), PlainScan(chain[n], 0, prev, At(s, n, time(n)));
      var front, block := Flatten(chain[..n], time), Lay(chain[n], n, time(n));
      LifeOfScan(chain[..n], time, prev, s, id);
      assert (hist + [last])[..|hist|] == hist;
      ScanAllConcat(front, block, prev, s);
      ScanOfBlock(chain[n], n, time(n), prev, s);
      TouchingConcat(ScanAll(front, prev, s), last, id);
    }
  }

  /** What the inputs say about an outpoint: its spend, or nothing. */
  lemma TouchInputs(p: Placed, prev: Resolver, s: Setting, id: OutPoint) returns (t: Updates)
    requires !p.first && RefersOnce(p, id)
    ensures t == Touching(Spent(p.tx, |p.tx.inputs|, prev, s), id) && |t| <= 1
    ensures t != [] ==> SpendFrom(t[0], id, prev, s)
    ensures t != [] <==> Watched(id, prev, s) && Uses(p, id)
  {
    hide Refers, RefersOnce, Spent, Touching, Watched, SpendFrom;
    t := Touching(Spent(p.tx, |p.tx.inputs|, prev, s), id);
    SpentOnce(p, |p.tx.inputs|, prev, s, id);
    if t != [] {
      SpentIsSpend(p, |p.tx.inputs|, prev, s, id, t[0]);
      var a := SpentRefers(p, |p.tx.inputs|, prev, s, id);
    } else if a :| 0 <= a < |p.tx.inputs| && Refers(p, a, id) && Watched(id, prev, s) {
      RefersSpent(p, |p.tx.inputs|, prev, s, id, a);
    }
  }

  /** What the outputs say about an outpoint: its creation, or nothing. */
  lemma TouchOutputs(p: Placed, prev: Resolver, s: Setting, id: OutPoint) returns (t: Updates)
    requires forall vout: nat :: vout < |p.tx.outputs| ==> prev(p.tx.txid, vout) == Some(p.tx.outputs[vout])
    ensures t == Touching(Created(p.tx, |p.tx.outputs|, s), id) && |t| <= 1
    ensures t != [] ==> IsCreation(t[0], id, prev, s)
    ensures t != [] <==> Watched(id, prev, s) && Makes(p, id)
  {
    TouchCreated(p.tx, |p.tx.outputs|, s, id);
    t := Touching(Created(p.tx, |p.tx.outputs|, s), id);
    hide Touching, Created;
  }

  /** What one placed transaction says about an outpoint: its creation, its spend, or nothing. */
  lemma TouchPlaced(p: Placed, prev: Resolver, s: Setting, id: OutPoint)
    requires RefersOnce(p, id) && (Uses(p, id) ==> p.tx.txid != id.txid)
    requires forall vout: nat :: vout < |p.tx.outputs| ==> prev(p.tx.txid, vout) == Some(p.tx.outputs[vout])
    ensures
      var t := Touching(ScanPlaced(p, prev, s), id);
      && |t| <= 1
      && (t != [] && !t[0].IsSpend() ==> IsCreation(t[0], id, prev, s))
      && (t != [] && t[0].IsSpend() ==> SpendFrom(t[0], id, prev, s))
      && (t != [] && !t[0].IsSpend() <==> Watched(id, prev, s) && Makes(p, id))
      && (t != [] && t[0].IsSpend() <==> Watched(id, prev, s) && Uses(p, id))
  {
    var here := At(s, p.height, p.time);
    var created := TouchOutputs(p, prev, here, id);
    var spent: Updates := [];
    if !p.first {
      spent := TouchInputs(p, prev, here, id);
    }
    TouchEither(p, prev, s, id, created, spent);
    WatchedAnywhere(p, prev, s, id);
    hide Refers, RefersOnce, Spent, Created, Touching, Watched, ScanPlaced;
    assert created == [] || spent == [];
    assert created + [] == created && [] + spent == spent;
  }

  lemma TouchEither(p: Placed, prev: Resolver, s: Setting, id: OutPoint, created: Updates, spent: Updates)
    requires created == Touching(Created(p.tx, |p.tx.outputs|, At(s, p.height, p.time)), id)
    requires spent == if p.first then [] else Touching(Spent(p.tx, |p.tx.inputs|, prev, At(s, p.height, p.time)), id)
    ensures Touching(ScanPlaced(p, prev, s), id) == created + spent
  {
    var here := At(s, p.height, p.time);
    var rest := if p.first then [] else Spent(p.tx, |p.tx.inputs|, prev, here);
    TouchingConcat(Created(p.tx, |p.tx.outputs|, here), rest, id);
  }

  /** Being watched does not depend on the block. */
  lemma WatchedAnywhere(p: Placed, prev: Resolver, s: Setting, id: OutPoint)
    ensures
      var here := At(s, p.height, p.time);
      && (Watched(id, prev, here) <==> Watched(id, prev, s))
      && (forall u :: SpendFrom(u, id, prev, here) ==> SpendFrom(u, id, prev, s))
      && (forall u :: IsCreation(u, id, prev, here) ==> IsCreation(u, id, prev, s))
  {
  }

  ghost predicate IsCreation(u: UtxoUpdate, id: OutPoint, prev: Resolver, s: Setting) {
    && !u.IsSpend() && u.Id() == id && Watched(id, prev, s)
    && u.address == s.addressOf(prev(id.txid, id.vout).value.script).value
  }

  ghost predicate MadeIn(ps: seq<Placed>, id: OutPoint) {
    exists i :: 0 <= i < |ps| && Makes(ps[i], id)
  }

  ghost predicate UsedIn(ps: seq<Placed>, id: OutPoint) {
    exists i :: 0 <= i < |ps| && Uses(ps[i], id)
  }

  /** Every update is what it claims to be, and a watched outpoint has the updates the chain calls for. */
  ghost predicate Explained(life: Updates, ps: seq<Placed>, prev: Resolver, s: Setting, id: OutPoint) {
    && (forall i :: 0 <= i < |life| ==>
          if life[i].IsSpend() then SpendFrom(life[i], id, prev, s) else IsCreation(life[i], id, prev, s))
    && (HasCreation(life) <==> Watched(id, prev, s) && MadeIn(ps, id))
    && (HasSpend(life) <==> Watched(id, prev, s) && UsedIn(ps, id))
  }

  ghost predicate HasCreation(life: Updates) {
    exists i :: 0 <= i < |life| && !life[i].IsSpend()
  }

  ghost predicate HasSpend(life: Updates) {
    exists i :: 0 <= i < |life| && life[i].IsSpend()
  }

  lemma LastPlaced(ps: seq<Placed>, prev: Resolver, id: OutPoint)
    requires ValidChain(ps, prev) && ps != []
    ensures ValidChain(ps[..|ps| - 1], prev)
    ensures Makes(ps[|ps| - 1], id) ==> !MadeIn(ps[..|ps| - 1], id) && !UsedIn(ps[..|ps| - 1], id)
    ensures Uses(ps[|ps| - 1], id) ==> !UsedIn(ps[..|ps| - 1], id)
    ensures MadeIn(ps[..|ps| - 1], id) || Makes(ps[|ps| - 1], id) <==> MadeIn(ps, id)
    ensures UsedIn(ps[..|ps| - 1], id) || Uses(ps[|ps| - 1], id) <==> UsedIn(ps, id)
  {
    var n := |ps| - 1;
    var front := ps[..n];
    forall i | 0 <= i < n ensures front[i] == ps[i] {
    }
  }

  /** Nothing before the creation, one spend after it, at one address. */
  lemma {:induction false} ChainLife(ps: seq<Placed>, prev: Resolver, s: Setting, id: OutPoint)
    requires ValidChain(ps, prev)
    ensures LifeOk(Touching(ScanAll(ps, prev, s), id))
    ensures Explained(Touching(ScanAll(ps, prev, s), id), ps, prev, s, id)
  {
    if ps != [] {
      var n := |ps| - 1;
      var front, t := Touching(ScanAll(ps[..n], prev, s), id), Touching(ScanPlaced(ps[n], prev, s), id);
      LastPlaced(ps, prev, id);
      ChainLife(ps[..n], prev, s, id);
      TouchPlaced(ps[n], prev, s, id);
      assert Touching(ScanAll(ps, prev, s), id) == front + t by {
        TouchingConcat(ScanAll(ps[..n], prev, s), ScanPlaced(ps[n], prev, s), id);
      }
      JoinLives(front, t, ps, prev, s, id);
    }
  }

  lemma HasInEither(a: Updates, b: Updates)
    ensures HasCreation(a + b) <==> HasCreation(a) || HasCreation(b)
    ensures HasSpend(a + b) <==> HasSpend(a) || HasSpend(b)
  {
    var ab := a + b;
    forall i | 0 <= i < |a| ensures ab[i] == a[i] {
    }
    forall i | 0 <= i < |b| ensures ab[|a| + i] == b[i] {
    }
    forall i | |a| <= i < |ab| ensures ab[i] == b[i - |a|] {
    }
  }

  lemma HasSomething(life: Updates)
    ensures life != [] ==> HasCreation(life) || HasSpend(life)
    ensures LifeOk(life) && !HasSpend(life) ==> |life| <= 1
  {
    if life != [] {
      assert life[0].IsSpend() || !life[0].IsSpend();
    }
  }

  /** The case analysis of one more transaction, with what the chain rules leave possible. */
  lemma JoinLives(front: Updates, t: Updates, ps: seq<Placed>, prev: Resolver, s: Setting, id: OutPoint)
    requires ps != [] && LifeOk(front) && Explained(front, ps[..|ps| - 1], prev, s, id) && |t| <= 1
    requires t != [] && !t[0].IsSpend() ==> IsCreation(t[0], id, prev, s)
    requires t != [] && t[0].IsSpend() ==> SpendFrom(t[0], id, prev, s)
    requires t != [] && !t[0].IsSpend() <==> Watched(id, prev, s) && Makes(ps[|ps| - 1], id)
    requires t != [] && t[0].IsSpend() <==> Watched(id, prev, s) && Uses(ps[|ps| - 1], id)
    requires Makes(ps[|ps| - 1], id) ==> !MadeIn(ps[..|ps| - 1], id) && !UsedIn(ps[..|ps| - 1], id)
    requires Uses(ps[|ps| - 1], id) ==> !UsedIn(ps[..|ps| - 1], id)
    requires MadeIn(ps[..|ps| - 1], id) || Makes(ps[|ps| - 1], id) <==> MadeIn(ps, id)
    requires UsedIn(ps[..|ps| - 1], id) || Uses(ps[|ps| - 1], id) <==> UsedIn(ps, id)
    ensures LifeOk(front + t) && Explained(front + t, ps, prev, s, id)
  {
    hide MadeIn, UsedIn, Makes, Uses;
    var life := front + t;
    HasInEither(front, t);
    HasSomething(front);
    if t == [] {
      assert life == front;
    } else if !t[0].IsSpend() {
      assert !HasCreation(front) && !HasSpend(front);
      assert front == [];
    } else {
      assert !HasSpend(front);
      assert |front| <= 1;
    }
  }

  // ---- blocks ----

  lemma {:induction false} ScannedLength(chain: seq<Block>, time: int -> int, prev: Resolver, s: Setting)
    ensures |Scanned(chain, time, prev, s)| == |chain|
    ensures forall k :: 0 <= k < |chain| ==> Scanned(chain, time, prev, s)[k] == PlainScan(chain[k], 0, prev, At(s, k, time(k)))
  {
    hide PlainScan;
    if chain != [] {
      ScannedLength(chain[..|chain| - 1], time, prev, s);
    }
  }

  /** Every update of a scanned block carries the block's height in the columns that name one. */
  lemma {:induction false} ScanIsStamped(txs: Block, start: nat, prev: Resolver, s: Setting, u: UtxoUpdate)
    requires u in PlainScan(txs, start, prev, s)
    ensures StampedAt(u, s.height)
  {
    var n := |txs| - 1;
    if u in PlainScan(txs[..n], start, prev, s) {
      ScanIsStamped(txs[..n], start, prev, s, u);
    } else if u in Created(txs[n], |txs[n].outputs|, s) {
      CreatedStamped(txs[n], |txs[n].outputs|, s, u);
    } else {
      SpentStamped(txs[n], |txs[n].inputs|, prev, s, u);
    }
  }

  lemma {:induction false} CreatedStamped(tx: Transaction, n: nat, s: Setting, u: UtxoUpdate)
    requires n <= |tx.outputs| && u in Created(tx, n, s)
    ensures StampedAt(u, s.height)
  {
    if u in Created(tx, n - 1, s) {
      CreatedStamped(tx, n - 1, s, u);
    }
  }

  lemma {:induction false} SpentStamped(tx: Transaction, n: nat, prev: Resolver, s: Setting, u: UtxoUpdate)
    requires n <= |tx.inputs| && u in Spent(tx, n, prev, s)
    ensures StampedAt(u, s.height)
  {
    if u in Spent(tx, n - 1, prev, s) {
      SpentStamped(tx, n - 1, prev, s, u);
    }
  }

  /** The scan of a valid chain is a well-formed history. */
  lemma ScanIsWellFormed(chain: seq<Block>, time: int -> int, prev: Resolver, s: Setting)
    requires ValidChain(Flatten(chain, time), prev)
    ensures WellFormed(Scanned(chain, time, prev, s))
  {
    var hist := Scanned(chain, time, prev, s);
    ScannedLength(chain, time, prev, s);
    forall k, u | 0 <= k < |hist| && u in hist[k] ensures StampedAt(u, k) {
      ScanIsStamped(chain[k], 0, prev, At(s, k, time(k)), u);
    }
    forall id ensures LifeOk(Life(hist, id)) {
      LifeOfScan(chain, time, prev, s, id);
      ChainLife(Flatten(chain, time), prev, s, id);
    }
  }

  /** At height `q`, the chain has paid this output to `address` and nobody has spent it. */
  ghost predicate Unspent(ps: seq<Placed>, address: string, id: OutPoint, prev: Resolver, s: Setting) {
    && MadeIn(ps, id) && !UsedIn(ps, id)
    && id.vout >= 0 && prev(id.txid, id.vout).Some? && s.addressOf(prev(id.txid, id.vout).value.script) == Some(address)
  }

  lemma {:induction false} ScannedPrefix(chain: seq<Block>, n: nat, time: int -> int, prev: Resolver, s: Setting)
    requires n <= |chain|
    ensures |Scanned(chain, time, prev, s)| == |chain|
    ensures Scanned(chain, time, prev, s)[..n] == Scanned(chain[..n], time, prev, s)
    ensures exists rest :: Flatten(chain, time) == Flatten(chain[..n], time) + rest
  {
    ScannedLength(chain, time, prev, s);
    ScannedLength(chain[..n], time, prev, s);
    FlattenPrefix(chain, n, time);
  }

  lemma {:induction false} FlattenPrefix(chain: seq<Block>, n: nat, time: int -> int)
    requires n <= |chain|
    ensures exists rest :: Flatten(chain, time) == Flatten(chain[..n], time) + rest
  {
    if n == |chain| {
      assert chain[..n] == chain && Flatten(chain, time) == Flatten(chain[..n], time) + [];
    } else {
      var m := |chain| - 1;
      assert chain[..m][..n] == chain[..n];
      FlattenPrefix(chain[..m], n, time);
      var rest :| Flatten(chain[..m], time) == Flatten(chain[..n], time) + rest;
      assert Flatten(chain, time) == Flatten(chain[..n], time) + (rest + Lay(chain[m], m, time(m)));
    }
  }

  lemma ValidPrefix(front: seq<Placed>, rest: seq<Placed>, prev: Resolver)
    requires ValidChain(front + rest, prev)
    ensures ValidChain(front, prev)
  {
    var ps := front + rest;
    assert forall i :: 0 <= i < |front| ==> ps[i] == front[i];
  }

  /**
   * Scan a valid chain with a fixed watch set, apply every block, ask at any height for any watched
   * address: the answer is exactly the outputs that the chain, up to that height, has
   * paid to the address and not spent, as long as no block creates and spends one watched output.
   */
  lemma SpendableIsUtxoSet(chain: seq<Block>, time: int -> int, prev: Resolver, s: Setting,
                           q: int, address: string, id: OutPoint)
    requires ValidChain(Flatten(chain, time), prev) && 0 <= q < |chain| && address in s.watched
    requires NoSameBlockSpend(Scanned(chain, time, prev, s))
    ensures id in SqliteTable.Spendable(SqliteTable.Replay(Scanned(chain, time, prev, s)), q, address)
       <==> Unspent(Flatten(chain[..q + 1], time), address, id, prev, s)
  {
    ScanIsWellFormed(chain, time, prev, s);
    ScannedLength(chain, time, prev, s);
    SqliteLaws.SpendableMatchesChain(Scanned(chain, time, prev, s), q, address, id);
    ChainUnspentIsUnspent(chain, time, prev, s, q, address, id);
  }

  /** The CSV backend gives the same answer without that condition. */
  lemma CsvSpendableIsUtxoSet(chain: seq<Block>, time: int -> int, prev: Resolver, s: Setting,
                              q: int, address: string, id: OutPoint)
    requires ValidChain(Flatten(chain, time), prev) && 0 <= q < |chain| && address in s.watched
    ensures id in CsvTable.Spendable(CsvTable.Replay(Scanned(chain, time, prev, s)), q, address)
       <==> Unspent(Flatten(chain[..q + 1], time), address, id, prev, s)
  {
    ScanIsWellFormed(chain, time, prev, s);
    ScannedLength(chain, time, prev, s);
    CsvLaws.SpendableMatchesChain(Scanned(chain, time, prev, s), q, address, id);
    ChainUnspentIsUnspent(chain, time, prev, s, q, address, id);
  }

  /** The row is output `id` of a transaction in block `k`, with that output's columns. */
  ghost predicate IsOutputOf(row: UtxoUpdate, id: OutPoint, chain: seq<Block>, k: nat, time: int -> int, s: Setting) {
    && k < |chain| && row.Id() == id && row.publicKey == None
    && exists i :: 0 <= i < |chain[k]| && chain[k][i].txid == id.txid && 0 <= id.vout < |chain[k][i].outputs|
         && ScanLaws.DescribesOutput(row, chain[k][i].outputs[id.vout], At(s, k, time(k)))
  }

  lemma CreationIsOutput(chain: seq<Block>, time: int -> int, prev: Resolver, s: Setting, k: nat, c: UtxoUpdate)
    requires |Scanned(chain, time, prev, s)| == |chain| && k < |chain|
    requires c in Scanned(chain, time, prev, s)[k] && !c.IsSpend()
    ensures IsOutputOf(c, c.Id(), chain, k, time, s)
  {
    ScannedLength(chain, time, prev, s);
    var here := At(s, k, time(k));
    var us := PlainScan(chain[k], 0, prev, here);
    var os := ScanLaws.ScanIsExact(chain[k], prev, here);
    var n :| 0 <= n < |us| && us[n] == c;
    var o := os[n];
    assert ScanLaws.Reported(o, chain[k], prev, here) && ScanLaws.Describes(c, o, chain[k], prev, here);
    assert chain[k][o.tx].txid == c.txid;
  }

  /** Every listed row is an output of the chain, with that output's value, script and block. */
  lemma ListedRowIsOutput(chain: seq<Block>, time: int -> int, prev: Resolver, s: Setting,
                          q: int, address: string, id: OutPoint) returns (k: nat)
    requires ValidChain(Flatten(chain, time), prev) && 0 <= q < |chain|
    requires NoSameBlockSpend(Scanned(chain, time, prev, s))
    requires id in SqliteTable.Spendable(SqliteTable.Replay(Scanned(chain, time, prev, s)), q, address)
    ensures k <= q && IsOutputOf(SqliteTable.Replay(Scanned(chain, time, prev, s))[id], id, chain, k, time, s)
  {
    var hist := Scanned(chain, time, prev, s);
    ScanIsWellFormed(chain, time, prev, s);
    ScannedLength(chain, time, prev, s);
    SqliteLaws.SpendableMatchesChain(hist, q, address, id);
    var c;
    k, c := SqliteLaws.RowColumns(hist, id);
    NotSpentFirst(hist, q, address, k, c);
    CreationIsOutput(chain, time, prev, s, k, c);
    OutputOfCoin(SqliteTable.Replay(hist)[id], c, id, chain, k, time, s);
  }

  /** The same for the CSV backend. */
  lemma CsvListedEntryIsOutput(chain: seq<Block>, time: int -> int, prev: Resolver, s: Setting,
                               q: int, address: string, id: OutPoint) returns (k: nat)
    requires ValidChain(Flatten(chain, time), prev) && 0 <= q < |chain|
    requires id in CsvTable.Spendable(CsvTable.Replay(Scanned(chain, time, prev, s)), q, address)
    ensures k <= q
    ensures IsOutputOf(CsvTable.BucketOf(CsvTable.Replay(Scanned(chain, time, prev, s)), address)[id], id, chain, k, time, s)
  {
    var hist := Scanned(chain, time, prev, s);
    ScanIsWellFormed(chain, time, prev, s);
    ScannedLength(chain, time, prev, s);
    CsvLaws.SpendableMatchesChain(hist, q, address, id);
    var c;
    k, c := CsvLaws.EntryColumns(hist, address, id);
    NotSpentFirst(hist, q, address, k, c);
    CreationIsOutput(chain, time, prev, s, k, c);
    OutputOfCoin(CsvTable.BucketOf(CsvTable.Replay(hist), address)[id], c, id, chain, k, time, s);
  }

  lemma NotSpentFirst(hist: seq<Updates>, q: int, address: string, k: nat, c: UtxoUpdate)
    requires FirstMention(hist, k, c) && UnspentOnChain(hist, q, address, c.Id())
    ensures k <= q && !c.IsSpend()
  {
  }

  lemma OutputOfCoin(row: UtxoUpdate, c: UtxoUpdate, id: OutPoint, chain: seq<Block>, k: nat, time: int -> int, s: Setting)
    requires SameCoin(row, c) && c.Id() == id && IsOutputOf(c, id, chain, k, time, s)
    ensures IsOutputOf(row, id, chain, k, time, s)
  {
  }

  /**
   * From the node to the answer. Let the node stand still on the blocks that the scan of a valid
   * chain gives: once the cycles of the convergence theorem are done, whatever the window held
   * before, a query at any height lists exactly the chain's unspent outputs, each with its columns.
   */
  lemma ConvergedStoreIsUtxoSet(node: ChainLog.Log, limit: int, last: int, store: SqliteDatasource.State,
                                log: ChainLog.Log, heightOf: string -> int,
                                chain: seq<Block>, time: int -> int, prev: Resolver, s: Setting,
                                q: int, address: string, id: OutPoint)
    requires Convergence.Startable(node, limit, last, store, log, heightOf)
    requires ChainLog.UpdatesOf(node) == Scanned(chain, time, prev, s)
    requires ValidChain(Flatten(chain, time), prev) && 0 <= q < |chain| && address in s.watched
    requires NoSameBlockSpend(Scanned(chain, time, prev, s))
    ensures
      var n := Convergence.CyclesNeeded(node, limit, last, store);
      && n > 0
      && (id in SqliteTable.Spendable(Indexer.Iterate(node, limit, last, store, n).1.utxo, q, address)
          <==> Unspent(Flatten(chain[..q + 1], time), address, id, prev, s))
      && (id in SqliteTable.Spendable(Indexer.Iterate(node, limit, last, store, n).1.utxo, q, address) ==>
            exists k: nat :: k <= q
              && IsOutputOf(Indexer.Iterate(node, limit, last, store, n).1.utxo[id], id, chain, k, time, s))
  {
    Convergence.Converges(node, limit, last, store, log, heightOf);
    SpendableIsUtxoSet(chain, time, prev, s, q, address, id);
    if id in SqliteTable.Spendable(SqliteTable.Replay(Scanned(chain, time, prev, s)), q, address) {
      var k := ListedRowIsOutput(chain, time, prev, s, q, address, id);
    }
  }

  lemma ChainUnspentIsUnspent(chain: seq<Block>, time: int -> int, prev: Resolver, s: Setting,
                              q: int, address: string, id: OutPoint)
    requires ValidChain(Flatten(chain, time), prev) && 0 <= q < |chain| && address in s.watched
    requires Stamped(Scanned(chain, time, prev, s), 0) && |Scanned(chain, time, prev, s)| == |chain|
    ensures UnspentOnChain(Scanned(chain, time, prev, s), q, address, id)
       <==> Unspent(Flatten(chain[..q + 1], time), address, id, prev, s)
  {
    var hist, past := Scanned(chain, time, prev, s), Flatten(chain[..q + 1], time);
    UnspentByLife(hist, q, address, id);
    ScannedPrefix(chain, q + 1, time, prev, s);
    LifeOfScan(chain[..q + 1], time, prev, s, id);
    var rest :| Flatten(chain, time) == past + rest;
    ValidPrefix(past, rest, prev);
    ChainLife(past, prev, s, id);
    LifeSaysUnspent(Life(hist[..q + 1], id), past, address, id, prev, s);
  }

  lemma LifeSaysUnspent(life: Updates, ps: seq<Placed>, address: string, id: OutPoint, prev: Resolver, s: Setting)
    requires Explained(life, ps, prev, s, id) && address in s.watched
    ensures (exists c :: c in life && !c.IsSpend() && c.address == address) && (forall u :: u in life ==> !u.IsSpend())
       <==> Unspent(ps, address, id, prev, s)
  {
    hide MadeIn, UsedIn;
    assert HasSpend(life) <==> exists u :: u in life && u.IsSpend();
    if HasCreation(life) {
      var i :| 0 <= i < |life| && !life[i].IsSpend();
      assert life[i] in life && IsCreation(life[i], id, prev, s);
    }
  }
}
