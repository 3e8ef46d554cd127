/**
 * Seen from outside, storage is a log of accepted blocks: a block update appends to it, a reorg
 * event cuts it off. `Holds` ties the two tables to such a log.
 */
module ChainLog {
  import opened NetworkShared
  import opened History
  import opened StorageErrors
  import opened SqliteTable
  import opened SqliteDatasource
  import opened Database
  import SqliteLaws

  type Log = seq<BlockUpdate>

  function UpdatesOf(log: Log): seq<Updates> {
    seq(|log|, i requires 0 <= i < |log| => log[i].utxoUpdates)
  }

  /**
   * A chain of blocks from height 0. A block hash commits to its height, which is all that is
   * asked of hashes: `heightOf` names the height of each.
   */
  ghost predicate Chain(log: Log, heightOf: string -> int) {
    && (forall k :: 0 <= k < |log| ==>
          log[k].height == k && heightOf(log[k].hash) == k && log[k].hash != "" && AllAcceptable(log[k].utxoUpdates))
    && WellFormed(UpdatesOf(log))
  }

  /** The main-chain rows are the first `n` blocks of `chain`; rows off the main chain are arbitrary. */
  ghost predicate BlocksHold(blocks: BlockTable, chain: Log, n: nat, heightOf: string -> int) {
    && n <= |chain|
    && (forall h :: h in blocks ==> heightOf(blocks[h].hash) == h)
    && (forall h :: h in blocks && blocks[h].isMainChain <==> 0 <= h < n)
    && (forall h :: 0 <= h < n ==>
          h in blocks && blocks[h].hash == chain[h].hash && blocks[h].timestamp == chain[h].timestamp)
  }

  ghost predicate Holds(s: State, log: Log, heightOf: string -> int) {
    BlocksHold(s.blocks, log, |log|, heightOf) && s.utxo == Replay(UpdatesOf(log))
  }

  lemma UpdatesOfConcat(a: Log, b: Log)
    ensures UpdatesOf(a + b) == UpdatesOf(a) + UpdatesOf(b)
  {
  }

  lemma UpdatesOfPrefix(log: Log, n: nat)
    requires n <= |log|
    ensures UpdatesOf(log[..n]) == UpdatesOf(log)[..n]
  {
  }

  lemma ChainPrefix(log: Log, n: nat, heightOf: string -> int)
    requires Chain(log, heightOf) && n <= |log|
    ensures Chain(log[..n], heightOf)
  {
    UpdatesOfPrefix(log, n);
    WellFormedPrefix(UpdatesOf(log), n);
  }

  lemma LatestOf(blocks: BlockTable, chain: Log, n: nat, heightOf: string -> int)
    requires BlocksHold(blocks, chain, n, heightOf)
    ensures LatestBlock(blocks) == Max(n - 1, 0)
  {
    var heights := MainChainHeights(blocks);
    assert forall h :: h in heights <==> 0 <= h < n;
    if n > 0 {
      assert n - 1 in heights;
    } else {
      assert heights == {};
    }
  }

  /** Storing block `h` of the chain, new or again, makes the main chain reach at least `h`. */
  lemma ReceiveKeepsBlocks(s: State, chain: Log, n: nat, h: nat, heightOf: string -> int)
    requires Chain(chain, heightOf) && BlocksHold(s.blocks, chain, n, heightOf) && h <= n && h < |chain|
    ensures BlocksHold(ReceiveBlock(s, chain[h]).blocks, chain, Max(n, h + 1), heightOf)
  {
  }

  /** Storage after the blocks `bs`, one message each. */
  function ReceiveBlocks(s: State, bs: Log): State {
    if bs == [] then s else ReceiveBlock(ReceiveBlocks(s, bs[..|bs| - 1]), bs[|bs| - 1])
  }

  lemma ReceiveLast(s: State, chain: Log, from: nat, upto: nat)
    requires from < upto <= |chain|
    ensures ReceiveBlocks(s, chain[from..upto]) == ReceiveBlock(ReceiveBlocks(s, chain[from..upto - 1]), chain[upto - 1])
  {
    var bs := chain[from..upto];
    assert bs[..|bs| - 1] == chain[from..upto - 1] && bs[|bs| - 1] == chain[upto - 1];
  }

  lemma {:induction false} ReceivedHashes(s: State, from: nat, chain: Log, upto: nat, n: nat, heightOf: string -> int)
    requires Chain(chain, heightOf) && from <= upto <= |chain| && from <= n
    requires BlocksHold(s.blocks, chain, n, heightOf)
    ensures BlocksHold(ReceiveBlocks(s, chain[from..upto]).blocks, chain, Max(n, upto), heightOf)
  {
    hide Chain, BlocksHold, ReceiveBlock;
    if from < upto {
      ReceivedHashes(s, from, chain, upto - 1, n, heightOf);
      ReceiveLast(s, chain, from, upto);
      ReceiveKeepsBlocks(ReceiveBlocks(s, chain[from..upto - 1]), chain, Max(n, upto - 1), upto - 1, heightOf);
    } else {
      assert chain[from..upto] == [];
    }
  }

  lemma {:induction false} ReceivedUpdates(s: State, from: nat, chain: Log, upto: nat)
    requires from <= upto <= |chain| && forall k :: 0 <= k < |chain| ==> Accepts(chain[k])
    ensures ReceiveBlocks(s, chain[from..upto]).utxo == ApplyBlocks(s.utxo, UpdatesOf(chain[from..upto]))
  {
    hide StoreBlockRow, ApplyBlock;
    if from == upto {
      assert chain[from..upto] == [] && UpdatesOf([]) == [];
    } else {
      ReceivedUpdates(s, from, chain, upto - 1);
      ReceiveLast(s, chain, from, upto);
      var us := UpdatesOf(chain[from..upto]);
      assert us[..|us| - 1] == UpdatesOf(chain[from..upto - 1]) && us[|us| - 1] == chain[upto - 1].utxoUpdates;
    }
  }

  /**
   * Receiving blocks `from`, ..., `upto - 1` of a chain leaves storage with exactly its first
   * `upto` blocks, also when an earlier attempt had already delivered some of them.
   */
  lemma ReceivingReaches(s: State, chain: Log, from: nat, stored: nat, upto: nat, heightOf: string -> int)
    requires from <= stored <= upto <= |chain|
    requires Chain(chain, heightOf) && Holds(s, chain[..stored], heightOf)
    ensures Holds(ReceiveBlocks(s, chain[from..upto]), chain[..upto], heightOf)
  {
    ReceivedHashes(s, from, chain, upto, stored, heightOf);
    ReceivedUpdates(s, from, chain, upto);
    ReceivingIsReplay(chain, from, stored, upto);
  }

  lemma ReceivingIsReplay(chain: Log, from: nat, stored: nat, upto: nat)
    requires from <= stored <= upto <= |chain|
    ensures ApplyBlocks(Replay(UpdatesOf(chain[..stored])), UpdatesOf(chain[from..upto])) == Replay(UpdatesOf(chain[..upto]))
  {
    var base, done, rest := UpdatesOf(chain[..from]), UpdatesOf(chain[from..stored]), UpdatesOf(chain[stored..upto]);
    assert UpdatesOf(chain[..stored]) == base + done;
    assert UpdatesOf(chain[from..upto]) == done + rest;
    assert UpdatesOf(chain[..upto]) == base + (done + rest);
    ApplyBlocksConcat(map[], base, done);
    ApplyBlocksConcat(map[], base, done + rest);
    SqliteLaws.RetryIsHarmless(Replay(base), done, rest);
  }

  lemma ReceivingAppends(s: State, log: Log, bs: Log, heightOf: string -> int)
    requires Chain(log + bs, heightOf) && Holds(s, log, heightOf)
    ensures Holds(ReceiveBlocks(s, bs), log + bs, heightOf)
  {
    var chain := log + bs;
    assert chain[..|log|] == log && chain[|log|..|chain|] == bs && chain[..|chain|] == chain;
    ReceivingReaches(s, chain, |log|, |log|, |chain|, heightOf);
  }

  lemma ReceivingOneAppends(s: State, log: Log, b: BlockUpdate, heightOf: string -> int)
    requires Chain(log + [b], heightOf) && Holds(s, log, heightOf)
    ensures Holds(ReceiveBlock(s, b), log + [b], heightOf)
  {
    assert [b][..0] == [];
    ReceivingAppends(s, log, [b], heightOf);
    assert ReceiveBlocks(s, [b]) == ReceiveBlock(s, b);
  }

  /** The log that is left when storage with log `log` is asked to revert. */
  function LogAfterRevert(log: Log, requested: int): Log
    requires requested < |log| || |log| <= 1
  {
    if |log| <= 1 then log else log[..EffectiveRevert(requested, |log| - 1) + 1]
  }

  /** A reorg event cuts the log at the height the clamp lets through. */
  lemma RevertingCuts(s: State, log: Log, requested: int, heightOf: string -> int)
    requires Chain(log, heightOf) && Holds(s, log, heightOf) && (requested < |log| || |log| <= 1)
    ensures Holds(RevertTo(s, requested), LogAfterRevert(log, requested), heightOf)
  {
    LatestOf(s.blocks, log, |log|, heightOf);
    if |log| > 1 {
      var e := EffectiveRevert(requested, |log| - 1);
      UpdatesOfPrefix(log, e + 1);
      SqliteLaws.RevertRestores(UpdatesOf(log), e);
    }
  }

  lemma FinalityKeeps(s: State, log: Log, currentHeight: int, heightOf: string -> int)
    requires Holds(s, log, heightOf)
    ensures Holds(UpdateFinality(s, currentHeight), log, heightOf)
  {
  }

  /** The hash answers of such a store: the log's hashes, and the empty hash elsewhere. */
  lemma HashAnswers(s: State, log: Log, heightOf: string -> int, h: int)
    requires Holds(s, log, heightOf)
    ensures HashAnswer(s, h) == if 0 <= h < |log| then log[h].hash else ""
  {
  }

  // ---- the clamp ----

  /** A revert request reaches its height, or six below the latest block if that is higher. */
  lemma ClampExact(requested: int, latest: int)
    ensures requested >= latest - 6 && requested >= 0 ==> EffectiveRevert(requested, latest) == requested
    ensures requested < latest - 6 && latest >= 6 ==> EffectiveRevert(requested, latest) == latest - 6
    ensures requested < 0 && latest < 6 ==> EffectiveRevert(requested, latest) == 0
  {
  }

  /**
   * Both services compute the window from their own height. The indexer's fork point for a node
   * of height `count` is never below `max(count - 5, 0) - 1`. If storage is not ahead of the node,
   * it goes to exactly the fork point unless that is -1: block 0 is never taken back.
   */
  lemma ClampsAgree(count: int, latest: int, forkPoint: int)
    requires 0 <= latest <= count
    requires forkPoint >= Max(count - FINALITY_CONFIRMATIONS + 1, 0) - 1
    ensures EffectiveRevert(forkPoint, latest) == forkPoint <==> forkPoint >= 0
  {
  }

  /** Whatever is requested, rows and main-chain blocks more than five below the latest block survive. */
  lemma RevertKeepsFinal(s: State, requested: int, h: int)
    requires h <= Max(LatestBlock(s.blocks) - FINALITY_CONFIRMATIONS, 0)
    ensures h in s.blocks ==> h in RevertTo(s, requested).blocks && RevertTo(s, requested).blocks[h] == s.blocks[h]
    ensures forall id :: id in s.utxo && s.utxo[id].blockHeight <= h ==>
      && id in RevertTo(s, requested).utxo
      && RevertTo(s, requested).utxo[id].Unspent() == s.utxo[id].Unspent()
      && forall q :: q <= h ==> RevertTo(s, requested).utxo[id].SpendableAt(q) == s.utxo[id].SpendableAt(q)
  {
  }

  /** A main-chain block can be taken off by some request exactly when it is less than six below the latest. */
  lemma RemovableIff(s: State, log: Log, heightOf: string -> int, h: int)
    requires Holds(s, log, heightOf) && 0 <= h < |log|
    ensures (exists requested :: !RevertTo(s, requested).blocks[h].isMainChain)
       <==> h > Max(|log| - 1 - FINALITY_CONFIRMATIONS, 0)
  {
    LatestOf(s.blocks, log, |log|, heightOf);
    if h > Max(|log| - 1 - FINALITY_CONFIRMATIONS, 0) {
      assert !RevertTo(s, 0).blocks[h].isMainChain;
    } else {
      forall requested ensures RevertTo(s, requested).blocks[h].isMainChain {
        RevertKeepsFinal(s, requested, h);
      }
    }
  }

  /**
   * The final flag does not protect a block. The node's own height `count` decides what is flagged,
   * storage's latest height what can be removed, so while storage is behind, even its tip is both.
   */
  lemma FlaggedYetReverted(s: State, log: Log, heightOf: string -> int, h: int, count: int)
    requires Holds(s, log, heightOf) && 0 <= h < |log|
    ensures
      var flagged := UpdateFinality(s, count);
      (flagged.blocks[h].isFinal && exists requested :: !RevertTo(flagged, requested).blocks[h].isMainChain)
      <==>
      && (s.blocks[h].isFinal || (count > FINALITY_CONFIRMATIONS - 1 && h <= count - FINALITY_CONFIRMATIONS + 1))
      && h > Max(|log| - 1 - FINALITY_CONFIRMATIONS, 0)
  {
    FinalityKeeps(s, log, count, heightOf);
    RemovableIff(UpdateFinality(s, count), log, heightOf, h);
  }
}
