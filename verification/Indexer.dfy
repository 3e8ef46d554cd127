/**
 * The indexer's cycle. The node and the socket are oracles asked at a tick: every call may fail,
 * and two calls may see two different chains.
 */
module Indexer {
  import opened Wrappers
  import opened NetworkShared
  import opened SqliteDatasource
  import opened Database
  import opened ChainLog
  import opened Protocol

  datatype BlockData = BlockData(height: int, timestamp: int, utxoUpdates: seq<UtxoUpdate>)

  /** `ok` is what the sender sees; a block update may be handled although its ack is lost. */
  datatype Link = Link(ok: bool, delivered: bool)

  datatype World = World(
    count: nat -> Option<nat>,
    hash: (nat, int) -> Option<string>,
    block: (nat, string) -> Option<BlockData>,
    link: nat -> Link)

  /** A block hash names one block, of one height, whenever the node is asked. */
  ghost predicate Honest(w: World, heightOf: string -> int) {
    && (forall t, h :: w.hash(t, h).Some? ==> heightOf(w.hash(t, h).value) == h)
    && (forall t, x :: w.block(t, x).Some? ==> w.block(t, x).value.height == heightOf(x))
  }

  /** The node always shows the chain `node`, and nothing fails. */
  ghost predicate Stable(w: World, node: Log) {
    && node != [] && (forall t :: w.count(t) == Some(|node| - 1) && w.link(t).ok)
    && (forall h :: 0 <= h < |node| ==> node[h].height == h)
    && (forall t, h :: 0 <= h < |node| ==> w.hash(t, h) == Some(node[h].hash))
    && (forall t, h :: 0 <= h < |node| ==>
          w.block(t, node[h].hash) == Some(BlockData(h, node[h].timestamp, node[h].utxoUpdates)))
  }

  /** The node's height never goes down. */
  ghost predicate Growing(w: World) {
    forall t: nat, u: nat :: t <= u && w.count(t).Some? && w.count(u).Some? ==> w.count(t).value <= w.count(u).value
  }

  /** From tick `t` on the node is at `height` or above. */
  ghost predicate AtLeast(w: World, t: nat, height: int) {
    forall u: nat :: t <= u && w.count(u).Some? ==> height <= w.count(u).value
  }

  lemma LaterCounts(w: World, from: nat, t: nat, upto: nat, seen: int)
    requires Growing(w) && AtLeast(w, from, seen) && from <= t <= upto && w.count(t).Some?
    ensures seen <= w.count(t).value && AtLeast(w, upto, w.count(t).value)
  {
  }

  /** The least height in `[lo, hi]` where storage and the node differ, or `hi + 1`. */
  function FirstMismatch(node: Log, s: State, lo: int, hi: int): (h: int)
    requires 0 <= lo <= hi + 1 <= |node|
    ensures lo <= h <= hi + 1
    ensures h <= hi ==> node[h].hash != HashAnswer(s, h)
    ensures forall k :: lo <= k < h ==> node[k].hash == HashAnswer(s, k)
    decreases hi - lo
  {
    if lo > hi || node[lo].hash != HashAnswer(s, lo) then lo else FirstMismatch(node, s, lo + 1, hi)
  }

  /** The greatest height in `[minHeight, below)` where storage and the node agree, or `minHeight - 1`. */
  function LastMatch(node: Log, s: State, below: int, minHeight: int): (h: int)
    requires 0 <= minHeight <= below <= |node|
    ensures minHeight - 1 <= h < below
    ensures h >= minHeight ==> node[h].hash == HashAnswer(s, h)
    ensures forall k :: h < k < below ==> node[k].hash != HashAnswer(s, k)
    decreases below - minHeight
  {
    if below == minHeight || node[below - 1].hash == HashAnswer(s, below - 1) then below - 1
    else LastMatch(node, s, below - 1, minHeight)
  }

  /** The first processed height in the window at which the stored block differs, or `last + 1`. */
  function Divergence(node: Log, last: int, s: State): int
    requires node != [] && -1 <= last < |node|
  {
    var lo := WindowStart(|node| - 1);
    if lo <= last then FirstMismatch(node, s, lo, last) else last + 1
  }

  function NextHeight(node: Log, limit: int, last: int): int {
    last + Min(|node| - 1 - last, limit)
  }

  /** The batch of a cycle without a reorg. */
  function FullBatch(node: Log, limit: int, last: int): Step
    requires -1 <= last < |node| - 1 && limit >= 1
  {
    Batch(|node| - 1, node[last + 1..NextHeight(node, limit, last) + 1], |node| - 1 - FINALITY_CONFIRMATIONS + 1 > 0)
  }

  /** The step one cycle takes against a stable node. */
  function Plan(node: Log, limit: int, last: int, s: State): Step
    requires node != [] && last >= -1 && limit >= 1
  {
    var count := |node| - 1;
    if count <= last then Idle(count)
    else
      var h := Divergence(node, last, s);
      if h <= last then Reorg(count, h - 1) else FullBatch(node, limit, last)
  }

  lemma PlanCases(node: Log, limit: int, last: int, s: State)
    requires node != [] && last >= -1 && limit >= 1
    ensures
      var count, plan := |node| - 1, Plan(node, limit, last, s);
      && (count <= last ==> plan == Idle(count))
      && (count > last && Divergence(node, last, s) > last ==> plan == FullBatch(node, limit, last))
      && (count > last && Divergence(node, last, s) <= last ==> plan == Reorg(count, Divergence(node, last, s) - 1))
  {
  }

  /** The indexer's height and the store after `n` cycles against the stable node `node`. */
  ghost function Iterate(node: Log, limit: int, last: int, s: State, n: nat): (r: (int, State))
    requires node != [] && last >= -1 && limit >= 1
    ensures r.0 >= -1
    decreases n
  {
    if n == 0 then (last, s)
    else
      var step := Plan(node, limit, last, s);
      Iterate(node, limit, LastAfter(last, step), StoreAfter(s, step), n - 1)
  }

  /** One cycle after the first `n`. */
  lemma {:induction false} IterateOneMore(node: Log, limit: int, last: int, s: State, n: nat)
    requires node != [] && last >= -1 && limit >= 1
    ensures
      var (h, t) := Iterate(node, limit, last, s, n);
      var step := Plan(node, limit, h, t);
      Iterate(node, limit, last, s, n + 1) == (LastAfter(h, step), StoreAfter(t, step))
    decreases n
  {
    hide Plan, StoreAfter;
    if n > 0 {
      var step := PlanMoves(node, limit, last, s);
      IterateOneMore(node, limit, LastAfter(last, step), StoreAfter(s, step), n - 1);
    } else {
      var step := PlanMoves(node, limit, last, s);
      assert Iterate(node, limit, LastAfter(last, step), StoreAfter(s, step), 0)
          == (LastAfter(last, step), StoreAfter(s, step));
    }
  }

  lemma PlanMoves(node: Log, limit: int, last: int, s: State) returns (step: Step)
    requires node != [] && last >= -1 && limit >= 1
    ensures step == Plan(node, limit, last, s) && LastAfter(last, step) >= -1
  {
    step := Plan(node, limit, last, s);
  }

  /**
   * A stale block is noticed exactly when the node is above the indexer and the block lies at most
   * five below the node. A node that has not grown past the indexer, or a divergence below the window, goes
   * unnoticed.
   */
  lemma ReorgNoticedIff(node: Log, limit: int, last: int, s: State)
    requires node != [] && last >= -1 && limit >= 1
    ensures Plan(node, limit, last, s).Reorg? <==>
      && |node| - 1 > last
      && exists h :: 0 <= h <= last && |node| - 1 - 5 <= h && node[h].hash != HashAnswer(s, h)
  {
    if |node| - 1 > last && WindowStart(|node| - 1) <= last {
      var h := FirstMismatch(node, s, WindowStart(|node| - 1), last);
      assert h <= last ==> node[h].hash != HashAnswer(s, h);
    }
  }

  lemma ReceiveOneMore(s: State, bs: Log, b: BlockUpdate)
    ensures ReceiveBlocks(s, bs + [b]) == ReceiveBlock(ReceiveBlocks(s, bs), b)
  {
    assert (bs + [b])[..|bs|] == bs;
  }

  lemma StayingIdle(last: int, s: State, node: Log, limit: int, heightOf: string -> int)
    requires limit >= 1 && last >= -1
    ensures forall count :: Allowed(last, limit, Idle(count), heightOf)
    ensures forall count :: LastAfter(last, Idle(count)) == last && StoreAfter(s, Idle(count)) == s
    ensures node != [] && |node| - 1 <= last ==> Plan(node, limit, last, s) == Idle(|node| - 1)
  {
  }

  lemma GoingBack(last: int, s: State, limit: int, count: int, fork: int, heightOf: string -> int)
    requires WindowStart(count) - 1 <= fork < last
    ensures Allowed(last, limit, Reorg(count, fork), heightOf)
    ensures LastAfter(last, Reorg(count, fork)) == fork && StoreAfter(s, Reorg(count, fork)) == RevertTo(s, fork)
  {
  }

  lemma ReceiveNone(s: State)
    ensures ReceiveBlocks(s, []) == s
  {
  }

  /**
   * What a cycle that reports no error has done: nothing or a reorg for 0 blocks, or a batch of the
   * reported length, followed by the finality message exactly when the node is above 5.
   */
  predicate Answered(blocks: int, step: Step) {
    match step
    case Batch(count, bs, marked) => blocks == |bs| && (marked <==> count > 5)
    case FailedBatch(_, _) => false
    case _ => blocks == 0
  }

  class BitcoinIndexer {
    const world: World
    const storage: UtxoDatabase
    const batchLimit: int
    var lastProcessedHeight: int
    var tick: nat

    ghost predicate Valid()
      reads this, storage.datasource
    {
      lastProcessedHeight >= -1 && storage.datasource.Valid()
    }

    ghost function Stored(): State
      reads storage.datasource
    {
      storage.datasource.Abs()
    }

    /** A mainnet indexer takes one block per cycle, whatever is configured. */
    constructor (world: World, storage: UtxoDatabase, mainnet: bool, maxBlocksPerBatch: int)
      requires storage.datasource.Valid() && maxBlocksPerBatch >= 1
      ensures this.world == world && this.storage == storage && Valid()
      ensures batchLimit == (if mainnet then 1 else maxBlocksPerBatch) && lastProcessedHeight == -1
    {
      this.world := world;
      this.storage := storage;
      batchLimit := if mainnet then 1 else maxBlocksPerBatch;
      lastProcessedHeight := -1;
      tick := 0;
    }

    /** At some tick the node gives this hash for the height. */
    ghost predicate Agreed(height: int, hash: string) {
      exists t :: world.hash(t, height) == Some(hash)
    }

    /** Sends a message that nobody acknowledges: it is handled exactly when sending succeeds. */
    method Send(message: NetworkMessage, ghost node: Log) returns (ok: bool)
      requires Valid()
      modifies this`tick, storage.datasource
      ensures Valid() && tick >= old(tick)
      ensures ok ==> Stored() == Handle(old(Stored()), message)
      ensures !ok ==> Stored() == old(Stored())
      ensures Stable(world, node) ==> ok
    {
      ok := world.link(tick).ok;
      tick := tick + 1;
      if ok {
        var _ := HandleSocketConnection(storage, message);
      }
    }

    /** Sends a block and waits for its ack; without the ack the block may or may not be stored. */
    method SendBlockUpdate(update: BlockUpdate, ghost node: Log) returns (ok: bool, ghost received: bool)
      requires Valid()
      modifies this`tick, storage.datasource
      ensures Valid() && tick >= old(tick)
      ensures ok ==> received
      ensures Stored() == if received then ReceiveBlock(old(Stored()), update) else old(Stored())
      ensures Stable(world, node) ==> ok
    {
      var link := world.link(tick);
      tick := tick + 1;
      ok, received := false, false;
      if link.ok || link.delivered {
        var reply := HandleSocketConnection(storage, BlockUpdateMsg(update));
        received := true;
        ok := link.ok && reply == Some(BlockProcessedAck(update.height));
      }
    }

    method GetStoredHash(height: int, ghost node: Log) returns (r: Option<string>)
      requires Valid()
      modifies this`tick, storage.datasource
      ensures Valid() && tick >= old(tick)
      ensures Stored() == old(Stored())
      ensures r.Some? ==> r.value == HashAnswer(Stored(), height)
      ensures Stable(world, node) ==> r.Some?
    {
      var ok := world.link(tick).ok;
      tick := tick + 1;
      r := None;
      if ok {
        var reply := HandleSocketConnection(storage, GetBlockHash(height));
        r := Some(reply.value.hash);
      }
    }

    method GetBlockCount(ghost node: Log) returns (r: Option<nat>)
      modifies this`tick
      ensures r == world.count(old(tick)) && tick == old(tick) + 1
      ensures Stable(world, node) ==> r == Some(|node| - 1)
    {
      r := world.count(tick);
      tick := tick + 1;
    }

    method GetChainHash(height: int, ghost node: Log) returns (r: Option<string>)
      modifies this`tick
      ensures r == world.hash(old(tick), height) && tick == old(tick) + 1
      ensures Stable(world, node) && 0 <= height < |node| ==> r == Some(node[height].hash)
    {
      r := world.hash(tick, height);
      tick := tick + 1;
    }

    /** Walks down from `startHeight - 1`; gives up one below `minHeight`. */
    method FindForkPoint(startHeight: int, minHeight: int, ghost node: Log)
      returns (r: Option<int>, ghost probes: nat)
      requires Valid() && 0 <= minHeight <= startHeight
      modifies this`tick, storage.datasource
      ensures Valid() && tick >= old(tick) && Stored() == old(Stored())
      ensures r.Some? ==> minHeight - 1 <= r.value < startHeight
      ensures r.Some? && r.value >= minHeight ==> Agreed(r.value, HashAnswer(Stored(), r.value))
      ensures Stable(world, node) && startHeight <= |node| ==>
        r == Some(LastMatch(node, Stored(), startHeight, minHeight)) && probes == startHeight - Max(r.value, minHeight)
    {
      var height := startHeight - 1;
      probes := 0;
      while height >= minHeight
        invariant minHeight - 1 <= height < startHeight
        invariant Valid() && tick >= old(tick) && Stored() == old(Stored())
        invariant probes == startHeight - 1 - height
        invariant Stable(world, node) && startHeight <= |node| ==>
          LastMatch(node, Stored(), startHeight, minHeight) == LastMatch(node, Stored(), height + 1, minHeight)
      {
        probes := probes + 1;
        var chainHash := GetChainHash(height, node);
        if chainHash.None? {
          return None, probes;
        }
        var storedHash := GetStoredHash(height, node);
        if storedHash.None? {
          return None, probes;
        }
        if chainHash.value == storedHash.value {
          return Some(height), probes;
        }
        height := height - 1;
      }
      r := Some(minHeight - 1);
    }

    /** What follows the first difference: the fork point, the reorg event, and the new height. */
    method GoBackBelow(height: int, startCheckHeight: int, ghost node: Log) returns (ok: bool, ghost probes: nat)
      requires Valid() && 0 <= startCheckHeight <= height
      modifies this`tick, this`lastProcessedHeight, storage.datasource
      ensures Valid() && tick >= old(tick)
      ensures !ok ==> lastProcessedHeight == old(lastProcessedHeight) && Stored() == old(Stored())
      ensures ok ==>
        && startCheckHeight - 1 <= lastProcessedHeight < height
        && Stored() == RevertTo(old(Stored()), lastProcessedHeight)
      ensures Stable(world, node) && height <= |node| ==>
        && ok && lastProcessedHeight == LastMatch(node, old(Stored()), height, startCheckHeight)
        && probes == height - Max(lastProcessedHeight, startCheckHeight)
    {
      hide Stable, RevertTo, LastMatch;
      ok := false;
      var forkPoint;
      forkPoint, probes := FindForkPoint(height, startCheckHeight, node);
      if forkPoint.None? {
        return;
      }
      ok := Send(ReorgEvent(forkPoint.value), node);
      if ok {
        lastProcessedHeight := forkPoint.value;
      }
    }

    /**
     * Compares the window with the node. Whatever the node answers, a reported reorg takes the
     * height strictly down and at most one below the window, and storage is asked for that height;
     * without a reorg, every processed height in the window agreed when it was compared.
     * Against a stable node, the answer and the new height are exact.
     */
    method CheckForReorg(ghost node: Log) returns (r: Option<bool>, ghost count: nat, ghost probes: nat)
      requires Valid()
      modifies this`tick, this`lastProcessedHeight, storage.datasource
      ensures Valid() && tick >= old(tick)
      ensures r.Some? ==> exists t :: old(tick) <= t < tick && world.count(t) == Some(count)
      ensures r == Some(true) ==>
        && WindowStart(count) - 1 <= lastProcessedHeight < old(lastProcessedHeight)
        && Stored() == RevertTo(old(Stored()), lastProcessedHeight)
      ensures r != Some(true) ==> lastProcessedHeight == old(lastProcessedHeight) && Stored() == old(Stored())
      ensures r == Some(false) ==>
        forall h :: WindowStart(count) <= h <= lastProcessedHeight ==> Agreed(h, HashAnswer(Stored(), h))
      ensures Stable(world, node) ==> count == |node| - 1
      ensures Stable(world, node) && old(lastProcessedHeight) < |node| ==>
        var h := Divergence(node, old(lastProcessedHeight), old(Stored()));
        && r == Some(h <= old(lastProcessedHeight)) && probes <= 1
        && (r == Some(true) ==> lastProcessedHeight == h - 1)
    {
      hide Stable, RevertTo, HashAnswer, FirstMismatch;
      probes := 0;
      count := 0;
      var answer := GetBlockCount(node);
      if answer.None? {
        return None, count, probes;
      }
      count := answer.value;
      var startCheckHeight := Max(answer.value - FINALITY_CONFIRMATIONS + 1, 0);
      if lastProcessedHeight < startCheckHeight {
        return Some(false), count, probes;
      }
      var height := startCheckHeight;
      while height <= lastProcessedHeight
        invariant startCheckHeight <= height <= lastProcessedHeight + 1
        invariant Valid() && Stored() == old(Stored()) && lastProcessedHeight == old(lastProcessedHeight)
        invariant tick > old(tick) && probes == 0
        invariant forall h :: startCheckHeight <= h < height ==> Agreed(h, HashAnswer(Stored(), h))
        invariant Stable(world, node) && lastProcessedHeight < |node| ==>
          height <= FirstMismatch(node, Stored(), startCheckHeight, lastProcessedHeight)
      {
        var chainHash := GetChainHash(height, node);
        if chainHash.None? {
          return None, count, probes;
        }
        var storedHash := GetStoredHash(height, node);
        if storedHash.None? {
          return None, count, probes;
        }
        if chainHash.value != storedHash.value {
          var done;
          done, probes := GoBackBelow(height, startCheckHeight, node);
          return if done then Some(true) else None, count, probes;
        }
        height := height + 1;
      }
      r := Some(false);
    }

    /** The batch loop: fetches and sends the next `n` blocks, and stops at the first failure. */
    method SendBlocks(n: nat, ghost node: Log, ghost heightOf: string -> int) returns (ok: bool, ghost received: Log)
      requires Valid() && Honest(world, heightOf)
      modifies this`tick, storage.datasource
      ensures Valid() && tick >= old(tick)
      ensures |received| <= n && (ok ==> |received| == n)
      ensures Consecutive(received, lastProcessedHeight + 1, heightOf)
      ensures Stored() == ReceiveBlocks(old(Stored()), received)
      ensures Stable(world, node) && lastProcessedHeight + 1 + n <= |node| ==>
        ok && received == node[lastProcessedHeight + 1..lastProcessedHeight + 1 + n]
    {
      hide Stable, Honest, ReceiveBlock, ReceiveBlocks;
      ReceiveNone(Stored());
      ghost var before, first := Stored(), lastProcessedHeight + 1;
      ghost var steady := Stable(world, node) && first + n <= |node|;
      var sent := 0;
      received := [];
      while sent < n
        invariant 0 <= sent <= n && |received| == sent
        invariant Valid() && tick >= old(tick) && Stored() == ReceiveBlocks(before, received)
        invariant forall i :: 0 <= i < sent ==> IsBlock(received[i], first + i, steady, node, heightOf)
      {
        ghost var update;
        ok, update := SendBlock(lastProcessedHeight + 1 + sent, before, received, node, heightOf);
        if update.Some? {
          received := received + [update.value];
        }
        if !ok {
          return;
        }
        sent := sent + 1;
      }
      ok := true;
      assert steady ==> received == node[first..first + n];
    }

    ghost predicate IsBlock(b: BlockUpdate, height: int, steady: bool, node: Log, heightOf: string -> int) {
      && b.height == height && heightOf(b.hash) == height
      && (steady ==> 0 <= height < |node| && b == node[height])
    }

    /** One turn of the loop; `sent` lists the blocks storage has received since state `before`. */
    method SendBlock(height: int, ghost before: State, ghost sent: Log, ghost node: Log, ghost heightOf: string -> int)
      returns (ok: bool, ghost received: Option<BlockUpdate>)
      requires Valid() && Honest(world, heightOf) && Stored() == ReceiveBlocks(before, sent)
      modifies this`tick, storage.datasource
      ensures Valid() && tick >= old(tick)
      ensures Stored() == ReceiveBlocks(before, if received.Some? then sent + [received.value] else sent)
      ensures ok ==> received.Some?
      ensures received.Some? ==>
        IsBlock(received.value, height, Stable(world, node) && 0 <= height < |node|, node, heightOf)
      ensures Stable(world, node) && 0 <= height < |node| ==> ok
    {
      received := None;
      var update := GetBlockData(height, node, heightOf);
      if update.None? {
        return false, received;
      }
      ghost var stored;
      ok, stored := SendBlockUpdate(update.value, node);
      if stored {
        ReceiveOneMore(before, sent, update.value);
        received := update;
      }
    }

    /** The hash at a height, and the block of that hash. */
    method GetBlockData(height: int, ghost node: Log, ghost heightOf: string -> int) returns (r: Option<BlockUpdate>)
      requires Honest(world, heightOf)
      modifies this`tick
      ensures tick >= old(tick)
      ensures r.Some? ==> r.value.height == height && heightOf(r.value.hash) == height
      ensures r.Some? ==> exists t :: world.hash(t, height) == Some(r.value.hash)
      ensures r.Some? ==>
        var data := BlockData(height, r.value.timestamp, r.value.utxoUpdates);
        exists t :: world.block(t, r.value.hash) == Some(data)
      ensures Stable(world, node) && 0 <= height < |node| ==> r == Some(node[height])
    {
      var hash := GetChainHash(height, node);
      if hash.None? {
        return None;
      }
      var data := world.block(tick, hash.value);
      tick := tick + 1;
      if data.None? {
        return None;
      }
      r := Some(BlockUpdate(data.value.height, hash.value, data.value.timestamp, data.value.utxoUpdates));
    }

    /**
     * One cycle is one allowed step of the protocol, whatever the node and the socket do; against
     * a stable node it is exactly the planned one. `seen` is the last height the node has shown.
     */
    method ProcessNewBlocks(ghost node: Log, ghost heightOf: string -> int, ghost seen: int)
      returns (r: Option<int>, ghost step: Step)
      requires Valid() && batchLimit >= 1 && Honest(world, heightOf)
      modifies this`tick, this`lastProcessedHeight, storage.datasource
      ensures Valid() && tick >= old(tick)
      ensures Allowed(old(lastProcessedHeight), batchLimit, step, heightOf)
      ensures lastProcessedHeight == LastAfter(old(lastProcessedHeight), step)
      ensures Stored() == StoreAfter(old(Stored()), step)
      ensures step.FailedBatch? ==> r.None?
      ensures r.Some? ==> Answered(r.value, step)
      ensures Stable(world, node) ==> step == Plan(node, batchLimit, old(lastProcessedHeight), old(Stored())) && r.Some?
      ensures Growing(world) && AtLeast(world, old(tick), seen) ==>
        seen <= step.count && AtLeast(world, tick, step.count)
    {
      hide Honest, StoreAfter, Allowed, Plan, Growing, LastAfter;
      StayingIdle(lastProcessedHeight, Stored(), node, batchLimit, heightOf);
      var answer := GetBlockCount(node);
      step := Idle(seen);
      if answer.None? {
        return None, step;
      }
      var currentHeight := answer.value;
      if Growing(world) && AtLeast(world, old(tick), seen) {
        LaterCounts(world, old(tick), old(tick), tick, seen);
      }
      step := Idle(currentHeight);
      if currentHeight <= lastProcessedHeight {
        return Some(0), step;
      }
      ghost var asked := tick;
      r, step := ProcessAbove(currentHeight, node, heightOf);
      if Growing(world) && AtLeast(world, old(tick), seen) && step.count != currentHeight {
        ghost var t :| asked <= t < tick && world.count(t) == Some(step.count);
        LaterCounts(world, asked, t, tick, currentHeight);
      }
    }

    /** The rest of a cycle when the node is above the indexer: a reorg, or else a batch. */
    method ProcessAbove(currentHeight: int, ghost node: Log, ghost heightOf: string -> int)
      returns (r: Option<int>, ghost step: Step)
      requires Valid() && batchLimit >= 1 && Honest(world, heightOf) && currentHeight > lastProcessedHeight
      modifies this`tick, this`lastProcessedHeight, storage.datasource
      ensures Valid() && tick >= old(tick)
      ensures Allowed(old(lastProcessedHeight), batchLimit, step, heightOf)
      ensures lastProcessedHeight == LastAfter(old(lastProcessedHeight), step)
      ensures Stored() == StoreAfter(old(Stored()), step)
      ensures step.FailedBatch? ==> r.None?
      ensures r.Some? ==> Answered(r.value, step)
      ensures step.count == currentHeight || exists t :: old(tick) <= t < tick && world.count(t) == Some(step.count)
      ensures Stable(world, node) && currentHeight == |node| - 1 ==>
        step == Plan(node, batchLimit, old(lastProcessedHeight), old(Stored())) && r.Some?
    {
      var last := lastProcessedHeight;
      if Stable(world, node) {
        PlanCases(node, batchLimit, last, Stored());
      }
      hide Honest, Stable, RevertTo, StoreAfter, LastAfter, Allowed, Plan, Divergence, FullBatch;
      ghost var before := Stored();
      var reorg;
      ghost var count;
      ghost var probes;
      reorg, count, probes := CheckForReorg(node);
      if reorg == Some(true) {
        step := Reorg(count, lastProcessedHeight);
        GoingBack(last, before, batchLimit, count, lastProcessedHeight, heightOf);
        return Some(0), step;
      }
      r, step := ProcessBatch(currentHeight, node, heightOf);
    }

    /**
     * The polling loop, for `n` rounds; errors are only logged. Its steps are a run of the
     * protocol, steady if the node never goes down, and the planned one if the node stands still.
     */
    method RunCycles(n: nat, ghost node: Log, ghost heightOf: string -> int, ghost seen: int)
      returns (ghost steps: seq<Step>)
      requires Valid() && batchLimit >= 1 && Honest(world, heightOf)
      modifies this`tick, this`lastProcessedHeight, storage.datasource
      ensures Valid() && |steps| == n
      ensures Run(Proto(seen, old(lastProcessedHeight), old(Stored())), steps).last == lastProcessedHeight
      ensures Run(Proto(seen, old(lastProcessedHeight), old(Stored())), steps).store == Stored()
      ensures Growing(world) && AtLeast(world, old(tick), seen) ==>
        Steady(Proto(seen, old(lastProcessedHeight), old(Stored())), steps, batchLimit, heightOf)
      ensures Stable(world, node) ==>
        Iterate(node, batchLimit, old(lastProcessedHeight), old(Stored()), n) == (lastProcessedHeight, Stored())
    {
      assert Stable(world, node) ==> node != [];
      hide Honest, Stable, Plan, Allowed, StoreAfter, LastAfter, Growing, AtLeast;
      ghost var start := Proto(seen, lastProcessedHeight, Stored());
      ghost var shown := seen;
      steps := [];
      var round := 0;
      while round < n
        invariant 0 <= round <= n && |steps| == round && Valid()
        invariant Run(start, steps) == Proto(shown, lastProcessedHeight, Stored())
        invariant Growing(world) && AtLeast(world, old(tick), seen) ==>
          AtLeast(world, tick, shown) && Steady(start, steps, batchLimit, heightOf)
        invariant Stable(world, node) ==>
          Iterate(node, batchLimit, start.last, start.store, round) == (lastProcessedHeight, Stored())
      {
        if Stable(world, node) {
          IterateOneMore(node, batchLimit, start.last, start.store, round);
        }
        var handled;
        ghost var step;
        handled, step := ProcessNewBlocks(node, heightOf, shown);
        assert (steps + [step])[..round] == steps;
        steps := steps + [step];
        shown := step.count;
        round := round + 1;
      }
    }

    /** The rest of a cycle in which no reorg was reported: the batch, then the finality message. */
    method ProcessBatch(currentHeight: int, ghost node: Log, ghost heightOf: string -> int)
      returns (r: Option<int>, ghost step: Step)
      requires Valid() && batchLimit >= 1 && Honest(world, heightOf) && currentHeight > lastProcessedHeight
      modifies this`tick, this`lastProcessedHeight, storage.datasource
      ensures Valid() && tick >= old(tick) && step.count == currentHeight
      ensures step.Batch? || (step.FailedBatch? && r.None?)
      ensures step.Batch? ==> step.blocks != [] && (step.marked ==> currentHeight > 5)
      ensures r.Some? ==> step.Batch? && r.value == |step.blocks| && (step.marked <==> currentHeight > 5)
      ensures Allowed(old(lastProcessedHeight), batchLimit, step, heightOf)
      ensures lastProcessedHeight == LastAfter(old(lastProcessedHeight), step)
      ensures Stored() == StoreAfter(old(Stored()), step)
      ensures Stable(world, node) && currentHeight == |node| - 1 ==>
        r.Some? && step == FullBatch(node, batchLimit, old(lastProcessedHeight))
    {
      hide Honest, Stable, ReceiveBlocks, MarkFinal;
      var blocksToProcess := Min(currentHeight - lastProcessedHeight, batchLimit);
      var ok;
      ghost var blocks;
      ok, blocks := SendBlocks(blocksToProcess, node, heightOf);
      if !ok {
        step := FailedBatch(currentHeight, blocks);
        return None, step;
      }
      lastProcessedHeight := lastProcessedHeight + blocksToProcess;
      var threshold := currentHeight - FINALITY_CONFIRMATIONS + 1;
      step := Batch(currentHeight, blocks, false);
      if threshold > 0 {
        ok := Send(UpdateFinalityStatus(currentHeight), node);
        step := Batch(currentHeight, blocks, ok);
        if !ok {
          return None, step;
        }
      }
      r := Some(blocksToProcess);
    }
  }
}
