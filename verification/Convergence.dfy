/** Against a chain that stands still, the two services reach it, in a known number of cycles. */
module Convergence {
  import opened NetworkShared
  import opened SqliteDatasource
  import opened SqliteTable
  import opened Database
  import opened ChainLog
  import opened Protocol
  import opened Indexer

  /** Full batches needed for `distance` blocks. */
  function Batches(distance: int, limit: int): nat
    requires limit >= 1
    decreases distance
  {
    if distance <= 0 then 0 else 1 + Batches(distance - limit, limit)
  }

  lemma {:induction false} BatchesIsCeiling(distance: nat, limit: int)
    requires limit >= 1
    ensures Batches(distance, limit) == (distance + limit - 1) / limit
    decreases distance
  {
    if distance == 0 {
      QuotientIs(limit - 1, limit, 0);
    } else {
      var q := Batches(distance - limit, limit);
      if distance >= limit {
        BatchesIsCeiling(distance - limit, limit);
        OneMore(distance - 1, limit);
      } else {
        QuotientIs(distance - 1, limit, 0);
        OneMore(distance - 1, limit);
      }
    }
  }

  lemma QuotientIs(a: nat, limit: int, q: nat)
    requires limit >= 1 && q * limit <= a < q * limit + limit
    ensures a / limit == q
  {
    var d := a / limit;
    assert d * limit <= a < d * limit + limit;
    if d < q {
      Monotone(d, q, limit);
    } else if d > q {
      Monotone(q, d, limit);
    }
  }

  lemma Monotone(a: int, b: int, limit: int)
    requires a < b && limit >= 0
    ensures a * limit + limit <= b * limit
  {
    var d := b - a - 1;
    assert b * limit == (a + 1 + d) * limit == a * limit + limit + d * limit;
    assert d * limit >= 0;
  }

  lemma OneMore(a: nat, limit: int)
    requires limit >= 1
    ensures (a + limit) / limit == a / limit + 1
  {
    var d, r := a / limit, a % limit;
    assert a == d * limit + r;
    assert (d + 1) * limit == d * limit + limit;
    QuotientIs(a + limit, limit, d + 1);
  }

  /**
   * Where the theorem starts: storage holds some chain `log` that reaches at least `last` and not
   * beyond the node. What lies above `last`, from a failed batch or from before the indexer was
   * started again, is of the node's chain; what lies below the window, and block 0, agrees with
   * the node; the window may differ.
   */
  ghost predicate Startable(node: Log, limit: int, last: int, s: State, log: Log, heightOf: string -> int) {
    && limit >= 1 && -1 <= last < |log| <= |node| && last < |node| - 1
    && Chain(node, heightOf) && Chain(log, heightOf) && Holds(s, log, heightOf)
    && (forall k :: 0 <= k < |log| && (k > last || k < |node| - 1 - 5 || k == 0) ==> log[k] == node[k])
    && (forall k :: 0 <= k < |log| && log[k].hash == node[k].hash ==> log[k] == node[k])
  }

  /** Sending the blocks from `from` on, up to any height not below `top`, leaves the replay up to there. */
  ghost predicate CatchesUp(t: Table, node: Log, from: nat, top: nat)
    requires from <= top <= |node|
  {
    forall upto :: top <= upto <= |node| ==>
      ApplyBlocks(t, UpdatesOf(node[from..upto])) == Replay(UpdatesOf(node[..upto]))
  }

  /**
   * Storage has received the first `top` blocks of the node's own chain, at least up to `last`. In
   * between, its table may mix what those blocks left with what is being sent again.
   */
  ghost predicate Aligned(node: Log, limit: int, last: int, s: State, top: nat, heightOf: string -> int) {
    && node != [] && limit >= 1 && -1 <= last < |node| && last + 1 <= top <= |node|
    && Chain(node, heightOf) && BlocksHold(s.blocks, node, top, heightOf) && CatchesUp(s.utxo, node, last + 1, top)
  }

  /** A store that holds exactly a prefix of the node's chain is aligned with any lower indexer. */
  lemma HoldingIsAligned(node: Log, limit: int, last: int, s: State, top: nat, heightOf: string -> int)
    requires node != [] && limit >= 1 && -1 <= last < |node| && last + 1 <= top <= |node|
    requires Chain(node, heightOf) && Holds(s, node[..top], heightOf)
    ensures Aligned(node, limit, last, s, top, heightOf)
  {
    hide Chain, ApplyBlocks, UpdatesOf;
    assert forall h :: 0 <= h < top ==> node[..top][h] == node[h];
    forall upto | top <= upto <= |node|
      ensures ApplyBlocks(s.utxo, UpdatesOf(node[last + 1..upto])) == Replay(UpdatesOf(node[..upto]))
    {
      ReceivingIsReplay(node, last + 1, top, upto);
    }
  }

  lemma AlignedHasNoDivergence(node: Log, limit: int, last: int, s: State, top: nat, heightOf: string -> int)
    requires Aligned(node, limit, last, s, top, heightOf)
    ensures Divergence(node, last, s) == last + 1
  {
    hide CatchesUp;
  }

  lemma AlignedPlan(node: Log, limit: int, last: int, s: State, top: nat, heightOf: string -> int)
    requires Aligned(node, limit, last, s, top, heightOf) && last < |node| - 1
    ensures Plan(node, limit, last, s) == FullBatch(node, limit, last)
  {
    AlignedHasNoDivergence(node, limit, last, s, top, heightOf);
  }

  /** Receiving the blocks up to `upto` keeps the services aligned, wherever the cycle stops. */
  lemma AlignedReceives(node: Log, limit: int, last: int, s: State, top: nat, upto: int, heightOf: string -> int)
    returns (after: State)
    requires Aligned(node, limit, last, s, top, heightOf) && last <= upto < |node|
    ensures after == ReceiveBlocks(s, node[last + 1..upto + 1])
    ensures Aligned(node, limit, upto, after, Max(top, upto + 1), heightOf)
  {
    after := ReceiveBlocks(s, node[last + 1..upto + 1]);
    ReceivedHashes(s, last + 1, node, upto + 1, top, heightOf);
    ReceivedUpdates(s, last + 1, node, upto + 1);
    CatchesUpFurther(s.utxo, node, last + 1, top, upto + 1);
  }

  lemma UpdatesJoin(node: Log, from: nat, next: nat, upto: nat)
    requires from <= next <= upto <= |node|
    ensures UpdatesOf(node[from..next]) + UpdatesOf(node[next..upto]) == UpdatesOf(node[from..upto])
  {
  }

  lemma CatchesUpFurther(t: Table, node: Log, from: nat, top: nat, next: nat)
    requires from <= top <= |node| && from <= next <= |node| && CatchesUp(t, node, from, top)
    ensures CatchesUp(ApplyBlocks(t, UpdatesOf(node[from..next])), node, next, Max(top, next))
  {
    forall upto | Max(top, next) <= upto <= |node|
      ensures ApplyBlocks(ApplyBlocks(t, UpdatesOf(node[from..next])), UpdatesOf(node[next..upto]))
           == Replay(UpdatesOf(node[..upto]))
    {
      ApplyBlocksConcat(t, UpdatesOf(node[from..next]), UpdatesOf(node[next..upto]));
      UpdatesJoin(node, from, next, upto);
    }
  }

  /** The finality message changes nothing that alignment speaks of. */
  lemma MarkingKeepsAligned(node: Log, limit: int, last: int, s: State, top: nat, count: int, heightOf: string -> int)
    requires Aligned(node, limit, last, s, top, heightOf)
    ensures Aligned(node, limit, last, UpdateFinality(s, count), top, heightOf)
  {
    hide CatchesUp, Chain;
  }

  lemma AlignedCycle(node: Log, limit: int, last: int, s: State, top: nat, heightOf: string -> int)
    returns (next: int, after: State, reached: nat)
    requires Aligned(node, limit, last, s, top, heightOf) && last < |node| - 1
    ensures next == NextHeight(node, limit, last) == LastAfter(last, Plan(node, limit, last, s))
    ensures after == StoreAfter(s, Plan(node, limit, last, s)) && Aligned(node, limit, next, after, reached, heightOf)
    ensures StoredAreFlagged(node, after)
  {
    hide Aligned, ReceiveBlocks, UpdateFinality, StoredAreFlagged;
    AlignedPlan(node, limit, last, s, top, heightOf);
    next := NextHeight(node, limit, last);
    AlignedIsInside(node, limit, last, s, top, heightOf);
    var received := AlignedReceives(node, limit, last, s, top, next, heightOf);
    reached := Max(top, next + 1);
    MarkingKeepsAligned(node, limit, next, received, reached, |node| - 1, heightOf);
    MarkingFlags(node, received);
    after := StoreAfter(s, Plan(node, limit, last, s));
  }

  lemma AlignedIsInside(node: Log, limit: int, last: int, s: State, top: nat, heightOf: string -> int)
    requires Aligned(node, limit, last, s, top, heightOf)
    ensures limit >= 1 && -1 <= last < |node| && last + 1 <= top <= |node|
  {
  }

  /** Every stored block at least five below the node is flagged final. */
  ghost predicate StoredAreFlagged(node: Log, s: State) {
    forall h :: h in s.blocks && |node| - 1 > 5 && h <= |node| - 1 - 5 ==> s.blocks[h].isFinal
  }

  /** Every block of the node at least five below its tip is stored and flagged final. */
  ghost predicate DeepAreFinal(node: Log, s: State) {
    |node| - 1 > 5 ==> forall h :: 0 <= h <= |node| - 1 - 5 ==> h in s.blocks && s.blocks[h].isFinal
  }

  lemma MarkingFlags(node: Log, s: State)
    ensures StoredAreFlagged(node, UpdateFinality(s, |node| - 1))
    ensures |node| - 1 <= 5 ==> StoredAreFlagged(node, s)
  {
  }

  /** After `n` cycles, and not before, the indexer is at the tip; the store is then the node's. */
  ghost predicate TipReachedAt(node: Log, limit: int, last: int, s: State, n: nat, heightOf: string -> int)
    requires node != [] && last >= -1 && limit >= 1
  {
    && Iterate(node, limit, last, s, n).0 == |node| - 1
    && Holds(Iterate(node, limit, last, s, n).1, node, heightOf)
    && (n > 0 ==> DeepAreFinal(node, Iterate(node, limit, last, s, n).1))
    && forall k :: 0 <= k < n ==> Iterate(node, limit, last, s, k).0 < |node| - 1
  }

  lemma OneCycleEarlier(node: Log, limit: int, last: int, s: State, next: int, after: State, n: nat, heightOf: string -> int)
    requires node != [] && -1 <= last < |node| - 1 && limit >= 1 && next >= -1
    requires next == LastAfter(last, Plan(node, limit, last, s)) && after == StoreAfter(s, Plan(node, limit, last, s))
    requires TipReachedAt(node, limit, next, after, n, heightOf) && (n == 0 ==> DeepAreFinal(node, after))
    ensures TipReachedAt(node, limit, last, s, n + 1, heightOf)
  {
    forall k | 0 < k <= n + 1 ensures Iterate(node, limit, last, s, k) == Iterate(node, limit, next, after, k - 1) {
    }
  }

  lemma AlignedAtTip(node: Log, limit: int, s: State, top: nat, heightOf: string -> int)
    requires Aligned(node, limit, |node| - 1, s, top, heightOf)
    ensures Holds(s, node, heightOf)
  {
    assert node[|node|..|node|] == [] && UpdatesOf([]) == [] && node[..|node|] == node;
  }

  lemma DeepAtTip(node: Log, limit: int, s: State, top: nat, heightOf: string -> int)
    requires Aligned(node, limit, |node| - 1, s, top, heightOf) && StoredAreFlagged(node, s)
    ensures DeepAreFinal(node, s)
  {
    hide CatchesUp, Chain;
  }

  lemma {:induction false} AlignedConverges(node: Log, limit: int, last: int, s: State, top: nat, heightOf: string -> int)
    returns (n: nat)
    requires Aligned(node, limit, last, s, top, heightOf)
    ensures n == Batches(|node| - 1 - last, limit)
    ensures TipReachedAt(node, limit, last, s, n, heightOf)
    decreases |node| - last
  {
    hide Holds, Aligned, StoreAfter, DeepAreFinal, StoredAreFlagged;
    AlignedIsInside(node, limit, last, s, top, heightOf);
    if last == |node| - 1 {
      n := 0;
      AlignedAtTip(node, limit, s, top, heightOf);
    } else {
      var next, after, reached := AlignedCycle(node, limit, last, s, top, heightOf);
      n := AlignedConverges(node, limit, next, after, reached, heightOf);
      if next == |node| - 1 {
        DeepAtTip(node, limit, after, reached, heightOf);
      }
      OneCycleEarlier(node, limit, last, s, next, after, n, heightOf);
      n := OneBatchMore(node, limit, last, n);
    }
  }

  lemma OneBatchMore(node: Log, limit: int, last: int, rest: nat) returns (n: nat)
    requires last < |node| - 1 && limit >= 1 && rest == Batches(|node| - 1 - NextHeight(node, limit, last), limit)
    ensures n == rest + 1 == Batches(|node| - 1 - last, limit)
  {
    n := rest + 1;
  }

  /** Below the first divergence the stored chain is the node's chain. */
  lemma AgreesBelowDivergence(node: Log, limit: int, last: int, s: State, log: Log, heightOf: string -> int)
    requires Startable(node, limit, last, s, log, heightOf)
    ensures
      var h := Divergence(node, last, s);
      && (h <= last ==> h > 0 && log[h].hash != node[h].hash)
      && (forall k :: 0 <= k < h ==> log[k] == node[k])
  {
    var h := Divergence(node, last, s);
    if h <= last {
      HashAnswers(s, log, heightOf, h);
    }
    forall k | 0 <= k < h ensures log[k] == node[k] {
      HashAnswers(s, log, heightOf, k);
    }
  }

  /** The height the batches start from: just below the divergence, if there is one. */
  function Fork(node: Log, last: int, s: State): int
    requires node != [] && -1 <= last < |node|
  {
    if Divergence(node, last, s) <= last then Divergence(node, last, s) - 1 else last
  }

  /** A diverged window costs one cycle: storage and indexer go back to the fork together. */
  lemma ReorgCycle(node: Log, limit: int, last: int, s: State, log: Log, heightOf: string -> int) returns (after: State)
    requires Startable(node, limit, last, s, log, heightOf) && Divergence(node, last, s) <= last
    ensures 0 <= Fork(node, last, s) == LastAfter(last, Plan(node, limit, last, s))
    ensures after == StoreAfter(s, Plan(node, limit, last, s))
    ensures Aligned(node, limit, Fork(node, last, s), after, Fork(node, last, s) + 1, heightOf)
  {
    hide Holds, Chain;
    var fork := Fork(node, last, s);
    AgreesBelowDivergence(node, limit, last, s, log, heightOf);
    ClampsAgree(|node| - 1, |log| - 1, fork);
    RevertingCuts(s, log, fork, heightOf);
    assert log[..fork + 1] == node[..fork + 1];
    after := RevertTo(s, fork);
    HoldingIsAligned(node, limit, fork, after, fork + 1, heightOf);
  }

  function CyclesNeeded(node: Log, limit: int, last: int, s: State): int
    requires node != [] && -1 <= last < |node| && limit >= 1
  {
    (if Divergence(node, last, s) <= last then 1 else 0) + (|node| - 1 - Fork(node, last, s) + limit - 1) / limit
  }

  /**
   * Convergence. Below the tip of a node that stands still, repeated cycles take one cycle if the
   * window diverged and then exactly the batches that the remaining distance needs; no sooner. The
   * indexer is then at the tip, every stored hash is the node's, the `utxo` table is the one a fresh
   * store would build from the node's chain, and every block five or more below the tip is final,
   * once the tip is above 5.
   */
  lemma Converges(node: Log, limit: int, last: int, s: State, log: Log, heightOf: string -> int)
    requires Startable(node, limit, last, s, log, heightOf)
    ensures
      var n := CyclesNeeded(node, limit, last, s);
      && n > 0
      && Iterate(node, limit, last, s, n).0 == |node| - 1
      && (forall h :: 0 <= h < |node| ==> HashAnswer(Iterate(node, limit, last, s, n).1, h) == node[h].hash)
      && Iterate(node, limit, last, s, n).1.utxo == Replay(UpdatesOf(node))
      && DeepAreFinal(node, Iterate(node, limit, last, s, n).1)
      && forall k :: 0 <= k < n ==> Iterate(node, limit, last, s, k).0 < |node| - 1
  {
    hide Holds, Chain, StoreAfter;
    var n := CyclesToTip(node, limit, last, s, log, heightOf);
    TipIsTheNode(node, limit, last, s, n, heightOf);
  }

  lemma CyclesToTip(node: Log, limit: int, last: int, s: State, log: Log, heightOf: string -> int) returns (n: nat)
    requires Startable(node, limit, last, s, log, heightOf)
    ensures n > 0 && n == CyclesNeeded(node, limit, last, s) && TipReachedAt(node, limit, last, s, n, heightOf)
  {
    hide Holds, Chain, StoreAfter;
    if Divergence(node, last, s) <= last {
      n := CyclesAfterDivergence(node, limit, last, s, log, heightOf);
    } else {
      AlignedFromStart(node, limit, last, s, log, heightOf);
      n := AlignedConverges(node, limit, last, s, |log|, heightOf);
    }
    CountCycles(node, limit, last, s);
  }

  lemma CountCycles(node: Log, limit: int, last: int, s: State)
    requires node != [] && -1 <= last < |node| - 1 && limit >= 1 && Fork(node, last, s) >= -1
    ensures CyclesNeeded(node, limit, last, s) > 0
    ensures CyclesNeeded(node, limit, last, s)
      == (if Divergence(node, last, s) <= last then 1 else 0) + Batches(|node| - 1 - Fork(node, last, s), limit)
  {
    BatchesIsCeiling(|node| - 1 - Fork(node, last, s), limit);
  }

  lemma CyclesAfterDivergence(node: Log, limit: int, last: int, s: State, log: Log, heightOf: string -> int)
    returns (n: nat)
    requires Startable(node, limit, last, s, log, heightOf) && Divergence(node, last, s) <= last
    ensures n == 1 + Batches(|node| - 1 - Fork(node, last, s), limit)
    ensures TipReachedAt(node, limit, last, s, n, heightOf)
  {
    hide Holds, Chain, StoreAfter, Aligned, TipReachedAt, DeepAreFinal, Plan, Iterate, WindowStart;
    var fork := Fork(node, last, s);
    var after := ReorgCycle(node, limit, last, s, log, heightOf);
    var batches := AlignedConverges(node, limit, fork, after, fork + 1, heightOf);
    OneCycleEarlier(node, limit, last, s, fork, after, batches, heightOf);
    n := batches + 1;
  }

  lemma AlignedFromStart(node: Log, limit: int, last: int, s: State, log: Log, heightOf: string -> int)
    requires Startable(node, limit, last, s, log, heightOf) && Divergence(node, last, s) > last
    ensures Aligned(node, limit, last, s, |log|, heightOf)
  {
    AgreesBelowDivergence(node, limit, last, s, log, heightOf);
    assert log == node[..|log|];
    HoldingIsAligned(node, limit, last, s, |log|, heightOf);
  }

  lemma TipIsTheNode(node: Log, limit: int, last: int, s: State, n: nat, heightOf: string -> int)
    requires node != [] && last >= -1 && limit >= 1 && TipReachedAt(node, limit, last, s, n, heightOf)
    ensures forall h :: 0 <= h < |node| ==> HashAnswer(Iterate(node, limit, last, s, n).1, h) == node[h].hash
    ensures Iterate(node, limit, last, s, n).1.utxo == Replay(UpdatesOf(node))
    ensures n > 0 ==> DeepAreFinal(node, Iterate(node, limit, last, s, n).1)
  {
  }

  /**
   * Every clean run can be picked up: if the node then stands still on a higher chain that agrees
   * below the window and at block 0, and equal hashes name equal blocks, it converges.
   */
  lemma RunsConverge(steps: seq<Step>, node: Log, limit: int, heightOf: string -> int)
    requires limit >= 1 && Steady(START, steps, limit, heightOf) && CleanRun(steps, heightOf)
    requires Chain(node, heightOf) && Run(START, steps).last < |node| - 1
    requires
      var log := RunLog(steps);
      forall k :: 0 <= k < |log| && k < |node| && (k < |node| - 1 - 5 || k == 0 || log[k].hash == node[k].hash) ==>
        log[k] == node[k]
    ensures
      var p := Run(START, steps);
      && p.last >= -1
      && var n := CyclesNeeded(node, limit, p.last, p.store);
      && n > 0
      && Iterate(node, limit, p.last, p.store, n).0 == |node| - 1
      && Iterate(node, limit, p.last, p.store, n).1.utxo == Replay(UpdatesOf(node))
  {
    var p, log := Run(START, steps), RunLog(steps);
    RunsStayInStep(steps, limit, heightOf);
    assert Startable(node, limit, p.last, p.store, log, heightOf);
    Converges(node, limit, p.last, p.store, log, heightOf);
  }

  // ---- starting the indexer again ----

  /**
   * One life of the indexer process: whole cycles, then some blocks of a batch that it did not
   * live to finish. Nothing remembers its height; the store stays.
   */
  datatype Session = Session(cycles: nat, blocks: nat)

  ghost function StoreAfterSession(node: Log, limit: int, s: State, session: Session): State
    requires node != [] && limit >= 1
  {
    var (last, t) := Iterate(node, limit, -1, s, session.cycles);
    if last >= |node| then t else ReceiveBlocks(t, node[last + 1..Min(last + session.blocks, |node| - 1) + 1])
  }

  ghost function StoreAfterSessions(node: Log, limit: int, s: State, sessions: seq<Session>): State
    requires node != [] && limit >= 1
  {
    if sessions == [] then s
    else
      var n := |sessions| - 1;
      StoreAfterSession(node, limit, StoreAfterSessions(node, limit, s, sessions[..n]), sessions[n])
  }

  /** Wherever the indexer is stopped, a new one that starts from block 0 is aligned with the store. */
  lemma RestartIsAligned(node: Log, limit: int, last: int, s: State, top: nat, heightOf: string -> int)
    requires Aligned(node, limit, last, s, top, heightOf)
    ensures Aligned(node, limit, -1, s, top, heightOf)
  {
    hide Chain, BlocksHold, ApplyBlocks;
    forall upto | top <= upto <= |node|
      ensures ApplyBlocks(s.utxo, UpdatesOf(node[0..upto])) == Replay(UpdatesOf(node[..upto]))
    {
      var done, rest := UpdatesOf(node[0..last + 1]), UpdatesOf(node[last + 1..upto]);
      UpdatesJoin(node, 0, last + 1, upto);
      assert node[0..upto] == node[..upto];
      SqliteLaws.ResendFromStart(s.utxo, done, rest);
    }
  }

  lemma {:induction false} AlignedIterates(node: Log, limit: int, last: int, s: State, top: nat, n: nat, heightOf: string -> int)
    returns (reached: nat)
    requires Aligned(node, limit, last, s, top, heightOf) && node != [] && last >= -1 && limit >= 1
    ensures Aligned(node, limit, Iterate(node, limit, last, s, n).0, Iterate(node, limit, last, s, n).1, reached, heightOf)
    decreases n
  {
    hide Aligned, StoreAfter;
    AlignedIsInside(node, limit, last, s, top, heightOf);
    if n == 0 {
      reached := top;
    } else if last == |node| - 1 {
      StaysConverged(node, limit, s, n);
      reached := top;
    } else {
      var next, after, top' := AlignedCycle(node, limit, last, s, top, heightOf);
      AlignedIsInside(node, limit, next, after, top', heightOf);
      reached := AlignedIterates(node, limit, next, after, top', n - 1, heightOf);
    }
  }

  lemma SessionKeepsAligned(node: Log, limit: int, s: State, top: nat, session: Session, heightOf: string -> int)
    returns (reached: nat)
    requires node != [] && limit >= 1 && Aligned(node, limit, -1, s, top, heightOf)
    ensures Aligned(node, limit, -1, StoreAfterSession(node, limit, s, session), reached, heightOf)
  {
    hide Aligned, Iterate, ReceiveBlocks;
    reached := AlignedIterates(node, limit, -1, s, top, session.cycles, heightOf);
    var (last, t) := Iterate(node, limit, -1, s, session.cycles);
    AlignedIsInside(node, limit, last, t, reached, heightOf);
    var upto := Min(last + session.blocks, |node| - 1);
    var after := AlignedReceives(node, limit, last, t, reached, upto, heightOf);
    reached := Max(reached, upto + 1);
    RestartIsAligned(node, limit, upto, after, reached, heightOf);
  }

  lemma {:induction false} SessionsKeepAligned(node: Log, limit: int, s: State, top: nat, sessions: seq<Session>, heightOf: string -> int)
    returns (reached: nat)
    requires node != [] && limit >= 1 && Aligned(node, limit, -1, s, top, heightOf)
    ensures Aligned(node, limit, -1, StoreAfterSessions(node, limit, s, sessions), reached, heightOf)
  {
    hide Aligned, StoreAfterSession;
    reached := top;
    if sessions != [] {
      var n := |sessions| - 1;
      reached := SessionsKeepAligned(node, limit, s, top, sessions[..n], heightOf);
      reached := SessionKeepsAligned(node, limit, StoreAfterSessions(node, limit, s, sessions[..n]), reached, sessions[n], heightOf);
    }
  }

  /**
   * Convergence across restarts. The store keeps its rows and the indexer forgets its height, any
   * number of times, also in the middle of a batch: one more start reaches the tip in exactly the
   * batches that the whole chain needs, with the table that a fresh store would build.
   */
  lemma RestartsConverge(node: Log, limit: int, s: State, top: nat, sessions: seq<Session>, heightOf: string -> int)
    requires node != [] && limit >= 1 && top <= |node| && Chain(node, heightOf) && Holds(s, node[..top], heightOf)
    ensures
      var n, t := (|node| + limit - 1) / limit, StoreAfterSessions(node, limit, s, sessions);
      n >= 0 && TipReachedAt(node, limit, -1, t, n, heightOf)
  {
    hide Aligned, TipReachedAt, StoreAfterSessions, Iterate, Chain, Holds;
    HoldingIsAligned(node, limit, -1, s, top, heightOf);
    var reached := SessionsKeepAligned(node, limit, s, top, sessions, heightOf);
    BatchesIsCeiling(|node|, limit);
    var n := AlignedConverges(node, limit, -1, StoreAfterSessions(node, limit, s, sessions), reached, heightOf);
  }

  /** Once at the tip, further cycles change nothing until the node moves. */
  lemma {:induction false} StaysConverged(node: Log, limit: int, s: State, n: nat)
    requires node != [] && limit >= 1
    ensures Iterate(node, limit, |node| - 1, s, n) == (|node| - 1, s)
  {
    if n > 0 {
      StaysConverged(node, limit, s, n - 1);
    }
  }
}
