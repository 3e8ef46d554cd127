/**
 * The reorg protocol as a state machine. A step is everything one cycle of the indexer can do to
 * its own height and to storage, for arbitrary answers of the node.
 */
module Protocol {
  import opened NetworkShared
  import opened History
  import opened SqliteDatasource
  import opened SqliteTable
  import opened Database
  import opened ChainLog
  import Backends
  import SqliteLaws

  datatype Step =
    | Idle(count: int)
    | Reorg(count: int, fork: int)
    | Batch(count: int, blocks: Log, marked: bool)
    | FailedBatch(count: int, blocks: Log)   // the blocks storage received before the failure

  datatype Proto = Proto(count: int, last: int, store: State)

  const START := Proto(0, -1, Backends.SqliteEmpty)

  /** The lowest height the indexer compares with the node; below it blocks count as final. */
  function WindowStart(count: int): int {
    Max(count - FINALITY_CONFIRMATIONS + 1, 0)
  }

  /** What the indexer guarantees of a step from height `last`. */
  predicate Allowed(last: int, limit: int, step: Step, heightOf: string -> int) {
    match step
    case Idle(_) => true
    case Reorg(count, fork) => WindowStart(count) - 1 <= fork < last
    case Batch(count, blocks, _) =>
      count > last && |blocks| == Min(count - last, limit) && Consecutive(blocks, last + 1, heightOf)
    case FailedBatch(count, blocks) =>
      count > last && |blocks| <= Min(count - last, limit) && Consecutive(blocks, last + 1, heightOf)
  }

  predicate Consecutive(blocks: Log, from: int, heightOf: string -> int) {
    forall i :: 0 <= i < |blocks| ==> blocks[i].height == from + i && heightOf(blocks[i].hash) == from + i
  }

  function LastAfter(last: int, step: Step): int {
    match step
    case Reorg(_, fork) => fork
    case Batch(_, blocks, _) => last + |blocks|
    case _ => last
  }

  ghost function StoreAfter(s: State, step: Step): State {
    match step
    case Idle(_) => s
    case Reorg(_, fork) => RevertTo(s, fork)
    case Batch(count, blocks, marked) =>
      if marked then UpdateFinality(ReceiveBlocks(s, blocks), count) else ReceiveBlocks(s, blocks)
    case FailedBatch(_, blocks) => ReceiveBlocks(s, blocks)
  }

  ghost function Exec(p: Proto, step: Step): Proto {
    Proto(step.count, LastAfter(p.last, step), StoreAfter(p.store, step))
  }

  ghost function Run(p: Proto, steps: seq<Step>): Proto {
    if steps == [] then p else Exec(Run(p, steps[..|steps| - 1]), steps[|steps| - 1])
  }

  /** A run of allowed steps along which the node's block count never decreases. */
  ghost predicate Steady(p: Proto, steps: seq<Step>, limit: int, heightOf: string -> int) {
    steps == [] ||
    var before, step := Run(p, steps[..|steps| - 1]), steps[|steps| - 1];
    && Steady(p, steps[..|steps| - 1], limit, heightOf)
    && step.count >= before.count
    && Allowed(before.last, limit, step, heightOf)
  }

  lemma {:induction false} RunConcat(p: Proto, a: seq<Step>, b: seq<Step>)
    ensures Run(p, a + b) == Run(Run(p, a), b)
  {
    hide Exec;
    if b == [] {
      assert a + b == a;
    } else {
      assert (a + b)[..|a + b| - 1] == a + b[..|b| - 1];
      RunConcat(p, a, b[..|b| - 1]);
    }
  }

  // ---- stored hashes are final ----

  ghost predicate SameRow(a: BlockTable, b: BlockTable, h: int) {
    && (h in a <==> h in b)
    && (h in a ==> a[h].hash == b[h].hash && a[h].isMainChain == b[h].isMainChain)
  }

  lemma {:induction false} ReceivingLeavesBelow(s: State, blocks: Log, from: int, h: int, heightOf: string -> int)
    requires Consecutive(blocks, from, heightOf) && h < from
    ensures SameRow(s.blocks, ReceiveBlocks(s, blocks).blocks, h)
  {
    if blocks != [] {
      ReceivingLeavesBelow(s, blocks[..|blocks| - 1], from, h, heightOf);
    }
  }

  lemma StepLeavesFinal(p: Proto, step: Step, limit: int, heightOf: string -> int, h: int)
    requires Allowed(p.last, limit, step, heightOf)
    requires h <= p.last && h <= step.count - FINALITY_CONFIRMATIONS
    ensures SameRow(p.store.blocks, Exec(p, step).store.blocks, h)
    ensures h <= Exec(p, step).last
  {
    match step {
      case Batch(_, blocks, _) => ReceivingLeavesBelow(p.store, blocks, p.last + 1, h, heightOf);
      case FailedBatch(_, blocks) => ReceivingLeavesBelow(p.store, blocks, p.last + 1, h, heightOf);
      case _ =>
    }
  }

  /**
   * Finality of hashes, over every run: from any state, once `h` is processed and six below the
   * node, no later step changes the stored hash or the main-chain flag at `h`, nor takes the
   * indexer below `h`. Failed batches and blocks of any content are included.
   */
  lemma {:induction false} HashesAreFinal(p: Proto, steps: seq<Step>, limit: int, heightOf: string -> int, h: int)
    requires Steady(p, steps, limit, heightOf)
    requires h <= p.last && h <= p.count - 6
    ensures SameRow(p.store.blocks, Run(p, steps).store.blocks, h)
    ensures h <= Run(p, steps).last && p.count <= Run(p, steps).count
  {
    if steps != [] {
      var n := |steps| - 1;
      HashesAreFinal(p, steps[..n], limit, heightOf, h);
      StepLeavesFinal(Run(p, steps[..n]), steps[n], limit, heightOf, h);
    }
  }

  // ---- the final flag ----

  lemma {:induction false} SteadySplits(p: Proto, a: seq<Step>, b: seq<Step>, limit: int, heightOf: string -> int)
    requires Steady(p, a + b, limit, heightOf)
    ensures Steady(p, a, limit, heightOf) && Steady(Run(p, a), b, limit, heightOf)
  {
    if b == [] {
      assert a + b == a;
    } else {
      var n := |b| - 1;
      assert (a + b)[..|a + b| - 1] == a + b[..n];
      SteadySplits(p, a, b[..n], limit, heightOf);
      RunConcat(p, a, b[..n]);
    }
  }

  /** Receiving blocks flags none of them, and takes no block off the main chain. */
  lemma {:induction false} ReceivingFlagsNothing(s: State, blocks: Log, h: int)
    ensures
      var after := ReceiveBlocks(s, blocks).blocks;
      && (h in after && after[h].isFinal ==> h in s.blocks && s.blocks[h].isFinal)
      && (h in s.blocks ==> h in after && (s.blocks[h].isFinal ==> after[h].isFinal))
      && (h in s.blocks && s.blocks[h].isMainChain ==> after[h].isMainChain)
  {
    if blocks != [] {
      ReceivingFlagsNothing(s, blocks[..|blocks| - 1], h);
    }
  }

  /** Over every run from every state, a final flag is never cleared. */
  lemma {:induction false} FlagsStay(p: Proto, steps: seq<Step>, h: int)
    requires h in p.store.blocks && p.store.blocks[h].isFinal
    ensures h in Run(p, steps).store.blocks && Run(p, steps).store.blocks[h].isFinal
  {
    if steps != [] {
      var n := |steps| - 1;
      var before, step := Run(p, steps[..n]), steps[n];
      FlagsStay(p, steps[..n], h);
      if step.Batch? || step.FailedBatch? {
        ReceivingFlagsNothing(before.store, step.blocks, h);
      }
    }
  }

  /** Only blocks at least five below the node are ever flagged. */
  ghost predicate FlagsAreDeep(p: Proto) {
    forall h :: h in p.store.blocks && p.store.blocks[h].isFinal ==> h <= p.count - FINALITY_CONFIRMATIONS + 1
  }

  lemma {:induction false} RunsFlagDeep(steps: seq<Step>, limit: int, heightOf: string -> int)
    requires Steady(START, steps, limit, heightOf)
    ensures FlagsAreDeep(Run(START, steps))
  {
    if steps != [] {
      var n := |steps| - 1;
      var before, step := Run(START, steps[..n]), steps[n];
      RunsFlagDeep(steps[..n], limit, heightOf);
      if step.Batch? || step.FailedBatch? {
        var received := ReceiveBlocks(before.store, step.blocks).blocks;
        forall h | h in received && received[h].isFinal ensures h in before.store.blocks && before.store.blocks[h].isFinal {
          ReceivingFlagsNothing(before.store, step.blocks, h);
        }
      }
    }
  }

  /** A step takes a block that lies five or more below the node off the main chain in one case only. */
  lemma StepRemovesDeep(p: Proto, step: Step, limit: int, heightOf: string -> int, h: int, c: int)
    requires Allowed(p.last, limit, step, heightOf) && c <= step.count && h <= c - FINALITY_CONFIRMATIONS + 1
    requires h in p.store.blocks
    ensures h in Exec(p, step).store.blocks
    ensures p.store.blocks[h].isMainChain && !Exec(p, step).store.blocks[h].isMainChain ==>
      step == Reorg(c, h - 1) && h == c - FINALITY_CONFIRMATIONS + 1
  {
    if step.Batch? || step.FailedBatch? {
      ReceivingFlagsNothing(p.store, step.blocks, h);
    }
  }

  lemma {:induction false} RunRemovesDeep(p: Proto, steps: seq<Step>, limit: int, heightOf: string -> int, h: int)
    requires Steady(p, steps, limit, heightOf) && h <= p.count - FINALITY_CONFIRMATIONS + 1
    requires h in p.store.blocks && p.store.blocks[h].isMainChain
    ensures h in Run(p, steps).store.blocks && p.count <= Run(p, steps).count
    ensures Run(p, steps).store.blocks[h].isMainChain || (Reorg(p.count, h - 1) in steps && h == p.count - FINALITY_CONFIRMATIONS + 1)
  {
    if steps != [] {
      var n := |steps| - 1;
      var before := Run(p, steps[..n]);
      RunRemovesDeep(p, steps[..n], limit, heightOf, h);
      StepRemovesDeep(before, steps[n], limit, heightOf, h, p.count);
      if !before.store.blocks[h].isMainChain {
        assert Reorg(p.count, h - 1) in steps[..n];
      }
    }
  }

  /**
   * What the flag is worth over every run from an empty store: a block that is flagged final and on
   * the main chain leaves it only in a reorg to the height below it, at a count that has not grown
   * since, and only if it is exactly the block five below that count.
   */
  lemma FlaggedLeavesAtTheEdge(before: seq<Step>, later: seq<Step>, limit: int, heightOf: string -> int, h: int)
    requires Steady(START, before + later, limit, heightOf)
    requires h in Run(START, before).store.blocks
    requires Run(START, before).store.blocks[h].isFinal && Run(START, before).store.blocks[h].isMainChain
    ensures h in Run(START, before + later).store.blocks
    ensures Run(START, before + later).store.blocks[h].isMainChain
      || (Reorg(Run(START, before).count, h - 1) in later && h == Run(START, before).count - FINALITY_CONFIRMATIONS + 1)
  {
    SteadySplits(START, before, later, limit, heightOf);
    RunConcat(START, before, later);
    RunsFlagDeep(before, limit, heightOf);
    RunRemovesDeep(Run(START, before), later, limit, heightOf, h);
  }

  // ---- answers are final ----

  /** A step without a failed batch whose blocks extend the log to a chain; block 0 is never replaced. */
  ghost predicate Clean(log: Log, step: Step, heightOf: string -> int) {
    match step
    case Idle(_) => true
    case Reorg(_, fork) => fork >= 0
    case Batch(_, blocks, _) => Chain(log + blocks, heightOf)
    case FailedBatch(_, _) => false
  }

  function NextLog(log: Log, step: Step): Log {
    match step
    case Reorg(_, fork) => if 0 <= fork < |log| then log[..fork + 1] else log
    case Batch(_, blocks, _) => log + blocks
    case _ => log
  }

  function RunLog(steps: seq<Step>): Log {
    if steps == [] then [] else NextLog(RunLog(steps[..|steps| - 1]), steps[|steps| - 1])
  }

  ghost predicate CleanRun(steps: seq<Step>, heightOf: string -> int) {
    steps == [] ||
    (CleanRun(steps[..|steps| - 1], heightOf) && Clean(RunLog(steps[..|steps| - 1]), steps[|steps| - 1], heightOf))
  }

  /** Storage holds exactly the chain the indexer believes in, up to its last processed height. */
  ghost predicate InStep(p: Proto, log: Log, heightOf: string -> int) {
    && p.last == |log| - 1 && p.last <= p.count
    && Chain(log, heightOf) && Holds(p.store, log, heightOf)
  }

  lemma StepKeepsInStep(p: Proto, log: Log, step: Step, limit: int, heightOf: string -> int)
    requires InStep(p, log, heightOf) && limit >= 1
    requires step.count >= p.count && Allowed(p.last, limit, step, heightOf) && Clean(log, step, heightOf)
    ensures InStep(Exec(p, step), NextLog(log, step), heightOf)
  {
    hide Chain, Holds, ReceiveBlocks, RevertTo, UpdateFinality;
    match step {
      case Idle(_) =>
      case Reorg(count, fork) =>
        RevertingCuts(p.store, log, fork, heightOf);
        ClampsAgree(count, |log| - 1, fork);
        ChainPrefix(log, fork + 1, heightOf);
      case Batch(count, blocks, marked) =>
        ReceivingAppends(p.store, log, blocks, heightOf);
        FinalityKeeps(ReceiveBlocks(p.store, blocks), log + blocks, count, heightOf);
    }
  }

  /** The two services never drift apart: every clean run keeps storage at the indexer's own chain. */
  lemma {:induction false} RunsStayInStep(steps: seq<Step>, limit: int, heightOf: string -> int)
    requires limit >= 1 && Steady(START, steps, limit, heightOf) && CleanRun(steps, heightOf)
    ensures InStep(Run(START, steps), RunLog(steps), heightOf)
  {
    if steps == [] {
      Backends.EmptyLog(heightOf);
    } else {
      var n := |steps| - 1;
      RunsStayInStep(steps[..n], limit, heightOf);
      StepKeepsInStep(Run(START, steps[..n]), RunLog(steps[..n]), steps[n], limit, heightOf);
    }
  }

  /** A step leaves alone what is processed and six below its count. */
  lemma StepKeepsPast(p: Proto, log: Log, step: Step, limit: int, heightOf: string -> int, h: int)
    requires p.last == |log| - 1 && Allowed(p.last, limit, step, heightOf)
    requires 0 <= h < |log| && h <= step.count - FINALITY_CONFIRMATIONS
    ensures h < |NextLog(log, step)| && NextLog(log, step)[..h + 1] == log[..h + 1]
  {
  }

  lemma SteadyLast(p: Proto, front: seq<Step>, step: Step, limit: int, heightOf: string -> int)
    requires Steady(p, front + [step], limit, heightOf)
    ensures Steady(p, front, limit, heightOf) && Run(p, front + [step]) == Exec(Run(p, front), step)
    ensures step.count >= Run(p, front).count && Allowed(Run(p, front).last, limit, step, heightOf)
  {
    assert (front + [step])[..|front|] == front;
  }

  lemma CleanLast(front: seq<Step>, step: Step, heightOf: string -> int)
    requires CleanRun(front + [step], heightOf)
    ensures CleanRun(front, heightOf) && RunLog(front + [step]) == NextLog(RunLog(front), step)
  {
    assert (front + [step])[..|front|] == front;
  }

  /** Later steps leave the first `h + 1` blocks of the log alone. */
  lemma {:induction false} LogsAreFinal(before: seq<Step>, later: seq<Step>, limit: int, heightOf: string -> int, h: int)
    requires limit >= 1 && Steady(START, before + later, limit, heightOf) && CleanRun(before + later, heightOf)
    requires 0 <= h <= Run(START, before).last && h <= Run(START, before).count - 6
    ensures Steady(START, before, limit, heightOf) && CleanRun(before, heightOf)
    ensures h < |RunLog(before)| && h < |RunLog(before + later)|
    ensures RunLog(before + later)[..h + 1] == RunLog(before)[..h + 1]
    ensures Run(START, before + later).count >= Run(START, before).count
  {
    hide Steady, CleanRun, Run, RunLog, NextLog, Allowed, Chain, Holds, StoreAfter;
    if later == [] {
      assert before + later == before;
      RunsStayInStep(before, limit, heightOf);
    } else {
      var n := |later| - 1;
      var front, step := before + later[..n], later[n];
      assert before + later == front + [step];
      SteadyLast(START, front, step, limit, heightOf);
      CleanLast(front, step, heightOf);
      LogsAreFinal(before, later[..n], limit, heightOf, h);
      RunsStayInStep(front, limit, heightOf);
      StepKeepsPast(Run(START, front), RunLog(front), step, limit, heightOf, h);
    }
  }

  /**
   * Finality of answers, over every clean run from the start: once `h` is processed and six below
   * the node, no later step changes what any query at a height up to `h` lists as spendable.
   */
  lemma AnswersAreFinal(before: seq<Step>, later: seq<Step>, limit: int, heightOf: string -> int,
                        h: int, q: int, address: string)
    requires limit >= 1 && Steady(START, before + later, limit, heightOf) && CleanRun(before + later, heightOf)
    requires 0 <= q <= h <= Run(START, before).last && h <= Run(START, before).count - 6
    ensures Coins(Spendable(Run(START, before + later).store.utxo, q, address))
         == Coins(Spendable(Run(START, before).store.utxo, q, address))
  {
    LogsAreFinal(before, later, limit, heightOf, h);
    RunsStayInStep(before, limit, heightOf);
    RunsStayInStep(before + later, limit, heightOf);
    SamePastSameAnswer(RunLog(before), RunLog(before + later), h, q, address);
  }

  lemma SamePastSameAnswer(a: Log, b: Log, h: int, q: int, address: string)
    requires WellFormed(UpdatesOf(a)) && WellFormed(UpdatesOf(b))
    requires 0 <= q <= h < |a| && h < |b| && a[..h + 1] == b[..h + 1]
    ensures Coins(Spendable(Replay(UpdatesOf(a)), q, address)) == Coins(Spendable(Replay(UpdatesOf(b)), q, address))
  {
    SqliteLaws.SpendableIsPast(UpdatesOf(a), q, address);
    SqliteLaws.SpendableIsPast(UpdatesOf(b), q, address);
    assert a[..q + 1] == a[..h + 1][..q + 1] && b[..q + 1] == b[..h + 1][..q + 1];
    UpdatesOfPrefix(a, q + 1);
    UpdatesOfPrefix(b, q + 1);
  }
}
