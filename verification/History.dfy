/**
 * What a chain of blocks says about each outpoint, independently of any store.
 * A history is the list of update lists of blocks 0, 1, 2, ...
 */
module History {
  import opened Wrappers
  import opened NetworkShared

  type Updates = seq<UtxoUpdate>

  /** The updates of `us` about outpoint `id`, in order. */
  function Touching(us: Updates, id: OutPoint): Updates {
    if us == [] then []
    else
      var last := us[|us| - 1];
      Touching(us[..|us| - 1], id) + (if last.Id() == id then [last] else [])
  }

  /** Everything a history says about outpoint `id`, in order. */
  function Life(hist: seq<Updates>, id: OutPoint): Updates {
    if hist == [] then [] else Life(hist[..|hist| - 1], id) + Touching(hist[|hist| - 1], id)
  }

  /** An update of block `k` as the indexer writes it. */
  predicate StampedAt(u: UtxoUpdate, k: int) {
    && u.blockHeight == k
    && if u.IsSpend() then u.spentAt.Some? && u.spentBlock == Some(k) else u.spentAt.None? && u.spentBlock.None?
  }

  /** `hist` holds blocks `base`, `base + 1`, ..., each stamped with its own height. */
  ghost predicate Stamped(hist: seq<Updates>, base: int) {
    forall k, u :: 0 <= k < |hist| && u in hist[k] ==> StampedAt(u, base + k)
  }

  /**
   * Never mentioned; created; spent although its creation was never recorded; or created once
   * and then spent once, under one address.
   */
  predicate LifeOk(life: Updates) {
    && |life| <= 2
    && (|life| == 2 ==> !life[0].IsSpend() && life[1].IsSpend() && life[0].address == life[1].address)
  }

  /** A well-formed history. An outpoint may be created and spent in one block. */
  ghost predicate WellFormed(hist: seq<Updates>) {
    Stamped(hist, 0) && forall id :: LifeOk(Life(hist, id))
  }

  /** No block both creates and spends one outpoint. */
  ghost predicate NoSameBlockSpend(hist: seq<Updates>) {
    forall k, c, s :: 0 <= k < |hist| && c in hist[k] && s in hist[k] && !c.IsSpend() && s.IsSpend() ==> c.Id() != s.Id()
  }

  /** The chain's own answer: is `id` an unspent output of `address` once block `q` is in? */
  ghost predicate UnspentOnChain(hist: seq<Updates>, q: int, address: string, id: OutPoint) {
    && (exists k, c :: 0 <= k <= q && k < |hist| && c in hist[k] && c.Id() == id && !c.IsSpend() && c.address == address)
    && (forall k, s :: 0 <= k <= q && k < |hist| && s in hist[k] && s.Id() == id ==> !s.IsSpend())
  }

  /** Equal in every column that is set when the output is created. */
  predicate SameCoin(a: UtxoUpdate, b: UtxoUpdate) {
    && a.txid == b.txid && a.vout == b.vout && a.address == b.address && a.publicKey == b.publicKey
    && a.amount == b.amount && a.scriptPubKey == b.scriptPubKey && a.scriptType == b.scriptType
    && a.createdAt == b.createdAt && a.blockHeight == b.blockHeight
  }

  /** Equal in the columns that a spend sets. */
  predicate SameSpend(a: UtxoUpdate, b: UtxoUpdate) {
    a.spentTxid == b.spentTxid && a.spentAt == b.spentAt && a.spentBlock == b.spentBlock
  }

  /** `c` is the first update of `hist` about its outpoint, in block `k`. */
  ghost predicate FirstMention(hist: seq<Updates>, k: nat, c: UtxoUpdate) {
    && k < |hist| && c in hist[k]
    && forall j, u :: 0 <= j < |hist| && u in hist[j] && u.Id() == c.Id() ==> k <= j
  }

  /**
   * The columns of a stored row, told by the history alone: those of a coin from the outpoint's
   * first update `c`, those of a spend from its spend, or empty if there is none.
   */
  ghost predicate RowTold(row: UtxoUpdate, hist: seq<Updates>, k: nat, c: UtxoUpdate) {
    && FirstMention(hist, k, c) && SameCoin(row, c)
    && (forall j, u :: 0 <= j < |hist| && u in hist[j] && u.Id() == c.Id() && u.IsSpend() ==> SameSpend(row, u))
    && ((forall j, u :: 0 <= j < |hist| && u in hist[j] && u.Id() == c.Id() ==> !u.IsSpend())
        ==> row.spentTxid == None && row.spentAt == None && row.spentBlock == None)
  }

  /** The first of a life is the first mention; what else mentions the outpoint is the rest of the life. */
  lemma LifeTells(hist: seq<Updates>, id: OutPoint) returns (k: nat)
    requires WellFormed(hist) && Life(hist, id) != []
    ensures FirstMention(hist, k, Life(hist, id)[0]) && Life(hist, id)[0].Id() == id
    ensures forall j, u :: 0 <= j < |hist| && u in hist[j] && u.Id() == id ==> u in Life(hist, id)
  {
    var life := Life(hist, id);
    LifeOrdered(hist, 0, id);
    forall u ensures u in life <==> exists j :: 0 <= j < |hist| && u in hist[j] && u.Id() == id {
      LifeMembers(hist, id, u);
    }
    assert life[0] in life;
    var first :| 0 <= first < |hist| && life[0] in hist[first] && life[0].Id() == id;
    k := first;
    forall j, u | 0 <= j < |hist| && u in hist[j] && u.Id() == id ensures k <= j {
      assert u in life && StampedAt(u, j) && StampedAt(life[0], k);
      var i :| 0 <= i < |life| && life[i] == u;
    }
  }

  /** A row that matches the life of its outpoint is told by the history. */
  lemma ToldByLife(row: UtxoUpdate, hist: seq<Updates>, id: OutPoint) returns (k: nat)
    requires WellFormed(hist) && Life(hist, id) != [] && SameCoin(row, Life(hist, id)[0])
    requires forall u :: u in Life(hist, id) && u.IsSpend() ==> SameSpend(row, u)
    requires (forall u :: u in Life(hist, id) ==> !u.IsSpend()) ==>
      row.spentTxid == None && row.spentAt == None && row.spentBlock == None
    ensures Life(hist, id)[0].Id() == id && RowTold(row, hist, k, Life(hist, id)[0])
  {
    hide SameCoin, SameSpend, WellFormed;
    k := LifeTells(hist, id);
    forall u | u in Life(hist, id) ensures exists j :: 0 <= j < |hist| && u in hist[j] && u.Id() == id {
      LifeMembers(hist, id, u);
    }
  }

  // ---- filters and concatenation ----

  lemma {:induction false} TouchingConcat(a: Updates, b: Updates, id: OutPoint)
    ensures Touching(a + b, id) == Touching(a, id) + Touching(b, id)
  {
    if b == [] {
      assert a + b == a;
    } else {
      assert (a + b)[..|a + b| - 1] == a + b[..|b| - 1];
      TouchingConcat(a, b[..|b| - 1], id);
    }
  }

  lemma {:induction false} TouchingMembers(us: Updates, id: OutPoint, u: UtxoUpdate)
    ensures u in Touching(us, id) <==> u in us && u.Id() == id
  {
    if us != [] {
      assert us == us[..|us| - 1] + [us[|us| - 1]];
      TouchingMembers(us[..|us| - 1], id, u);
    }
  }

  lemma {:induction false} LifeConcat(a: seq<Updates>, b: seq<Updates>, id: OutPoint)
    ensures Life(a + b, id) == Life(a, id) + Life(b, id)
  {
    hide Touching;
    if b == [] {
      assert a + b == a;
    } else {
      assert (a + b)[..|a + b| - 1] == a + b[..|b| - 1];
      LifeConcat(a, b[..|b| - 1], id);
    }
  }

  lemma {:induction false} LifeMembers(hist: seq<Updates>, id: OutPoint, u: UtxoUpdate)
    ensures u in Life(hist, id) <==> exists k :: 0 <= k < |hist| && u in hist[k] && u.Id() == id
  {
    if hist != [] {
      var n := |hist| - 1;
      LifeMembers(hist[..n], id, u);
      TouchingMembers(hist[n], id, u);
      if u in Life(hist[..n], id) {
        var k :| 0 <= k < n && u in hist[..n][k] && u.Id() == id;
        assert u in hist[k];
      }
      if k :| 0 <= k < |hist| && u in hist[k] && u.Id() == id && k < n {
        assert u in hist[..n][k];
      }
    }
  }

  lemma LifeHeights(hist: seq<Updates>, base: int, id: OutPoint)
    requires Stamped(hist, base)
    ensures forall u :: u in Life(hist, id) ==>
      u.Id() == id && base <= u.blockHeight < base + |hist| && StampedAt(u, u.blockHeight)
  {
    forall u | u in Life(hist, id)
      ensures u.Id() == id && base <= u.blockHeight < base + |hist| && StampedAt(u, u.blockHeight)
    {
      LifeMembers(hist, id, u);
    }
  }

  /** A life splits at any height `n` into what was said below `n` and what was said from `n` on. */
  lemma LifeSplit(hist: seq<Updates>, n: nat, id: OutPoint)
    requires Stamped(hist, 0) && n <= |hist|
    ensures Stamped(hist[..n], 0)
    ensures Life(hist, id) == Life(hist[..n], id) + Life(hist[n..], id)
    ensures forall u :: u in Life(hist[..n], id) ==> u.Id() == id && u.blockHeight < n && StampedAt(u, u.blockHeight)
    ensures forall u :: u in Life(hist[n..], id) ==> u.Id() == id && n <= u.blockHeight && StampedAt(u, u.blockHeight)
  {
    assert hist == hist[..n] + hist[n..];
    LifeConcat(hist[..n], hist[n..], id);
    assert Stamped(hist[n..], n) by {
      forall k, u | 0 <= k < |hist[n..]| && u in hist[n..][k] ensures StampedAt(u, n + k) {
        assert u in hist[n + k];
      }
    }
    LifeHeights(hist[..n], 0, id);
    LifeHeights(hist[n..], n, id);
  }

  lemma WellFormedPrefix(hist: seq<Updates>, n: nat)
    requires WellFormed(hist) && n <= |hist|
    ensures WellFormed(hist[..n])
  {
    forall id ensures LifeOk(Life(hist[..n], id)) {
      LifeSplit(hist, n, id);
      assert LifeOk(Life(hist, id));
    }
  }

  /** A life just before the last block. */
  lemma LifeOfLastBlock(hist: seq<Updates>, id: OutPoint)
    requires WellFormed(hist) && hist != []
    ensures WellFormed(hist[..|hist| - 1])
    ensures LifeOk(Life(hist[..|hist| - 1], id)) && LifeOk(Life(hist, id))
    ensures forall u :: u in Life(hist[..|hist| - 1], id) ==> u.Id() == id && u.blockHeight < |hist| - 1
  {
    WellFormedPrefix(hist, |hist| - 1);
    LifeHeights(hist[..|hist| - 1], 0, id);
  }

  lemma NoSameBlockPrefix(hist: seq<Updates>, n: nat)
    requires NoSameBlockSpend(hist) && n <= |hist|
    ensures NoSameBlockSpend(hist[..n])
  {
    forall k, c, s | 0 <= k < n && c in hist[..n][k] && s in hist[..n][k] && !c.IsSpend() && s.IsSpend()
      ensures c.Id() != s.Id()
    {
      assert c in hist[k] && s in hist[k];
    }
  }

  /** Where no block creates and spends one outpoint, a creation is strictly older than its spend. */
  lemma LifeStrict(hist: seq<Updates>, id: OutPoint)
    requires WellFormed(hist) && NoSameBlockSpend(hist)
    ensures |Life(hist, id)| == 2 ==> Life(hist, id)[0].blockHeight < Life(hist, id)[1].blockHeight
  {
    var life := Life(hist, id);
    if |life| == 2 {
      assert LifeOk(life);
      LifeOrdered(hist, 0, id);
      if life[0].blockHeight == life[1].blockHeight {
        LifeMembers(hist, id, life[0]);
        LifeMembers(hist, id, life[1]);
      }
    }
  }

  lemma {:induction false} LifeOrdered(hist: seq<Updates>, base: int, id: OutPoint)
    requires Stamped(hist, base)
    ensures forall i, j :: 0 <= i <= j < |Life(hist, id)| ==> Life(hist, id)[i].blockHeight <= Life(hist, id)[j].blockHeight
  {
    if hist != [] {
      var n := |hist| - 1;
      LifeOrdered(hist[..n], base, id);
      LifeHeights(hist[..n], base, id);
      forall u | u in Touching(hist[n], id) ensures u.blockHeight == base + n {
        TouchingMembers(hist[n], id, u);
      }
      var front, back := Life(hist[..n], id), Touching(hist[n], id);
      forall i, j | 0 <= i <= j < |Life(hist, id)|
        ensures Life(hist, id)[i].blockHeight <= Life(hist, id)[j].blockHeight
      {
        if j < |front| {
        } else if i < |front| {
          assert front[i] in front && back[j - |front|] in back;
        } else {
          assert back[i - |front|] in back && back[j - |front|] in back;
        }
      }
    }
  }

  /** The chain's own answer read off the part of a life at or below `q`. */
  lemma UnspentByLife(hist: seq<Updates>, q: int, address: string, id: OutPoint)
    requires Stamped(hist, 0) && 0 <= q < |hist|
    ensures UnspentOnChain(hist, q, address, id) <==>
      && (exists c :: c in Life(hist[..q + 1], id) && !c.IsSpend() && c.address == address)
      && (forall s :: s in Life(hist[..q + 1], id) ==> !s.IsSpend())
  {
    var past := hist[..q + 1];
    forall u ensures u in Life(past, id) <==> exists k :: 0 <= k <= q && k < |hist| && u in hist[k] && u.Id() == id {
      LifeMembers(past, id, u);
      if k :| 0 <= k <= q && k < |hist| && u in hist[k] && u.Id() == id {
        assert u in past[k];
      }
      if k :| 0 <= k < |past| && u in past[k] && u.Id() == id {
        assert u in hist[k];
      }
    }
  }
}
