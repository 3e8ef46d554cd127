/** The indexer's three ways to select outputs across the watched addresses. */
module Api {
  import opened Wrappers
  import opened Selection
  import opened Http
  import Addresses

  datatype ApiError = ServiceError | InsufficientAcross | InsufficientFundsError | InvalidDestination

  /** The position of the first address with any spendable output, or the number of addresses. */
  function FirstFunded(v: View, height: int, addresses: seq<string>): (n: nat)
    ensures n <= |addresses|
    ensures forall i :: 0 <= i < n ==> v.rows(height, addresses[i]) == []
    ensures n < |addresses| ==> v.rows(height, addresses[n]) != []
  {
    if addresses == [] || v.rows(height, addresses[0]) != [] then 0 else 1 + FirstFunded(v, height, addresses[1..])
  }

  /** The queries below are about an existing block, parseable addresses and accepted rows. */
  ghost predicate Queryable(v: View, height: int, addresses: seq<string>) {
    && 0 <= height <= v.latest
    && (forall a :: a in addresses ==> v.parses(a))
    && (forall a :: a in addresses ==> NonNegative(v.rows(height, a)))
  }

  /** What the selection comes to: one address pays everything, or nobody does. */
  function Chosen(v: View, height: int, addresses: seq<string>, needed: int): Result<Coins, ApiError> {
    var n := FirstFunded(v, height, addresses);
    if n == |addresses| then Err(InsufficientAcross)
    else
      match Select(v.rows(height, addresses[n]), needed)
      case Ok(selected) => Ok(selected)
      case Err(_) => Err(ServiceError)
  }

  // ---- the loops ----

  /** Pushes outputs one by one until the target is reached. */
  function Collected(selected: Coins, utxos: Coins, needed: int): Coins
    decreases |utxos|
  {
    if utxos == [] then selected
    else if Total(selected + [utxos[0]]) >= needed then selected + [utxos[0]]
    else Collected(selected + [utxos[0]], utxos[1..], needed)
  }

  /** Asks address by address for what is still missing; any refusal ends the selection. */
  function Gather(v: View, height: int, addresses: seq<string>, needed: int, selected: Coins): Result<Coins, ApiError>
    decreases |addresses|
  {
    if addresses == [] then Err(InsufficientAcross)
    else
      match SelectUtxos(v, height, addresses[0], needed - Total(selected))
      case Success(utxos) =>
        var all := Collected(selected, utxos, needed);
        if Total(all) >= needed then Ok(all) else Gather(v, height, addresses[1..], needed, all)
      case _ => Err(ServiceError)
  }

  method Collect(selected: Coins, utxos: Coins, needed: int) returns (all: Coins, total: int)
    ensures all == Collected(selected, utxos, needed) && total == Total(all)
  {
    all, total := selected, Total(selected);
    var i := 0;
    while i < |utxos|
      invariant 0 <= i <= |utxos| && total == Total(all)
      invariant Collected(selected, utxos, needed) == Collected(all, utxos[i..], needed)
    {
      TotalAppend(all, [utxos[i]]);
      TotalOfOne(utxos[i]);
      assert utxos[i..][1..] == utxos[i + 1..];
      total := total + utxos[i].amount;
      all := all + [utxos[i]];
      if total >= needed {
        return;
      }
      i := i + 1;
    }
  }

  /** In enumeration order of the watch set. */
  method FetchSelectedUtxos(v: View, addresses: seq<string>, blockHeight: int, totalNeeded: int)
    returns (r: Result<Coins, ApiError>)
    ensures r == Gather(v, blockHeight, addresses, totalNeeded, [])
  {
    hide SelectUtxos, Collected;
    var selected: Coins, total := [], 0;
    var i := 0;
    while i < |addresses|
      invariant 0 <= i <= |addresses| && total == Total(selected)
      invariant Gather(v, blockHeight, addresses, totalNeeded, [])
             == Gather(v, blockHeight, addresses[i..], totalNeeded, selected)
    {
      assert addresses[i..][1..] == addresses[i + 1..];
      var reply := SelectUtxos(v, blockHeight, addresses[i], totalNeeded - total);
      if !reply.Success? {
        return Err(ServiceError);
      }
      selected, total := Collect(selected, reply.utxos, totalNeeded);
      if total >= totalNeeded {
        return Ok(selected);
      }
      i := i + 1;
    }
    r := Err(InsufficientAcross);
  }

  /** As `Gather`, but the target is looked at before each address rather than after. */
  function GatherWhileShort(v: View, height: int, addresses: seq<string>, needed: int, selected: Coins)
    : Result<Coins, ApiError>
    decreases |addresses|
  {
    if Total(selected) >= needed then Ok(selected)
    else if addresses == [] then Err(InsufficientAcross)
    else
      match SelectUtxos(v, height, addresses[0], needed - Total(selected))
      case Success(utxos) => GatherWhileShort(v, height, addresses[1..], needed, Collected(selected, utxos, needed))
      case _ => Err(ServiceError)
  }

  /** In text order. */
  method FetchSelectedUtxosDeterministic(v: View, watched: seq<string>, blockHeight: int, totalNeeded: int)
    returns (r: Result<Coins, ApiError>)
    ensures r == GatherWhileShort(v, blockHeight, Addresses.Sort(watched), totalNeeded, [])
    ensures Queryable(v, blockHeight, watched) && totalNeeded > 0 ==> PaidByLeast(v, blockHeight, watched, totalNeeded, r)
  {
    hide SelectUtxos, Collected, Queryable, PaidByLeast, Addresses.Sort;
    if Queryable(v, blockHeight, watched) && totalNeeded > 0 {
      LeastFundedPays(v, blockHeight, watched, totalNeeded);
    }
    var addresses := Addresses.Sort(watched);
    var selected: Coins, total := [], 0;
    var i := 0;
    while i < |addresses|
      invariant 0 <= i <= |addresses| && total == Total(selected)
      invariant GatherWhileShort(v, blockHeight, addresses, totalNeeded, [])
             == GatherWhileShort(v, blockHeight, addresses[i..], totalNeeded, selected)
    {
      if total >= totalNeeded {
        break;
      }
      assert addresses[i..][1..] == addresses[i + 1..];
      var reply := SelectUtxos(v, blockHeight, addresses[i], totalNeeded - total);
      if !reply.Success? {
        return Err(ServiceError);
      }
      selected, total := Collect(selected, reply.utxos, totalNeeded);
      i := i + 1;
    }
    if total < totalNeeded {
      return Err(InsufficientAcross);
    }
    r := Ok(selected);
  }

  /**
   * The two loops differ only on requests for nothing: one is met with no outputs, the other is
   * refused by storage, or by the empty watch set.
   */
  lemma {:induction false} LoopsDiffer(v: View, height: int, addresses: seq<string>, needed: int, selected: Coins)
    ensures Total(selected) < needed ==>
      GatherWhileShort(v, height, addresses, needed, selected) == Gather(v, height, addresses, needed, selected)
    ensures needed <= 0 ==>
      GatherWhileShort(v, height, addresses, needed, []) == Ok([]) && Gather(v, height, addresses, needed, []).Err?
    decreases |addresses|
  {
    if addresses != [] {
      var reply := SelectUtxos(v, height, addresses[0], needed - Total(selected));
      if reply.Success? {
        LoopsDiffer(v, height, addresses[1..], needed, Collected(selected, reply.utxos, needed));
      }
    }
  }

  // ---- what the loops come to ----

  lemma {:induction false} CollectedIsTake(selected: Coins, utxos: Coins, needed: int)
    requires Total(selected) < needed
    ensures Collected(selected, utxos, needed) == selected + Take(utxos, needed - Total(selected))
    decreases |utxos|
  {
    if utxos != [] {
      TotalAppend(selected, [utxos[0]]);
      TotalOfOne(utxos[0]);
      if Total(selected + [utxos[0]]) < needed {
        CollectedIsTake(selected + [utxos[0]], utxos[1..], needed);
      }
    }
  }

  lemma {:induction false} TakeAgain(us: Coins, target: int)
    ensures Take(Take(us, target), target) == Take(us, target)
  {
    if us != [] && target > 0 {
      var rest := Take(us[1..], target - us[0].amount);
      var all := [us[0]] + rest;
      TakeAgain(us[1..], target - us[0].amount);
      assert Take(us, target) == all && all[0] == us[0] && all[1..] == rest;
      assert Take(all, target) == [us[0]] + Take(rest, target - us[0].amount);
    }
  }

  /**
   * Amounts are never pooled over addresses: the first address with anything spendable either
   * covers the whole amount, and its oldest outputs are selected, or the request is refused.
   */
  lemma {:induction false} GatherIsChosen(v: View, height: int, addresses: seq<string>, needed: int)
    requires Queryable(v, height, addresses) && needed > 0
    ensures Gather(v, height, addresses, needed, []) == Chosen(v, height, addresses, needed)
  {
    hide Take, SortByHeight;
    if addresses != [] {
      var rows := v.rows(height, addresses[0]);
      if rows == [] {
        GatherIsChosen(v, height, addresses[1..], needed);
      } else {
        NothingLeftOver(SortByHeight(rows), needed);
      }
    }
  }

  /** Collecting what storage selected takes all of it. */
  lemma NothingLeftOver(sorted: Coins, needed: int)
    requires needed > 0
    ensures Collected([], Take(sorted, needed), needed) == Take(sorted, needed)
  {
    var selected := Take(sorted, needed);
    CollectedIsTake([], selected, needed);
    TakeAgain(sorted, needed);
    assert [] + selected == selected;
  }

  /** The selection succeeds exactly when the first funded address alone covers the amount. */
  lemma FetchSucceedsIff(v: View, height: int, addresses: seq<string>, needed: int)
    requires Queryable(v, height, addresses) && needed > 0
    ensures
      var n := FirstFunded(v, height, addresses);
      && (Gather(v, height, addresses, needed, []).Ok? <==>
            n < |addresses| && Total(v.rows(height, addresses[n])) >= needed)
      && (Gather(v, height, addresses, needed, []).Ok? ==>
            Select(v.rows(height, addresses[n]), needed) == Ok(Gather(v, height, addresses, needed, []).value))
  {
    var n := FirstFunded(v, height, addresses);
    GatherIsChosen(v, height, addresses, needed);
    if n < |addresses| {
      assert addresses[n] in addresses;
      SelectFailsIff(v.rows(height, addresses[n]), needed);
    }
  }

  /** The deterministic variant gives one answer per watch set, however the set is enumerated. */
  lemma EnumerationDoesNotMatter(v: View, height: int, needed: int, one: seq<string>, other: seq<string>)
    requires multiset(one) == multiset(other)
    ensures GatherWhileShort(v, height, Addresses.Sort(one), needed, [])
         == GatherWhileShort(v, height, Addresses.Sort(other), needed, [])
  {
    Addresses.SortIgnoresEnumeration(one, other);
  }

  /** The lexicographically least address with anything spendable. */
  ghost predicate LeastFunded(v: View, height: int, watched: seq<string>, a: string) {
    && a in watched && v.rows(height, a) != []
    && forall b :: b in watched && v.rows(height, b) != [] ==> Addresses.Precedes(a, b)
  }

  /** That address pays everything, oldest coins first; or it has too little, or there is none. */
  ghost predicate PaidByLeast(v: View, height: int, watched: seq<string>, needed: int, r: Result<Coins, ApiError>) {
    match r
    case Ok(coins) => exists a :: LeastFunded(v, height, watched, a) && OldestFirst(v.rows(height, a), needed, coins)
    case Err(_) => forall a :: LeastFunded(v, height, watched, a) ==> Total(v.rows(height, a)) < needed
  }

  lemma FirstFundedIsLeast(v: View, height: int, watched: seq<string>)
    ensures
      var sorted := Addresses.Sort(watched);
      var n := FirstFunded(v, height, sorted);
      forall a :: LeastFunded(v, height, watched, a) <==> n < |sorted| && a == sorted[n]
  {
    hide Addresses.TextLe, Addresses.Precedes, Addresses.Sort;
    var sorted := Addresses.Sort(watched);
    var n := FirstFunded(v, height, sorted);
    Addresses.SortOrders(watched);
    assert forall a :: a in watched <==> a in multiset(sorted);
    if n < |sorted| {
      assert sorted[n] in multiset(sorted);
      forall b | b in watched && v.rows(height, b) != [] ensures Addresses.Precedes(sorted[n], b) {
        var j :| 0 <= j < |sorted| && sorted[j] == b;
        Addresses.TextOrder(b, b, "");
        Addresses.TextLeIsLexicographic(sorted[n], b);
      }
      forall a | LeastFunded(v, height, watched, a) ensures a == sorted[n] {
        Addresses.TextLeIsLexicographic(a, sorted[n]);
        Addresses.TextLeIsLexicographic(sorted[n], a);
        Addresses.TextOrder(a, sorted[n], "");
      }
    } else {
      forall a | a in watched ensures v.rows(height, a) == [] {
        var j :| 0 <= j < |sorted| && sorted[j] == a;
      }
    }
  }

  /** The deterministic selection is paid by the least funded address, or refused. */
  lemma LeastFundedPays(v: View, height: int, watched: seq<string>, needed: int)
    requires Queryable(v, height, watched) && needed > 0
    ensures PaidByLeast(v, height, watched, needed, GatherWhileShort(v, height, Addresses.Sort(watched), needed, []))
  {
    hide Addresses.Sort, Gather, GatherWhileShort, Take, SortByHeight;
    var sorted := Addresses.Sort(watched);
    var n := FirstFunded(v, height, sorted);
    assert Queryable(v, height, sorted) by {
      Addresses.SortOrders(watched);
      assert forall a :: a in sorted ==> a in multiset(watched);
    }
    assert Total([]) == 0;
    LoopsDiffer(v, height, sorted, needed, []);
    FetchSucceedsIff(v, height, sorted, needed);
    FirstFundedIsLeast(v, height, watched);
    if n < |sorted| && Total(v.rows(height, sorted[n])) >= needed {
      SelectFailsIff(v.rows(height, sorted[n]), needed);
      TakeIsOldestFirst(v.rows(height, sorted[n]), needed);
    }
  }

  // ---- the pooling route ----

  /** Everything spendable over all addresses; addresses storage refuses are skipped. */
  function Pool(v: View, height: int, addresses: seq<string>): Coins {
    if addresses == [] then []
    else
      var n := |addresses| - 1;
      Pool(v, height, addresses[..n]) +
      (match GetSpendableUtxos(v, height, addresses[n]) case Success(utxos) => utxos case _ => [])
  }

  /** The pool is put together address by address, from exactly the rows that storage lists. */
  lemma {:induction false} PoolIsUnion(v: View, height: int, a: seq<string>, b: seq<string>)
    ensures Pool(v, height, a + b) == Pool(v, height, a) + Pool(v, height, b)
    ensures forall x :: Pool(v, height, [x]) == if 0 <= height <= v.latest && v.parses(x) then v.rows(height, x) else []
  {
    forall x ensures Pool(v, height, [x]) == if 0 <= height <= v.latest && v.parses(x) then v.rows(height, x) else [] {
      assert [x][..0] == [];
    }
    if b == [] {
      assert a + b == a;
    } else {
      assert (a + b)[..|a + b| - 1] == a + b[..|b| - 1];
      PoolIsUnion(v, height, a, b[..|b| - 1]);
    }
  }

  method SelectUtxosHandler(v: View, addresses: seq<string>, blockHeight: int, targetAmount: int)
    returns (r: Result<Coins, ApiError>)
    ensures
      var selected := Take(SortByHeight(Pool(v, blockHeight, addresses)), targetAmount);
      r == if Total(selected) < targetAmount then Err(InsufficientFundsError) else Ok(selected)
    ensures r.Ok? ==> OldestFirst(Pool(v, blockHeight, addresses), targetAmount, r.value)
  {
    var utxos: Coins := [];
    var i := 0;
    while i < |addresses|
      invariant 0 <= i <= |addresses|
      invariant utxos == Pool(v, blockHeight, addresses[..i])
    {
      var reply := GetSpendableUtxos(v, blockHeight, addresses[i]);
      assert addresses[..i + 1][..i] == addresses[..i];
      if reply.Success? {
        utxos := utxos + reply.utxos;
      }
      i := i + 1;
    }
    assert addresses[..i] == addresses;
    var selected, total := TakeFromFront(SortByHeight(utxos), targetAmount);
    if total < targetAmount {
      return Err(InsufficientFundsError);
    }
    TakeIsOldestFirst(utxos, targetAmount);
    r := Ok(selected);
  }

  lemma {:induction false} PoolIsNonNegative(v: View, height: int, addresses: seq<string>)
    requires Queryable(v, height, addresses)
    ensures NonNegative(Pool(v, height, addresses))
  {
    if addresses != [] {
      PoolIsNonNegative(v, height, addresses[..|addresses| - 1]);
    }
  }

  lemma {:induction false} PoolCoversEach(v: View, height: int, addresses: seq<string>, n: nat)
    requires Queryable(v, height, addresses) && n < |addresses|
    ensures Total(Pool(v, height, addresses)) >= Total(v.rows(height, addresses[n]))
  {
    hide Total;
    var last := |addresses| - 1;
    var front, rows := Pool(v, height, addresses[..last]), v.rows(height, addresses[last]);
    TotalAppend(front, rows);
    if n < last {
      PoolCoversEach(v, height, addresses[..last], n);
      TotalNonNegative(rows);
    } else {
      PoolIsNonNegative(v, height, addresses[..last]);
      TotalNonNegative(front);
    }
  }

  /** The pooling route succeeds exactly when everything together is enough. */
  lemma PoolSucceedsIff(v: View, height: int, addresses: seq<string>, target: int)
    requires Queryable(v, height, addresses)
    ensures Total(Take(SortByHeight(Pool(v, height, addresses)), target)) >= target
       <==> Total(Pool(v, height, addresses)) >= target
  {
    var pool := Pool(v, height, addresses);
    var sorted := SortByHeight(pool);
    PoolIsNonNegative(v, height, addresses);
    SortIsStable(pool);
    TakeIsShortestPrefix(sorted, target);
    assert NonNegative(sorted) by {
      forall u | u in sorted ensures u.amount >= 0 {
        assert u in multiset(sorted);
      }
    }
    TotalOfPrefix(sorted, |Take(sorted, target)|);
  }

  /** Whatever the per-address selection can pay, the pooling route can pay. */
  lemma FetchImpliesPool(v: View, height: int, addresses: seq<string>, needed: int)
    requires Queryable(v, height, addresses) && needed > 0
    requires Gather(v, height, addresses, needed, []).Ok?
    ensures Total(Take(SortByHeight(Pool(v, height, addresses)), needed)) >= needed
  {
    var n := FirstFunded(v, height, addresses);
    FetchSucceedsIff(v, height, addresses, needed);
    PoolCoversEach(v, height, addresses, n);
    PoolSucceedsIff(v, height, addresses, needed);
  }

  lemma {:induction false} PoolOfNone(v: View, height: int, addresses: seq<string>)
    requires Queryable(v, height, addresses) && forall a :: a in addresses ==> v.rows(height, a) == []
    ensures Pool(v, height, addresses) == []
  {
    if addresses != [] {
      var n := |addresses| - 1;
      PoolOfNone(v, height, addresses[..n]);
      assert addresses[n] in addresses;
    }
  }

  /**
   * The converse holds but for one case: the pooling route pays and the per-address selection
   * refuses exactly when all addresses together have enough and the first funded one has not.
   */
  lemma PoolButNotFetchIff(v: View, height: int, addresses: seq<string>, needed: int)
    requires Queryable(v, height, addresses) && needed > 0
    ensures
      var n := FirstFunded(v, height, addresses);
      var pool := Pool(v, height, addresses);
      (Total(Take(SortByHeight(pool), needed)) >= needed && Gather(v, height, addresses, needed, []).Err?)
      <==> Total(pool) >= needed && n < |addresses| && Total(v.rows(height, addresses[n])) < needed
  {
    var n := FirstFunded(v, height, addresses);
    FetchSucceedsIff(v, height, addresses, needed);
    PoolSucceedsIff(v, height, addresses, needed);
    if n == |addresses| {
      PoolOfNone(v, height, addresses);
    }
  }
}
