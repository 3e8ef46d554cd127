/** Oldest-first coin selection over the spendable outputs of one address. */
module Selection {
  import opened Wrappers
  import opened NetworkShared
  import opened StorageErrors

  type Coins = seq<UtxoUpdate>

  function Total(us: Coins): int {
    if us == [] then 0 else us[0].amount + Total(us[1..])
  }

  // ---- a stable sort by block height ----

  /** Puts `u` behind everything that is not newer. */
  function InsertByHeight(sorted: Coins, u: UtxoUpdate): Coins {
    if sorted == [] then [u]
    else if sorted[0].blockHeight <= u.blockHeight then [sorted[0]] + InsertByHeight(sorted[1..], u)
    else [u] + sorted
  }

  function SortByHeight(us: Coins): Coins {
    if us == [] then [] else InsertByHeight(SortByHeight(us[..|us| - 1]), us[|us| - 1])
  }

  ghost predicate Sorted(us: Coins) {
    forall i, j :: 0 <= i < j < |us| ==> us[i].blockHeight <= us[j].blockHeight
  }

  function AtHeight(us: Coins, h: int): Coins {
    if us == [] then [] else (if us[0].blockHeight == h then [us[0]] else []) + AtHeight(us[1..], h)
  }

  /** `out` is `us` rearranged by height, outputs of one block staying in their order. */
  ghost predicate StablySorted(us: Coins, out: Coins) {
    && Sorted(out)
    && multiset(out) == multiset(us)
    && forall h :: AtHeight(out, h) == AtHeight(us, h)
  }

  lemma {:induction false} InsertMembers(s: Coins, u: UtxoUpdate)
    ensures multiset(InsertByHeight(s, u)) == multiset(s) + multiset{u}
    ensures Total(InsertByHeight(s, u)) == Total(s) + u.amount
    ensures forall x :: x in InsertByHeight(s, u) <==> x in s || x == u
  {
    if s != [] {
      assert s == [s[0]] + s[1..];
      if s[0].blockHeight <= u.blockHeight {
        InsertMembers(s[1..], u);
      }
    }
    forall x ensures x in InsertByHeight(s, u) <==> x in s || x == u {
      assert x in InsertByHeight(s, u) <==> x in multiset(InsertByHeight(s, u));
    }
  }

  lemma SortedFirst(u: UtxoUpdate, rest: Coins)
    requires Sorted(rest) && forall x :: x in rest ==> u.blockHeight <= x.blockHeight
    ensures Sorted([u] + rest)
  {
    assert forall i :: 0 <= i < |rest| ==> rest[i] in rest;
  }

  lemma SortedRest(s: Coins)
    requires s != [] && Sorted(s)
    ensures Sorted(s[1..]) && forall x :: x in s ==> s[0].blockHeight <= x.blockHeight
  {
  }

  lemma {:induction false} InsertSorted(s: Coins, u: UtxoUpdate)
    requires Sorted(s)
    ensures Sorted(InsertByHeight(s, u))
  {
    if s == [] {
      assert InsertByHeight(s, u) == [u];
    } else {
      SortedRest(s);
      hide Sorted;
      if s[0].blockHeight <= u.blockHeight {
        InsertSorted(s[1..], u);
        InsertMembers(s[1..], u);
        SortedFirst(s[0], InsertByHeight(s[1..], u));
      } else {
        SortedFirst(u, s);
      }
    }
  }

  lemma AtHeightFirst(u: UtxoUpdate, rest: Coins, h: int)
    ensures AtHeight([u] + rest, h) == (if u.blockHeight == h then [u] else []) + AtHeight(rest, h)
  {
    assert ([u] + rest)[1..] == rest;
  }

  lemma {:induction false} InsertAtHeight(s: Coins, u: UtxoUpdate, h: int)
    requires Sorted(s)
    ensures AtHeight(InsertByHeight(s, u), h) == AtHeight(s, h) + (if u.blockHeight == h then [u] else [])
  {
    hide AtHeight;
    AtHeightFirst(u, s, h);
    if s == [] {
      NoneBelow(s, h);
      assert [u] + s == [u];
    } else if s[0].blockHeight <= u.blockHeight {
      InsertAtHeight(s[1..], u, h);
      AtHeightFirst(s[0], InsertByHeight(s[1..], u), h);
      AtHeightFirst(s[0], s[1..], h);
      assert s == [s[0]] + s[1..];
    } else if u.blockHeight == h {
      NoneBelow(s, h);
    }
  }

  lemma {:induction false} NoneBelow(s: Coins, h: int)
    requires forall x :: x in s ==> h < x.blockHeight
    ensures AtHeight(s, h) == []
  {
    if s != [] {
      NoneBelow(s[1..], h);
    }
  }

  lemma {:induction false} AtHeightAppend(a: Coins, u: UtxoUpdate, h: int)
    ensures AtHeight(a + [u], h) == AtHeight(a, h) + (if u.blockHeight == h then [u] else [])
  {
    if a == [] {
      assert a + [u] == [u] && [u][1..] == [];
    } else {
      var head := if a[0].blockHeight == h then [a[0]] else [];
      assert (a + [u])[1..] == a[1..] + [u];
      AtHeightAppend(a[1..], u, h);
      assert AtHeight(a + [u], h) == head + AtHeight(a[1..] + [u], h);
    }
  }

  lemma TotalOfOne(u: UtxoUpdate)
    ensures Total([u]) == u.amount
  {
    assert [u][1..] == [];
  }

  lemma {:induction false} TotalAppend(a: Coins, b: Coins)
    ensures Total(a + b) == Total(a) + Total(b)
  {
    if a == [] {
      assert a + b == b;
    } else {
      assert (a + b)[1..] == a[1..] + b;
      TotalAppend(a[1..], b);
    }
  }

  /** The sort is a stable rearrangement and keeps the total. */
  lemma {:induction false} SortIsStable(us: Coins)
    ensures StablySorted(us, SortByHeight(us))
    ensures Total(SortByHeight(us)) == Total(us)
    ensures |SortByHeight(us)| == |us|
  {
    if us != [] {
      var front, u := us[..|us| - 1], us[|us| - 1];
      assert us == front + [u];
      SortIsStable(front);
      InsertMembers(SortByHeight(front), u);
      InsertSorted(SortByHeight(front), u);
      TotalAppend(front, [u]);
      forall h ensures AtHeight(SortByHeight(us), h) == AtHeight(us, h) {
        AtHeightAppend(front, u, h);
        InsertAtHeight(SortByHeight(front), u, h);
      }
      assert |multiset(SortByHeight(us))| == |multiset(us)|;
    }
  }

  lemma {:induction false} AtHeightMember(us: Coins, i: nat)
    requires i < |us|
    ensures AtHeight(us, us[i].blockHeight) != []
  {
    if i > 0 {
      AtHeightMember(us[1..], i - 1);
    }
  }

  lemma {:induction false} MemberAtHeight(us: Coins, h: int)
    requires AtHeight(us, h) != []
    ensures exists i :: 0 <= i < |us| && us[i].blockHeight == h
  {
    if us[0].blockHeight != h {
      MemberAtHeight(us[1..], h);
      var i :| 0 <= i < |us[1..]| && us[1..][i].blockHeight == h;
      assert us[i + 1].blockHeight == h;
    }
  }

  /** There is only one stable rearrangement, so nothing depends on how the library sorts. */
  lemma {:induction false} StableSortIsUnique(a: Coins, b: Coins)
    requires |a| == |b| && Sorted(a) && Sorted(b)
    requires forall h :: AtHeight(a, h) == AtHeight(b, h)
    ensures a == b
  {
    if a != [] {
      AtHeightMember(a, 0);
      MemberAtHeight(b, a[0].blockHeight);
      AtHeightMember(b, 0);
      MemberAtHeight(a, b[0].blockHeight);
      assert AtHeight(a, a[0].blockHeight)[0] == a[0];
      assert AtHeight(b, b[0].blockHeight)[0] == b[0];
      assert a[0] == b[0];
      forall h ensures AtHeight(a[1..], h) == AtHeight(b[1..], h) {
        var skip := if a[0].blockHeight == h then 1 else 0;
        assert AtHeight(a[1..], h) == AtHeight(a, h)[skip..];
        assert AtHeight(b[1..], h) == AtHeight(b, h)[skip..];
      }
      StableSortIsUnique(a[1..], b[1..]);
      assert a == [a[0]] + a[1..] && b == [b[0]] + b[1..];
    }
  }

  // ---- the greedy loop ----

  /** Takes outputs from the front until the target is reached. */
  function Take(us: Coins, target: int): Coins {
    if us == [] || target <= 0 then [] else [us[0]] + Take(us[1..], target - us[0].amount)
  }

  /** What `select_utxos_for_amount` answers when the table lists `rows`. */
  function Select(rows: Coins, target: int): StorageResult<Coins> {
    var selected := Take(SortByHeight(rows), target);
    if rows == [] then Ok([])
    else if Total(selected) >= target then Ok(selected)
    else Err(InsufficientFunds(Total(selected), target))
  }

  lemma TakeOneMore(selected: Coins, sorted: Coins, i: nat, missing: int)
    requires i < |sorted| && missing > 0
    ensures Take(sorted[i..], missing) == [sorted[i]] + Take(sorted[i + 1..], missing - sorted[i].amount)
    ensures Total(selected + [sorted[i]]) == Total(selected) + sorted[i].amount
  {
    TotalAppend(selected, [sorted[i]]);
    TotalOfOne(sorted[i]);
    assert sorted[i..][1..] == sorted[i + 1..];
  }

  /** The accumulating loop over a sorted list. */
  method TakeFromFront(sorted: Coins, target: int) returns (selected: Coins, accumulated: int)
    ensures selected == Take(sorted, target) && accumulated == Total(selected)
  {
    selected, accumulated := [], 0;
    assert sorted[0..] == sorted;
    var i := 0;
    while i < |sorted|
      invariant 0 <= i <= |sorted|
      invariant accumulated == Total(selected)
      invariant Take(sorted, target) == selected + Take(sorted[i..], target - accumulated)
    {
      if accumulated >= target {
        break;
      }
      TakeOneMore(selected, sorted, i, target - accumulated);
      selected := selected + [sorted[i]];
      accumulated := accumulated + sorted[i].amount;
      i := i + 1;
    }
    assert Take(sorted[i..], target - accumulated) == [];
  }

  /** Sort, accumulate, compare; `rows` is not empty when storage reaches it. */
  method AccumulateOldestFirst(rows: Coins, target: int) returns (r: StorageResult<Coins>)
    requires rows != []
    ensures r == Select(rows, target)
  {
    var selected, accumulated := TakeFromFront(SortByHeight(rows), target);
    if accumulated >= target {
      r := Ok(selected);
    } else {
      r := Err(InsufficientFunds(accumulated, target));
    }
  }

  ghost predicate NonNegative(us: Coins) {
    forall u :: u in us ==> u.amount >= 0
  }

  lemma {:induction false} TotalNonNegative(us: Coins)
    requires NonNegative(us)
    ensures Total(us) >= 0
  {
    if us != [] {
      TotalNonNegative(us[1..]);
    }
  }

  lemma {:induction false} TakeIsPrefix(us: Coins, target: int)
    ensures |Take(us, target)| <= |us| && Take(us, target) == us[..|Take(us, target)|]
  {
    if us != [] && target > 0 {
      var rest := Take(us[1..], target - us[0].amount);
      TakeIsPrefix(us[1..], target - us[0].amount);
      assert us[..1 + |rest|] == [us[0]] + us[1..][..|rest|];
    }
  }

  lemma {:induction false} TakeReachesOrAll(us: Coins, target: int)
    ensures Total(Take(us, target)) >= target || Take(us, target) == us
  {
    if us != [] && target > 0 {
      var rest := Take(us[1..], target - us[0].amount);
      TakeReachesOrAll(us[1..], target - us[0].amount);
      assert ([us[0]] + rest)[1..] == rest;
      assert us == [us[0]] + us[1..];
    }
  }

  lemma {:induction false} ShorterFallsShort(us: Coins, target: int, m: nat)
    requires m < |Take(us, target)| && m <= |us|
    ensures Total(us[..m]) < target
  {
    if m > 0 {
      TakeIsPrefix(us, target);
      assert us[..m][0] == us[0] && us[..m][1..] == us[1..][..m - 1];
      ShorterFallsShort(us[1..], target - us[0].amount, m - 1);
    }
  }

  /** The greedy result is the shortest prefix that reaches the target, or everything. */
  lemma TakeIsShortestPrefix(us: Coins, target: int)
    ensures |Take(us, target)| <= |us| && Take(us, target) == us[..|Take(us, target)|]
    ensures forall m :: 0 <= m < |Take(us, target)| ==> Total(us[..m]) < target
    ensures Total(Take(us, target)) >= target || Take(us, target) == us
  {
    hide Take, Total;
    TakeIsPrefix(us, target);
    TakeReachesOrAll(us, target);
    forall m | 0 <= m < |Take(us, target)| ensures Total(us[..m]) < target {
      ShorterFallsShort(us, target, m);
    }
  }

  lemma TotalOfPrefix(us: Coins, n: nat)
    requires n <= |us| && NonNegative(us)
    ensures Total(us[..n]) <= Total(us)
    ensures n > 0 ==> Total(us[..n]) == Total(us[..n - 1]) + us[n - 1].amount
  {
    hide Total;
    assert us == us[..n] + us[n..];
    TotalAppend(us[..n], us[n..]);
    TotalNonNegative(us[n..]);
    if n > 0 {
      assert us[..n] == us[..n - 1] + [us[n - 1]];
      TotalAppend(us[..n - 1], [us[n - 1]]);
      TotalOfOne(us[n - 1]);
    }
  }

  /** Greedy selection fails exactly when everything together is too little. */
  lemma SelectFailsIff(rows: Coins, target: int)
    requires rows != [] && NonNegative(rows)
    ensures Select(rows, target).Err? <==> Total(rows) < target
    ensures Select(rows, target).Err? ==> Select(rows, target).error == InsufficientFunds(Total(rows), target)
  {
    var sorted := SortByHeight(rows);
    SortIsStable(rows);
    TakeIsShortestPrefix(sorted, target);
    assert NonNegative(sorted) by {
      forall u | u in sorted ensures u.amount >= 0 {
        assert u in multiset(sorted);
      }
    }
    TotalOfPrefix(sorted, |Take(sorted, target)|);
  }

  /** `coins` is the shortest prefix reaching `target` of `rows`, stably sorted by height. */
  ghost predicate OldestFirst(rows: Coins, target: int, coins: Coins) {
    && Total(coins) >= target
    && (forall m :: 0 <= m < |coins| ==> Total(coins[..m]) < target)
    && exists sorted :: StablySorted(rows, sorted) && coins <= sorted
  }

  lemma TakeIsOldestFirst(rows: Coins, target: int)
    requires Total(Take(SortByHeight(rows), target)) >= target
    ensures OldestFirst(rows, target, Take(SortByHeight(rows), target))
  {
    hide Take, SortByHeight, Total;
    var sorted := SortByHeight(rows);
    var coins := Take(sorted, target);
    SortIsStable(rows);
    TakeIsShortestPrefix(sorted, target);
    forall m | 0 <= m < |coins| ensures Total(coins[..m]) < target {
      assert coins[..m] == sorted[..m];
    }
  }

  /** What such a selection means: part of the input, nothing older left out, no coin too many. */
  lemma OldestFirstMeans(rows: Coins, target: int, coins: Coins)
    requires OldestFirst(rows, target, coins)
    ensures multiset(coins) <= multiset(rows)
    ensures forall s, u :: s in coins && u in multiset(rows) - multiset(coins) ==> s.blockHeight <= u.blockHeight
    ensures coins != [] ==> Total(coins) < target + coins[|coins| - 1].amount
  {
    hide StablySorted, Total;
    var sorted :| StablySorted(rows, sorted) && coins <= sorted;
    PrefixLeavesNewer(rows, sorted, coins);
    if coins != [] {
      var n := |coins| - 1;
      assert coins == coins[..n] + [coins[n]];
      TotalAppend(coins[..n], [coins[n]]);
      TotalOfOne(coins[n]);
    }
  }

  lemma PrefixLeavesNewer(rows: Coins, sorted: Coins, coins: Coins)
    requires StablySorted(rows, sorted) && coins <= sorted
    ensures multiset(coins) <= multiset(rows)
    ensures forall s, u :: s in coins && u in multiset(rows) - multiset(coins) ==> s.blockHeight <= u.blockHeight
  {
    hide AtHeight;
    var rest := sorted[|coins|..];
    assert sorted == coins + rest;
    assert multiset(rows) == multiset(coins) + multiset(rest);
    forall s, u | s in coins && u in multiset(rows) - multiset(coins) ensures s.blockHeight <= u.blockHeight {
      assert u in multiset(rest);
    }
  }

  lemma WithoutOne(us: Coins, u: UtxoUpdate) returns (others: Coins)
    requires u in us
    ensures multiset(us) == multiset(others) + multiset{u}
    ensures Total(us) == Total(others) + u.amount
    ensures forall x :: x in others ==> x in us
  {
    hide Total;
    var i :| 0 <= i < |us| && us[i] == u;
    var front, back := us[..i], us[i + 1..];
    others := front + back;
    assert us == front + ([u] + back);
    TotalAppend(front, [u] + back);
    TotalAppend([u], back);
    TotalAppend(front, back);
    TotalOfOne(u);
  }

  /** Part of a list of non-negative amounts does not add up to more. */
  lemma {:induction false} SmallerTotal(part: Coins, us: Coins)
    requires NonNegative(us) && multiset(part) <= multiset(us)
    ensures Total(part) <= Total(us)
  {
    if part == [] {
      TotalNonNegative(us);
    } else {
      var u, rest := part[0], part[1..];
      assert part == [u] + rest;
      assert multiset(part) == multiset{u} + multiset(rest);
      assert u in multiset(part);
      var others := WithoutOne(us, u);
      forall x ensures multiset(rest)[x] <= multiset(others)[x] {
        assert multiset(part)[x] <= multiset(us)[x];
      }
      SmallerTotal(rest, others);
    }
  }

  /** When it does not fail, it takes the oldest coins, and no more than it needs. */
  lemma SelectIsOldestFirst(rows: Coins, target: int)
    requires rows != [] && NonNegative(rows) && 0 < target <= Total(rows)
    ensures
      var r := Select(rows, target);
      && r.Ok? && r.value != [] && r.value <= SortByHeight(rows)
      && OldestFirst(rows, target, r.value)
      && multiset(r.value) <= multiset(rows)
      && target <= Total(r.value) < target + r.value[|r.value| - 1].amount
      && forall s, u :: s in r.value && u in multiset(rows) - multiset(r.value) ==> s.blockHeight <= u.blockHeight
  {
    hide SortByHeight, Take, OldestFirst;
    assert Total([]) == 0;
    SelectFailsIff(rows, target);
    TakeIsOldestFirst(rows, target);
    TakeIsPrefix(SortByHeight(rows), target);
    OldestFirstMeans(rows, target, Take(SortByHeight(rows), target));
    SelectedReaches(rows, target);
  }

  lemma SelectedReaches(rows: Coins, target: int)
    ensures Select(rows, target).Ok? ==> rows == [] || Total(Select(rows, target).value) >= target
  {
  }
}
