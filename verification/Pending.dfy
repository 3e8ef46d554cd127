/** The updates of one block, sorted into changes of known outputs and new outputs. */
module Pending {
  import opened NetworkShared
  import opened History

  datatype PendingChanges = PendingChanges(height: int, utxosUpdate: Updates, utxosInsert: Updates)

  function Spends(us: Updates): Updates {
    if us == [] then []
    else Spends(us[..|us| - 1]) + (if us[|us| - 1].IsSpend() then [us[|us| - 1]] else [])
  }

  function Creations(us: Updates): Updates {
    if us == [] then []
    else Creations(us[..|us| - 1]) + (if us[|us| - 1].IsSpend() then [] else [us[|us| - 1]])
  }

  lemma OneUpdate(u: UtxoUpdate, id: OutPoint)
    ensures Touching([u], id) == if u.Id() == id then [u] else []
    ensures Spends([u]) == if u.IsSpend() then [u] else []
    ensures Creations([u]) == if u.IsSpend() then [] else [u]
  {
    assert [u][..0] == [];
  }

  lemma TwoUpdates(a: UtxoUpdate, b: UtxoUpdate)
    ensures Spends([a, b]) == (if a.IsSpend() then [a] else []) + (if b.IsSpend() then [b] else [])
    ensures Creations([a, b]) == (if a.IsSpend() then [] else [a]) + (if b.IsSpend() then [] else [b])
  {
    assert [a, b][..1] == [a];
    OneUpdate(a, a.Id());
  }

  lemma {:induction false} TouchingSpends(us: Updates, id: OutPoint)
    ensures Touching(Spends(us), id) == Spends(Touching(us, id))
  {
    if us != [] {
      var front, last := us[..|us| - 1], us[|us| - 1];
      TouchingSpends(front, id);
      TouchingConcat(Spends(front), [last], id);
      OneUpdate(last, id);
      if !last.IsSpend() {
        assert Spends(us) == Spends(front);
      }
      if last.Id() == id {
        assert Touching(us, id)[..|Touching(us, id)| - 1] == Touching(front, id);
      } else {
        assert Touching(us, id) == Touching(front, id);
      }
    }
  }

  lemma {:induction false} TouchingCreations(us: Updates, id: OutPoint)
    ensures Touching(Creations(us), id) == Creations(Touching(us, id))
  {
    if us != [] {
      var front, last := us[..|us| - 1], us[|us| - 1];
      TouchingCreations(front, id);
      TouchingConcat(Creations(front), [last], id);
      OneUpdate(last, id);
      if last.IsSpend() {
        assert Creations(us) == Creations(front);
      }
      if last.Id() == id {
        assert Touching(us, id)[..|Touching(us, id)| - 1] == Touching(front, id);
      } else {
        assert Touching(us, id) == Touching(front, id);
      }
    }
  }

  lemma {:induction false} SplitKinds(us: Updates)
    ensures forall u :: u in Spends(us) <==> u in us && u.IsSpend()
    ensures forall u :: u in Creations(us) <==> u in us && !u.IsSpend()
  {
    if us != [] {
      SplitKinds(us[..|us| - 1]);
      assert us == us[..|us| - 1] + [us[|us| - 1]];
    }
  }
}
