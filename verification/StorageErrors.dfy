/** The errors of the storage service, and its validation of incoming updates. */
module StorageErrors {
  import opened Wrappers
  import opened NetworkShared
  import opened History

  datatype StorageError =
    | DatabaseQueryFailed
    | BlockNotFound(height: int)
    | InsufficientFunds(available: int, required: int)
    | InvalidAddress
    | InvalidBlockHeight(height: int)
    | InvalidAmount(amount: int)

  type StorageResult<+T> = Result<T, StorageError>

  function Rejection(u: UtxoUpdate): StorageError
    requires !u.Acceptable()
  {
    if u.amount < 0 then InvalidAmount(u.amount) else InvalidAddress
  }

  /** The index of the first update that storage rejects, or the length of the list. */
  function FirstRejected(us: Updates): (n: nat)
    ensures n <= |us|
    ensures forall i :: 0 <= i < n ==> us[i].Acceptable()
    ensures n < |us| ==> !us[n].Acceptable()
  {
    if us == [] then 0
    else if !us[0].Acceptable() then 0
    else 1 + FirstRejected(us[1..])
  }

  /** Update `i` is the first with a fault; a negative amount is named before an empty address. */
  ghost predicate FirstFault(us: Updates, i: nat, e: StorageError)
    requires i < |us|
  {
    && (forall j :: 0 <= j < i ==> us[j].amount >= 0 && us[j].address != "")
    && if us[i].amount < 0 then e == InvalidAmount(us[i].amount) else us[i].address == "" && e == InvalidAddress
  }

  predicate AllAcceptable(us: Updates) {
    forall u :: u in us ==> u.Acceptable()
  }

  lemma FirstRejectedIs(us: Updates, n: nat)
    requires n <= |us|
    requires forall i :: 0 <= i < n ==> us[i].Acceptable()
    requires n < |us| ==> !us[n].Acceptable()
    ensures FirstRejected(us) == n
    ensures n == |us| <==> AllAcceptable(us)
  {
    if n < |us| {
      assert us[n] in us;
    }
  }
}
