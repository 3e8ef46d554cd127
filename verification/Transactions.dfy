/** Building the unsigned transaction from a selection. */
module Transactions {
  import opened Wrappers
  import opened Selection
  import opened Http
  import opened Api

  datatype TxIn = TxIn(txid: string, vout: int)

  datatype TxOut = TxOut(value: int, script: string)

  datatype Transaction = Transaction(inputs: seq<TxIn>, outputs: seq<TxOut>)

  /** Text parsers of the node library: a txid to its canonical form, an address to its script. */
  datatype Parsers = Parsers(txid: string -> Option<string>, address: string -> Option<string>)

  const TWO_TO_THE_32 := 0x1_0000_0000
  const TWO_TO_THE_63 := 0x8000_0000_0000_0000
  const TWO_TO_THE_64 := 0x1_0000_0000_0000_0000

  /** The casts wrap around. */
  function AsU32(x: int): int {
    x % TWO_TO_THE_32
  }

  function AsU64(x: int): int {
    x % TWO_TO_THE_64
  }

  /** A non-negative number in range is kept, a negative one becomes its two's complement. */
  lemma CastsWrap(x: int)
    ensures -TWO_TO_THE_32 <= 2 * x < TWO_TO_THE_32 ==> AsU32(x) == if x >= 0 then x else x + TWO_TO_THE_32
    ensures -TWO_TO_THE_63 <= x < TWO_TO_THE_63 ==> AsU64(x) == if x >= 0 then x else x + TWO_TO_THE_64
  {
  }

  /** One input per output whose txid parses, in order. */
  function Inputs(selected: Coins, p: Parsers): seq<TxIn> {
    if selected == [] then []
    else
      var last := selected[|selected| - 1];
      Inputs(selected[..|selected| - 1], p)
      + (if p.txid(last.txid).Some? then [TxIn(p.txid(last.txid).value, AsU32(last.vout))] else [])
  }

  /** The payment, and the change back to the first selected address if that address parses. */
  function Outputs(selected: Coins, amount: int, change: int, script: string, p: Parsers): seq<TxOut> {
    [TxOut(AsU64(amount), script)] +
    (if change > 0 && selected != [] && p.address(selected[0].address).Some?
     then [TxOut(AsU64(change), p.address(selected[0].address).value)] else [])
  }

  function Build(selected: Coins, amount: int, fee: int, destination: string, p: Parsers): Result<(Transaction, int), ApiError> {
    var change := Total(selected) - (amount + fee);
    if change < 0 then Err(InsufficientFundsError)
    else
      match p.address(destination)
      case None => Err(InvalidDestination)
      case Some(script) => Ok((Transaction(Inputs(selected, p), Outputs(selected, amount, change, script, p)), change))
  }

  method BuildUnsignedTransaction(selected: Coins, amount: int, fee: int, destination: string, p: Parsers)
    returns (r: Result<(Transaction, int), ApiError>)
    ensures r == Build(selected, amount, fee, destination, p)
  {
    var totalNeeded := amount + fee;
    var totalSelected := Total(selected);
    if totalSelected < totalNeeded {
      return Err(InsufficientFundsError);
    }
    var destScript := p.address(destination);
    if destScript.None? {
      return Err(InvalidDestination);
    }
    var inputs: seq<TxIn> := [];
    var i := 0;
    while i < |selected|
      invariant 0 <= i <= |selected| && inputs == Inputs(selected[..i], p)
    {
      var utxo := selected[i];
      assert selected[..i + 1][..i] == selected[..i];
      var txid := p.txid(utxo.txid);
      if txid.Some? {
        inputs := inputs + [TxIn(txid.value, AsU32(utxo.vout))];
      }
      i := i + 1;
    }
    assert selected[..i] == selected;
    var outputs := [TxOut(AsU64(amount), destScript.value)];
    assert outputs + [] == outputs;
    var change := totalSelected - totalNeeded;
    if change > 0 {
      if selected != [] {
        var changeScript := p.address(selected[0].address);
        if changeScript.Some? {
          outputs := outputs + [TxOut(AsU64(change), changeScript.value)];
        }
      }
    }
    r := Ok((Transaction(inputs, outputs), change));
  }

  /** When no transaction is built: too little selected, or else a destination that does not parse. */
  lemma BuildFailsIff(selected: Coins, amount: int, fee: int, destination: string, p: Parsers)
    ensures
      var r := Build(selected, amount, fee, destination, p);
      && (r.Err? <==> Total(selected) < amount + fee || p.address(destination).None?)
      && (Total(selected) < amount + fee ==> r.error == InsufficientFundsError)
      && (Total(selected) >= amount + fee && p.address(destination).None? ==> r.error == InvalidDestination)
  {
  }

  function OutputTotal(outputs: seq<TxOut>): int {
    if outputs == [] then 0 else outputs[0].value + OutputTotal(outputs[1..])
  }

  /** The outputs as the signing service is told them: by address, with the change never checked. */
  function EnclaveOutputs(selected: Coins, amount: int, change: int, destination: string): seq<(string, int)> {
    [(destination, amount)] + (if change > 0 && selected != [] then [(selected[0].address, change)] else [])
  }

  /** Output by output, the signing service is told the scripts and values of the transaction. */
  ghost predicate TellsTheSame(told: seq<(string, int)>, outputs: seq<TxOut>, p: Parsers) {
    && |told| == |outputs|
    && forall i :: 0 <= i < |told| ==> p.address(told[i].0) == Some(outputs[i].script) && told[i].1 == outputs[i].value
  }

  lemma {:induction false} InputsSpendTheSelection(selected: Coins, p: Parsers)
    requires forall u :: u in selected ==> p.txid(u.txid).Some? && 0 <= u.vout < TWO_TO_THE_32
    ensures |Inputs(selected, p)| == |selected|
    ensures forall i :: 0 <= i < |selected| ==>
      Inputs(selected, p)[i] == TxIn(p.txid(selected[i].txid).value, selected[i].vout)
  {
    if selected != [] {
      InputsSpendTheSelection(selected[..|selected| - 1], p);
    }
  }

  lemma OutputTotals(selected: Coins, amount: int, change: int, script: string, p: Parsers)
    requires 0 <= amount < TWO_TO_THE_63 && 0 <= change < TWO_TO_THE_63
    ensures OutputTotal(Outputs(selected, amount, change, script, p))
      == amount + (if |Outputs(selected, amount, change, script, p)| == 2 then change else 0)
    ensures |Outputs(selected, amount, change, script, p)| == 2 <==>
      change > 0 && selected != [] && p.address(selected[0].address).Some?
  {
    var pay := TxOut(AsU64(amount), script);
    var outputs := Outputs(selected, amount, change, script, p);
    if |outputs| == 2 {
      assert outputs[1..] == [outputs[1]] && [outputs[1]][1..] == [];
      assert OutputTotal(outputs[1..]) == outputs[1].value;
    } else {
      assert outputs == [pay] && [pay][1..] == [];
    }
  }

  /** The change reaches an output: there is none, or the first selected address parses. */
  predicate ChangeIsReturned(selected: Coins, change: int, p: Parsers) {
    change == 0 || (selected != [] && p.address(selected[0].address).Some?)
  }

  /**
   * A built transaction pays out all it takes in, less the fee, exactly when no change is due or
   * the first selected address parses; then the signing service is told the same outputs.
   */
  lemma ConservedIff(selected: Coins, amount: int, fee: int, destination: string, p: Parsers)
    requires Build(selected, amount, fee, destination, p).Ok?
    requires amount >= 0 && fee >= 0 && amount + fee > 0 && Total(selected) < TWO_TO_THE_63
    ensures
      var (tx, change) := Build(selected, amount, fee, destination, p).value;
      && (OutputTotal(tx.outputs) + fee == Total(selected)) == ChangeIsReturned(selected, change, p)
      && TellsTheSame(EnclaveOutputs(selected, amount, change, destination), tx.outputs, p)
         == ChangeIsReturned(selected, change, p)
  {
    var (tx, change) := Build(selected, amount, fee, destination, p).value;
    OutputTotals(selected, amount, change, p.address(destination).value, p);
  }

  /**
   * The transaction spends exactly the selection and pays exactly the request: its first output is
   * the amount to the destination, a second one goes to the first selected address if anything is
   * left over the fee, and nothing is lost.
   */
  ghost predicate PaysRequest(tx: Transaction, selected: Coins, amount: int, fee: int, destination: string, p: Parsers) {
    && |tx.inputs| == |selected|
    && (forall i :: 0 <= i < |selected| ==>
          p.txid(selected[i].txid) == Some(tx.inputs[i].txid) && tx.inputs[i].vout == selected[i].vout)
    && 1 <= |tx.outputs| <= 2
    && tx.outputs[0].value == amount && p.address(destination) == Some(tx.outputs[0].script)
    && (|tx.outputs| == 2 <==> Total(selected) > amount + fee)
    && (|tx.outputs| == 2 ==> selected != [] && p.address(selected[0].address) == Some(tx.outputs[1].script))
    && OutputTotal(tx.outputs) + fee == Total(selected)
  }

  /** Everything a selection names can be parsed. */
  ghost predicate Spendable(selected: Coins, p: Parsers) {
    forall u :: u in selected ==>
      p.txid(u.txid).Some? && 0 <= u.vout < TWO_TO_THE_32 && p.address(u.address).Some?
  }

  lemma BuiltPaysRequest(selected: Coins, amount: int, fee: int, destination: string, p: Parsers)
    requires amount >= 0 && fee >= 0 && amount + fee > 0 && Total(selected) < TWO_TO_THE_63 && Spendable(selected, p)
    requires Build(selected, amount, fee, destination, p).Ok?
    ensures
      var (tx, change) := Build(selected, amount, fee, destination, p).value;
      PaysRequest(tx, selected, amount, fee, destination, p) && change == Total(selected) - amount - fee
  {
    var (tx, change) := Build(selected, amount, fee, destination, p).value;
    assert Total([]) == 0;
    assert selected != [] && selected[0] in selected;
    OutputTotals(selected, amount, change, p.address(destination).value, p);
    InputsSpendTheSelection(selected, p);
  }

  /**
   * Value conservation from request to transaction: a successful selection always builds, spends
   * exactly the selected outputs, loses nothing, and leaves less change than its last output.
   */
  lemma ValueIsConserved(v: View, height: int, addresses: seq<string>, amount: int, fee: int, destination: string, p: Parsers)
    requires Queryable(v, height, addresses) && amount >= 0 && fee >= 0 && amount + fee > 0
    requires Gather(v, height, addresses, amount + fee, []).Ok?
    requires
      var selected := Gather(v, height, addresses, amount + fee, []).value;
      && Total(selected) < TWO_TO_THE_63
      && Spendable(selected, p)
    requires p.address(destination).Some?
    ensures
      var selected := Gather(v, height, addresses, amount + fee, []).value;
      var r := Build(selected, amount, fee, destination, p);
      && r.Ok? && selected != []
      && PaysRequest(r.value.0, selected, amount, fee, destination, p)
      && 0 <= r.value.1 < selected[|selected| - 1].amount
      && TellsTheSame(EnclaveOutputs(selected, amount, r.value.1, destination), r.value.0.outputs, p)
      && EnclaveOutputs(selected, amount, r.value.1, destination)[0] == (destination, amount)
  {
    var n, needed := FirstFunded(v, height, addresses), amount + fee;
    var selected := Gather(v, height, addresses, needed, []).value;
    FetchSucceedsIff(v, height, addresses, needed);
    assert addresses[n] in addresses;
    SelectIsOldestFirst(v.rows(height, addresses[n]), needed);
    assert selected[0] in selected;
    BuiltPaysRequest(selected, amount, fee, destination, p);
    ConservedIff(selected, amount, fee, destination, p);
  }
}
