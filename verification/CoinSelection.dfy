/** Transactions the node builds from the coins of an address (blockchain/blockchain.go). */
module CoinSelection {
  import opened Common

  type Address = nat

  datatype Utxo = Utxo(txId: Hash, index: nat, value: int)

  datatype Input = Input(txId: Hash, index: nat, sequence: nat)

  datatype Output = Output(recipient: Address, value: int, outputLock: nat)

  datatype Payment = Payment(recipient: Address, amount: int)

  datatype Transaction = Transaction(inputs: seq<Input>, outputs: seq<Output>)

  datatype BuildError = InvalidTarget | NotEnough | HashesOutOfRange

  const MAX_SEQUENCE: nat := 4294967295

  // ---------------------------------------------------------------- sums

  function Total(utxos: seq<Utxo>): int {
    if utxos == [] then 0 else Total(utxos[..|utxos| - 1]) + utxos[|utxos| - 1].value
  }

  function Paid(outputs: seq<Output>): int {
    if outputs == [] then 0 else Paid(outputs[..|outputs| - 1]) + outputs[|outputs| - 1].value
  }

  function Requested(payments: seq<Payment>): int {
    if payments == [] then 0 else Requested(payments[..|payments| - 1]) + payments[|payments| - 1].amount
  }

  lemma TotalStep(utxos: seq<Utxo>, k: nat)
    requires k < |utxos|
    ensures Total([]) == 0 && Total(utxos[..k + 1]) == Total(utxos[..k]) + utxos[k].value
  {
    assert utxos[..k + 1][..k] == utxos[..k];
  }

  lemma RequestedStep(payments: seq<Payment>, k: nat)
    requires k < |payments|
    ensures Requested([]) == 0 && Requested(payments[..k + 1]) == Requested(payments[..k]) + payments[k].amount
  {
    assert payments[..k + 1][..k] == payments[..k];
  }

  lemma {:induction false} PaidJoin(a: seq<Output>, b: seq<Output>)
    ensures Paid(a + b) == Paid(a) + Paid(b)
    decreases |b|
  {
    if b == [] {
      assert a + b == a;
    } else {
      PaidJoin(a, b[..|b| - 1]);
      assert (a + b)[..|a + b| - 1] == a + b[..|b| - 1];
    }
  }

  // ---------------------------------------------------------------- which coins cover an amount

  /** The first k coins, at least one, reach the amount. */
  predicate Covers(utxos: seq<Utxo>, amount: int, k: nat)
    requires k <= |utxos|
  {
    k >= 1 && Total(utxos[..k]) >= amount
  }

  /** Some prefix does; with nothing to choose from there must be nothing to pay. */
  ghost predicate Coverable(utxos: seq<Utxo>, amount: int) {
    (exists k :: 1 <= k <= |utxos| && Covers(utxos, amount, k)) || (utxos == [] && amount <= 0)
  }

  /** The prefix is the shortest that reaches the amount. */
  ghost predicate ShortestCover(utxos: seq<Utxo>, amount: int, k: nat) {
    k <= |utxos| && (if utxos == [] then k == 0 else Covers(utxos, amount, k))
    && forall j :: 1 <= j < k ==> !Covers(utxos, amount, j)
  }

  lemma {:induction false} TotalGrows(utxos: seq<Utxo>, j: nat, k: nat)
    requires j <= k <= |utxos| && forall u :: u in utxos ==> u.value >= 0
    ensures Total(utxos[..j]) <= Total(utxos[..k])
    decreases k
  {
    if j < k {
      TotalGrows(utxos, j, k - 1);
      TotalStep(utxos, k - 1);
    }
  }

  /** Coins are not negative, so an amount can be covered exactly when all the coins together do. */
  lemma CoverableExact(utxos: seq<Utxo>, amount: int)
    requires amount > 0 && forall u :: u in utxos ==> u.value >= 0
    ensures Coverable(utxos, amount) <==> Total(utxos) >= amount
  {
    assert utxos[..|utxos|] == utxos;
    if Coverable(utxos, amount) {
      var k :| 1 <= k <= |utxos| && Covers(utxos, amount, k);
      TotalGrows(utxos, k, |utxos|);
    }
    if Total(utxos) >= amount {
      assert Covers(utxos, amount, |utxos|);
    }
  }

  // ---------------------------------------------------------------- inputs and outputs

  /** The index is cut to 16 bits. */
  function InputOf(u: Utxo): Input {
    Input(u.txId, u.index % 0x1_0000, MAX_SEQUENCE)
  }

  function InputsOf(utxos: seq<Utxo>): seq<Input> {
    seq(|utxos|, i requires 0 <= i < |utxos| => InputOf(utxos[i]))
  }

  function OutputsOf(payments: seq<Payment>, lockedUntil: nat): seq<Output> {
    seq(|payments|, i requires 0 <= i < |payments| => Output(payments[i].recipient, payments[i].amount, lockedUntil))
  }

  lemma {:induction false} PaidRequested(payments: seq<Payment>, lockedUntil: nat)
    ensures Paid(OutputsOf(payments, lockedUntil)) == Requested(payments)
    decreases |payments|
  {
    if payments != [] {
      var init := payments[..|payments| - 1];
      PaidRequested(init, lockedUntil);
      assert OutputsOf(payments, lockedUntil)[..|payments| - 1] == OutputsOf(init, lockedUntil);
    }
  }

  method CreateNormalOutputs(payments: seq<Payment>, fee: int, lockedUntil: nat)
      returns (outputs: seq<Output>, total: int)
    ensures outputs == OutputsOf(payments, lockedUntil)
    ensures total == Paid(outputs) + fee
  {
    total := fee;
    outputs := [];
    for i := 0 to |payments|
      invariant outputs == OutputsOf(payments[..i], lockedUntil)
      invariant total == Requested(payments[..i]) + fee
    {
      total := total + payments[i].amount;
      outputs := outputs + [Output(payments[i].recipient, payments[i].amount, lockedUntil)];
      RequestedStep(payments, i);
    }
    assert payments[..|payments|] == payments;
    PaidRequested(payments, lockedUntil);
  }

  /** Change goes back to the paying address, unlocked, and only if there is some. */
  ghost predicate IsChange(outputs: seq<Output>, fromAddress: Address, amount: int) {
    amount >= 0 && outputs == if amount == 0 then [] else [Output(fromAddress, amount, 0)]
  }

  method CreateInputs(fromAddress: Address, total: int, utxos: seq<Utxo>)
      returns (result: Result<(seq<Input>, seq<Output>), BuildError>)
    ensures result.Ok? <==> Coverable(utxos, total)
    ensures result.Err? ==> result.error == NotEnough
    ensures result.Ok? ==>
              var k := |result.value.0|;
              ShortestCover(utxos, total, k) && result.value.0 == InputsOf(utxos[..k])
              && (utxos == [] ==> result.value.1 == [])
              && (utxos != [] ==> IsChange(result.value.1, fromAddress, Total(utxos[..k]) - total))
  {
    var left := total;
    var inputs, change := [], [];
    var i := 0;
    while i < |utxos|
      invariant 0 <= i <= |utxos|
      invariant inputs == InputsOf(utxos[..i]) && change == []
      invariant left == total - Total(utxos[..i])
      invariant forall j :: 1 <= j <= i ==> !Covers(utxos, total, j)
    {
      var amount := utxos[i].value;
      inputs := inputs + [InputOf(utxos[i])];
      TotalStep(utxos, i);
      assert inputs == InputsOf(utxos[..i + 1]);
      if amount < left {
        left := left - amount;
      } else {
        if amount > left {
          change := [Output(fromAddress, amount - left, 0)];
        }
        assert Covers(utxos, total, i + 1);
        return Ok((inputs, change));
      }
      i := i + 1;
    }
    assert utxos[..|utxos|] == utxos;
    if left > 0 {
      return Err(NotEnough);
    }
    assert utxos != [] ==> Covers(utxos, total, |utxos|);
    return Ok((inputs, change));
  }

  // ---------------------------------------------------------------- transactions

  /** The transaction spends the first coins, pays the payments in order and otherwise only returns
      change, and its inputs are worth its outputs and the fee. */
  ghost predicate Balanced(tx: Transaction, utxos: seq<Utxo>, payments: seq<Payment>, fee: int, fromAddress: Address,
                           lockedUntil: nat) {
    var k := |tx.inputs|;
    && k <= |utxos| && |payments| <= |tx.outputs|
    && (forall i :: 0 <= i < k ==> tx.inputs[i] == Input(utxos[i].txId, utxos[i].index % 0x1_0000, 0xffff_ffff))
    && (forall i :: 0 <= i < |payments| ==>
          tx.outputs[i] == Output(payments[i].recipient, payments[i].amount, lockedUntil))
    && (forall o :: o in tx.outputs[|payments|..] ==> o.recipient == fromAddress && o.value > 0)
    && Total(utxos[..k]) == Paid(tx.outputs) + fee
  }

  method CreateTransaction(fromAddress: Address, fee: int, lockedUntil: nat, utxos: seq<Utxo>, payments: seq<Payment>)
      returns (result: Result<Transaction, BuildError>)
    ensures result.Err? ==> result.error == InvalidTarget || result.error == NotEnough
    ensures result == Err(InvalidTarget) <==> payments == []
    ensures result == Err(NotEnough) <==> payments != [] && !Coverable(utxos, Requested(payments) + fee)
    ensures result.Ok? ==> ShortestCover(utxos, Requested(payments) + fee, |result.value.inputs|)
    ensures result.Ok? ==> (Balanced(result.value, utxos, payments, fee, fromAddress, lockedUntil)
                            <==> utxos != [] || Requested(payments) + fee == 0)
    ensures result.Ok? ==>
              var inputs, outputs := result.value.inputs, result.value.outputs;
              && |inputs| <= |utxos| && |payments| <= |outputs|
              && (forall i :: 0 <= i < |inputs| ==>
                    && inputs[i].txId == utxos[i].txId && inputs[i].index == utxos[i].index % 0x1_0000
                    && inputs[i].sequence == 0xffff_ffff)
              && (forall i :: 0 <= i < |payments| ==>
                    && outputs[i].recipient == payments[i].recipient && outputs[i].value == payments[i].amount
                    && outputs[i].outputLock == lockedUntil)
              && var change := Total(utxos[..|inputs|]) - Requested(payments) - fee;
              outputs[|payments|..] == if utxos == [] || change == 0 then [] else [Output(fromAddress, change, 0)]
  {
    if payments == [] {
      return Err(InvalidTarget);
    }
    var outputs, total := CreateNormalOutputs(payments, fee, lockedUntil);
    PaidRequested(payments, lockedUntil);
    var selected := CreateInputs(fromAddress, total, utxos);
    if selected.Err? {
      return Err(selected.error);
    }
    var (inputs, change) := selected.value;
    PaidJoin(outputs, change);
    result := Ok(Transaction(inputs, outputs + change));
    assert (outputs + change)[..|payments|] == outputs && (outputs + change)[|payments|..] == change;
    assert |change| == 1 ==> Paid(change) == Paid(change[..0]) + change[0].value;
    assert forall i :: 0 <= i < |payments| ==> (outputs + change)[i] == outputs[i];
  }

  // ---------------------------------------------------------------- real withdrawals

  /** Payments are passed by reference, and the fee is taken off them in place. */
  class OutputInfo {
    const recipient: Address
    var amount: int

    constructor (recipient: Address, amount: int)
      ensures this.recipient == recipient && this.amount == amount
    {
      this.recipient := recipient;
      this.amount := amount;
    }
  }

  function Payments(outputs: seq<OutputInfo>): seq<Payment>
    reads outputs
  {
    seq(|outputs|, i requires 0 <= i < |outputs| reads outputs => Payment(outputs[i].recipient, outputs[i].amount))
  }

  function Fees(singleFee: int, n: nat): int {
    singleFee * n
  }

  /** A payment that is passed twice is charged twice. */
  method DeductFee(outputs: seq<OutputInfo>, singleFee: int)
    modifies outputs
    ensures forall o :: o in outputs ==> o.amount == old(o.amount) - Fees(singleFee, multiset(outputs)[o])
  {
    hide Fees;
    NoFees(singleFee);
    for i := 0 to |outputs|
      invariant forall o :: o in outputs ==> o.amount == old(o.amount) - Fees(singleFee, multiset(outputs[..i])[o])
    {
      var v := outputs[i];
      v.amount := v.amount - singleFee;
      assert outputs[..i + 1] == outputs[..i] + [v];
      OneMoreFee(singleFee, multiset(outputs[..i])[v]);
    }
    assert outputs[..|outputs|] == outputs;
  }

  lemma NoFees(singleFee: int)
    ensures Fees(singleFee, 0) == 0
  {
  }

  lemma OneMoreFee(singleFee: int, n: nat)
    ensures Fees(singleFee, n + 1) == Fees(singleFee, n) + singleFee
  {
  }

  predicate Distinct<T(==)>(xs: seq<T>) {
    forall i, j :: 0 <= i < j < |xs| ==> xs[i] != xs[j]
  }

  lemma {:induction false} DistinctOnce<T>(xs: seq<T>, x: T)
    requires Distinct(xs) && x in xs
    ensures multiset(xs)[x] == 1
  {
    var k :| 0 <= k < |xs| && xs[k] == x;
    assert xs == xs[..k] + [x] + xs[k + 1..];
    assert x !in xs[..k] && x !in xs[k + 1..];
    assert x !in multiset(xs[..k]) && x !in multiset(xs[k + 1..]);
  }

  function Reduced(payments: seq<Payment>, singleFee: int): seq<Payment> {
    seq(|payments|, i requires 0 <= i < |payments| => Payment(payments[i].recipient, payments[i].amount - singleFee))
  }

  lemma {:induction false} ReducedSum(payments: seq<Payment>, singleFee: int)
    ensures Requested(Reduced(payments, singleFee)) == Requested(payments) - Fees(singleFee, |payments|)
    decreases |payments|
  {
    if payments != [] {
      var init := payments[..|payments| - 1];
      ReducedSum(init, singleFee);
      assert Reduced(payments, singleFee)[..|payments| - 1] == Reduced(init, singleFee);
      OneMoreFee(singleFee, |init|);
    }
  }

  /** Taking the fee off every payment and paying it once per withdrawal leaves the sum as it was
      requested exactly when there are as many withdrawals as payments, or no fee. */
  lemma WithdrawCost(payments: seq<Payment>, singleFee: int, withdrawals: nat)
    ensures Requested(Reduced(payments, singleFee)) + Fees(singleFee, withdrawals) == Requested(payments)
       <==> singleFee == 0 || withdrawals == |payments|
  {
    hide Fees, Requested, Reduced;
    ReducedSum(payments, singleFee);
    SameFees(singleFee, withdrawals, |payments|);
  }

  lemma SameFees(singleFee: int, m: nat, n: nat)
    ensures Fees(singleFee, m) == Fees(singleFee, n) <==> singleFee == 0 || m == n
  {
    assert Fees(singleFee, m) - Fees(singleFee, n) == singleFee * (m - n);
    if singleFee != 0 && m != n {
      NonZero(singleFee, m - n);
    }
  }

  lemma NonZero(a: int, b: int)
    requires a != 0 && b != 0
    ensures a * b != 0
  {
  }

  /** What the transaction costs the paying address: all it spends, less the change. */
  function Cost(tx: Transaction, utxos: seq<Utxo>, payments: nat): int
    requires |tx.inputs| <= |utxos| && payments <= |tx.outputs|
  {
    Total(utxos[..|tx.inputs|]) - Paid(tx.outputs[payments..])
  }

  lemma BalancedCost(tx: Transaction, utxos: seq<Utxo>, payments: seq<Payment>, fee: int, fromAddress: Address,
                     lockedUntil: nat)
    requires Balanced(tx, utxos, payments, fee, fromAddress, lockedUntil)
    ensures Cost(tx, utxos, |payments|) == Requested(payments) + fee
  {
    hide Paid, Total, Requested, OutputsOf;
    var n := |payments|;
    PaidJoin(tx.outputs[..n], tx.outputs[n..]);
    assert tx.outputs == tx.outputs[..n] + tx.outputs[n..];
    PaidRequested(payments, lockedUntil);
    PaymentsPaid(tx.outputs[..n], payments, lockedUntil);
  }

  lemma PaymentsPaid(outputs: seq<Output>, payments: seq<Payment>, lockedUntil: nat)
    requires |outputs| == |payments|
    requires forall i :: 0 <= i < |payments| ==>
               outputs[i] == Output(payments[i].recipient, payments[i].amount, lockedUntil)
    ensures outputs == OutputsOf(payments, lockedUntil)
  {
  }

  /** The withdrawals of council expenses and of staking rewards: one fee per withdrawal hash. */
  method CreateRealWithdraw(fromAddress: Address, singleFee: int, hashes: seq<Hash>, outputs: seq<OutputInfo>,
                            utxos: seq<Utxo>) returns (result: Result<Transaction, BuildError>)
    modifies outputs
    ensures forall o :: o in outputs ==> o.amount == old(o.amount) - Fees(singleFee, multiset(outputs)[o])
    ensures result.Err? ==> result.error == InvalidTarget || result.error == NotEnough
    ensures result == Err(InvalidTarget) <==> outputs == []
    ensures result == Err(NotEnough)
       <==> outputs != [] && !Coverable(utxos, Requested(Payments(outputs)) + Fees(singleFee, |hashes|))
    ensures result.Ok? && utxos != [] ==>
              Balanced(result.value, utxos, Payments(outputs), Fees(singleFee, |hashes|), fromAddress, 0)
    ensures result.Ok? ==>
              && |outputs| <= |result.value.outputs|
              && forall i :: 0 <= i < |outputs| ==>
                   result.value.outputs[i] == Output(outputs[i].recipient, outputs[i].amount, 0)
    ensures result.Ok? && utxos != [] && Distinct(outputs) ==>
              (Cost(result.value, utxos, |outputs|) == Requested(old(Payments(outputs)))
               <==> singleFee == 0 || |hashes| == |outputs|)
  {
    hide Fees, Requested, Balanced, Coverable, ShortestCover, Distinct;
    ghost var asked := Payments(outputs);
    DeductFee(outputs, singleFee);
    ghost var reduced := Payments(outputs);
    var txFee := singleFee * |hashes|;
    FeeIs(singleFee, |hashes|);
    result := CreateTransaction(fromAddress, txFee, 0, utxos, Payments(outputs));
    if result.Ok? && utxos != [] {
      BalancedCost(result.value, utxos, reduced, txFee, fromAddress, 0);
      if Distinct(outputs) {
        forall i | 0 <= i < |outputs|
          ensures reduced[i] == Reduced(asked, singleFee)[i]
        {
          DistinctOnce(outputs, outputs[i]);
          OneFee(singleFee);
        }
        assert reduced == Reduced(asked, singleFee);
        WithdrawCost(asked, singleFee, |hashes|);
      }
    }
  }

  lemma FeeIs(singleFee: int, n: nat)
    ensures Fees(singleFee, n) == singleFee * n
  {
  }

  lemma OneFee(singleFee: int)
    ensures Fees(singleFee, 1) == singleFee
  {
  }

  datatype VotesWithdraw = VotesWithdraw(returnVotesTxHash: Hash, stakeAddress: Address, value: int)

  /** The withdrawal of votes also lists, for each payment, the hash at its place and the amount before
      the fee; with fewer hashes than payments, reading the missing hash panics before anything is
      changed. */
  method CreateVotesRealWithdraw(fromAddress: Address, singleFee: int, hashes: seq<Hash>, outputs: seq<OutputInfo>,
                                 utxos: seq<Utxo>)
      returns (payload: seq<VotesWithdraw>, result: Result<Transaction, BuildError>)
    modifies outputs
    ensures result == Err(HashesOutOfRange) <==> |outputs| > |hashes|
    ensures |outputs| > |hashes| ==> unchanged(outputs)
    ensures |outputs| <= |hashes| ==>
              && |payload| == |outputs|
              && (forall i :: 0 <= i < |outputs| ==>
                    payload[i] == VotesWithdraw(hashes[i], outputs[i].recipient, old(outputs[i].amount)))
              && (forall o :: o in outputs ==> o.amount == old(o.amount) - Fees(singleFee, multiset(outputs)[o]))
              && (result == Err(InvalidTarget) <==> outputs == [])
              && (result == Err(NotEnough) <==>
                    outputs != [] && !Coverable(utxos, Requested(Payments(outputs)) + Fees(singleFee, |hashes|)))
    ensures result.Ok? && utxos != [] ==>
              Balanced(result.value, utxos, Payments(outputs), Fees(singleFee, |hashes|), fromAddress, 0)
    ensures result.Ok? ==>
              && |outputs| <= |result.value.outputs|
              && forall i :: 0 <= i < |outputs| ==>
                   result.value.outputs[i] == Output(outputs[i].recipient, outputs[i].amount, 0)
    ensures result.Ok? && utxos != [] && Distinct(outputs) ==>
              (Cost(result.value, utxos, |outputs|) == Requested(old(Payments(outputs)))
               <==> singleFee == 0 || |hashes| == |outputs|)
  {
    hide Fees, Requested, Coverable, Distinct;
    payload := [];
    for i := 0 to |outputs|
      invariant |payload| == i <= |hashes|
      invariant unchanged(outputs)
      invariant forall j :: 0 <= j < i ==>
                  payload[j] == VotesWithdraw(hashes[j], outputs[j].recipient, outputs[j].amount)
    {
      if i >= |hashes| {
        return payload, Err(HashesOutOfRange);
      }
      payload := payload + [VotesWithdraw(hashes[i], outputs[i].recipient, outputs[i].amount)];
    }
    result := CreateRealWithdraw(fromAddress, singleFee, hashes, outputs, utxos);
  }
}
