/** The tracked coins of the wallet (wallet/coincheckpoint.go): one map from out points to coins, and
    the per-owner lists of OwnedCoins beside it. */
module CoinCheckpoint {
  import opened Common
  import opened OwnedCoins

  /** An output's address is absent when its program hash has no address form. */
  datatype Output = Output(address: Option<Owner>, isVote: bool, isDeposit: bool, value: int)

  datatype Coin = Coin(txVersion: nat, output: Output, height: nat)

  datatype Tx = Tx(hash: Hash, version: nat, inputs: seq<OutPoint>, outputs: seq<Output>)

  type CoinMap = map<OutPoint, Coin>

  /** Coins of wallet accounts are tracked, and vote and deposit coins of anybody. */
  predicate Tracked(accounts: set<Owner>, o: Output) {
    o.address.Some? && (o.address.value in accounts || o.isVote || o.isDeposit)
  }

  /** One transaction of a saved block, with the block's height and the accounts of that moment. */
  datatype Saved = Saved(tx: Tx, height: nat, accounts: set<Owner>)

  function Created(s: Saved, n: nat): CoinMap
    requires n <= |s.tx.outputs|
  {
    if n == 0 then map[]
    else
      var o := s.tx.outputs[n - 1];
      var before := Created(s, n - 1);
      if Tracked(s.accounts, o) then before[OutPoint(s.tx.hash, n - 1) := Coin(s.tx.version, o, s.height)] else before
  }

  function InputSet(inputs: seq<OutPoint>): set<OutPoint> {
    set op | op in inputs
  }

  /** The coins after one transaction: its inputs gone, its tracked outputs added. */
  function AfterTx(coins: CoinMap, s: Saved): CoinMap {
    (coins - InputSet(s.tx.inputs)) + Created(s, |s.tx.outputs|)
  }

  function After(steps: seq<Saved>): CoinMap {
    if steps == [] then map[] else AfterTx(After(steps[..|steps| - 1]), steps[|steps| - 1])
  }

  lemma {:induction false} CreatedExact(s: Saved, n: nat, op: OutPoint)
    requires n <= |s.tx.outputs|
    ensures op in Created(s, n) <==> op.txId == s.tx.hash && op.index < n && Tracked(s.accounts, s.tx.outputs[op.index])
    ensures op in Created(s, n) ==> Created(s, n)[op] == Coin(s.tx.version, s.tx.outputs[op.index], s.height)
  {
    if n > 0 {
      CreatedExact(s, n - 1, op);
    }
  }

  lemma CreatedMore(coins: CoinMap, s: Saved, n: nat)
    requires n < |s.tx.outputs|
    ensures coins + Created(s, n + 1)
         == if Tracked(s.accounts, s.tx.outputs[n])
            then (coins + Created(s, n))[OutPoint(s.tx.hash, n) := Coin(s.tx.version, s.tx.outputs[n], s.height)]
            else coins + Created(s, n)
  {
    hide Tracked;
  }

  /** Equal hashes name equal transactions, which may be saved again after a reorganization; hashes are
      not zero, and index at most 2^16 outputs. */
  ghost predicate ProperRun(steps: seq<Saved>) {
    && (forall i, j :: 0 <= i < j < |steps| && steps[i].tx.hash == steps[j].tx.hash ==> steps[i].tx == steps[j].tx)
    && (forall i :: 0 <= i < |steps| ==> ProperTx(steps[i].tx))
  }

  predicate ProperTx(tx: Tx) {
    tx.hash != EMPTY_HASH && |tx.outputs| <= 0x1_0000
  }

  /** Saving the transaction makes a coin under op. */
  predicate Creates(s: Saved, op: OutPoint) {
    op.txId == s.tx.hash && op.index < |s.tx.outputs| && Tracked(s.accounts, s.tx.outputs[op.index])
  }

  /** The j-th saved transaction made a coin under op, and nobody spent it afterwards. */
  ghost predicate UnspentAt(steps: seq<Saved>, op: OutPoint, j: int) {
    0 <= j < |steps| && Creates(steps[j], op) && forall k :: j < k < |steps| ==> op !in steps[k].tx.inputs
  }

  /** After any run the coins are exactly the tracked outputs that no later transaction spends, each as
      the last transaction that made it left it. */
  lemma {:induction false} UnspentExact(steps: seq<Saved>, op: OutPoint)
    ensures op in After(steps) <==> exists j :: UnspentAt(steps, op, j)
    ensures op in After(steps) ==>
              forall j :: && 0 <= j < |steps| && Creates(steps[j], op)
                          && (forall k :: j < k < |steps| ==> !Creates(steps[k], op)) ==>
                After(steps)[op] == Coin(steps[j].tx.version, steps[j].tx.outputs[op.index], steps[j].height)
    decreases |steps|
  {
    hide Tracked, Created;
    if steps != [] {
      var before, last := steps[..|steps| - 1], steps[|steps| - 1];
      assert forall k :: 0 <= k < |before| ==> before[k] == steps[k];
      UnspentExact(before, op);
      CreatedExact(last, |last.tx.outputs|, op);
      UnspentBefore(steps, op);
      if Creates(last, op) {
        assert UnspentAt(steps, op, |steps| - 1);
      } else {
        forall j | 0 <= j < |steps| && Creates(steps[j], op) && forall k :: j < k < |steps| ==> !Creates(steps[k], op)
          ensures j < |before| && Creates(before[j], op) && forall k :: j < k < |before| ==> !Creates(before[k], op)
        {
        }
      }
    }
  }

  lemma UnspentBefore(steps: seq<Saved>, op: OutPoint)
    requires steps != []
    ensures var before, last := steps[..|steps| - 1], steps[|steps| - 1];
            (exists j :: UnspentAt(steps, op, j))
            <==> Creates(last, op) || (op !in last.tx.inputs && exists j :: UnspentAt(before, op, j))
  {
    hide Creates;
    var before, last := steps[..|steps| - 1], steps[|steps| - 1];
    assert forall k :: 0 <= k < |before| ==> before[k] == steps[k];
    if j :| UnspentAt(steps, op, j) {
      if j < |before| {
        assert UnspentAt(before, op, j);
      }
    }
    if Creates(last, op) {
      assert UnspentAt(steps, op, |steps| - 1);
    } else if op !in last.tx.inputs {
      if j :| UnspentAt(before, op, j) {
        assert UnspentAt(steps, op, j);
      }
    }
  }

  /** A coin holds the output its out point names, however often the transaction was saved. */
  lemma {:induction false} CoinIsOutput(steps: seq<Saved>, op: OutPoint, tx: Tx)
    requires op in After(steps)
    requires forall j :: 0 <= j < |steps| && steps[j].tx.hash == op.txId ==> steps[j].tx == tx
    ensures op.txId == tx.hash && op.index < |tx.outputs| && After(steps)[op].output == tx.outputs[op.index]
    decreases |steps|
  {
    hide Tracked, Created;
    var before, last := steps[..|steps| - 1], steps[|steps| - 1];
    CreatedExact(last, |last.tx.outputs|, op);
    if op !in Created(last, |last.tx.outputs|) {
      assert forall k :: 0 <= k < |before| ==> before[k] == steps[k];
      CoinIsOutput(before, op, tx);
    }
  }

  // ---------------------------------------------------------------- owners

  /** Each owner's list holds the out points of the coins at that owner's address. */
  ghost predicate OwnersAgree(links: Links, coins: CoinMap) {
    && (forall owner :: HasList(links, owner))
    && (forall owner, op :: op in ListOf(links, owner) <==> op in coins && coins[op].output.address == Some(owner))
  }

  /** The lists of links' are those of links, with op appended to one owner's unless it is there. */
  ghost predicate ListedAfter(links: Links, links': Links, owner: Owner, op: OutPoint) {
    && (forall o :: HasList(links, o)) && (forall o :: HasList(links', o))
    && (forall o :: o != owner ==> ListOf(links', o) == ListOf(links, o))
    && ListOf(links', owner) == if op in ListOf(links, owner) then ListOf(links, owner) else ListOf(links, owner) + [op]
  }

  /** Appending a coin keeps lists and coins in agreement exactly when its out point is new or already
      belongs to the same address: nothing takes an out point off the list of an earlier owner. */
  lemma AppendCoinExact(links: Links, links': Links, coins: CoinMap, op: OutPoint, coin: Coin, owner: Owner)
    requires OwnersAgree(links, coins) && coin.output.address == Some(owner) && ListedAfter(links, links', owner, op)
    requires op in coins ==> coins[op].output.address.Some?
    ensures OwnersAgree(links', coins[op := coin]) <==> (op in coins ==> coins[op].output.address == Some(owner))
  {
    hide HasList, ListOf;
    if op in coins && coins[op].output.address != Some(owner) {
      var other := coins[op].output.address.value;
      assert op in ListOf(links, other) && op in ListOf(links', other);
      assert !(op in coins[op := coin] && coins[op := coin][op].output.address == Some(other));
    } else {
      forall o, q
        ensures q in ListOf(links', o) <==> q in coins[op := coin] && coins[op := coin][q].output.address == Some(o)
      {
        AppendedMember(links, links', coins, op, coin, owner, o, q);
      }
    }
  }

  lemma AppendedMember(links: Links, links': Links, coins: CoinMap, op: OutPoint, coin: Coin, owner: Owner, o: Owner,
                       q: OutPoint)
    requires OwnersAgree(links, coins) && coin.output.address == Some(owner) && ListedAfter(links, links', owner, op)
    requires op in coins ==> coins[op].output.address == Some(owner)
    ensures q in ListOf(links', o) <==> q in coins[op := coin] && coins[op := coin][q].output.address == Some(o)
  {
    hide HasList, ListOf;
    assert q in ListOf(links, o) <==> q in coins && coins[q].output.address == Some(o);
    if o == owner {
      assert q in ListOf(links', o) <==> q in ListOf(links, o) || q == op;
    }
  }

  lemma RemoveCoinAgrees(links: Links, links': Links, coins: CoinMap, op: OutPoint, owner: Owner, k: nat)
    requires OwnersAgree(links, coins) && op in coins && coins[op].output.address == Some(owner)
    requires forall o :: HasList(links', o)
    requires forall o :: o != owner ==> ListOf(links', o) == ListOf(links, o)
    requires k < |ListOf(links, owner)| && ListOf(links, owner)[k] == op &&
              ListOf(links', owner) == Without(ListOf(links, owner), k)
    ensures OwnersAgree(links', coins - {op})
  {
    ListDistinct(links, owner);
    hide HasList, ListOf;
    WithoutMembers(ListOf(links, owner), k);
  }

  lemma ListDistinct(links: Links, owner: Owner)
    requires HasList(links, owner)
    ensures NoDuplicates(ListOf(links, owner))
  {
  }

  class Checkpoint {
    var coins: CoinMap
    const ownedCoins: Coins

    /** Every transaction saved so far. */
    ghost var history: seq<Saved>

    ghost predicate Agreed()
      reads this, ownedCoins
    {
      && OwnersAgree(ownedCoins.links, coins)
      && (forall op :: op in coins ==> op != ZERO && coins[op].output.address.Some?)
    }

    ghost predicate Valid()
      reads this, ownedCoins
    {
      Agreed() && ProperRun(history) && coins == After(history)
    }

    constructor ()
      ensures Valid() && history == []
    {
      coins := map[];
      ownedCoins := new Coins();
      history := [];
      new;
      assert OwnersAgree(ownedCoins.links, coins);
    }

    /** Tracks a coin, in the map and on its owner's list.  They stay in agreement exactly when the out
        point is not the zero one and does not already belong to another address. */
    method AppendCoin(op: OutPoint, coin: Coin, accounts: set<Owner>)
      requires Agreed()
      modifies this`coins, ownedCoins
      ensures coins == if Tracked(accounts, coin.output) then old(coins)[op := coin] else old(coins)
      ensures Agreed() <==>
                !Tracked(accounts, coin.output)
                || (op != ZERO && (op in old(coins) ==> old(coins)[op].output.address == coin.output.address))
    {
      hide HasList, ListOf;
      if coin.output.address.None? {
        return;
      }
      var addr := coin.output.address.value;
      if addr in accounts || coin.output.isVote || coin.output.isDeposit {
        coins := coins[op := coin];
        ownedCoins.Append(addr, Some(op));
        if op == ZERO {
          assert op in coins;
          return;
        }
        AppendCoinExact(old(ownedCoins.links), ownedCoins.links, old(coins), op, coin, addr);
      }
    }

    /** Forgets a coin, in the map and on its owner's list. */
    method RemoveCoin(op: OutPoint)
      requires Agreed()
      modifies this`coins, ownedCoins
      ensures Agreed() && coins == old(coins) - {op}
    {
      hide HasList, ListOf;
      if op !in coins {
        return;
      }
      var addr := coins[op].output.address.value;
      coins := coins - {op};
      ownedCoins.Remove(addr, Some(op));
      ghost var k :| 0 <= k < |ListOf(old(ownedCoins.links), addr)| && ListOf(old(ownedCoins.links), addr)[k] == op &&
                     ListOf(ownedCoins.links, addr) == Without(ListOf(old(ownedCoins.links), addr), k);
      RemoveCoinAgrees(old(ownedCoins.links), ownedCoins.links, old(coins), op, addr, k);
    }

    method SpendInputs(tx: Tx)
      requires Agreed()
      modifies this`coins, ownedCoins
      ensures Agreed() && coins == old(coins) - InputSet(tx.inputs)
    {
      hide OwnersAgree;
      assert coins - InputSet(tx.inputs[..0]) == coins;
      for i := 0 to |tx.inputs|
        invariant Agreed() && coins == old(coins) - InputSet(tx.inputs[..i])
      {
        assert tx.inputs[..i + 1] == tx.inputs[..i] + [tx.inputs[i]];
        if tx.inputs[i] in coins {
          RemoveCoin(tx.inputs[i]);
        }
        assert coins == old(coins) - InputSet(tx.inputs[..i + 1]);
      }
      assert tx.inputs[..|tx.inputs|] == tx.inputs;
    }

    /** The index of an output is cut to 16 bits. */
    method AddOutputs(tx: Tx, height: nat, accounts: set<Owner>)
      requires Agreed() && ProperTx(tx)
      requires forall op :: op in coins && op.txId == tx.hash ==>
                 op.index < |tx.outputs| && coins[op].output == tx.outputs[op.index]
      modifies this`coins, ownedCoins
      ensures Agreed() && coins == old(coins) + Created(Saved(tx, height, accounts), |tx.outputs|)
    {
      hide OwnersAgree, Tracked;
      ghost var s := Saved(tx, height, accounts);
      assert coins + Created(s, 0) == coins;
      for index := 0 to |tx.outputs|
        invariant Agreed() && coins == old(coins) + Created(s, index)
      {
        hide Created;
        var op := OutPoint(tx.hash, index % 0x1_0000);
        CreatedExact(s, index, op);
        CreatedMore(old(coins), s, index);
        AppendCoin(op, Coin(tx.version, tx.outputs[index], height), accounts);
      }
    }

    /** One transaction of a saved block: spends its inputs, then adds its outputs. */
    method SaveTx(tx: Tx, height: nat, accounts: set<Owner>)
      requires Valid() && ProperRun(history + [Saved(tx, height, accounts)])
      modifies this, ownedCoins
      ensures Valid() && history == old(history) + [Saved(tx, height, accounts)]
    {
      hide After, ProperRun, Created, OwnersAgree;
      ghost var s := Saved(tx, height, accounts);
      SavedAgain(history, s);
      SpendInputs(tx);
      AddOutputs(tx, height, accounts);
      AfterAppend(history, s);
      history := history + [s];
    }

    /** Saves a block: afterwards the coins are those of the whole run, this block included. */
    method OnBlockSaved(txs: seq<Tx>, height: nat, accounts: set<Owner>)
      requires Valid() && ProperRun(history + Steps(txs, height, accounts))
      modifies this, ownedCoins
      ensures Valid() && history == old(history) + Steps(txs, height, accounts)
      ensures forall i :: 0 <= i < |txs| ==> history[|old(history)| + i] == Saved(txs[i], height, accounts)
    {
      hide After, OwnersAgree, Agreed;
      ghost var steps := Steps(txs, height, accounts);
      for i := 0 to |txs|
        invariant Valid() && history == old(history) + steps[..i]
      {
        ProperPrefix(old(history) + steps, |old(history)| + i + 1);
        assert (old(history) + steps)[..|old(history)| + i + 1] == history + [steps[i]];
        assert old(history) + steps[..i] + [steps[i]] == old(history) + steps[..i + 1];
        SaveTx(txs[i], height, accounts);
      }
      assert steps[..|txs|] == steps;
    }

    /** The coins of an owner: exactly the tracked outputs at that address that nobody has spent. */
    method ListCoins(owner: Owner) returns (result: CoinMap)
      requires Valid()
      ensures result == map op | op in coins && coins[op].output.address == Some(owner) :: coins[op]
      ensures forall op :: op in result <==>
                exists j :: && 0 <= j < |history| && op.txId == history[j].tx.hash && op.index < |history[j].tx.outputs|
                            && var o := history[j].tx.outputs[op.index];
                            && o.address == Some(owner) && (owner in history[j].accounts || o.isVote || o.isDeposit)
                            && forall k :: j < k < |history| ==> op !in history[k].tx.inputs
    {
      hide After, ProperRun;
      var ops := ownedCoins.ListCoins(owner);
      result := map[];
      for i := 0 to |ops|
        invariant forall op :: op in result <==> op in ops[..i]
        invariant forall op :: op in result ==> op in coins && result[op] == coins[op]
      {
        assert ops[..i + 1] == ops[..i] + [ops[i]];
        assert ops[i] in ops;
        result := result[ops[i] := coins[ops[i]]];
      }
      assert ops[..|ops|] == ops;
      forall op
        ensures op in result <==>
                  exists j :: UnspentAt(history, op, j) && history[j].tx.outputs[op.index].address == Some(owner)
      {
        UnspentOutput(history, op);
      }
    }
  }

  function Steps(txs: seq<Tx>, height: nat, accounts: set<Owner>): (r: seq<Saved>)
    ensures |r| == |txs|
  {
    seq(|txs|, i requires 0 <= i < |txs| => Saved(txs[i], height, accounts))
  }

  lemma ProperPrefix(steps: seq<Saved>, k: nat)
    requires ProperRun(steps) && k <= |steps|
    ensures ProperRun(steps[..k])
  {
  }

  lemma AfterAppend(steps: seq<Saved>, s: Saved)
    ensures After(steps + [s]) == AfterTx(After(steps), s)
  {
    assert (steps + [s])[..|steps|] == steps;
  }

  /** In a proper run every unspent occurrence of an out point names the coin's own output. */
  lemma UnspentOutput(steps: seq<Saved>, op: OutPoint)
    requires ProperRun(steps)
    ensures op in After(steps) <==> exists j :: UnspentAt(steps, op, j)
    ensures op in After(steps) ==>
              forall j :: UnspentAt(steps, op, j) ==> After(steps)[op].output == steps[j].tx.outputs[op.index]
  {
    hide After;
    UnspentExact(steps, op);
    if op in After(steps) {
      forall j | UnspentAt(steps, op, j)
        ensures After(steps)[op].output == steps[j].tx.outputs[op.index]
      {
        CoinIsOutput(steps, op, steps[j].tx);
      }
    }
  }

  /** The outputs of a transaction are new out points, or the very coins it made before. */
  lemma SavedAgain(steps: seq<Saved>, s: Saved)
    requires ProperRun(steps + [s])
    ensures ProperTx(s.tx)
    ensures forall op :: op in After(steps) && op.txId == s.tx.hash ==>
              op.index < |s.tx.outputs| && After(steps)[op].output == s.tx.outputs[op.index]
  {
    hide After;
    var all := steps + [s];
    assert all[|steps|] == s;
    forall op | op in After(steps) && op.txId == s.tx.hash
      ensures op.index < |s.tx.outputs| && After(steps)[op].output == s.tx.outputs[op.index]
    {
      assert forall j :: 0 <= j < |steps| ==> all[j] == steps[j];
      CoinIsOutput(steps, op, s.tx);
    }
  }
}
