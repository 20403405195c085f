/** Conflict detection of the transaction pool: one slot's keys (mempool/conflictslot.go) and all
    slots together (mempool/conflictmanager.go). */
module ConflictSlots {
  import opened Common

  /** What a transaction's hash stands for.  `resolves` says whether the outputs its inputs refer to
      are known; `payload` is whatever else the key functions look at. */
  datatype Content = Content(
    txType: nat, size: nat, inputs: seq<string>, resolves: bool, budgets: seq<int>, kind: Kind, payload: string)

  datatype Kind =
    | Ordinary | CoinBase | RecordSponsor | Appropriation | AssetsRectify | Proposal
    | SideChainPow(genesis: string) | UpdateVersion | NextTurnDPOSInfo | SmallCrossTransfer

  /** The fee is filled in when a transaction is validated and is not part of its hash. */
  datatype Tx = Tx(hash: Hash, content: Content, fee: int)

  // ---------------------------------------------------------------- keys

  datatype KeyType = StrType | HashType | ProgramHashType | StrArray | HashArray | ProgramHashArray

  /** What a key function returns, before it is cast to the slot's key type. */
  datatype RawKey =
    | NilKey | StrKey(str: string) | HashKey(hash: Hash) | ProgramHashKey(addr: Hash)
    | StrKeys(strs: seq<string>) | HashKeys(hashes: seq<Hash>) | ProgramHashKeys(addrs: seq<Hash>)

  /** The slot's three maps, one per type of key, are one map under keys tagged with their type. */
  datatype Key = Str(text: string) | Hash256(Hash) | Hash168(Hash)

  datatype Error = KeyFailure | TypeCastFailure | Duplicate

  type KeyFunc = Content -> Result<RawKey, ()>

  const ALL_TYPES: nat := 0xff

  /** A slot's configuration. */
  datatype Rule = Rule(name: string, keyType: KeyType, conflictTypes: map<nat, KeyFunc>)

  /** The cast of a raw key to a list of keys. */
  function Cast(raw: RawKey, t: KeyType): Result<seq<Key>, Error> {
    match (raw, t)
    case (NilKey, _) => Ok([])
    case (StrKey(s), StrType) => Ok([Str(s)])
    case (HashKey(h), HashType) => Ok([Hash256(h)])
    case (ProgramHashKey(a), ProgramHashType) => Ok([Hash168(a)])
    case (StrKeys(ss), StrArray) => Ok(seq(|ss|, i requires 0 <= i < |ss| => Str(ss[i])))
    case (HashKeys(hs), HashArray) => Ok(seq(|hs|, i requires 0 <= i < |hs| => Hash256(hs[i])))
    case (ProgramHashKeys(addrs), ProgramHashArray) =>
      Ok(seq(|addrs|, i requires 0 <= i < |addrs| => Hash168(addrs[i])))
    case _ => Err(TypeCastFailure)
  }

  /** The keys of a transaction in a slot; a transaction of another type has none. */
  function KeysOf(rule: Rule, c: Content): Result<seq<Key>, Error> {
    if c.txType in rule.conflictTypes then CastResult(rule.conflictTypes[c.txType](c), rule.keyType)
    else if ALL_TYPES in rule.conflictTypes then CastResult(rule.conflictTypes[ALL_TYPES](c), rule.keyType)
    else Ok([])
  }

  function CastResult(raw: Result<RawKey, ()>, t: KeyType): Result<seq<Key>, Error> {
    match raw
    case Err(_) => Err(KeyFailure)
    case Ok(k) => Cast(k, t)
  }

  predicate HasKey(rule: Rule, c: Content, k: Key) {
    KeysOf(rule, c).Ok? && k in KeysOf(rule, c).value
  }

  /** Which keys a transaction has in a slot.  The key function of its own type comes before the one for
      all types; what it returns must be of the slot's kind, and nil stands for no keys. */
  lemma KeysExactly(rule: Rule, c: Content, raw: Result<RawKey, ()>, k: Key)
    requires if c.txType in rule.conflictTypes then raw == rule.conflictTypes[c.txType](c)
             else if 0xff in rule.conflictTypes then raw == rule.conflictTypes[0xff](c) else raw == Ok(NilKey)
    ensures KeysOf(rule, c) == Err(KeyFailure) <==> raw.Err?
    ensures KeysOf(rule, c).Ok? <==>
            raw.Ok? && match raw.value
                       case NilKey => true
                       case StrKey(_) => rule.keyType.StrType?
                       case HashKey(_) => rule.keyType.HashType?
                       case ProgramHashKey(_) => rule.keyType.ProgramHashType?
                       case StrKeys(_) => rule.keyType.StrArray?
                       case HashKeys(_) => rule.keyType.HashArray?
                       case ProgramHashKeys(_) => rule.keyType.ProgramHashArray?
    ensures HasKey(rule, c, k) <==>
            KeysOf(rule, c).Ok? && match (raw.value, k)
                                   case (StrKey(s), Str(t)) => s == t
                                   case (HashKey(g), Hash256(h)) => g == h
                                   case (ProgramHashKey(g), Hash168(h)) => g == h
                                   case (StrKeys(ss), Str(t)) => t in ss
                                   case (HashKeys(hs), Hash256(h)) => h in hs
                                   case (ProgramHashKeys(hs), Hash168(h)) => h in hs
                                   case _ => false
  {
    if KeysOf(rule, c).Ok? {
      var keys := KeysOf(rule, c).value;
      match raw.value
      case StrKeys(ss) => assert forall i :: 0 <= i < |ss| ==> keys[i] == Str(ss[i]);
      case HashKeys(hs) => assert forall i :: 0 <= i < |hs| ==> keys[i] == Hash256(hs[i]);
      case ProgramHashKeys(hs) => assert forall i :: 0 <= i < |hs| ==> keys[i] == Hash168(hs[i]);
      case _ =>
    }
  }

  function KeySet(keys: seq<Key>): set<Key> {
    set k | k in keys
  }

  /** A slot table after a transaction's keys are entered. */
  function Entered(table: map<Key, Tx>, keys: seq<Key>, tx: Tx): map<Key, Tx> {
    table + map k | k in keys :: tx
  }

  // ---------------------------------------------------------------- exactness of one slot

  type Pooled = map<Hash, Tx>

  /** Every key of the table leads to its pooled owner. */
  ghost predicate Sound(rule: Rule, table: map<Key, Tx>, pool: Pooled) {
    forall k :: k in table ==>
      table[k].hash in pool && pool[table[k].hash] == table[k] && HasKey(rule, table[k].content, k)
  }

  /** Every key of every pooled transaction leads to that transaction, except the freed ones, which
      lead nowhere. */
  ghost predicate CompleteBut(rule: Rule, table: map<Key, Tx>, pool: Pooled, freed: set<Key>) {
    && (forall h, k :: h in pool && HasKey(rule, pool[h].content, k) && k !in freed ==>
          k in table && table[k] == pool[h])
    && forall k :: k in freed ==> k !in table
  }

  ghost predicate ExactBut(rule: Rule, table: map<Key, Tx>, pool: Pooled, freed: set<Key>) {
    Sound(rule, table, pool) && CompleteBut(rule, table, pool, freed)
  }

  ghost predicate Exact(rule: Rule, table: map<Key, Tx>, pool: Pooled) {
    ExactBut(rule, table, pool, {})
  }

  /** No pooled transaction has a freed key. */
  ghost predicate Spared(rule: Rule, pool: Pooled, freed: set<Key>) {
    forall h, k :: h in pool && HasKey(rule, pool[h].content, k) ==> k !in freed
  }

  /** A slot that lacks some keys is exact exactly when no pooled transaction has one of them. */
  lemma ExactIfSpared(rule: Rule, table: map<Key, Tx>, pool: Pooled, freed: set<Key>)
    requires ExactBut(rule, table, pool, freed)
    ensures Exact(rule, table, pool) <==> Spared(rule, pool, freed)
  {
    hide KeysOf, HasKey;
  }

  /** In an exact slot no two pooled transactions share a key, nor in one that lacks other keys. */
  lemma ExactUnshared(rule: Rule, table: map<Key, Tx>, pool: Pooled, freed: set<Key>, g: Hash, h: Hash, k: Key)
    requires ExactBut(rule, table, pool, freed) && k !in freed
    requires g in pool && h in pool && HasKey(rule, pool[g].content, k) && HasKey(rule, pool[h].content, k)
    ensures pool[g] == pool[h]
  {
    assert table[k] == pool[g];
  }

  predicate Free(table: map<Key, Tx>, keys: seq<Key>) {
    forall k :: k in keys ==> k !in table
  }

  lemma EnterExact(rule: Rule, table: map<Key, Tx>, pool: Pooled, tx: Tx)
    requires Exact(rule, table, pool) && tx.hash !in pool
    requires KeysOf(rule, tx.content).Ok? && Free(table, KeysOf(rule, tx.content).value)
    ensures Exact(rule, Entered(table, KeysOf(rule, tx.content).value, tx), pool[tx.hash := tx])
  {
    hide KeysOf;
  }

  lemma RemoveExact(rule: Rule, table: map<Key, Tx>, pool: Pooled, freed: set<Key>, tx: Tx)
    requires ExactBut(rule, table, pool, freed) && tx.hash in pool && pool[tx.hash].content == tx.content
    requires KeysOf(rule, tx.content).Ok?
    requires forall h :: h in pool ==> pool[h].hash == h
    ensures ExactBut(rule, table - KeySet(KeysOf(rule, tx.content).value), pool - {tx.hash}, freed)
  {
    hide KeysOf;
    var keys := KeysOf(rule, tx.content).value;
    var left := pool - {tx.hash};
    forall h, k | h in left && HasKey(rule, left[h].content, k) && k !in freed
      ensures k in table - KeySet(keys) && (table - KeySet(keys))[k] == left[h]
    {
      if k in keys {
        ExactUnshared(rule, table, pool, freed, h, tx.hash, k);
      }
    }
  }

  /** Taking out any keys leaves a slot that lacks those too. */
  lemma FreeMore(rule: Rule, table: map<Key, Tx>, pool: Pooled, freed: set<Key>, more: set<Key>)
    requires ExactBut(rule, table, pool, freed)
    ensures ExactBut(rule, table - more, pool, freed + more)
  {
    hide KeysOf, HasKey;
  }

  /** Taking out the keys of a transaction that is not in the pool keeps a slot exact exactly when no
      pooled transaction has one of those keys. */
  lemma ForeignRemoveExact(rule: Rule, table: map<Key, Tx>, pool: Pooled, c: Content)
    requires Exact(rule, table, pool) && KeysOf(rule, c).Ok?
    ensures Exact(rule, table - KeySet(KeysOf(rule, c).value), pool)
            <==> Unshared(rule, pool, c)
  {
    hide KeysOf, ExactBut;
    var keys := KeySet(KeysOf(rule, c).value);
    FreeMore(rule, table, pool, {}, keys);
    assert {} + keys == keys;
    ExactIfSpared(rule, table - keys, pool, keys);
    assert forall k :: k in keys <==> HasKey(rule, c, k);
  }

  ghost predicate Unshared(rule: Rule, pool: Pooled, c: Content) {
    forall h, k :: h in pool && HasKey(rule, pool[h].content, k) ==> !HasKey(rule, c, k)
  }

  /** Whether removing a transaction's keys gets as far as slot i: it stops where keys cannot be read. */
  predicate Reaches(rules: seq<Rule>, i: nat, c: Content)
    requires i < |rules|
  {
    forall j :: 0 <= j <= i ==> KeysOf(rules[j], c).Ok?
  }

  /** Keys are free in an exact slot exactly when no pooled transaction has one of them. */
  lemma FreeExact(rule: Rule, table: map<Key, Tx>, pool: Pooled, c: Content)
    requires Exact(rule, table, pool) && KeysOf(rule, c).Ok?
    ensures Free(table, KeysOf(rule, c).value) <==> Unshared(rule, pool, c)
  {
    hide KeysOf;
    if Free(table, KeysOf(rule, c).value) {
      forall h, k | h in pool && HasKey(rule, pool[h].content, k)
        ensures !HasKey(rule, c, k)
      {
        assert k in table;
      }
    }
    if Unshared(rule, pool, c) {
      forall k | k in KeysOf(rule, c).value
        ensures k !in table
      {
        assert HasKey(rule, c, k);
      }
    }
  }

  /** What the pool may take in: every slot can read its keys and no pooled transaction has one. */
  ghost predicate Admissible(rules: seq<Rule>, pool: Pooled, c: Content) {
    forall i :: 0 <= i < |rules| ==> KeysOf(rules[i], c).Ok? && Unshared(rules[i], pool, c)
  }

  // ---------------------------------------------------------------- one slot

  class ConflictSlot {
    const rule: Rule
    var table: map<Key, Tx>

    constructor (rule: Rule)
      ensures this.rule == rule && table == map[]
    {
      this.rule := rule;
      table := map[];
    }

    /** Refuses a transaction with a key that is already held. */
    method VerifyTx(tx: Tx) returns (err: Option<Error>)
      ensures err.None? <==> KeysOf(rule, tx.content).Ok? && Free(table, KeysOf(rule, tx.content).value)
      ensures err == Some(Duplicate) <== KeysOf(rule, tx.content).Ok? && !Free(table, KeysOf(rule, tx.content).value)
      ensures KeysOf(rule, tx.content).Err? ==> err == Some(KeysOf(rule, tx.content).error)
    {
      hide KeysOf;
      var keys := KeysOf(rule, tx.content);
      if keys.Err? {
        return Some(keys.error);
      }
      for i := 0 to |keys.value|
        invariant forall j :: 0 <= j < i ==> keys.value[j] !in table
      {
        if keys.value[i] in table {
          return Some(Duplicate);
        }
      }
      err := None;
    }

    method AppendTx(tx: Tx) returns (err: Option<Error>)
      modifies this
      ensures err.None? <==> KeysOf(rule, tx.content).Ok?
      ensures table == if err.None? then Entered(old(table), KeysOf(rule, tx.content).value, tx) else old(table)
    {
      hide KeysOf;
      var keys := KeysOf(rule, tx.content);
      if keys.Err? {
        return Some(keys.error);
      }
      for i := 0 to |keys.value|
        invariant table == Entered(old(table), keys.value[..i], tx)
      {
        EnterOne(old(table), keys.value, i, tx);
        table := table[keys.value[i] := tx];
      }
      assert keys.value[..|keys.value|] == keys.value;
      err := None;
    }

    method RemoveTx(tx: Tx) returns (err: Option<Error>)
      modifies this
      ensures err.None? <==> KeysOf(rule, tx.content).Ok?
      ensures table == if err.None? then old(table) - KeySet(KeysOf(rule, tx.content).value) else old(table)
    {
      hide KeysOf;
      var keys := KeysOf(rule, tx.content);
      if keys.Err? {
        return Some(keys.error);
      }
      for i := 0 to |keys.value|
        invariant table == old(table) - KeySet(keys.value[..i])
      {
        RemoveOne(old(table), keys.value, i);
        table := table - {keys.value[i]};
      }
      assert keys.value[..|keys.value|] == keys.value;
      err := None;
    }
  }

  lemma EnterOne(table: map<Key, Tx>, keys: seq<Key>, i: nat, tx: Tx)
    requires i < |keys|
    ensures Entered(table, keys[..i], tx)[keys[i] := tx] == Entered(table, keys[..i + 1], tx)
  {
    assert keys[..i + 1] == keys[..i] + [keys[i]];
  }

  lemma RemoveOne(table: map<Key, Tx>, keys: seq<Key>, i: nat)
    requires i < |keys|
    ensures table - KeySet(keys[..i]) - {keys[i]} == table - KeySet(keys[..i + 1])
  {
    assert keys[..i + 1] == keys[..i] + [keys[i]];
  }

  // ---------------------------------------------------------------- all slots

  predicate AllKeysOk(rules: seq<Rule>, c: Content) {
    forall i :: 0 <= i < |rules| ==> KeysOf(rules[i], c).Ok?
  }

  const INPUTS_SLOT := "TxInputsReferKeys"

  /** The key function of the slot that guards the spent outputs. */
  function InputKeys(c: Content): Result<RawKey, ()> {
    if c.resolves then Ok(StrKeys(c.inputs)) else Err(())
  }

  /** One slot, and only one, goes by the inputs name, and it applies to transactions of every type. */
  ghost predicate InputsSlotAt(rules: seq<Rule>, at: nat) {
    && at < |rules|
    && (forall i :: 0 <= i < at ==> rules[i].name != INPUTS_SLOT)
    && rules[at].name == INPUTS_SLOT && rules[at].keyType == StrArray
    && rules[at].conflictTypes.Keys == {ALL_TYPES}
    && forall c :: rules[at].conflictTypes[ALL_TYPES](c) == InputKeys(c)
  }

  class ConflictManager {
    const conflictSlots: seq<ConflictSlot>

    ghost function Objects(): set<object> {
      set i | 0 <= i < |conflictSlots| :: conflictSlots[i]
    }

    ghost function Rules(): (r: seq<Rule>)
      ensures |r| == |conflictSlots| && forall i :: 0 <= i < |r| ==> r[i] == conflictSlots[i].rule
    {
      seq(|conflictSlots|, i requires 0 <= i < |conflictSlots| => conflictSlots[i].rule)
    }

    ghost predicate Distinct() {
      forall i, j :: 0 <= i < j < |conflictSlots| ==> conflictSlots[i] != conflictSlots[j]
    }

    constructor (rules: seq<Rule>)
      ensures Rules() == rules && Distinct() && fresh(Objects())
      ensures forall i :: 0 <= i < |conflictSlots| ==> conflictSlots[i].table == map[]
    {
      var slots: seq<ConflictSlot> := [];
      for i := 0 to |rules|
        invariant |slots| == i && fresh(set j | 0 <= j < i :: slots[j])
        invariant forall j :: 0 <= j < i ==> slots[j].rule == rules[j] && slots[j].table == map[]
        invariant forall j, k :: 0 <= j < k < i ==> slots[j] != slots[k]
      {
        var s := new ConflictSlot(rules[i]);
        slots := slots + [s];
      }
      conflictSlots := slots;
    }

    /** Passes exactly the transactions whose keys can all be read and are all free. */
    method VerifyTx(tx: Tx) returns (ok: bool)
      ensures ok <==> forall i :: 0 <= i < |conflictSlots| ==>
                        KeysOf(conflictSlots[i].rule, tx.content).Ok? &&
                        Free(conflictSlots[i].table, KeysOf(conflictSlots[i].rule, tx.content).value)
    {
      for i := 0 to |conflictSlots|
        invariant forall j :: 0 <= j < i ==>
                    KeysOf(conflictSlots[j].rule, tx.content).Ok? &&
                    Free(conflictSlots[j].table, KeysOf(conflictSlots[j].rule, tx.content).value)
      {
        var err := conflictSlots[i].VerifyTx(tx);
        if err.Some? {
          return false;
        }
      }
      ok := true;
    }

    /** Enters the keys in slot order; it stops, half done, only at a slot whose key cannot be read. */
    method AppendTx(tx: Tx) returns (ok: bool, ghost done: nat)
      requires Distinct()
      modifies Objects()
      ensures done <= |conflictSlots| && (ok <==> done == |conflictSlots|)
      ensures ok <==> AllKeysOk(Rules(), tx.content)
      ensures !ok ==> KeysOf(conflictSlots[done].rule, tx.content).Err?
      ensures forall i :: 0 <= i < done ==>
                KeysOf(conflictSlots[i].rule, tx.content).Ok? &&
                conflictSlots[i].table ==
                    Entered(old(conflictSlots[i].table), KeysOf(conflictSlots[i].rule, tx.content).value, tx)
      ensures forall i :: done <= i < |conflictSlots| ==> conflictSlots[i].table == old(conflictSlots[i].table)
    {
      hide KeysOf, Entered;
      done := 0;
      for i := 0 to |conflictSlots|
        invariant done == i
        invariant forall j :: 0 <= j < i ==>
                    KeysOf(conflictSlots[j].rule, tx.content).Ok? &&
                    conflictSlots[j].table ==
                        Entered(old(conflictSlots[j].table), KeysOf(conflictSlots[j].rule, tx.content).value, tx)
        invariant forall j :: i <= j < |conflictSlots| ==> conflictSlots[j].table == old(conflictSlots[j].table)
      {
        var err := conflictSlots[i].AppendTx(tx);
        if err.Some? {
          assert KeysOf(Rules()[i], tx.content).Err?;
          return false, i;
        }
        done := i + 1;
      }
      ok := true;
    }

    /** Takes the keys out in slot order, stopping where AppendTx would. */
    method RemoveTx(tx: Tx) returns (ok: bool, ghost done: nat)
      requires Distinct()
      modifies Objects()
      ensures done <= |conflictSlots| && (ok <==> done == |conflictSlots|)
      ensures ok <==> AllKeysOk(Rules(), tx.content)
      ensures !ok ==> KeysOf(conflictSlots[done].rule, tx.content).Err?
      ensures forall i :: 0 <= i < done ==>
                KeysOf(conflictSlots[i].rule, tx.content).Ok? &&
                conflictSlots[i].table ==
                    old(conflictSlots[i].table) - KeySet(KeysOf(conflictSlots[i].rule, tx.content).value)
      ensures forall i :: done <= i < |conflictSlots| ==> conflictSlots[i].table == old(conflictSlots[i].table)
    {
      hide KeysOf, KeySet;
      done := 0;
      for i := 0 to |conflictSlots|
        invariant done == i
        invariant forall j :: 0 <= j < i ==>
                    KeysOf(conflictSlots[j].rule, tx.content).Ok? &&
                    conflictSlots[j].table ==
                        old(conflictSlots[j].table) - KeySet(KeysOf(conflictSlots[j].rule, tx.content).value)
        invariant forall j :: i <= j < |conflictSlots| ==> conflictSlots[j].table == old(conflictSlots[j].table)
      {
        var err := conflictSlots[i].RemoveTx(tx);
        if err.Some? {
          assert KeysOf(Rules()[i], tx.content).Err?;
          return false, i;
        }
        done := i + 1;
      }
      ok := true;
    }

    predicate FirstNamed(slotName: string, at: nat) {
      && at < |conflictSlots| && conflictSlots[at].rule.name == slotName
      && forall i :: 0 <= i < at ==> conflictSlots[i].rule.name != slotName
    }

    /** The owner of a key in the first slot of a name, and nothing when there is no such slot. */
    method GetTx(key: Key, slotName: string) returns (tx: Option<Tx>)
      ensures forall at: nat :: FirstNamed(slotName, at) ==>
                tx == if key in conflictSlots[at].table then Some(conflictSlots[at].table[key]) else None
      ensures (forall i :: 0 <= i < |conflictSlots| ==> conflictSlots[i].rule.name != slotName) ==> tx == None
    {
      for i := 0 to |conflictSlots|
        invariant forall j :: 0 <= j < i ==> conflictSlots[j].rule.name != slotName
      {
        var slot := conflictSlots[i];
        if slot.rule.name == slotName {
          assert FirstNamed(slotName, i);
          return if key in slot.table then Some(slot.table[key]) else None;
        }
      }
      tx := None;
    }
  }
}
