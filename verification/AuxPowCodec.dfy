/** The wire format of merge-mining proofs: bitcoin transactions (auxpow/btctx.go), headers
    (auxpow/btcheader.go) and the proof itself (auxpow/auxpow.go). */
module AuxPowCodec {
  import opened Bytes
  import opened Common
  import opened Serialize

  const HASH_LEN: nat := 32
  const MAX_SCRIPT_SIZE: nat := 10000

  type HashBytes = seq<Byte>

  datatype OutPoint = OutPoint(hash: HashBytes, index: int)

  datatype TxIn = TxIn(previous: OutPoint, script: seq<Byte>, sequence: int)

  datatype TxOut = TxOut(value: int, script: seq<Byte>)

  datatype BtcTx = BtcTx(version: int, txIn: seq<TxIn>, txOut: seq<TxOut>, lockTime: int)

  datatype BtcHeader = BtcHeader(version: int, previous: HashBytes, merkleRoot: HashBytes,
                                 timestamp: int, bits: int, nonce: int)

  datatype AuxPow = AuxPow(auxMerkleBranch: seq<HashBytes>, auxMerkleIndex: int, parCoinbaseTx: BtcTx,
                           parCoinBaseMerkle: seq<HashBytes>, parMerkleIndex: int, parBlockHeader: BtcHeader,
                           parentHash: HashBytes)

  // ---------------------------------------------------------------- what the field types hold

  predicate IsUint32(n: int) {
    0 <= n < TWO_32
  }

  predicate IsInt32(n: int) {
    -0x8000_0000 <= n < 0x8000_0000
  }

  predicate IsInt64(n: int) {
    -0x8000_0000_0000_0000 <= n < 0x8000_0000_0000_0000
  }

  predicate HashFits(h: HashBytes) {
    |h| == HASH_LEN
  }

  predicate OutPointFits(v: OutPoint) {
    HashFits(v.hash) && IsUint32(v.index)
  }

  /** Readers refuse scripts above the limit, writers do not. */
  predicate TxInFits(v: TxIn) {
    OutPointFits(v.previous) && |v.script| <= MAX_SCRIPT_SIZE && IsUint32(v.sequence)
  }

  predicate TxOutFits(v: TxOut) {
    IsInt64(v.value) && |v.script| <= MAX_SCRIPT_SIZE
  }

  ghost predicate TxFits(v: BtcTx) {
    IsInt32(v.version) && ListFits(TxInFits, v.txIn) && ListFits(TxOutFits, v.txOut) && IsUint32(v.lockTime)
  }

  predicate HeaderFits(v: BtcHeader) {
    IsUint32(v.version) && HashFits(v.previous) && HashFits(v.merkleRoot)
    && IsUint32(v.timestamp) && IsUint32(v.bits) && IsUint32(v.nonce)
  }

  /** The indices are machine integers that are written as 32 bits. */
  ghost predicate AuxPowFits(v: AuxPow) {
    TxFits(v.parCoinbaseTx) && HashFits(v.parentHash)
    && ListFits(HashFits, v.parCoinBaseMerkle) && IsUint32(v.parMerkleIndex)
    && ListFits(HashFits, v.auxMerkleBranch) && IsUint32(v.auxMerkleIndex) && HeaderFits(v.parBlockHeader)
  }

  // ---------------------------------------------------------------- forms

  function HashForm(h: HashBytes): seq<Byte> {
    h
  }

  function OutPointForm(v: OutPoint): seq<Byte> {
    v.hash + LittleEndian(v.index, 4)
  }

  function TxInForm(v: TxIn): seq<Byte> {
    OutPointForm(v.previous) + VarBytes(v.script) + LittleEndian(v.sequence, 4)
  }

  function TxOutForm(v: TxOut): seq<Byte> {
    LittleEndian(v.value, 8) + VarBytes(v.script)
  }

  function TxForm(v: BtcTx): seq<Byte> {
    LittleEndian(v.version, 4) + FormList(TxInForm, v.txIn) + FormList(TxOutForm, v.txOut)
    + LittleEndian(v.lockTime, 4)
  }

  function HeaderForm(v: BtcHeader): seq<Byte> {
    LittleEndian(v.version, 4) + v.previous + v.merkleRoot
    + LittleEndian(v.timestamp, 4) + LittleEndian(v.bits, 4) + LittleEndian(v.nonce, 4)
  }

  function AuxPowForm(v: AuxPow): seq<Byte> {
    TxForm(v.parCoinbaseTx) + v.parentHash
    + FormList(HashForm, v.parCoinBaseMerkle) + LittleEndian(v.parMerkleIndex, 4)
    + FormList(HashForm, v.auxMerkleBranch) + LittleEndian(v.auxMerkleIndex, 4)
    + HeaderForm(v.parBlockHeader)
  }

  // ---------------------------------------------------------------- where the fields are

  lemma HeaderLayout(v: BtcHeader)
    requires HeaderFits(v)
    ensures var f := HeaderForm(v);
            && |f| == 80 && f[..4] == LittleEndian(v.version, 4)
            && f[4..36] == v.previous && f[36..68] == v.merkleRoot
            && f[68..72] == LittleEndian(v.timestamp, 4)
            && f[72..76] == LittleEndian(v.bits, 4)
            && f[76..80] == LittleEndian(v.nonce, 4)
  {
    hide LittleEndian;
  }

  lemma TxInLayout(v: TxIn)
    requires HashFits(v.previous.hash)
    ensures var f := TxInForm(v);
            && |f| == 40 + |VarBytes(v.script)|
            && f[..32] == v.previous.hash && f[32..36] == LittleEndian(v.previous.index, 4)
            && f[36..|f| - 4] == VarBytes(v.script) && f[|f| - 4..] == LittleEndian(v.sequence, 4)
  {
    hide LittleEndian, VarBytes;
  }

  lemma TxOutLayout(v: TxOut)
    ensures var f := TxOutForm(v);
            |f| >= 8 && f[..8] == LittleEndian(v.value, 8) && f[8..] == VarBytes(v.script)
  {
    hide LittleEndian, VarBytes;
  }

  lemma TxLayout(v: BtcTx)
    ensures var f, ins, outs := TxForm(v), FormList(TxInForm, v.txIn), FormList(TxOutForm, v.txOut);
            && |f| == 4 + |ins| + |outs| + 4
            && f[..4] == LittleEndian(v.version, 4)
            && f[4..4 + |ins|] == ins && f[4 + |ins|..4 + |ins| + |outs|] == outs
            && f[|f| - 4..] == LittleEndian(v.lockTime, 4)
  {
    hide LittleEndian, FormList;
  }

  /** After the coinbase transaction come the parent hash, the coinbase branch and its index, the
      auxiliary branch and its index, and in the last 80 bytes the parent header. */
  lemma AuxPowLayout(v: AuxPow)
    requires HashFits(v.parentHash) && HeaderFits(v.parBlockHeader)
    ensures var f, tx := AuxPowForm(v), TxForm(v.parCoinbaseTx);
            var coinbase, aux := FormList(HashForm, v.parCoinBaseMerkle), FormList(HashForm, v.auxMerkleBranch);
            var a := |tx| + 32 + |coinbase|;
            && |f| == a + 4 + |aux| + 4 + 80
            && f[..|tx|] == tx && f[|tx|..|tx| + 32] == v.parentHash && f[|tx| + 32..a] == coinbase
            && f[a..a + 4] == LittleEndian(v.parMerkleIndex, 4) && f[a + 4..a + 4 + |aux|] == aux
            && f[|f| - 84..|f| - 80] == LittleEndian(v.auxMerkleIndex, 4)
            && f[|f| - 80..] == HeaderForm(v.parBlockHeader)
  {
    hide LittleEndian, FormList, TxForm, HeaderForm;
    HeaderLayout(v.parBlockHeader);
  }

  // ---------------------------------------------------------------- parsing

  function ParseHash(s: seq<Byte>): Parsed<HashBytes> {
    ParseBytes(HASH_LEN, s)
  }

  function ParseOutPoint(s: seq<Byte>): Parsed<OutPoint> {
    var (hash, s1) :- ParseHash(s);
    var (index, s2) :- ParseUint(4, s1);
    Parsed(OutPoint(hash, index), s2)
  }

  function ParseTxIn(s: seq<Byte>): Parsed<TxIn> {
    var (previous, s1) :- ParseOutPoint(s);
    var (script, s2) :- ParseVarBytes(MAX_SCRIPT_SIZE, s1);
    var (sequence, s3) :- ParseUint(4, s2);
    Parsed(TxIn(previous, script, sequence), s3)
  }

  function ParseTxOut(s: seq<Byte>): Parsed<TxOut> {
    var (value, s1) :- ParseInt(8, s);
    var (script, s2) :- ParseVarBytes(MAX_SCRIPT_SIZE, s1);
    Parsed(TxOut(value, script), s2)
  }

  function ParseTx(s: seq<Byte>): Parsed<BtcTx> {
    var (version, s1) :- ParseInt(4, s);
    var (txIn, s2) :- ParseList(ParseTxIn, s1);
    var (txOut, s3) :- ParseList(ParseTxOut, s2);
    var (lockTime, s4) :- ParseUint(4, s3);
    Parsed(BtcTx(version, txIn, txOut, lockTime), s4)
  }

  function ParseHeader(s: seq<Byte>): Parsed<BtcHeader> {
    var (version, s1) :- ParseUint(4, s);
    var (previous, s2) :- ParseHash(s1);
    var (merkleRoot, s3) :- ParseHash(s2);
    var (timestamp, s4) :- ParseUint(4, s3);
    var (bits, s5) :- ParseUint(4, s4);
    var (nonce, s6) :- ParseUint(4, s5);
    Parsed(BtcHeader(version, previous, merkleRoot, timestamp, bits, nonce), s6)
  }

  function ParseAuxPow(s: seq<Byte>): Parsed<AuxPow> {
    var (tx, s1) :- ParseTx(s);
    var (parentHash, s2) :- ParseHash(s1);
    var (merkle, s3) :- ParseList(ParseHash, s2);
    var (parIndex, s4) :- ParseUint(4, s3);
    var (branch, s5) :- ParseList(ParseHash, s4);
    var (auxIndex, s6) :- ParseUint(4, s5);
    var (header, s7) :- ParseHeader(s6);
    Parsed(AuxPow(branch, auxIndex, tx, merkle, parIndex, header, parentHash), s7)
  }

  // ---------------------------------------------------------------- parsing accepts exactly the forms

  lemma Uint32Exact(s: seq<Byte>, v: int, rest: seq<Byte>)
    ensures ParseUint(4, s) == Parsed(v, rest) <==> IsUint32(v) && s == LittleEndian(v, 4) + rest
  {
    Widths();
    UintExact(4, s, v, rest);
  }

  lemma Int32Exact(s: seq<Byte>, v: int, rest: seq<Byte>)
    ensures ParseInt(4, s) == Parsed(v, rest) <==> IsInt32(v) && s == LittleEndian(v, 4) + rest
  {
    Widths();
    IntExact(4, s, v, rest);
  }

  lemma Int64Exact(s: seq<Byte>, v: int, rest: seq<Byte>)
    ensures ParseInt(8, s) == Parsed(v, rest) <==> IsInt64(v) && s == LittleEndian(v, 8) + rest
  {
    Widths();
    IntExact(8, s, v, rest);
  }

  lemma HashExact(s: seq<Byte>, v: HashBytes, rest: seq<Byte>)
    ensures ParseHash(s) == Parsed(v, rest) <==> HashFits(v) && s == v + rest
  {
    BytesExact(HASH_LEN, s, v, rest);
  }

  lemma OutPointExact(s: seq<Byte>, v: OutPoint, rest: seq<Byte>)
    ensures ParseOutPoint(s) == Parsed(v, rest) <==> OutPointFits(v) && s == OutPointForm(v) + rest
  {
    hide ParseHash, ParseUint, LittleEndian, HashFits, IsUint32;
    var t := LittleEndian(v.index, 4) + rest;
    HashExact(s, v.hash, t);
    Uint32Exact(t, v.index, rest);
    assert v.hash + t == OutPointForm(v) + rest;
    if ParseOutPoint(s) == Parsed(v, rest) {
      var s1 := ParseHash(s).rest;
      HashExact(s, v.hash, s1);
      Uint32Exact(s1, v.index, rest);
    }
  }

  lemma ScriptExact(s: seq<Byte>, v: seq<Byte>, rest: seq<Byte>)
    ensures ParseVarBytes(MAX_SCRIPT_SIZE, s) == Parsed(v, rest)
       <==> |v| <= MAX_SCRIPT_SIZE && s == VarBytes(v) + rest
  {
    VarBytesExact(MAX_SCRIPT_SIZE, s, v, rest);
  }

  lemma TxInExact(s: seq<Byte>, v: TxIn, rest: seq<Byte>)
    ensures ParseTxIn(s) == Parsed(v, rest) <==> TxInFits(v) && s == TxInForm(v) + rest
  {
    hide ParseOutPoint, ParseVarBytes, ParseUint, OutPointForm, VarBytes, LittleEndian, OutPointFits, IsUint32;
    var t2 := LittleEndian(v.sequence, 4) + rest;
    var t1 := VarBytes(v.script) + t2;
    OutPointExact(s, v.previous, t1);
    ScriptExact(t1, v.script, t2);
    Uint32Exact(t2, v.sequence, rest);
    assert OutPointForm(v.previous) + t1 == TxInForm(v) + rest;
    if ParseTxIn(s) == Parsed(v, rest) {
      var s1 := ParseOutPoint(s).rest;
      var s2 := ParseVarBytes(MAX_SCRIPT_SIZE, s1).rest;
      OutPointExact(s, v.previous, s1);
      ScriptExact(s1, v.script, s2);
      Uint32Exact(s2, v.sequence, rest);
    }
  }

  lemma TxOutExact(s: seq<Byte>, v: TxOut, rest: seq<Byte>)
    ensures ParseTxOut(s) == Parsed(v, rest) <==> TxOutFits(v) && s == TxOutForm(v) + rest
  {
    hide ParseInt, ParseVarBytes, VarBytes, LittleEndian, IsInt64;
    var t := VarBytes(v.script) + rest;
    Int64Exact(s, v.value, t);
    ScriptExact(t, v.script, rest);
    assert LittleEndian(v.value, 8) + t == TxOutForm(v) + rest;
    if ParseTxOut(s) == Parsed(v, rest) {
      var s1 := ParseInt(8, s).rest;
      Int64Exact(s, v.value, s1);
      ScriptExact(s1, v.script, rest);
    }
  }

  lemma TxInInverse()
    ensures Inverse(ParseTxIn, TxInForm, TxInFits)
  {
    hide ParseTxIn, TxInForm, TxInFits;
    forall s, v, rest
      ensures Reads(ParseTxIn, s, v, rest) <==> Spells(TxInForm, TxInFits, s, v, rest)
    {
      TxInExact(s, v, rest);
    }
  }

  lemma TxOutInverse()
    ensures Inverse(ParseTxOut, TxOutForm, TxOutFits)
  {
    hide ParseTxOut, TxOutForm, TxOutFits;
    forall s, v, rest
      ensures Reads(ParseTxOut, s, v, rest) <==> Spells(TxOutForm, TxOutFits, s, v, rest)
    {
      TxOutExact(s, v, rest);
    }
  }

  lemma HashInverse()
    ensures Inverse(ParseHash, HashForm, HashFits)
  {
    hide ParseHash, HashFits;
    forall s, v, rest
      ensures Reads(ParseHash, s, v, rest) <==> Spells(HashForm, HashFits, s, v, rest)
    {
      HashExact(s, v, rest);
    }
  }

  lemma TxInsExact(s: seq<Byte>, v: seq<TxIn>, rest: seq<Byte>)
    ensures ParseList(ParseTxIn, s) == Parsed(v, rest)
       <==> ListFits(TxInFits, v) && s == FormList(TxInForm, v) + rest
  {
    TxInInverse();
    ListExact(ParseTxIn, TxInForm, TxInFits, s, v, rest);
  }

  lemma TxOutsExact(s: seq<Byte>, v: seq<TxOut>, rest: seq<Byte>)
    ensures ParseList(ParseTxOut, s) == Parsed(v, rest)
       <==> ListFits(TxOutFits, v) && s == FormList(TxOutForm, v) + rest
  {
    TxOutInverse();
    ListExact(ParseTxOut, TxOutForm, TxOutFits, s, v, rest);
  }

  lemma HashesExact(s: seq<Byte>, v: seq<HashBytes>, rest: seq<Byte>)
    ensures ParseList(ParseHash, s) == Parsed(v, rest)
       <==> ListFits(HashFits, v) && s == FormList(HashForm, v) + rest
  {
    HashInverse();
    ListExact(ParseHash, HashForm, HashFits, s, v, rest);
  }

  /** Transactions: the bytes followed by any tail are read back to the value and the tail, and what
      is accepted is written back to the same bytes. */
  lemma TxExact(s: seq<Byte>, v: BtcTx, rest: seq<Byte>)
    ensures ParseTx(s) == Parsed(v, rest) <==> TxFits(v) && s == TxForm(v) + rest
  {
    hide ParseInt, ParseUint, ParseList, FormList, LittleEndian, ListFits, IsInt32, IsUint32;
    var t3 := LittleEndian(v.lockTime, 4) + rest;
    var t2 := FormList(TxOutForm, v.txOut) + t3;
    var t1 := FormList(TxInForm, v.txIn) + t2;
    Int32Exact(s, v.version, t1);
    TxInsExact(t1, v.txIn, t2);
    TxOutsExact(t2, v.txOut, t3);
    Uint32Exact(t3, v.lockTime, rest);
    assert LittleEndian(v.version, 4) + t1 == TxForm(v) + rest;
    if ParseTx(s) == Parsed(v, rest) {
      var s1 := ParseInt(4, s).rest;
      var s2 := ParseList(ParseTxIn, s1).rest;
      var s3 := ParseList(ParseTxOut, s2).rest;
      Int32Exact(s, v.version, s1);
      TxInsExact(s1, v.txIn, s2);
      TxOutsExact(s2, v.txOut, s3);
      Uint32Exact(s3, v.lockTime, rest);
    }
  }

  lemma HeaderExact(s: seq<Byte>, v: BtcHeader, rest: seq<Byte>)
    ensures ParseHeader(s) == Parsed(v, rest) <==> HeaderFits(v) && s == HeaderForm(v) + rest
  {
    hide ParseUint, ParseHash, LittleEndian, IsUint32, HashFits;
    var t5 := LittleEndian(v.nonce, 4) + rest;
    var t4 := LittleEndian(v.bits, 4) + t5;
    var t3 := LittleEndian(v.timestamp, 4) + t4;
    var t2 := v.merkleRoot + t3;
    var t1 := v.previous + t2;
    Uint32Exact(s, v.version, t1);
    HashExact(t1, v.previous, t2);
    HashExact(t2, v.merkleRoot, t3);
    Uint32Exact(t3, v.timestamp, t4);
    Uint32Exact(t4, v.bits, t5);
    Uint32Exact(t5, v.nonce, rest);
    assert LittleEndian(v.version, 4) + t1 == HeaderForm(v) + rest;
    if ParseHeader(s) == Parsed(v, rest) {
      var s1 := ParseUint(4, s).rest;
      var s2 := ParseHash(s1).rest;
      var s3 := ParseHash(s2).rest;
      var s4 := ParseUint(4, s3).rest;
      var s5 := ParseUint(4, s4).rest;
      Uint32Exact(s, v.version, s1);
      HashExact(s1, v.previous, s2);
      HashExact(s2, v.merkleRoot, s3);
      Uint32Exact(s3, v.timestamp, s4);
      Uint32Exact(s4, v.bits, s5);
      Uint32Exact(s5, v.nonce, rest);
    }
  }

  /** The whole proof. */
  lemma AuxPowExact(s: seq<Byte>, v: AuxPow, rest: seq<Byte>)
    ensures ParseAuxPow(s) == Parsed(v, rest) <==> AuxPowFits(v) && s == AuxPowForm(v) + rest
  {
    hide ParseTx, ParseHash, ParseList, ParseUint, ParseHeader, TxForm, FormList, LittleEndian, HeaderForm;
    hide TxFits, HashFits, ListFits, IsUint32, HeaderFits;
    var t6 := HeaderForm(v.parBlockHeader) + rest;
    var t5 := LittleEndian(v.auxMerkleIndex, 4) + t6;
    var t4 := FormList(HashForm, v.auxMerkleBranch) + t5;
    var t3 := LittleEndian(v.parMerkleIndex, 4) + t4;
    var t2 := FormList(HashForm, v.parCoinBaseMerkle) + t3;
    var t1 := v.parentHash + t2;
    TxExact(s, v.parCoinbaseTx, t1);
    HashExact(t1, v.parentHash, t2);
    HashesExact(t2, v.parCoinBaseMerkle, t3);
    Uint32Exact(t3, v.parMerkleIndex, t4);
    HashesExact(t4, v.auxMerkleBranch, t5);
    Uint32Exact(t5, v.auxMerkleIndex, t6);
    HeaderExact(t6, v.parBlockHeader, rest);
    assert TxForm(v.parCoinbaseTx) + t1 == AuxPowForm(v) + rest;
    if ParseAuxPow(s) == Parsed(v, rest) {
      var s1 := ParseTx(s).rest;
      var s2 := ParseHash(s1).rest;
      var s3 := ParseList(ParseHash, s2).rest;
      var s4 := ParseUint(4, s3).rest;
      var s5 := ParseList(ParseHash, s4).rest;
      var s6 := ParseUint(4, s5).rest;
      TxExact(s, v.parCoinbaseTx, s1);
      HashExact(s1, v.parentHash, s2);
      HashesExact(s2, v.parCoinBaseMerkle, s3);
      Uint32Exact(s3, v.parMerkleIndex, s4);
      HashesExact(s4, v.auxMerkleBranch, s5);
      Uint32Exact(s5, v.auxMerkleIndex, s6);
      HeaderExact(s6, v.parBlockHeader, rest);
    }
  }

  // ---------------------------------------------------------------- values that do not fit

  /** A long script is written but not read back. */
  lemma LongScriptRefused(v: TxIn, rest: seq<Byte>)
    requires OutPointFits(v.previous) && |v.script| < TWO_64
    ensures ParseTxIn(TxInForm(v) + rest) == Failed(TooLong) <==> |v.script| > 10000
  {
    hide ParseOutPoint, ParseBytes, ParseVarUint, OutPointForm, VarUint, LittleEndian, OutPointFits, ParseUint;
    var t := v.script + LittleEndian(v.sequence, 4) + rest;
    var t1 := VarUint(|v.script|) + t;
    assert TxInForm(v) + rest == OutPointForm(v.previous) + t1;
    OutPointExact(TxInForm(v) + rest, v.previous, t1);
    VarUintExact(t1, |v.script|, t);
    NeverTooLong(|v.script|, 4, t);
  }

  lemma NeverTooLong(n: nat, width: nat, s: seq<Byte>)
    ensures ParseBytes(n, s) != Failed(TooLong)
    ensures ParseBytes(n, s).Parsed? ==> ParseUint(width, ParseBytes(n, s).rest) != Failed(TooLong)
  {
  }

  /** Indices are cut to 32 bits on the way. */
  function Cut(v: AuxPow): AuxPow {
    v.(parMerkleIndex := v.parMerkleIndex % TWO_32, auxMerkleIndex := v.auxMerkleIndex % TWO_32)
  }

  lemma IndicesAreCut(v: AuxPow, rest: seq<Byte>)
    requires AuxPowFits(Cut(v))
    ensures ParseAuxPow(AuxPowForm(v) + rest) == Parsed(Cut(v), rest)
  {
    hide ParseAuxPow, TxForm, FormList, LittleEndian, HeaderForm, AuxPowFits, Pow256;
    Widths();
    LittleEndianMod(v.parMerkleIndex, 4);
    LittleEndianMod(v.auxMerkleIndex, 4);
    AuxPowExact(AuxPowForm(v) + rest, Cut(v), rest);
  }

  // ---------------------------------------------------------------- writers

  method WriteOutPoint(w: Writer, op: OutPoint)
    modifies w
    ensures w.written == old(w.written) + OutPointForm(op)
  {
    hide LittleEndian;
    w.Write(op.hash);
    WriteUint(w, 4, op.index);
  }

  method WriteTxIn(w: Writer, ti: TxIn)
    modifies w
    ensures w.written == old(w.written) + TxInForm(ti)
  {
    hide LittleEndian, OutPointForm, VarBytes;
    WriteOutPoint(w, ti.previous);
    WriteVarBytes(w, ti.script);
    WriteUint(w, 4, ti.sequence);
  }

  method WriteTxOut(w: Writer, to: TxOut)
    modifies w
    ensures w.written == old(w.written) + TxOutForm(to)
  {
    hide LittleEndian, VarBytes;
    WriteUint(w, 8, to.value);
    WriteVarBytes(w, to.script);
  }

  lemma FormAllStep<T>(form: T -> seq<Byte>, xs: seq<T>, i: nat)
    requires i < |xs|
    ensures FormAll(form, xs[..i + 1]) == FormAll(form, xs[..i]) + form(xs[i])
  {
    assert xs[..i + 1][..i] == xs[..i];
  }

  method WriteTxIns(w: Writer, txIn: seq<TxIn>)
    modifies w
    ensures w.written == old(w.written) + FormList(TxInForm, txIn)
  {
    hide TxInForm, VarUint;
    WriteVarUint(w, |txIn|);
    ghost var counted := w.written;
    for i := 0 to |txIn|
      invariant w.written == counted + FormAll(TxInForm, txIn[..i])
    {
      WriteTxIn(w, txIn[i]);
      FormAllStep(TxInForm, txIn, i);
    }
    assert txIn[..|txIn|] == txIn;
  }

  method WriteTxOuts(w: Writer, txOut: seq<TxOut>)
    modifies w
    ensures w.written == old(w.written) + FormList(TxOutForm, txOut)
  {
    hide TxOutForm, VarUint;
    WriteVarUint(w, |txOut|);
    ghost var counted := w.written;
    for i := 0 to |txOut|
      invariant w.written == counted + FormAll(TxOutForm, txOut[..i])
    {
      WriteTxOut(w, txOut[i]);
      FormAllStep(TxOutForm, txOut, i);
    }
    assert txOut[..|txOut|] == txOut;
  }

  method SerializeTx(w: Writer, tx: BtcTx)
    modifies w
    ensures w.written == old(w.written) + TxForm(tx)
  {
    hide LittleEndian, FormList;
    WriteUint(w, 4, tx.version);
    WriteTxIns(w, tx.txIn);
    WriteTxOuts(w, tx.txOut);
    WriteUint(w, 4, tx.lockTime);
  }

  method SerializeHeader(w: Writer, bh: BtcHeader)
    modifies w
    ensures w.written == old(w.written) + HeaderForm(bh)
  {
    hide LittleEndian;
    WriteUint(w, 4, bh.version);
    w.Write(bh.previous);
    w.Write(bh.merkleRoot);
    WriteUint(w, 4, bh.timestamp);
    WriteUint(w, 4, bh.bits);
    WriteUint(w, 4, bh.nonce);
  }

  method WriteHashes(w: Writer, hashes: seq<HashBytes>)
    modifies w
    ensures w.written == old(w.written) + FormList(HashForm, hashes)
  {
    hide VarUint;
    WriteVarUint(w, |hashes|);
    ghost var counted := w.written;
    for i := 0 to |hashes|
      invariant w.written == counted + FormAll(HashForm, hashes[..i])
    {
      w.Write(hashes[i]);
      FormAllStep(HashForm, hashes, i);
    }
    assert hashes[..|hashes|] == hashes;
  }

  method SerializeAuxPow(w: Writer, ap: AuxPow)
    modifies w
    ensures w.written == old(w.written) + AuxPowForm(ap)
  {
    hide LittleEndian, TxForm, FormList, HeaderForm;
    SerializeTx(w, ap.parCoinbaseTx);
    w.Write(ap.parentHash);
    WriteHashes(w, ap.parCoinBaseMerkle);
    WriteUint(w, 4, ap.parMerkleIndex);
    WriteHashes(w, ap.auxMerkleBranch);
    WriteUint(w, 4, ap.auxMerkleIndex);
    SerializeHeader(w, ap.parBlockHeader);
  }

  // ---------------------------------------------------------------- readers

  method ReadOutPoint(r: Reader) returns (result: Result<OutPoint, ReadError>)
    modifies r
    ensures Agrees(ParseOutPoint(old(r.rest)), result, r.rest)
  {
    hide ParseUint, ParseBytes;
    var hash := ReadFull(r, HASH_LEN);
    if hash.Err? {
      return Err(hash.error);
    }
    var index := ReadUint(r, 4);
    if index.Err? {
      return Err(index.error);
    }
    result := Ok(OutPoint(hash.value, index.value));
  }

  method ReadTxIn(r: Reader) returns (result: Result<TxIn, ReadError>)
    modifies r
    ensures Agrees(ParseTxIn(old(r.rest)), result, r.rest)
  {
    hide ParseOutPoint, ParseVarBytes, ParseUint;
    var op := ReadOutPoint(r);
    if op.Err? {
      return Err(op.error);
    }
    var script := ReadVarBytes(r, MAX_SCRIPT_SIZE);
    if script.Err? {
      return Err(script.error);
    }
    var sequence := ReadUint(r, 4);
    if sequence.Err? {
      return Err(sequence.error);
    }
    result := Ok(TxIn(op.value, script.value, sequence.value));
  }

  method ReadTxOut(r: Reader) returns (result: Result<TxOut, ReadError>)
    modifies r
    ensures Agrees(ParseTxOut(old(r.rest)), result, r.rest)
  {
    hide ParseVarBytes, ParseUint;
    var value := ReadUint(r, 8);
    if value.Err? {
      return Err(value.error);
    }
    var script := ReadVarBytes(r, MAX_SCRIPT_SIZE);
    if script.Err? {
      return Err(script.error);
    }
    result := Ok(TxOut(Signed(value.value, 8), script.value));
  }

  method ReadTxIns(r: Reader) returns (result: Result<seq<TxIn>, ReadError>)
    modifies r
    ensures Agrees(ParseList(ParseTxIn, old(r.rest)), result, r.rest)
  {
    hide ParseTxIn, ParseVarUint;
    var count := ReadVarUint(r);
    if count.Err? {
      return Err(count.error);
    }
    ghost var body := r.rest;
    var txIn: seq<TxIn> := [];
    for i := 0 to count.value
      invariant ParseAll(ParseTxIn, count.value - i, txIn, r.rest) == ParseAll(ParseTxIn, count.value, [], body)
    {
      var ti := ReadTxIn(r);
      if ti.Err? {
        return Err(ti.error);
      }
      txIn := txIn + [ti.value];
    }
    result := Ok(txIn);
  }

  method ReadTxOuts(r: Reader) returns (result: Result<seq<TxOut>, ReadError>)
    modifies r
    ensures Agrees(ParseList(ParseTxOut, old(r.rest)), result, r.rest)
  {
    hide ParseTxOut, ParseVarUint;
    var count := ReadVarUint(r);
    if count.Err? {
      return Err(count.error);
    }
    ghost var body := r.rest;
    var txOut: seq<TxOut> := [];
    for i := 0 to count.value
      invariant ParseAll(ParseTxOut, count.value - i, txOut, r.rest) == ParseAll(ParseTxOut, count.value, [], body)
    {
      var to := ReadTxOut(r);
      if to.Err? {
        return Err(to.error);
      }
      txOut := txOut + [to.value];
    }
    result := Ok(txOut);
  }

  method ReadHashes(r: Reader) returns (result: Result<seq<HashBytes>, ReadError>)
    modifies r
    ensures Agrees(ParseList(ParseHash, old(r.rest)), result, r.rest)
  {
    hide ParseBytes, ParseVarUint;
    var count := ReadVarUint(r);
    if count.Err? {
      return Err(count.error);
    }
    ghost var body := r.rest;
    var hashes: seq<HashBytes> := [];
    for i := 0 to count.value
      invariant ParseAll(ParseHash, count.value - i, hashes, r.rest) == ParseAll(ParseHash, count.value, [], body)
    {
      var hash := ReadFull(r, HASH_LEN);
      if hash.Err? {
        return Err(hash.error);
      }
      hashes := hashes + [hash.value];
    }
    result := Ok(hashes);
  }

  method DeserializeTx(r: Reader) returns (result: Result<BtcTx, ReadError>)
    modifies r
    ensures Agrees(ParseTx(old(r.rest)), result, r.rest)
  {
    hide ParseList, ParseUint;
    var version := ReadUint(r, 4);
    if version.Err? {
      return Err(version.error);
    }
    var txIn := ReadTxIns(r);
    if txIn.Err? {
      return Err(txIn.error);
    }
    var txOut := ReadTxOuts(r);
    if txOut.Err? {
      return Err(txOut.error);
    }
    var lockTime := ReadUint(r, 4);
    if lockTime.Err? {
      return Err(lockTime.error);
    }
    result := Ok(BtcTx(Signed(version.value, 4), txIn.value, txOut.value, lockTime.value));
  }

  method DeserializeHeader(r: Reader) returns (result: Result<BtcHeader, ReadError>)
    modifies r
    ensures Agrees(ParseHeader(old(r.rest)), result, r.rest)
  {
    hide ParseUint, ParseBytes;
    var version := ReadUint(r, 4);
    if version.Err? {
      return Err(version.error);
    }
    var previous := ReadFull(r, HASH_LEN);
    if previous.Err? {
      return Err(previous.error);
    }
    var merkleRoot := ReadFull(r, HASH_LEN);
    if merkleRoot.Err? {
      return Err(merkleRoot.error);
    }
    var timestamp := ReadUint(r, 4);
    if timestamp.Err? {
      return Err(timestamp.error);
    }
    var bits := ReadUint(r, 4);
    if bits.Err? {
      return Err(bits.error);
    }
    var nonce := ReadUint(r, 4);
    if nonce.Err? {
      return Err(nonce.error);
    }
    result := Ok(BtcHeader(version.value, previous.value, merkleRoot.value, timestamp.value, bits.value, nonce.value));
  }

  method DeserializeAuxPow(r: Reader) returns (result: Result<AuxPow, ReadError>)
    modifies r
    ensures Agrees(ParseAuxPow(old(r.rest)), result, r.rest)
  {
    hide ParseTx, ParseList, ParseUint, ParseHeader, ParseBytes;
    var tx := DeserializeTx(r);
    if tx.Err? {
      return Err(tx.error);
    }
    var parentHash := ReadFull(r, HASH_LEN);
    if parentHash.Err? {
      return Err(parentHash.error);
    }
    var merkle := ReadHashes(r);
    if merkle.Err? {
      return Err(merkle.error);
    }
    var parIndex := ReadUint(r, 4);
    if parIndex.Err? {
      return Err(parIndex.error);
    }
    var branch := ReadHashes(r);
    if branch.Err? {
      return Err(branch.error);
    }
    var auxIndex := ReadUint(r, 4);
    if auxIndex.Err? {
      return Err(auxIndex.error);
    }
    var header := DeserializeHeader(r);
    if header.Err? {
      return Err(header.error);
    }
    result := Ok(AuxPow(branch.value, auxIndex.value, tx.value, merkle.value, parIndex.value, header.value,
                        parentHash.value));
  }
}
