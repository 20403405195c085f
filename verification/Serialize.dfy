/** The primitive readers and writers of common/serialize.go. */
module Serialize {
  import opened Bytes
  import opened Common

  const TWO_16 := 0x1_0000
  const TWO_32 := 0x1_0000_0000
  const TWO_64 := 0x1_0000_0000_0000_0000

  datatype ReadError = EndOfStream | UnexpectedEnd | NonCanonical | TooLong

  /** What reading from a byte string gives: a value and the unread bytes, or an error. */
  datatype Parsed<+T> = Parsed(value: T, rest: seq<Byte>) | Failed(error: ReadError) {
    predicate IsFailure() {
      Failed?
    }

    function PropagateFailure<U>(): Parsed<U>
      requires Failed?
    {
      Failed(error)
    }

    function Extract(): (T, seq<Byte>)
      requires Parsed?
    {
      (value, rest)
    }
  }

  // ---------------------------------------------------------------- fixed-width integers

  /** The low bytes of an integer, in two's complement, least significant first. */
  function LittleEndian(n: int, width: nat): (s: seq<Byte>)
    ensures |s| == width
    decreases width
  {
    if width == 0 then [] else [n % 256] + LittleEndian(n / 256, width - 1)
  }

  function FromLittleEndian(s: seq<Byte>): nat {
    if s == [] then 0 else s[0] + 256 * FromLittleEndian(s[1..])
  }

  /** Reading the same bytes as a signed integer. */
  function Signed(n: nat, width: nat): int
    requires width > 0
  {
    if n < 128 * Pow256(width - 1) then n else n - Pow256(width)
  }

  lemma {:induction false} FromLittleEndianExact(s: seq<Byte>)
    ensures FromLittleEndian(s) < Pow256(|s|)
    ensures LittleEndian(FromLittleEndian(s), |s|) == s
    decreases |s|
  {
    if s != [] {
      FromLittleEndianExact(s[1..]);
      var n := FromLittleEndian(s[1..]);
      assert (s[0] + 256 * n) % 256 == s[0] && (s[0] + 256 * n) / 256 == n by { LowByte(s[0], n); }
      assert [s[0]] + s[1..] == s;
    }
  }

  /** The last byte is the most significant one. */
  lemma {:induction false} LastIsHighest(s: seq<Byte>, b: Byte)
    ensures FromLittleEndian([]) == 0 && FromLittleEndian(s + [b]) == FromLittleEndian(s) + b * Pow256(|s|)
    decreases |s|
  {
    if s == [] {
      assert [b][1..] == [] && s + [b] == [b];
    } else {
      LastIsHighest(s[1..], b);
      assert (s + [b])[1..] == s[1..] + [b];
      assert b * Pow256(|s|) == 256 * (b * Pow256(|s| - 1));
    }
  }

  lemma LowByte(b: Byte, n: nat)
    ensures (b + 256 * n) % 256 == b && (b + 256 * n) / 256 == n
  {
  }

  lemma {:induction false} LittleEndianExact(n: nat, width: nat)
    requires n < Pow256(width)
    ensures FromLittleEndian(LittleEndian(n, width)) == n
    decreases width
  {
    if width > 0 {
      LittleEndianExact(n / 256, width - 1);
      assert LittleEndian(n, width)[1..] == LittleEndian(n / 256, width - 1);
    }
  }

  /** Adding a full turn leaves the bytes as they are. */
  lemma {:induction false} LittleEndianWraps(n: int, width: nat)
    ensures LittleEndian(n + Pow256(width), width) == LittleEndian(n, width)
    decreases width
  {
    if width > 0 {
      LittleEndianWraps(n / 256, width - 1);
      assert (n + 256 * Pow256(width - 1)) / 256 == n / 256 + Pow256(width - 1);
    }
  }

  lemma {:induction false} LittleEndianTurns(n: int, q: nat, width: nat)
    ensures LittleEndian(n + q * Pow256(width), width) == LittleEndian(n, width)
    decreases q
  {
    hide LittleEndian, Pow256;
    if q > 0 {
      var m := Pow256(width);
      LittleEndianTurns(n, q - 1, width);
      LittleEndianWraps(n + (q - 1) * m, width);
      assert n + (q - 1) * m + m == n + q * m;
    }
  }

  /** So only the remainder counts. */
  lemma LittleEndianMod(n: int, width: nat)
    ensures LittleEndian(n % Pow256(width), width) == LittleEndian(n, width)
  {
    hide LittleEndian, Pow256;
    var m := Pow256(width);
    var q, r := n / m, n % m;
    assert n == q * m + r;
    if q >= 0 {
      LittleEndianTurns(r, q, width);
    } else {
      assert -q * m == -(q * m);
      LittleEndianTurns(n, -q, width);
    }
  }

  lemma Widths()
    ensures Pow256(1) == 256 && Pow256(2) == TWO_16 && Pow256(4) == TWO_32 && Pow256(8) == TWO_64
  {
    assert Pow256(2) == 256 * Pow256(1);
    assert Pow256(4) == 256 * Pow256(3);
    Pow256Add(4, 4);
  }

  /** `io.ReadFull` on a buffer of n bytes. */
  function ParseBytes(n: nat, s: seq<Byte>): Parsed<seq<Byte>> {
    if n <= |s| then Parsed(s[..n], s[n..]) else Failed(if s == [] then EndOfStream else UnexpectedEnd)
  }

  function ParseUint(width: nat, s: seq<Byte>): Parsed<nat> {
    var (bytes, rest) :- ParseBytes(width, s);
    Parsed(FromLittleEndian(bytes), rest)
  }

  function ParseInt(width: nat, s: seq<Byte>): Parsed<int>
    requires width > 0
  {
    var (n, rest) :- ParseUint(width, s);
    Parsed(Signed(n, width), rest)
  }

  lemma BytesExact(n: nat, s: seq<Byte>, v: seq<Byte>, rest: seq<Byte>)
    ensures ParseBytes(n, s) == Parsed(v, rest) <==> |v| == n && s == v + rest
  {
    if n <= |s| {
      assert s == s[..n] + s[n..];
    }
    if |v| == n && s == v + rest {
      assert s[..n] == v && s[n..] == rest;
    }
  }

  lemma UintExact(width: nat, s: seq<Byte>, v: int, rest: seq<Byte>)
    ensures ParseUint(width, s) == Parsed(v, rest) <==> 0 <= v < Pow256(width) && s == LittleEndian(v, width) + rest
  {
    hide LittleEndian, FromLittleEndian, Pow256;
    if width <= |s| {
      FromLittleEndianExact(s[..width]);
      assert s == s[..width] + s[width..];
    }
    if 0 <= v < Pow256(width) && s == LittleEndian(v, width) + rest {
      LittleEndianExact(v, width);
      assert s[..width] == LittleEndian(v, width) && s[width..] == rest;
    }
  }

  ghost predicate FitsSigned(v: int, width: nat)
    requires width > 0
  {
    -128 * Pow256(width - 1) <= v < 128 * Pow256(width - 1)
  }

  lemma IntExact(width: nat, s: seq<Byte>, v: int, rest: seq<Byte>)
    requires width > 0
    ensures ParseInt(width, s) == Parsed(v, rest) <==> FitsSigned(v, width) && s == LittleEndian(v, width) + rest
  {
    hide LittleEndian, ParseUint;
    var u := if v < 0 then v + Pow256(width) else v;
    assert Pow256(width) == 256 * Pow256(width - 1);
    UintExact(width, s, u, rest);
    LittleEndianWraps(v, width);
    if ParseUint(width, s).Parsed? {
      var n := ParseUint(width, s).value;
      UintExact(width, s, n, ParseUint(width, s).rest);
    }
  }

  // ---------------------------------------------------------------- variable-length integers

  function VarUint(n: int): seq<Byte> {
    if n < 0xfd then LittleEndian(n, 1)
    else if n < TWO_16 then [0xfd] + LittleEndian(n, 2)
    else if n < TWO_32 then [0xfe] + LittleEndian(n, 4)
    else [0xff] + LittleEndian(n, 8)
  }

  function VarUintSerializeSize(n: nat): nat {
    if n < 0xfd then 1 else if n < TWO_16 then 3 else if n < TWO_32 then 5 else 9
  }

  function AtLeast(parsed: Parsed<nat>, min: nat): Parsed<nat> {
    if parsed.Parsed? && parsed.value < min then Failed(NonCanonical) else parsed
  }

  function ParseVarUint(s: seq<Byte>): Parsed<nat> {
    var (discriminant, rest) :- ParseUint(1, s);
    if discriminant == 0xff then AtLeast(ParseUint(8, rest), TWO_32)
    else if discriminant == 0xfe then AtLeast(ParseUint(4, rest), TWO_16)
    else if discriminant == 0xfd then AtLeast(ParseUint(2, rest), 0xfd)
    else Parsed(discriminant, rest)
  }

  lemma OneByte(b: Byte)
    ensures LittleEndian(b, 1) == [b]
  {
    assert LittleEndian(b / 256, 0) == [];
  }

  /** The four ways to write a count: one byte, or a tag and two, four or eight bytes. */
  lemma VarUintForms(n: nat)
    requires n < TWO_64
    ensures n < 0xfd ==> VarUint(n) == [n]
    ensures n >= 0xfd ==>
              var f := VarUint(n);
              && f != [] && FromLittleEndian(f[1..]) == n
              && if n <= 0xffff then f[0] == 0xfd && |f| == 3
                 else if n <= 0xffff_ffff then f[0] == 0xfe && |f| == 5 else f[0] == 0xff && |f| == 9
  {
    hide LittleEndian, FromLittleEndian;
    Widths();
    if n < 0xfd {
      OneByte(n);
    } else {
      var width := if n < TWO_16 then 2 else if n < TWO_32 then 4 else 8;
      LittleEndianExact(n, width);
      assert VarUint(n)[1..] == LittleEndian(n, width);
    }
  }

  /** A length is announced by its own size. */
  lemma VarUintSize(n: nat)
    ensures |VarUint(n)| == VarUintSerializeSize(n)
  {
  }

  lemma FirstByte(s: seq<Byte>)
    ensures s == [] ==> ParseUint(1, s) == Failed(EndOfStream)
    ensures s != [] ==> ParseUint(1, s) == Parsed(s[0], s[1..])
  {
    if s != [] {
      OneByte(s[0]);
      assert s == LittleEndian(s[0], 1) + s[1..];
      Widths();
      UintExact(1, s, s[0], s[1..]);
    }
  }

  /** Tagged reading: the tag, then an integer that needed the width. */
  lemma TaggedExact(tag: Byte, width: nat, min: nat, s: seq<Byte>, v: int, rest: seq<Byte>)
    requires s != [] && s[0] == tag
    ensures AtLeast(ParseUint(width, s[1..]), min) == Parsed(v, rest)
       <==> min <= v < Pow256(width) && s == [tag] + LittleEndian(v, width) + rest
  {
    hide LittleEndian, Pow256, ParseUint;
    UintExact(width, s[1..], v, rest);
    assert s == [tag] + s[1..];
    if s == [tag] + LittleEndian(v, width) + rest {
      assert s[1..] == LittleEndian(v, width) + rest;
    }
  }

  /** Reading accepts exactly the canonical encodings of the 64-bit values. */
  lemma VarUintExact(s: seq<Byte>, v: int, rest: seq<Byte>)
    ensures ParseVarUint(s) == Parsed(v, rest) <==> 0 <= v < TWO_64 && s == VarUint(v) + rest
  {
    hide LittleEndian, Pow256, ParseUint, AtLeast;
    FirstByte(s);
    Widths();
    if s != [] {
      if 0 <= v < 0xfd {
        OneByte(v);
      }
      if s[0] == 0xff {
        TaggedExact(0xff, 8, TWO_32, s, v, rest);
      } else if s[0] == 0xfe {
        TaggedExact(0xfe, 4, TWO_16, s, v, rest);
      } else if s[0] == 0xfd {
        TaggedExact(0xfd, 2, 0xfd, s, v, rest);
      } else {
        assert s == [s[0]] + s[1..];
        if s == VarUint(v) + rest && 0 <= v < 0xfd {
          assert s[1..] == rest;
        }
      }
    } else if 0 <= v < TWO_64 {
      VarUintSize(v);
    }
  }

  // ---------------------------------------------------------------- counted byte strings

  function VarBytes(bytes: seq<Byte>): seq<Byte> {
    VarUint(|bytes|) + bytes
  }

  function ParseVarBytes(maxAllowed: nat, s: seq<Byte>): Parsed<seq<Byte>> {
    var (count, rest) :- ParseVarUint(s);
    if count > maxAllowed then Failed(TooLong) else ParseBytes(count, rest)
  }

  lemma VarBytesExact(maxAllowed: nat, s: seq<Byte>, v: seq<Byte>, rest: seq<Byte>)
    requires maxAllowed < TWO_32
    ensures ParseVarBytes(maxAllowed, s) == Parsed(v, rest) <==> |v| <= maxAllowed && s == VarBytes(v) + rest
  {
    hide ParseVarUint, VarUint, ParseBytes;
    if ParseVarUint(s).Parsed? {
      var count, tail := ParseVarUint(s).value, ParseVarUint(s).rest;
      VarUintExact(s, count, tail);
      BytesExact(count, tail, v, rest);
      assert VarUint(count) + (v + rest) == VarUint(count) + v + rest;
    }
    if |v| <= maxAllowed && s == VarBytes(v) + rest {
      assert s == VarUint(|v|) + (v + rest);
      VarUintExact(s, |v|, v + rest);
      BytesExact(|v|, v + rest, v, rest);
    }
  }

  // ---------------------------------------------------------------- counted lists

  function FormAll<T>(form: T -> seq<Byte>, xs: seq<T>): seq<Byte> {
    if xs == [] then [] else FormAll(form, xs[..|xs| - 1]) + form(xs[|xs| - 1])
  }

  function ParseAll<T>(parse: seq<Byte> -> Parsed<T>, n: nat, done: seq<T>, s: seq<Byte>): Parsed<seq<T>>
    decreases n
  {
    if n == 0 then Parsed(done, s)
    else
      var (x, rest) :- parse(s);
      ParseAll(parse, n - 1, done + [x], rest)
  }

  ghost predicate Reads<T>(parse: seq<Byte> -> Parsed<T>, s: seq<Byte>, v: T, rest: seq<Byte>) {
    parse(s) == Parsed(v, rest)
  }

  ghost predicate Spells<T>(form: T -> seq<Byte>, fits: T -> bool, s: seq<Byte>, v: T, rest: seq<Byte>) {
    fits(v) && s == form(v) + rest
  }

  /** Parsing accepts exactly the forms of the values that fit. */
  ghost predicate Inverse<T(!new)>(parse: seq<Byte> -> Parsed<T>, form: T -> seq<Byte>, fits: T -> bool) {
    forall s, v, rest :: Reads(parse, s, v, rest) <==> Spells(form, fits, s, v, rest)
  }

  lemma InverseAt<T(!new)>(parse: seq<Byte> -> Parsed<T>, form: T -> seq<Byte>, fits: T -> bool,
                           s: seq<Byte>, v: T, rest: seq<Byte>)
    requires Inverse(parse, form, fits)
    ensures parse(s) == Parsed(v, rest) <==> fits(v) && s == form(v) + rest
  {
    assert Reads(parse, s, v, rest) <==> Spells(form, fits, s, v, rest);
  }

  lemma {:induction false} FormOfCons<T>(form: T -> seq<Byte>, x: T, xs: seq<T>)
    ensures FormAll(form, [x] + xs) == form(x) + FormAll(form, xs)
    decreases |xs|
  {
    var all := [x] + xs;
    if xs == [] {
      assert all[..0] == [];
      assert FormAll(form, all) == FormAll(form, all[..0]) + form(x);
    } else {
      FormOfCons(form, x, xs[..|xs| - 1]);
      assert all[..|all| - 1] == [x] + xs[..|xs| - 1];
    }
  }

  lemma EmptyForm<T>(form: T -> seq<Byte>, rest: seq<Byte>)
    ensures FormAll(form, []) + rest == rest
  {
    assert FormAll(form, []) == [];
  }

  lemma {:induction false} ParseAllSound<T(!new)>(
      parse: seq<Byte> -> Parsed<T>, form: T -> seq<Byte>, fits: T -> bool,
      n: nat, done: seq<T>, s: seq<Byte>, xs: seq<T>, rest: seq<Byte>)
    requires Inverse(parse, form, fits) && ParseAll(parse, n, done, s) == Parsed(xs, rest)
    ensures |xs| == |done| + n && xs[..|done|] == done
    ensures forall x :: x in xs[|done|..] ==> fits(x)
    ensures s == FormAll(form, xs[|done|..]) + rest
    decreases n
  {
    hide Inverse, FormAll;
    if n > 0 {
      var x, tail := parse(s).value, parse(s).rest;
      InverseAt(parse, form, fits, s, x, tail);
      ParseAllSound(parse, form, fits, n - 1, done + [x], tail, xs, rest);
      assert xs[|done|] == xs[..|done| + 1][|done|] == x;
      assert xs[|done|..] == [x] + xs[|done| + 1..];
      FormOfCons(form, x, xs[|done| + 1..]);
      assert xs[..|done|] == xs[..|done| + 1][..|done|];
    } else {
      assert xs[|done|..] == [];
      EmptyForm(form, rest);
    }
  }

  lemma {:induction false} ParseAllComplete<T(!new)>(
      parse: seq<Byte> -> Parsed<T>, form: T -> seq<Byte>, fits: T -> bool,
      done: seq<T>, xs: seq<T>, rest: seq<Byte>)
    requires Inverse(parse, form, fits) && forall x :: x in xs ==> fits(x)
    ensures ParseAll(parse, |xs|, done, FormAll(form, xs) + rest) == Parsed(done + xs, rest)
    decreases |xs|
  {
    hide Inverse, FormAll;
    if xs != [] {
      var x, tail := xs[0], FormAll(form, xs[1..]) + rest;
      assert xs == [x] + xs[1..];
      FormOfCons(form, x, xs[1..]);
      assert FormAll(form, xs) + rest == form(x) + tail;
      InverseAt(parse, form, fits, form(x) + tail, x, tail);
      ParseAllComplete(parse, form, fits, done + [x], xs[1..], rest);
      assert done + [x] + xs[1..] == done + xs;
    } else {
      EmptyForm(form, rest);
      assert done + xs == done;
    }
  }

  function FormList<T>(form: T -> seq<Byte>, xs: seq<T>): seq<Byte> {
    VarUint(|xs|) + FormAll(form, xs)
  }

  function ParseList<T>(parse: seq<Byte> -> Parsed<T>, s: seq<Byte>): Parsed<seq<T>> {
    var (count, rest) :- ParseVarUint(s);
    ParseAll(parse, count, [], rest)
  }

  ghost predicate ListFits<T>(fits: T -> bool, xs: seq<T>) {
    |xs| < TWO_64 && forall x :: x in xs ==> fits(x)
  }

  /** A list whose length comes first is read back exactly as its elements are. */
  lemma ListExact<T(!new)>(parse: seq<Byte> -> Parsed<T>, form: T -> seq<Byte>, fits: T -> bool,
                           s: seq<Byte>, xs: seq<T>, rest: seq<Byte>)
    requires Inverse(parse, form, fits)
    ensures ParseList(parse, s) == Parsed(xs, rest) <==> ListFits(fits, xs) && s == FormList(form, xs) + rest
  {
    hide ParseVarUint, VarUint, ParseAll, FormAll, Inverse;
    if ParseList(parse, s) == Parsed(xs, rest) {
      var count, tail := ParseVarUint(s).value, ParseVarUint(s).rest;
      VarUintExact(s, count, tail);
      ParseAllSound(parse, form, fits, count, [], tail, xs, rest);
      assert xs[0..] == xs;
      assert s == VarUint(|xs|) + (FormAll(form, xs) + rest) == FormList(form, xs) + rest;
    }
    if ListFits(fits, xs) && s == FormList(form, xs) + rest {
      var tail := FormAll(form, xs) + rest;
      assert s == VarUint(|xs|) + tail;
      VarUintExact(s, |xs|, tail);
      ParseAllComplete(parse, form, fits, [], xs, rest);
      assert [] + xs == xs;
    }
  }

  // ---------------------------------------------------------------- streams

  class Reader {
    var rest: seq<Byte>

    constructor (bytes: seq<Byte>)
      ensures rest == bytes
    {
      rest := bytes;
    }
  }

  class Writer {
    var written: seq<Byte>

    constructor ()
      ensures written == []
    {
      written := [];
    }

    method Write(bytes: seq<Byte>)
      modifies this
      ensures written == old(written) + bytes
    {
      written := written + bytes;
    }
  }

  /** A reader's result agrees with parsing the bytes that were left. */
  predicate Agrees<T(==)>(parsed: Parsed<T>, result: Result<T, ReadError>, rest: seq<Byte>) {
    match parsed
    case Parsed(v, tail) => result == Ok(v) && rest == tail
    case Failed(e) => result == Err(e)
  }

  method ReadFull(r: Reader, n: nat) returns (result: Result<seq<Byte>, ReadError>)
    modifies r
    ensures Agrees(ParseBytes(n, old(r.rest)), result, r.rest)
  {
    if n <= |r.rest| {
      result := Ok(r.rest[..n]);
      r.rest := r.rest[n..];
    } else {
      result := Err(if r.rest == [] then EndOfStream else UnexpectedEnd);
      r.rest := [];
    }
  }

  /** ReadUint8, ReadUint16, ReadUint32 and ReadUint64, by width. */
  method ReadUint(r: Reader, width: nat) returns (result: Result<nat, ReadError>)
    modifies r
    ensures Agrees(ParseUint(width, old(r.rest)), result, r.rest)
  {
    var buf := ReadFull(r, width);
    if buf.Err? {
      return Err(buf.error);
    }
    result := Ok(FromLittleEndian(buf.value));
  }

  method WriteUint(w: Writer, width: nat, n: int)
    modifies w
    ensures w.written == old(w.written) + LittleEndian(n, width)
  {
    var buf := new Byte[width];
    var i, left := 0, n;
    while i < width
      invariant 0 <= i <= width
      invariant buf[..i] + LittleEndian(left, width - i) == LittleEndian(n, width)
      invariant w.written == old(w.written)
    {
      buf[i] := left % 256;
      left := left / 256;
      i := i + 1;
    }
    assert buf[..] == buf[..width] + LittleEndian(left, 0);
    w.Write(buf[..]);
  }

  method WriteVarUint(w: Writer, n: nat)
    modifies w
    ensures w.written == old(w.written) + VarUint(n)
  {
    hide LittleEndian;
    if n < 0xfd {
      WriteUint(w, 1, n);
      return;
    }
    var tag: Byte, width := 0xff, 8;
    if n <= 0xffff {
      tag, width := 0xfd, 2;
    } else if n <= 0xffff_ffff {
      tag, width := 0xfe, 4;
    }
    OneByte(tag);
    WriteUint(w, 1, tag);
    WriteUint(w, width, n);
    assert w.written == old(w.written) + ([tag] + LittleEndian(n, width));
  }

  method ReadVarUint(r: Reader) returns (result: Result<nat, ReadError>)
    modifies r
    ensures Agrees(ParseVarUint(old(r.rest)), result, r.rest)
  {
    hide ParseUint;
    var discriminant := ReadUint(r, 1);
    if discriminant.Err? {
      return Err(discriminant.error);
    }
    var min: nat;
    match discriminant.value {
      case 0xff =>
        result := ReadUint(r, 8);
        min := TWO_32;
      case 0xfe =>
        result := ReadUint(r, 4);
        min := TWO_16;
      case 0xfd =>
        result := ReadUint(r, 2);
        min := 0xfd;
      case _ =>
        return Ok(discriminant.value);
    }
    if result.Ok? && result.value < min {
      return Err(NonCanonical);
    }
  }

  method WriteVarBytes(w: Writer, bytes: seq<Byte>)
    modifies w
    ensures w.written == old(w.written) + VarBytes(bytes)
  {
    hide VarUint;
    WriteVarUint(w, |bytes|);
    w.Write(bytes);
  }

  method ReadVarBytes(r: Reader, maxAllowed: nat) returns (result: Result<seq<Byte>, ReadError>)
    modifies r
    ensures Agrees(ParseVarBytes(maxAllowed, old(r.rest)), result, r.rest)
  {
    hide ParseVarUint;
    var count := ReadVarUint(r);
    if count.Err? {
      return Err(count.error);
    }
    if count.value > maxAllowed {
      return Err(TooLong);
    }
    result := ReadFull(r, count.value);
  }
}
