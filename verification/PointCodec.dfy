/** Points of the curve y^2 = x^3 - 3x + b modulo a prime and the byte strings they are written as
    (crypto/encode.go and the marshalling of crypto/schnorr.go), sections 2.3.3 and 2.3.4 of SEC 1. */
module PointCodec {
  import opened Bytes
  import opened Common
  import opened Congruence

  const COORDINATE_LEN: nat := 32
  const COMPRESSED_LEN: nat := 33
  const UNCOMPRESSED_LEN: nat := 65
  const EVEN_FLAG: Byte := 2
  const ODD_FLAG: Byte := 3
  const UNCOMPRESSED_FLAG: Byte := 4

  datatype Curve = Curve(p: nat, b: nat)

  /** A prime of 32 bytes that is 3 modulo 4, so the square root is a single power. */
  ghost predicate Supported(c: Curve) {
    IsPrime(c.p) && c.p % 4 == 3 && c.b < c.p && ByteLen(c.p) == COORDINATE_LEN
  }

  /** The curve the repository uses, secp256r1. */
  const P256 := Curve(
    0xffff_ffff_0000_0001_0000_0000_0000_0000_0000_0000_ffff_ffff_ffff_ffff_ffff_ffff,
    0x5ac6_35d8_aa3a_93e7_b3eb_bd55_7698_86bc_651d_06b0_cc53_b0f6_3bce_3c3e_27d2_604b)

  /** Public keys; one with a nil coordinate stands for the point at infinity. */
  datatype PublicKey = Infinity | Point(x: int, y: int)

  datatype DecodeError = EmptyData | BadFormat | BadCompression

  ghost predicate OnCurve(c: Curve, x: int, y: int)
    requires c.p > 0
  {
    Divides(c.p, y * y - (x * x * x - 3 * x + c.b))
  }

  // ---------------------------------------------------------------- decoding

  predicate IsEven(k: int) {
    k % 2 == 0
  }

  /** `Exp` with a modulus. */
  function ModExp(x: int, n: nat, m: nat): (r: nat)
    requires m > 0
    ensures r < m
  {
    Pow(x, n) % m
  }

  function CurveSqrt(c: Curve, ySquare: nat): Option<nat>
    requires c.p > 0
  {
    var root := ModExp(ySquare, c.p / 4 + 1, c.p);
    var square := ModExp(root, 2, c.p);
    if square == ySquare then Some(root) else None
  }

  function RightHandSide(c: Curve, x: nat): nat
    requires c.p > 0
  {
    var square := ModExp(x, 2, c.p);
    var slope := (square - 3) % c.p;
    var cubic := slope * x % c.p;
    (cubic + c.b) % c.p
  }

  function Decompress(c: Curve, yTilde: int, xBytes: seq<Byte>): Result<PublicKey, DecodeError>
    requires c.p > 0
  {
    var x := BigEndian(xBytes);
    var root := CurveSqrt(c, RightHandSide(c, x));
    if root == None then Err(BadCompression)
    else
      var y := root.value;
      if (IsEven(y) && yTilde != 0) || (!IsEven(y) && yTilde != 1) then Ok(Point(x, c.p - y)) else Ok(Point(x, y))
  }

  function DecodePoint(c: Curve, data: seq<Byte>): Result<PublicKey, DecodeError>
    requires c.p > 0 && ByteLen(c.p) == COORDINATE_LEN
  {
    if data == [] then Err(EmptyData)
    else if data[0] == 2 || data[0] == 3 then
      if |data| != ByteLen(c.p) + 1 then Err(BadFormat)
      else Decompress(c, data[0] % 2, data[1..1 + COORDINATE_LEN])
    else if data[0] == 4 || data[0] == 6 || data[0] == 7 then
      if |data| != UNCOMPRESSED_LEN then Err(BadFormat)
      else Ok(Point(BigEndian(data[1..1 + COORDINATE_LEN]), BigEndian(data[1 + COORDINATE_LEN..UNCOMPRESSED_LEN])))
    else Err(BadFormat)
  }

  /** The second implementation; the byte length and the field are those of the curve. */
  function Unmarshal(c: Curve, data: seq<Byte>): Option<(int, int)>
    requires c.p > 0 && ByteLen(c.p) == COORDINATE_LEN && data != []
  {
    if data[0] - data[0] % 2 != 2 || |data| != 1 + COORDINATE_LEN then None
    else
      var x := BigEndian(data[1..1 + COORDINATE_LEN]);
      var ax := -3 * x;
      var ySquare := (ModExp(x, 3, c.p) + ax + c.b) % c.p;
      var exponent := (c.p + 1 - (c.p + 1) % 4) / 4;
      var y := ModExp(ySquare, exponent, c.p);
      if ModExp(y, 2, c.p) != ySquare then None
      else Some((x, if y % 2 != data[0] % 2 then c.p - y else y))
  }

  // ---------------------------------------------------------------- encoding

  function Abs(n: int): nat {
    if n < 0 then -n else n
  }

  function ParityFlag(y: int): Byte {
    if IsEven(y) then EVEN_FLAG else ODD_FLAG
  }

  /** The compressed form: the parity of y and the last 32 bytes of x. */
  function Compressed(x: int, y: int): seq<Byte> {
    [ParityFlag(y)] + Fixed(Abs(x), COORDINATE_LEN)
  }

  /** The uncompressed form.  A y longer than 32 bytes runs into the room of x. */
  function Uncompressed(x: int, y: int): (s: seq<Byte>)
    ensures |s| == UNCOMPRESSED_LEN
  {
    var room := Fixed(Abs(y), 2 * COORDINATE_LEN);
    var k := if ByteLen(Abs(x)) <= COORDINATE_LEN then ByteLen(Abs(x)) else COORDINATE_LEN;
    [UNCOMPRESSED_FLAG] + room[..COORDINATE_LEN - k] + Fixed(Abs(x), k) + room[COORDINATE_LEN..]
  }

  function Encoded(key: PublicKey, compressed: bool): seq<Byte> {
    match key
    case Infinity => [0]
    case Point(x, y) => if compressed then Compressed(x, y) else Uncompressed(x, y)
  }

  /** What fits the buffer; anything longer makes the copies go out of range. */
  predicate FitsBuffer(key: PublicKey, compressed: bool) {
    match key
    case Infinity => true
    case Point(x, y) => ByteLen(Abs(x)) <= COMPRESSED_LEN && (compressed || ByteLen(Abs(y)) <= UNCOMPRESSED_LEN)
  }

  method Copy(buffer: array<Byte>, at: nat, bytes: seq<Byte>)
    requires at + |bytes| <= buffer.Length
    modifies buffer
    ensures buffer[..] == old(buffer[..at]) + bytes + old(buffer[at + |bytes|..])
  {
    forall i | 0 <= i < |bytes| {
      buffer[at + i] := bytes[i];
    }
  }

  method EncodePoint(key: PublicKey, compressed: bool) returns (data: seq<Byte>)
    requires FitsBuffer(key, compressed)
    ensures data == Encoded(key, compressed)
    ensures key.Infinity? ==> data == [0]
    ensures key.Point? ==> data == if compressed then Compressed(key.x, key.y) else Uncompressed(key.x, key.y)
  {
    hide ByteLen, Minimal, Fixed, Abs, Compressed, Uncompressed;
    if key.Infinity? {
      return [0];
    }
    var xBytes := Minimal(Abs(key.x));
    var buffer: array<Byte>;
    if compressed {
      buffer := new Byte[COMPRESSED_LEN](_ => 0);
    } else {
      buffer := new Byte[UNCOMPRESSED_LEN](_ => 0);
      var yBytes := Minimal(Abs(key.y));
      Copy(buffer, UNCOMPRESSED_LEN - |yBytes|, yBytes);
    }
    ghost var before := buffer[..];
    Copy(buffer, COMPRESSED_LEN - |xBytes|, xBytes);
    if compressed {
      buffer[0] := if IsEven(key.y) then EVEN_FLAG else ODD_FLAG;
      CompressedLayout(key.x, key.y, before, buffer[..]);
    } else {
      buffer[0] := UNCOMPRESSED_FLAG;
      UncompressedLayout(key.x, key.y, before, buffer[..]);
    }
    data := buffer[..];
  }

  /** The compressed bytes: 2 or 3 by the parity of y, then x from its highest byte on. */
  lemma CompressedForm(x: int, y: int)
    ensures var data := Compressed(x, y);
            && |data| == 33 && data[0] == (if y % 2 == 0 then 2 else 3)
            && BigEndian(data[1..]) == (if x < 0 then -x else x) % Pow256(32)
  {
    hide Pow256, Fixed, BigEndian;
    assert Compressed(x, y)[1..] == Fixed(Abs(x), COORDINATE_LEN);
    FixedValue(Abs(x), COORDINATE_LEN);
  }

  /** The uncompressed bytes: 4, then x and y, for coordinates of at most 32 bytes. */
  lemma UncompressedForm(x: int, y: int)
    requires 0 <= x < Pow256(32) && 0 <= y < Pow256(32)
    ensures var data := Uncompressed(x, y);
            |data| == 65 && data[0] == 4 && BigEndian(data[1..33]) == x && BigEndian(data[33..65]) == y
  {
    hide Pow256, Fixed, BigEndian, ByteLen, Uncompressed;
    UncompressedParts(x, y);
    FixedSmall(x, COORDINATE_LEN);
    FixedSmall(y, COORDINATE_LEN);
  }

  lemma CompressedLayout(x: int, y: int, before: seq<Byte>, after: seq<Byte>)
    requires ByteLen(Abs(x)) <= COMPRESSED_LEN
    requires before == seq(COMPRESSED_LEN, _ => 0 as Byte)
    requires after == (before[..COMPRESSED_LEN - ByteLen(Abs(x))] + Minimal(Abs(x)))[0 := ParityFlag(y)]
    ensures after == Compressed(x, y)
  {
    hide ByteLen, Minimal, Fixed, Abs;
    var n := Abs(x);
    if ByteLen(n) <= COORDINATE_LEN {
      FixedIsPadded(n, COORDINATE_LEN);
    } else {
      FixedIsSuffix(n, COORDINATE_LEN);
    }
  }

  lemma UncompressedLayout(x: int, y: int, before: seq<Byte>, after: seq<Byte>)
    requires ByteLen(Abs(x)) <= COMPRESSED_LEN && ByteLen(Abs(y)) <= UNCOMPRESSED_LEN
    requires before == seq(UNCOMPRESSED_LEN - ByteLen(Abs(y)), _ => 0 as Byte) + Minimal(Abs(y))
    requires after == (before[..COMPRESSED_LEN - ByteLen(Abs(x))] + Minimal(Abs(x)) + before[COMPRESSED_LEN..])
                      [0 := UNCOMPRESSED_FLAG]
    ensures after == Uncompressed(x, y)
  {
    hide ByteLen, Fixed, Minimal, Abs;
    var n := Abs(x);
    RoomOfY(Abs(y), before);
    if ByteLen(n) <= COORDINATE_LEN {
      FixedIsSuffix(n, ByteLen(n));
    } else {
      FixedIsSuffix(n, COORDINATE_LEN);
    }
  }

  lemma RoomOfY(n: nat, before: seq<Byte>)
    requires ByteLen(n) <= UNCOMPRESSED_LEN
    requires before == seq(UNCOMPRESSED_LEN - ByteLen(n), _ => 0 as Byte) + Minimal(n)
    ensures before[1..] == Fixed(n, 2 * COORDINATE_LEN)
  {
    hide ByteLen, Fixed, Minimal;
    if ByteLen(n) <= 2 * COORDINATE_LEN {
      FixedIsPadded(n, 2 * COORDINATE_LEN);
    } else {
      FixedIsSuffix(n, 2 * COORDINATE_LEN);
    }
  }

  /** The other marshalling sets the flag before the coordinate and adds the parity after it. */
  method Marshal(x: int, y: int) returns (data: seq<Byte>)
    requires ByteLen(Abs(x)) <= COMPRESSED_LEN
    ensures |data| == COMPRESSED_LEN
    ensures data == Compressed(x, y) <==> ByteLen(Abs(x)) <= COORDINATE_LEN || Minimal(Abs(x))[0] == 2
  {
    hide ByteLen, Minimal, Fixed, Abs, Compressed, Pow256, BigEndian, ParityFlag;
    var buffer := new Byte[1 + COORDINATE_LEN](_ => 0);
    buffer[0] := 2;
    var xBytes := Minimal(Abs(x));
    ghost var before := buffer[..];
    Copy(buffer, 1 + COORDINATE_LEN - |xBytes|, xBytes);
    ghost var copied := buffer[..];
    buffer[0] := (buffer[0] + y % 2) % 256;
    data := buffer[..];
    assert data == copied[0 := (copied[0] + y % 2) % 256];
    MarshalLayout(x, y, before, copied, data);
  }

  lemma MarshalLayout(x: int, y: int, before: seq<Byte>, copied: seq<Byte>, data: seq<Byte>)
    requires ByteLen(Abs(x)) <= COMPRESSED_LEN == |data|
    requires before == seq(COMPRESSED_LEN, _ => 0 as Byte)[0 := 2]
    requires copied == before[..COMPRESSED_LEN - ByteLen(Abs(x))] + Minimal(Abs(x))
    requires data == copied[0 := (copied[0] + y % 2) % 256]
    ensures data == Compressed(x, y) <==> ByteLen(Abs(x)) <= COORDINATE_LEN || Minimal(Abs(x))[0] == 2
  {
    hide ByteLen, Minimal, Fixed, Abs;
    assert copied[0] == if ByteLen(Abs(x)) <= COORDINATE_LEN then 2 else Minimal(Abs(x))[0];
    var zeros := seq(COMPRESSED_LEN, _ => 0 as Byte);
    var expected := (zeros[..COMPRESSED_LEN - ByteLen(Abs(x))] + Minimal(Abs(x)))[0 := ParityFlag(y)];
    CompressedLayout(x, y, zeros, expected);
    assert data[1..] == expected[1..];
    assert data == [data[0]] + data[1..] && expected == [expected[0]] + expected[1..];
  }

  // ---------------------------------------------------------------- the curve equation

  lemma PowSmall(x: int)
    ensures Pow(x, 2) == x * x && Pow(x, 3) == x * x * x
  {
    assert Pow(x, 1) == x * Pow(x, 0);
    assert Pow(x, 2) == x * Pow(x, 1);
    assert Pow(x, 3) == x * Pow(x, 2);
  }

  /** Reducing at every step gives the reduced cubic. */
  lemma RightHandSideExact(c: Curve, x: nat)
    requires c.p > 0
    ensures RightHandSide(c, x) == (x * x * x - 3 * x + c.b) % c.p
  {
    PowSmall(x);
    var square, slope := x * x % c.p, (x * x % c.p - 3) % c.p;
    ModIsRemainder(c.p, x * x);
    ModIsRemainder(c.p, square - 3);
    DividesSum(c.p, x * x - square, square - 3 - slope);
    DividesProduct(c.p, x * x - 3 - slope, x);
    ModIsRemainder(c.p, slope * x);
    DividesSum(c.p, (x * x - 3 - slope) * x, slope * x - slope * x % c.p);
    assert (x * x - 3 - slope) * x == x * x * x - 3 * x - slope * x by { Distribute(x * x, slope, x); }
    SameRemainder(c.p, x * x * x - 3 * x + c.b, slope * x % c.p + c.b);
  }

  lemma Distribute(a: int, s: int, x: int)
    ensures (a - 3 - s) * x == a * x - 3 * x - s * x
  {
  }

  /** Unmarshal adds the terms up first, and reaches the same value. */
  lemma SumReducesAlike(c: Curve, x: nat)
    requires c.p > 0
    ensures (ModExp(x, 3, c.p) + -3 * x + c.b) % c.p == RightHandSide(c, x)
  {
    PowSmall(x);
    RightHandSideExact(c, x);
    ModIsRemainder(c.p, x * x * x);
    SameRemainder(c.p, x * x * x - 3 * x + c.b, x * x * x % c.p + -3 * x + c.b);
  }

  lemma OnCurveExact(c: Curve, x: nat, y: int)
    requires c.p > 0
    ensures OnCurve(c, x, y) <==> y * y % c.p == RightHandSide(c, x)
  {
    RightHandSideExact(c, x);
    SameRemainder(c.p, y * y, x * x * x - 3 * x + c.b);
  }

  // ---------------------------------------------------------------- square roots

  /** CurveSqrt finds a root whenever there is one. */
  lemma SqrtComplete(c: Curve, y: int)
    requires Supported(c)
    ensures var r := CurveSqrt(c, y * y % c.p);
            r.Some? && r.value < c.p && Divides(c.p, r.value * r.value - y * y)
  {
    var p, e, s := c.p, c.p / 4 + 1, y * y % c.p;
    var power := Pow(s, e);
    RootOfSquare(p, Abs(y));
    assert Abs(y) * Abs(y) == y * y;
    var r := Pow(y * y, e);
    ModIsRemainder(p, y * y);
    PowOfRemainder(y * y, s, e, p);
    ModIsRemainder(p, power);
    DividesSum(p, r - power, power - power % p);
    SameProduct(p, r, power % p, r, power % p);
    DividesSum(p, r * r - y * y, r * r - power % p * (power % p));
    assert r * r - y * y - (r * r - power % p * (power % p)) == power % p * (power % p) - y * y;
    SameRemainder(p, power % p * (power % p), y * y);
    PowSmall(power % p);
  }

  lemma SqrtSound(c: Curve, s: nat)
    requires c.p > 0
    ensures var r := CurveSqrt(c, s); r.Some? ==> r.value < c.p && r.value * r.value % c.p == s
  {
    PowSmall(ModExp(s, c.p / 4 + 1, c.p));
  }

  /** Of the two roots the decoder takes the one with the wanted parity. */
  function WithParity(c: Curve, root: int, parity: int): int {
    if root % 2 == parity then root else c.p - root
  }

  lemma WithParityExact(c: Curve, root: nat, y: int)
    requires Supported(c) && root < c.p && 0 <= y <= c.p && Divides(c.p, root * root - y * y)
    ensures WithParity(c, root, y % 2) == y
  {
    hide IsPrime, Divides, ByteLen;
    RootsAreOpposite(c.p, root, y);
    if Divides(c.p, root - y) {
      if root + c.p != y {
        DividesSmall(c.p, root - y);
      }
    } else {
      ShiftDown(c.p, root + y);
      if root + y != 0 {
        DividesSmall(c.p, root + y - c.p);
      }
    }
  }

  lemma ShiftDown(p: nat, x: int)
    requires p > 0 && Divides(p, x)
    ensures Divides(p, x - p)
  {
    DividesBy(p, p, 1);
    DividesSum(p, x, p);
  }

  lemma WithParitySound(c: Curve, root: nat, parity: int)
    requires Supported(c) && root < c.p && 0 <= parity < 2
    ensures var y := WithParity(c, root, parity);
            0 <= y <= c.p && y % 2 == parity && y * y % c.p == root * root % c.p
  {
    hide IsPrime, ByteLen, WithParity;
    ParityOf(c, root, parity);
    if WithParity(c, root, parity) != root {
      OppositeSquare(c.p, root);
    }
  }

  lemma ParityOf(c: Curve, root: nat, parity: int)
    requires c.p % 4 == 3 && root < c.p && 0 <= parity < 2
    ensures var y := WithParity(c, root, parity);
            (y == root || y == c.p - root) && 0 <= y <= c.p && y % 2 == parity
  {
  }

  lemma OppositeSquare(p: nat, r: nat)
    requires p > 0
    ensures (p - r) * (p - r) % p == r * r % p
  {
    Square(p, r);
    DividesBy(p, (p - r) * (p - r) - r * r, p - 2 * r);
    SameRemainder(p, (p - r) * (p - r), r * r);
  }

  lemma Square(p: int, r: int)
    ensures (p - r) * (p - r) - r * r == (p - 2 * r) * p
  {
  }

  // ---------------------------------------------------------------- decoding undoes encoding

  predicate HasParityFlag(data: seq<Byte>) {
    data != [] && (data[0] == EVEN_FLAG || data[0] == ODD_FLAG)
  }

  lemma DecompressShape(c: Curve, data: seq<Byte>)
    requires Supported(c) && HasParityFlag(data)
    ensures |data| != COMPRESSED_LEN ==> DecodePoint(c, data) == Err(BadFormat)
    ensures |data| == COMPRESSED_LEN ==>
              var x := BigEndian(data[1..]);
              var root := CurveSqrt(c, RightHandSide(c, x));
              DecodePoint(c, data) ==
                if root == None then Err(BadCompression) else Ok(Point(x, WithParity(c, root.value, data[0] % 2)))
  {
    hide CurveSqrt, RightHandSide, BigEndian;
    if |data| == COMPRESSED_LEN {
      assert data[1..1 + COORDINATE_LEN] == data[1..];
    }
  }

  /** What decoding accepts is the encoding of a curve point. */
  lemma DecodedSound(c: Curve, data: seq<Byte>, x: int, y: int)
    requires Supported(c) && HasParityFlag(data) && DecodePoint(c, data) == Ok(Point(x, y))
    ensures data == Compressed(x, y) && 0 <= x < Pow256(COORDINATE_LEN) && 0 <= y <= c.p && OnCurve(c, x, y)
  {
    hide Pow256, DecodePoint, OnCurve, Fixed, BigEndian, CurveSqrt, RightHandSide, IsPrime, ByteLen, WithParity;
    DecompressShape(c, data);
    var root := CurveSqrt(c, RightHandSide(c, x)).value;
    SqrtSound(c, RightHandSide(c, x));
    WithParitySound(c, root, data[0] % 2);
    OnCurveExact(c, x, y);
    FixedOfValue(data[1..]);
    assert data == [data[0]] + data[1..];
  }

  /** The encoding of a curve point in range is decoded to it. */
  lemma EncodedDecodes(c: Curve, x: int, y: int)
    requires Supported(c) && 0 <= x < Pow256(COORDINATE_LEN) && 0 <= y <= c.p && OnCurve(c, x, y)
    ensures DecodePoint(c, Compressed(x, y)) == Ok(Point(x, y))
  {
    hide Pow256, DecodePoint, OnCurve, Fixed, BigEndian, CurveSqrt, RightHandSide, IsPrime, ByteLen, WithParity;
    var data := Compressed(x, y);
    assert data[1..] == Fixed(x, COORDINATE_LEN);
    FixedSmall(x, COORDINATE_LEN);
    DecompressShape(c, data);
    OnCurveExact(c, x, y);
    SqrtComplete(c, y);
    WithParityExact(c, CurveSqrt(c, RightHandSide(c, x)).value, y);
  }

  /** Decoding a compressed string yields a key exactly when the key is a curve point in range and
      the string is its encoding. */
  lemma DecodesExactly(c: Curve, data: seq<Byte>, x: int, y: int)
    requires Supported(c) && HasParityFlag(data)
    ensures DecodePoint(c, data) == Ok(Point(x, y))
       <==> data == Compressed(x, y) && 0 <= x < Pow256(COORDINATE_LEN) && 0 <= y <= c.p && OnCurve(c, x, y)
  {
    hide Pow256, DecodePoint, OnCurve, Compressed, IsPrime, ByteLen, HasParityFlag;
    if DecodePoint(c, data) == Ok(Point(x, y)) {
      DecodedSound(c, data, x, y);
    }
    if data == Compressed(x, y) && 0 <= x < Pow256(COORDINATE_LEN) && 0 <= y <= c.p && OnCurve(c, x, y) {
      EncodedDecodes(c, x, y);
    }
  }

  /** So compressed encoding is undone on the curve points in range, and on no other keys. */
  lemma CompressedRoundTrip(c: Curve, x: int, y: int)
    requires Supported(c)
    ensures DecodePoint(c, Compressed(x, y)) == Ok(Point(x, y))
       <==> 0 <= x < Pow256(COORDINATE_LEN) && 0 <= y <= c.p && OnCurve(c, x, y)
  {
    hide Pow256, DecodePoint, OnCurve, Fixed, Supported;
    DecodesExactly(c, Compressed(x, y), x, y);
  }

  /** A compressed string of the right length is refused exactly when no point has its x. */
  lemma RefusedExactly(c: Curve, data: seq<Byte>)
    requires Supported(c) && HasParityFlag(data)
    ensures DecodePoint(c, data) == Err(BadFormat) <==> |data| != 33
    ensures DecodePoint(c, data) == Err(BadCompression)
       <==> |data| == 33 && !exists y :: OnCurve(c, BigEndian(data[1..]), y)
  {
    hide DecodePoint, OnCurve, BigEndian, CurveSqrt, RightHandSide, IsPrime;
    DecompressShape(c, data);
    if |data| != COMPRESSED_LEN {
      return;
    }
    var x := BigEndian(data[1..]);
    forall y | OnCurve(c, x, y)
      ensures DecodePoint(c, data) != Err(BadCompression)
    {
      OnCurveExact(c, x, y);
      SqrtComplete(c, y);
    }
    if DecodePoint(c, data) != Err(BadCompression) {
      var root := CurveSqrt(c, RightHandSide(c, x)).value;
      SqrtSound(c, RightHandSide(c, x));
      OnCurveExact(c, x, root);
    }
  }

  /** The two implementations accept the same 33-byte strings and read the same points from them. */
  lemma UnmarshalAgrees(c: Curve, data: seq<Byte>)
    requires Supported(c) && data != []
    ensures !HasParityFlag(data) || |data| != COMPRESSED_LEN ==> Unmarshal(c, data) == None
    ensures HasParityFlag(data) || |data| == COMPRESSED_LEN ==>
              DecodePoint(c, data).Ok? == Unmarshal(c, data).Some?
    ensures Unmarshal(c, data).Some? ==>
              DecodePoint(c, data) == Ok(Point(Unmarshal(c, data).value.0, Unmarshal(c, data).value.1))
  {
    if HasParityFlag(data) && |data| == COMPRESSED_LEN {
      DecompressShape(c, data);
      UnmarshalShape(c, data);
    }
  }

  lemma UnmarshalShape(c: Curve, data: seq<Byte>)
    requires Supported(c) && HasParityFlag(data) && |data| == COMPRESSED_LEN
    ensures var x := BigEndian(data[1..]);
            var root := CurveSqrt(c, RightHandSide(c, x));
            Unmarshal(c, data) == if root == None then None else Some((x, WithParity(c, root.value, data[0] % 2)))
  {
    hide RightHandSide, BigEndian, ModExp, IsPrime, ByteLen, Pow256;
    assert data[1..1 + COORDINATE_LEN] == data[1..];
    SumReducesAlike(c, BigEndian(data[1..]));
    SameExponent(c.p);
  }

  lemma SameExponent(p: nat)
    requires p % 4 == 3
    ensures (p + 1 - (p + 1) % 4) / 4 == p / 4 + 1
  {
  }

  /** secp256r1 is supported, given that its modulus is prime. */
  lemma P256Supported()
    requires IsPrime(P256.p)
    ensures Supported(P256)
  {
    hide IsPrime;
    Powers();
    ByteLenUnique(P256.p, COORDINATE_LEN);
  }

  lemma FourBytes()
    ensures Pow256(4) == 0x1_0000_0000
  {
    assert Pow256(2) == 256 * Pow256(1);
    assert Pow256(4) == 256 * Pow256(3);
  }

  lemma Powers()
    ensures Pow256(COORDINATE_LEN - 1) < P256.p < Pow256(COORDINATE_LEN)
  {
    hide Pow256;
    FourBytes();
    Pow256Add(4, 4);
    Pow256Add(8, 8);
    Pow256Add(16, 16);
    Pow256Add(8, 4);
    Pow256Add(12, 12);
    Pow256Add(24, 4);
    ThreeBytes();
    Pow256Add(28, 3);
  }

  lemma ThreeBytes()
    ensures Pow256(3) == 0x100_0000
  {
    assert Pow256(2) == 256 * Pow256(1);
  }

  // ---------------------------------------------------------------- the uncompressed form

  /** The uncompressed form is undone exactly for coordinates of at most 32 bytes; the point need
      not be on the curve. */
  lemma UncompressedRoundTrip(c: Curve, x: int, y: int)
    requires Supported(c)
    ensures DecodePoint(c, Uncompressed(x, y)) == Ok(Point(x, y))
       <==> 0 <= x < Pow256(COORDINATE_LEN) && 0 <= y < Pow256(COORDINATE_LEN)
  {
    hide Pow256, Fixed, BigEndian, ByteLen, IsPrime, Uncompressed;
    var data := Uncompressed(x, y);
    UncompressedParts(x, y);
    FixedOfValue(data[1..1 + COORDINATE_LEN]);
    FixedOfValue(data[1 + COORDINATE_LEN..UNCOMPRESSED_LEN]);
    if 0 <= x < Pow256(COORDINATE_LEN) && 0 <= y < Pow256(COORDINATE_LEN) {
      FixedSmall(x, COORDINATE_LEN);
      FixedSmall(y, COORDINATE_LEN);
    }
  }

  lemma UncompressedParts(x: int, y: int)
    ensures var data := Uncompressed(x, y);
            data[0] == UNCOMPRESSED_FLAG
            && (Abs(x) < Pow256(COORDINATE_LEN) && Abs(y) < Pow256(COORDINATE_LEN) ==>
                  data[1..1 + COORDINATE_LEN] == Fixed(Abs(x), COORDINATE_LEN)
                  && data[1 + COORDINATE_LEN..UNCOMPRESSED_LEN] == Fixed(Abs(y), COORDINATE_LEN))
  {
    hide Pow256, Fixed, BigEndian, ByteLen, Minimal, Abs;
    var n, m := Abs(x), Abs(y);
    if n < Pow256(COORDINATE_LEN) && m < Pow256(COORDINATE_LEN) {
      ByteLenAtMost(n, COORDINATE_LEN);
      ByteLenAtMost(m, COORDINATE_LEN);
      FixedIsPadded(n, COORDINATE_LEN);
      FixedIsSuffix(n, ByteLen(n));
      FixedIsPadded(m, 2 * COORDINATE_LEN);
      FixedTail(m, COORDINATE_LEN, COORDINATE_LEN);
    }
  }

  /** Every other string is refused; the three uncompressed flags decode alike, so only the one that
      is written comes back. */
  lemma UncompressedDecode(c: Curve, data: seq<Byte>)
    requires Supported(c) && !HasParityFlag(data)
    ensures DecodePoint(c, data).Ok? <==> |data| == UNCOMPRESSED_LEN && data[0] in {4, 6, 7}
    ensures DecodePoint(c, data).Ok? ==>
              var key := DecodePoint(c, data).value;
              key.Point? && (Uncompressed(key.x, key.y) == data <==> data[0] == UNCOMPRESSED_FLAG)
    ensures DecodePoint(c, data) == Err(EmptyData) <==> data == []
  {
    hide Pow256, Fixed, BigEndian, ByteLen, IsPrime, Uncompressed;
    if DecodePoint(c, data).Ok? {
      var key := DecodePoint(c, data).value;
      FixedOfValue(data[1..1 + COORDINATE_LEN]);
      FixedOfValue(data[1 + COORDINATE_LEN..UNCOMPRESSED_LEN]);
      UncompressedParts(key.x, key.y);
      var r := Uncompressed(key.x, key.y);
      assert r == [r[0]] + r[1..1 + COORDINATE_LEN] + r[1 + COORDINATE_LEN..UNCOMPRESSED_LEN];
      assert data == [data[0]] + data[1..1 + COORDINATE_LEN] + data[1 + COORDINATE_LEN..UNCOMPRESSED_LEN];
    }
  }
}
