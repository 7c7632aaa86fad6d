/**
  Modbus registers (obs/adapters/modbus_base.py): numbers become 16-bit registers, most
  significant byte first as in section 4.2 of the MODBUS Application Protocol
  Specification V1.1b3 unless configured otherwise, and come back from them.
 */
module Modbus {
  import opened Bytes
  import opened Wrappers

  datatype Order = Big | Little

  datatype Format = Uint16 | Int16 | Uint32 | Int32 | Float32 | Uint64 | Int64 | Unknown

  datatype Error = IndexError | StructError | ZeroDivision

  /** IEEE single precision and decimal rounding, which the interpreter does. */
  datatype Floats = Floats(pack: real -> Result<seq<nat>, Error>, unpack: seq<nat> -> real, round6: real -> real)

  /** Four bytes when packing succeeds, and rounding to six digits that is off by half a digit at most. */
  ghost predicate Sound(f: Floats) {
    && (forall r :: f.pack(r).Ok? ==> |f.pack(r).value| == 4 && AreBytes(f.pack(r).value))
    && forall r :: -0.0000005 <= f.round6(r) - r <= 0.0000005
  }

  /** There are such operations. */
  lemma SoundnessCanBeMet(f: Floats)
    requires (forall r :: f.pack(r) == Ok([0, 0, 0, 0])) && forall r :: f.round6(r) == r
    ensures Sound(f)
  {
  }

  // ---- bytes --------------------------------------------------------------------------------------------

  function Pow256(k: nat): (p: nat)
    ensures p > 0
  {
    if k == 0 then 1 else 256 * Pow256(k - 1)
  }

  lemma PowersOf256()
    ensures Pow256(2) == 0x1_0000 && Pow256(4) == 0x1_0000_0000 && Pow256(8) == 0x1_0000_0000_0000_0000
  {
    assert Pow256(1) == 256 * Pow256(0);
    assert Pow256(3) == 256 * Pow256(2);
    assert Pow256(5) == 256 * Pow256(4) && Pow256(6) == 256 * Pow256(5) && Pow256(7) == 256 * Pow256(6);
  }

  /** The k bytes of n, most significant first. */
  function BigBytes(n: nat, k: nat): (b: seq<nat>)
    ensures |b| == k && AreBytes(b)
  {
    if k == 0 then [] else BigBytes(n / 256, k - 1) + [n % 256]
  }

  function FromBig(b: seq<nat>): nat {
    if b == [] then 0 else 256 * FromBig(b[..|b| - 1]) + b[|b| - 1]
  }

  lemma {:induction false} FromBigBytes(n: nat, k: nat)
    requires n < Pow256(k)
    ensures FromBig(BigBytes(n, k)) == n
  {
    if k > 0 {
      FromBigBytes(n / 256, k - 1);
      assert BigBytes(n, k)[..k - 1] == BigBytes(n / 256, k - 1);
    }
  }

  /** Two's complement over k bytes. */
  function Wrapped(v: int, k: nat): (u: nat)
    ensures u < Pow256(k)
  {
    v % Pow256(k)
  }

  function Signed(u: nat, k: nat): int {
    if 2 * u >= Pow256(k) then u - Pow256(k) else u
  }

  predicate InRange(v: int, k: nat, signed: bool) {
    if signed then -2 * v <= Pow256(k) && 2 * v < Pow256(k) else 0 <= v < Pow256(k)
  }

  function Pack(v: int, k: nat, signed: bool): Result<seq<nat>, Error> {
    if InRange(v, k, signed) then Ok(BigBytes(Wrapped(v, k), k)) else Err(StructError)
  }

  function Unpack(b: seq<nat>, signed: bool): int {
    if signed then Signed(FromBig(b), |b|) else FromBig(b)
  }

  lemma PackRoundTrips(v: int, k: nat, signed: bool)
    ensures Pack(v, k, signed).Ok? <==> InRange(v, k, signed)
    ensures InRange(v, k, signed) ==> Unpack(Pack(v, k, signed).value, signed) == v
  {
    if InRange(v, k, signed) {
      FromBigBytes(Wrapped(v, k), k);
      WrappedInRange(v, Pow256(k));
    }
  }

  lemma WrappedInRange(v: int, m: nat)
    requires m > 0 && -v <= m && v < m
    ensures v % m == if v >= 0 then v else v + m
  {
    var (q, r) := (v / m, v % m);
    assert v == q * m + r;
    Multiples(q, m);
  }

  lemma Multiples(q: int, m: nat)
    ensures q >= 1 ==> q * m >= m
    ensures q <= -2 ==> q * m <= -2 * m
  {
    if q >= 1 {
      assert (q - 1) * m >= 0;
    } else if q <= -2 {
      assert (-2 - q) * m >= 0;
    }
  }

  // ---- registers -----------------------------------------------------------------------------------------

  function PackWord(w: nat, order: Order): (b: seq<nat>)
    requires w < 0x1_0000
    ensures |b| == 2 && AreBytes(b)
  {
    if order == Big then [w / 256, w % 256] else [w % 256, w / 256]
  }

  function UnpackWord(b: seq<nat>, order: Order): (w: nat)
    requires |b| == 2 && AreBytes(b)
    ensures w < 0x1_0000 && PackWord(w, order) == b
  {
    if order == Big then 256 * b[0] + b[1] else 256 * b[1] + b[0]
  }

  predicate AreWords(words: seq<int>) {
    forall i :: 0 <= i < |words| ==> 0 <= words[i] < 0x1_0000
  }

  function WordsOf(b: seq<nat>, order: Order): (words: seq<int>)
    requires |b| % 2 == 0 && AreBytes(b)
    ensures |words| == |b| / 2 && AreWords(words)
  {
    if b == [] then [] else WordsOf(b[..|b| - 2], order) + [UnpackWord(b[|b| - 2..], order)]
  }

  function BytesOf(words: seq<int>, order: Order): (b: seq<nat>)
    requires AreWords(words)
    ensures |b| == 2 * |words| && AreBytes(b)
  {
    if words == [] then [] else BytesOf(words[..|words| - 1], order) + PackWord(words[|words| - 1], order)
  }

  lemma SplitLastTwo(b: seq<nat>)
    requires |b| >= 2
    ensures b == b[..|b| - 2] + b[|b| - 2..]
  {
  }

  lemma {:induction false} RegistersCarryBytes(b: seq<nat>, order: Order)
    requires |b| % 2 == 0 && AreBytes(b)
    ensures BytesOf(WordsOf(b, order), order) == b
    decreases |b|
  {
    if b != [] {
      var (front, last) := (b[..|b| - 2], b[|b| - 2..]);
      RegistersCarryBytes(front, order);
      var (words, w) := (WordsOf(front, order), UnpackWord(last, order));
      assert WordsOf(b, order) == words + [w];
      OneMoreWord(words, w, order);
      SplitLastTwo(b);
    }
  }

  lemma OneMoreWord(words: seq<int>, w: nat, order: Order)
    requires AreWords(words) && w < 0x1_0000
    ensures AreWords(words + [w]) && BytesOf(words + [w], order) == BytesOf(words, order) + PackWord(w, order)
  {
    var all := words + [w];
    assert all[..|all| - 1] == words && all[|all| - 1] == w;
  }

  function InOrder(words: seq<int>, order: Order): (r: seq<int>)
    requires |words| == 2
    ensures |r| == 2 && (AreWords(words) ==> AreWords(r))
  {
    if order == Big then words else [words[1], words[0]]
  }

  // ---- the two conversions ----------------------------------------------------------------------------------

  function Truncated(r: real): int {
    if r >= 0.0 then r.Floor else -((-r).Floor)
  }

  function EncodeInteger(raw: int, format: Format, byteOrder: Order, wordOrder: Order): Result<seq<int>, Error> {
    match format
    case Int16 =>
      var b :- Pack(raw, 2, true);
      Ok([UnpackWord(if byteOrder == Big then b else [b[1], b[0]], Big)])
    case Uint32 =>
      var b :- Pack(raw % 0x1_0000_0000, 4, false);
      Ok(InOrder(WordsOf(b, byteOrder), wordOrder))
    case Int32 =>
      var b :- Pack(raw, 4, true);
      Ok(InOrder(WordsOf(b, byteOrder), wordOrder))
    case Uint64 =>
      var b :- Pack(raw, 8, false);
      Ok(WordsOf(b, Big))
    case Int64 =>
      var b :- Pack(raw, 8, true);
      Ok(WordsOf(b, Big))
    case _ => Ok([raw % 0x1_0000])
  }

  /** The value, as a float, to registers. */
  function Encode(
    value: real, format: Format, byteOrder: Order, wordOrder: Order, scale: real, f: Floats): Result<seq<int>, Error>
    requires Sound(f)
  {
    if scale == 0.0 then Err(ZeroDivision)
    else
      var scaled := if scale != 1.0 then value / scale else value;
      if format == Float32 then
        var b :- f.pack(scaled);
        Ok(InOrder(WordsOf(b, byteOrder), wordOrder))
      else EncodeInteger(Truncated(scaled), format, byteOrder, wordOrder)
  }

  /** The raw number in engineering units; a scale of one is not multiplied by. */
  function Times(raw: real, scale: real): real {
    if scale != 1.0 then raw * scale else raw
  }

  function Decode(
    registers: seq<int>, format: Format, byteOrder: Order, wordOrder: Order, scale: real, f: Floats)
    : Result<real, Error>
  {
    match format
    case Uint16 =>
      if registers == [] then Err(IndexError)
      else Ok(if scale != 1.0 then Truncated(Times(registers[0] as real, scale)) as real else registers[0] as real)
    case Int16 =>
      if registers == [] then Err(IndexError)
      else if !AreWords(registers[..1]) then Err(StructError)
      else Ok(Times(Signed(registers[0], 2) as real, scale))
    case Uint32 => Decode32(registers, byteOrder, wordOrder, scale, f, AsUnsigned)
    case Int32 => Decode32(registers, byteOrder, wordOrder, scale, f, AsSigned)
    case Float32 => Decode32(registers, byteOrder, wordOrder, scale, f, AsFloat)
    case Uint64 => Decode64(registers, scale, false)
    case Int64 => Decode64(registers, scale, true)
    case Unknown => if registers == [] then Err(IndexError) else Ok(registers[0] as real)
  }

  datatype Reading = AsUnsigned | AsSigned | AsFloat

  function ReadBytes(b: seq<nat>, reading: Reading, f: Floats): real {
    match reading
    case AsUnsigned => Unpack(b, false) as real
    case AsSigned => Unpack(b, true) as real
    case AsFloat => f.unpack(b)
  }

  function Decode32(
    registers: seq<int>, byteOrder: Order, wordOrder: Order, scale: real, f: Floats, reading: Reading)
    : Result<real, Error>
  {
    if |registers| < 2 then Ok(0.0)
    else if !AreWords(registers[..2]) then Err(StructError)
    else
      var raw := ReadBytes(BytesOf(InOrder(registers[..2], wordOrder), byteOrder), reading, f);
      Ok(if scale != 1.0 then f.round6(Times(raw, scale)) else raw)
  }

  function Decode64(registers: seq<int>, scale: real, signed: bool): Result<real, Error> {
    if |registers| < 4 then Ok(0.0)
    else if !AreWords(registers[..4]) then Err(StructError)
    else Ok(Times(Unpack(BytesOf(registers[..4], Big), signed) as real, scale))
  }

  // ---- what comes back ---------------------------------------------------------------------------------------

  /** A register with its two bytes exchanged. */
  function Swapped(w: nat): (r: nat)
    requires w < 0x1_0000
    ensures r < 0x1_0000
  {
    256 * (w % 256) + w / 256
  }

  /** The number that the registers for `raw` stand for, or nothing if there are none. */
  function Carried(raw: int, format: Format, byteOrder: Order): Option<int> {
    match format
    case Uint16 => Some(raw % 0x1_0000)
    case Int16 =>
      if !InRange(raw, 2, true) then None
      else if byteOrder == Big then Some(raw)
      else Some(Signed(Swapped(raw % 0x1_0000), 2))
    case Uint32 => Some(raw % 0x1_0000_0000)
    case Int32 => if InRange(raw, 4, true) then Some(raw) else None
    case Uint64 => if InRange(raw, 8, false) then Some(raw) else None
    case Int64 => if InRange(raw, 8, true) then Some(raw) else None
    case _ => None
  }

  /** How a decoder scales what the registers stand for. */
  function Scaled(raw: int, format: Format, scale: real, f: Floats): real {
    var scaled := Times(raw as real, scale);
    if scale == 1.0 then scaled
    else if format == Uint16 then Truncated(scaled) as real
    else if format == Uint32 || format == Int32 then f.round6(scaled)
    else scaled
  }

  /** Four bytes pass through two registers unchanged, whatever the orders. */
  lemma ThroughTwoWords(b: seq<nat>, byteOrder: Order, wordOrder: Order)
    requires |b| == 4 && AreBytes(b)
    ensures var registers := InOrder(WordsOf(b, byteOrder), wordOrder);
            registers[..2] == registers && AreWords(registers) && BytesOf(InOrder(registers, wordOrder), byteOrder) == b
  {
    RegistersCarryBytes(b, byteOrder);
    var words := WordsOf(b, byteOrder);
    assert InOrder(InOrder(words, wordOrder), wordOrder) == words;
  }

  lemma DecodedTwoWords(b: seq<nat>, byteOrder: Order, wordOrder: Order, scale: real, f: Floats, reading: Reading)
    requires |b| == 4 && AreBytes(b)
    ensures var raw := ReadBytes(b, reading, f);
            Decode32(InOrder(WordsOf(b, byteOrder), wordOrder), byteOrder, wordOrder, scale, f, reading)
            == Ok(if scale != 1.0 then f.round6(Times(raw, scale)) else raw)
  {
    ThroughTwoWords(b, byteOrder, wordOrder);
  }

  lemma ThroughFourWords(b: seq<nat>)
    requires |b| == 8 && AreBytes(b)
    ensures var registers := WordsOf(b, Big);
            registers[..4] == registers && AreWords(registers) && BytesOf(registers, Big) == b
  {
    RegistersCarryBytes(b, Big);
  }

  lemma DecodedFourWords(raw: int, signed: bool, scale: real)
    requires InRange(raw, 8, signed)
    ensures Decode64(WordsOf(Pack(raw, 8, signed).value, Big), scale, signed) == Ok(Times(raw as real, scale))
  {
    PackRoundTrips(raw, 8, signed);
    ThroughFourWords(Pack(raw, 8, signed).value);
  }

  lemma Int16ComesBack(raw: int, byteOrder: Order)
    requires InRange(raw, 2, true)
    ensures var b := Pack(raw, 2, true).value;
            var w := UnpackWord(if byteOrder == Big then b else [b[1], b[0]], Big);
            Carried(raw, Int16, byteOrder) == Some(Signed(w, 2))
  {
    PowersOf256();
    var u := Wrapped(raw, 2);
    WrappedInRange(raw, Pow256(2));
    assert BigBytes(u / 256, 1) == BigBytes(u / 256 / 256, 0) + [u / 256 % 256];
    assert BigBytes(u, 2) == [u / 256, u % 256];
  }

  predicate ComesBack(
    raw: int, encoded: Result<seq<int>, Error>, format: Format, byteOrder: Order, wordOrder: Order, scale: real,
    f: Floats)
  {
    && (encoded.Err? <==> Carried(raw, format, byteOrder).None?)
    && (encoded.Ok? ==>
          Decode(encoded.value, format, byteOrder, wordOrder, scale, f)
          == Ok(Scaled(Carried(raw, format, byteOrder).value, format, scale, f)))
  }

  lemma Uint16ComesBack(raw: int, byteOrder: Order, wordOrder: Order, scale: real, f: Floats)
    ensures ComesBack(raw, EncodeInteger(raw, Uint16, byteOrder, wordOrder), Uint16, byteOrder, wordOrder, scale, f)
  {
    var registers := [raw % 0x1_0000];
    assert registers != [] && registers[0] == raw % 0x1_0000;
  }

  lemma SignedShortComesBack(raw: int, byteOrder: Order, wordOrder: Order, scale: real, f: Floats)
    ensures ComesBack(raw, EncodeInteger(raw, Int16, byteOrder, wordOrder), Int16, byteOrder, wordOrder, scale, f)
  {
    if InRange(raw, 2, true) {
      Int16ComesBack(raw, byteOrder);
      var b := Pack(raw, 2, true).value;
      var registers: seq<int> := [UnpackWord(if byteOrder == Big then b else [b[1], b[0]], Big)];
      assert registers[..1] == registers && AreWords(registers);
    }
  }

  lemma TwoWordsComeBack(number: int, signed: bool, byteOrder: Order, wordOrder: Order, scale: real, f: Floats)
    requires InRange(number, 4, signed)
    ensures Decode32(InOrder(WordsOf(Pack(number, 4, signed).value, byteOrder), wordOrder),
                     byteOrder, wordOrder, scale, f, if signed then AsSigned else AsUnsigned)
            == Ok(if scale != 1.0 then f.round6(Times(number as real, scale)) else number as real)
  {
    var b := Pack(number, 4, signed).value;
    PackRoundTrips(number, 4, signed);
    DecodedTwoWords(b, byteOrder, wordOrder, scale, f, if signed then AsSigned else AsUnsigned);
  }

  lemma Uint32ComesBack(raw: int, byteOrder: Order, wordOrder: Order, scale: real, f: Floats)
    ensures ComesBack(raw, EncodeInteger(raw, Uint32, byteOrder, wordOrder), Uint32, byteOrder, wordOrder, scale, f)
  {
    var number := raw % 0x1_0000_0000;
    assert InRange(number, 4, false) by {
      PowersOf256();
    }
    TwoWordsComeBack(number, false, byteOrder, wordOrder, scale, f);
    assert Carried(raw, Uint32, byteOrder) == Some(number);
    assert EncodeInteger(raw, Uint32, byteOrder, wordOrder)
           == Ok(InOrder(WordsOf(Pack(number, 4, false).value, byteOrder), wordOrder));
  }

  lemma Int32ComesBack(raw: int, byteOrder: Order, wordOrder: Order, scale: real, f: Floats)
    ensures ComesBack(raw, EncodeInteger(raw, Int32, byteOrder, wordOrder), Int32, byteOrder, wordOrder, scale, f)
  {
    if InRange(raw, 4, true) {
      TwoWordsComeBack(raw, true, byteOrder, wordOrder, scale, f);
      assert Carried(raw, Int32, byteOrder) == Some(raw);
      assert EncodeInteger(raw, Int32, byteOrder, wordOrder)
             == Ok(InOrder(WordsOf(Pack(raw, 4, true).value, byteOrder), wordOrder));
    }
  }

  lemma FourWordFormatsComeBack(raw: int, format: Format, byteOrder: Order, wordOrder: Order, scale: real, f: Floats)
    requires format == Uint64 || format == Int64
    ensures ComesBack(raw, EncodeInteger(raw, format, byteOrder, wordOrder), format, byteOrder, wordOrder, scale, f)
  {
    var signed := format == Int64;
    if InRange(raw, 8, signed) {
      DecodedFourWords(raw, signed, scale);
    }
  }

  /**
    Every integer format, byte order, word order and scale: encoding fails exactly when
    the truncated number is out of the format's range, and otherwise decoding scales
    exactly the number the registers carry.
   */
  lemma EncodedComesBack(value: real, format: Format, byteOrder: Order, wordOrder: Order, scale: real, f: Floats)
    requires Sound(f) && scale != 0.0 && format != Float32 && format != Unknown
    ensures ComesBack(Truncated(value / scale), Encode(value, format, byteOrder, wordOrder, scale, f), format,
        byteOrder, wordOrder, scale, f)
  {
    var raw := Truncated(value / scale);
    match format
    case Uint16 => Uint16ComesBack(raw, byteOrder, wordOrder, scale, f);
    case Int16 => SignedShortComesBack(raw, byteOrder, wordOrder, scale, f);
    case Uint32 => Uint32ComesBack(raw, byteOrder, wordOrder, scale, f);
    case Int32 => Int32ComesBack(raw, byteOrder, wordOrder, scale, f);
    case Uint64 => FourWordFormatsComeBack(raw, format, byteOrder, wordOrder, scale, f);
    case Int64 => FourWordFormatsComeBack(raw, format, byteOrder, wordOrder, scale, f);
  }

  /** Single-precision numbers: the four bytes arrive as packed, whatever the orders. */
  lemma FloatBytesComeBack(value: real, byteOrder: Order, wordOrder: Order, f: Floats)
    requires Sound(f)
    ensures var encoded := Encode(value, Float32, byteOrder, wordOrder, 1.0, f);
            && (encoded.Ok? <==> f.pack(value).Ok?)
            && (encoded.Ok? ==>
                Decode(encoded.value, Float32, byteOrder, wordOrder, 1.0, f)
                == Ok(f.unpack(f.pack(value).value)))
  {
    if f.pack(value).Ok? {
      DecodedTwoWords(f.pack(value).value, byteOrder, wordOrder, 1.0, f, AsFloat);
    }
  }

  /** The numbers a format can hold, those that wrap aside. */
  predicate Holds(format: Format, v: int) {
    match format
    case Uint16 => 0 <= v < 0x1_0000
    case Int16 => -0x8000 <= v < 0x8000
    case Uint32 => 0 <= v < 0x1_0000_0000
    case Int32 => -0x8000_0000 <= v < 0x8000_0000
    case Uint64 => 0 <= v < 0x1_0000_0000_0000_0000
    case Int64 => -0x8000_0000_0000_0000 <= v < 0x8000_0000_0000_0000
    case _ => false
  }

  lemma HeldIsCarried(format: Format, v: int, byteOrder: Order)
    requires Holds(format, v)
    ensures Carried(v, format, byteOrder)
            == Some(if format == Int16 && byteOrder == Little then Signed(Swapped(v % 0x1_0000), 2) else v)
  {
    PowersOf256();
    match format
    case Uint16 => WrappedInRange(v, 0x1_0000);
    case Uint32 => WrappedInRange(v, 0x1_0000_0000);
    case Int16 => assert InRange(v, 2, true);
    case Int32 => assert InRange(v, 4, true);
    case Uint64 => assert InRange(v, 8, false);
    case Int64 => assert InRange(v, 8, true);
  }

  lemma HeldComesBack(
    v: int, encoded: Result<seq<int>, Error>, format: Format, byteOrder: Order, wordOrder: Order, f: Floats)
    requires Holds(format, v) && ComesBack(v, encoded, format, byteOrder, wordOrder, 1.0, f)
    ensures encoded.Ok?
    ensures Decode(encoded.value, format, byteOrder, wordOrder, 1.0, f)
            == Ok((if format == Int16 && byteOrder == Little then Signed(Swapped(v % 0x1_0000), 2) else v) as real)
  {
    HeldIsCarried(format, v, byteOrder);
    var carried := Carried(v, format, byteOrder).value;
    assert Scaled(carried, format, 1.0, f) == carried as real;
  }

  lemma EncodedAtOne(v: int, asFloat: real, format: Format, byteOrder: Order, wordOrder: Order, f: Floats)
    requires Sound(f) && format != Float32 && format != Unknown && asFloat == v as real
    ensures ComesBack(v, Encode(asFloat, format, byteOrder, wordOrder, 1.0, f), format, byteOrder, wordOrder, 1.0, f)
  {
    var encoded := Encode(asFloat, format, byteOrder, wordOrder, 1.0, f);
    assert ComesBack(Truncated(asFloat / 1.0), encoded, format, byteOrder, wordOrder, 1.0, f) by {
      EncodedComesBack(asFloat, format, byteOrder, wordOrder, 1.0, f);
    }
    assert Truncated(asFloat / 1.0) == v by { TruncatedInteger(v, asFloat); }
  }

  lemma ComesBackAtOne(v: int, asFloat: real, format: Format, byteOrder: Order, wordOrder: Order, f: Floats)
    requires Sound(f) && Holds(format, v) && asFloat == v as real
    ensures var encoded := Encode(asFloat, format, byteOrder, wordOrder, 1.0, f);
            && encoded.Ok?
            && Decode(encoded.value, format, byteOrder, wordOrder, 1.0, f)
               == Ok((if format == Int16 && byteOrder == Little then Signed(Swapped(v % 0x1_0000), 2) else v) as real)
  {
    EncodedAtOne(v, asFloat, format, byteOrder, wordOrder, f);
    HeldComesBack(v, Encode(asFloat, format, byteOrder, wordOrder, 1.0, f), format, byteOrder, wordOrder, f);
  }

  /**
    At scale one an integer that the format holds, and that its conversion to a float has
    not changed, comes back itself, unless it is an int16 in little byte order: then
    exactly those whose two bytes are equal do.
   */
  lemma IntegersRoundTrip(v: int, asFloat: real, format: Format, byteOrder: Order, wordOrder: Order, f: Floats)
    requires Sound(f) && Holds(format, v) && asFloat == v as real
    ensures var encoded := Encode(asFloat, format, byteOrder, wordOrder, 1.0, f);
            && encoded.Ok?
            && (Decode(encoded.value, format, byteOrder, wordOrder, 1.0, f) == Ok(v as real)
                <==> (format == Int16 && byteOrder == Little ==> v % 0x1_0000 / 256 == v % 256))
  {
    ComesBackAtOne(v, asFloat, format, byteOrder, wordOrder, f);
    if format == Int16 && byteOrder == Little {
      SwappedExactly(v);
    }
  }

  lemma TruncatedInteger(v: int, r: real)
    requires r == v as real
    ensures Truncated(r / 1.0) == v
  {
    assert r / 1.0 == r;
    assert (-r).Floor == -v;
  }

  lemma SwappedExactly(v: int)
    requires Holds(Int16, v)
    ensures Signed(Swapped(v % 0x1_0000), 2) == v <==> v % 0x1_0000 / 256 == v % 256
  {
    PowersOf256();
    var u := v % 0x1_0000;
    assert u % 256 == v % 256;
    var (hi, lo) := (u / 256, u % 256);
    assert u == 256 * hi + lo && Swapped(u) == 256 * lo + hi;
    assert Signed(u, 2) == v;
  }

  // ---- the registers themselves --------------------------------------------------------------------------------

  /** A register in the byte order asked for. */
  function Ordered(w: nat, byteOrder: Order): nat {
    if byteOrder == Big then w else 256 * (w % 256) + w / 256
  }

  lemma FourBytes(n: nat)
    requires n < 0x1_0000_0000
    ensures BigBytes(n, 4) == [n / 0x1_0000 / 256, n / 0x1_0000 % 256, n % 0x1_0000 / 256, n % 0x1_0000 % 256]
  {
    var (a, b, c) := (n / 256, n / 256 / 256, n / 256 / 256 / 256);
    assert b == n / 0x1_0000 && c == b / 256;
    assert BigBytes(c, 1) == BigBytes(c / 256, 0) + [c % 256] == [c];
    assert BigBytes(b, 2) == [c, b % 256];
    assert BigBytes(a, 3) == [c, b % 256, a % 256];
    assert a % 256 == n % 0x1_0000 / 256;
  }

  lemma OrderedExactly(hi: nat, lo: nat, byteOrder: Order)
    requires hi < 256 && lo < 256
    ensures UnpackWord([hi, lo], byteOrder) == Ordered(256 * hi + lo, byteOrder)
  {
  }

  lemma TwoWordsExactly(a: nat, b: nat, c: nat, d: nat, byteOrder: Order)
    requires a < 256 && b < 256 && c < 256 && d < 256
    ensures WordsOf([a, b, c, d], byteOrder) == [Ordered(256 * a + b, byteOrder), Ordered(256 * c + d, byteOrder)]
  {
    var bytes := [a, b, c, d];
    assert bytes[..2] == [a, b] && bytes[2..] == [c, d] && [a, b][..0] == [] && [a, b][0..] == [a, b];
    assert WordsOf([a, b], byteOrder) == [UnpackWord([a, b], byteOrder)];
    OrderedExactly(a, b, byteOrder);
    OrderedExactly(c, d, byteOrder);
  }

  /** What 32 bits look like in two registers. */
  function TwoRegisters(n: nat, byteOrder: Order, wordOrder: Order): seq<int> {
    var (high, low) := (Ordered(n / 0x1_0000, byteOrder), Ordered(n % 0x1_0000, byteOrder));
    if wordOrder == Big then [high, low] else [low, high]
  }

  lemma HalvesOf(n: nat)
    ensures 256 * (n / 0x1_0000 / 256) + n / 0x1_0000 % 256 == n / 0x1_0000
    ensures 256 * (n % 0x1_0000 / 256) + n % 0x1_0000 % 256 == n % 0x1_0000
  {
  }

  lemma BytesInTwo(n: nat, byteOrder: Order)
    requires n < 0x1_0000_0000
    ensures WordsOf(BigBytes(n, 4), byteOrder) == [Ordered(n / 0x1_0000, byteOrder), Ordered(n % 0x1_0000, byteOrder)]
  {
    FourBytes(n);
    TwoWordsExactly(n / 0x1_0000 / 256, n / 0x1_0000 % 256, n % 0x1_0000 / 256, n % 0x1_0000 % 256, byteOrder);
    HalvesOf(n);
  }

  lemma PackedInTwo(v: int, n: nat, signed: bool, byteOrder: Order, wordOrder: Order)
    requires InRange(v, 4, signed) && n == Wrapped(v, 4)
    ensures InOrder(WordsOf(Pack(v, 4, signed).value, byteOrder), wordOrder) == TwoRegisters(n, byteOrder, wordOrder)
  {
    PowersOf256();
    BytesInTwo(n, byteOrder);
  }

  lemma WrappedExactly(v: int)
    ensures Wrapped(v, 4) == v % 0x1_0000_0000 && Wrapped(v, 8) == v % 0x1_0000_0000_0000_0000
    ensures 0 <= v < 0x1_0000_0000 ==> Wrapped(v, 4) == v
    ensures 0 <= v < 0x1_0000_0000_0000_0000 ==> Wrapped(v, 8) == v
  {
    PowersOf256();
  }

  /** Eight bytes are four big-endian registers: the digits of the number to the base 65536. */
  function FourRegisters(n: nat): seq<int> {
    [n / 0x1_0000_0000_0000, n / 0x1_0000_0000 % 0x1_0000, n / 0x1_0000 % 0x1_0000, n % 0x1_0000]
  }

  lemma TwoMoreBytes(n: nat, k: nat)
    ensures BigBytes(n, k + 2) == BigBytes(n / 0x1_0000, k) + [n % 0x1_0000 / 256, n % 0x1_0000 % 256]
  {
    assert n / 256 / 256 == n / 0x1_0000 && n / 256 % 256 == n % 0x1_0000 / 256 && n % 256 == n % 0x1_0000 % 256;
    assert BigBytes(n, k + 2) == BigBytes(n / 256, k + 1) + [n % 256];
  }

  lemma OneMoreRegister(n: nat, k: nat)
    requires k % 2 == 0
    ensures WordsOf(BigBytes(n, k + 2), Big) == WordsOf(BigBytes(n / 0x1_0000, k), Big) + [n % 0x1_0000]
  {
    TwoMoreBytes(n, k);
    var b := BigBytes(n, k + 2);
    assert b[..k] == BigBytes(n / 0x1_0000, k) && b[k..] == [n % 0x1_0000 / 256, n % 0x1_0000 % 256];
    assert UnpackWord(b[k..], Big) == n % 0x1_0000;
  }

  lemma QuotientsBy65536(n: nat)
    requires n < 0x1_0000_0000_0000_0000
    ensures var high := n / 0x1_0000 / 0x1_0000;
            && high == n / 0x1_0000_0000
            && high / 0x1_0000 % 0x1_0000 == n / 0x1_0000_0000_0000
  {
    var high := n / 0x1_0000 / 0x1_0000;
    assert high / 0x1_0000 == n / 0x1_0000_0000_0000;
    assert high / 0x1_0000 < 0x1_0000;
  }

  lemma TwoInTwo(n: nat, k: nat)
    requires k % 2 == 0
    ensures WordsOf(BigBytes(n, k + 4), Big)
            == WordsOf(BigBytes(n / 0x1_0000 / 0x1_0000, k), Big) + [n / 0x1_0000 % 0x1_0000, n % 0x1_0000]
  {
    OneMoreRegister(n, k + 2);
    OneMoreRegister(n / 0x1_0000, k);
  }

  lemma PackedInFour(n: nat)
    requires n < 0x1_0000_0000_0000_0000
    ensures WordsOf(BigBytes(n, 8), Big) == FourRegisters(n)
  {
    var high := n / 0x1_0000 / 0x1_0000;
    TwoInTwo(n, 4);
    TwoInTwo(high, 0);
    var front := WordsOf(BigBytes(high / 0x1_0000 / 0x1_0000, 0), Big);
    assert front == [];
    assert front + [high / 0x1_0000 % 0x1_0000, high % 0x1_0000]
        == [high / 0x1_0000 % 0x1_0000, high % 0x1_0000];
    QuotientsBy65536(n);
  }

  /** The registers of an integer in every format and order, or the error when it does not fit. */
  function RegistersOf(v: int, format: Format, byteOrder: Order, wordOrder: Order): Result<seq<int>, Error> {
    match format
    case Int16 => if -0x8000 <= v < 0x8000 then Ok([Ordered(v % 0x1_0000, byteOrder)]) else Err(StructError)
    case Uint32 => Ok(TwoRegisters(v % 0x1_0000_0000, byteOrder, wordOrder))
    case Int32 =>
      if -0x8000_0000 <= v < 0x8000_0000
      then Ok(TwoRegisters(v % 0x1_0000_0000, byteOrder, wordOrder)) else Err(StructError)
    case Uint64 => if 0 <= v < 0x1_0000_0000_0000_0000 then Ok(FourRegisters(v)) else Err(StructError)
    case Int64 =>
      if -0x8000_0000_0000_0000 <= v < 0x8000_0000_0000_0000
      then Ok(FourRegisters(v % 0x1_0000_0000_0000_0000)) else Err(StructError)
    case _ => Ok([v % 0x1_0000])
  }

  lemma RangesExactly(v: int)
    ensures InRange(v, 2, true) <==> -0x8000 <= v < 0x8000
    ensures InRange(v, 4, true) <==> -0x8000_0000 <= v < 0x8000_0000
    ensures InRange(v, 4, false) <==> 0 <= v < 0x1_0000_0000
    ensures InRange(v, 8, true) <==> -0x8000_0000_0000_0000 <= v < 0x8000_0000_0000_0000
    ensures InRange(v, 8, false) <==> 0 <= v < 0x1_0000_0000_0000_0000
  {
    PowersOf256();
  }

  lemma UnsignedTwoWritten(v: int, byteOrder: Order, wordOrder: Order)
    ensures EncodeInteger(v, Uint32, byteOrder, wordOrder) == RegistersOf(v, Uint32, byteOrder, wordOrder)
  {
    var n := v % 0x1_0000_0000;
    RangesExactly(n);
    WrappedExactly(n);
    PackedInTwo(n, n, false, byteOrder, wordOrder);
  }

  lemma SignedTwoWritten(v: int, byteOrder: Order, wordOrder: Order)
    ensures EncodeInteger(v, Int32, byteOrder, wordOrder) == RegistersOf(v, Int32, byteOrder, wordOrder)
  {
    RangesExactly(v);
    WrappedExactly(v);
    if InRange(v, 4, true) {
      PackedInTwo(v, Wrapped(v, 4), true, byteOrder, wordOrder);
    }
  }

  lemma FourWordsWritten(v: int, signed: bool, byteOrder: Order, wordOrder: Order)
    ensures var format := if signed then Int64 else Uint64;
            EncodeInteger(v, format, byteOrder, wordOrder) == RegistersOf(v, format, byteOrder, wordOrder)
  {
    RangesExactly(v);
    WrappedExactly(v);
    if InRange(v, 8, signed) {
      PackedInFour(Wrapped(v, 8));
    }
  }

  lemma OneWordWritten(v: int, byteOrder: Order, wordOrder: Order)
    ensures EncodeInteger(v, Int16, byteOrder, wordOrder) == RegistersOf(v, Int16, byteOrder, wordOrder)
  {
    PowersOf256();
    if InRange(v, 2, true) {
      PackedInOne(v, byteOrder);
    }
  }

  lemma IntegerWrittenExactly(v: int, format: Format, byteOrder: Order, wordOrder: Order)
    ensures EncodeInteger(v, format, byteOrder, wordOrder) == RegistersOf(v, format, byteOrder, wordOrder)
  {
    OneWordWritten(v, byteOrder, wordOrder);
    UnsignedTwoWritten(v, byteOrder, wordOrder);
    SignedTwoWritten(v, byteOrder, wordOrder);
    FourWordsWritten(v, format == Int64, byteOrder, wordOrder);
  }

  /** At any scale the quotient is cut off toward zero and written to exactly these registers. */
  lemma WrittenExactly(value: real, format: Format, byteOrder: Order, wordOrder: Order, scale: real, f: Floats)
    requires Sound(f) && format != Float32
    ensures Encode(value, format, byteOrder, wordOrder, scale, f)
            == if scale == 0.0 then Err(ZeroDivision)
               else RegistersOf(CutOff(value / scale), format, byteOrder, wordOrder)
  {
    if scale != 0.0 {
      IntegerWrittenExactly(CutOff(value / scale), format, byteOrder, wordOrder);
      CutOffIsTruncation(if scale != 1.0 then value / scale else value);
    }
  }

  /** The integer next to r on the side of zero. */
  function CutOff(r: real): int {
    if r == r.Floor as real || r > 0.0 then r.Floor else r.Floor + 1
  }

  lemma CutOffIsTruncation(r: real)
    ensures CutOff(r) == Truncated(r)
    ensures (r >= 0.0 ==> r - 1.0 < CutOff(r) as real <= r) && (r <= 0.0 ==> r <= CutOff(r) as real < r + 1.0)
  {
    if r < 0.0 {
      var n := (-r).Floor;
      assert n as real <= -r < n as real + 1.0;
    }
  }

  lemma PackedInOne(v: int, byteOrder: Order)
    requires InRange(v, 2, true)
    ensures var b := Pack(v, 2, true).value;
            UnpackWord(if byteOrder == Big then b else [b[1], b[0]], Big) == Ordered(v % 0x1_0000, byteOrder)
  {
    PowersOf256();
    var u := v % 0x1_0000;
    TwoMoreBytes(u, 0);
    assert Pack(v, 2, true).value == [u / 256, u % 256];
  }

  lemma TwoRead(a: nat, b: nat, byteOrder: Order)
    requires a < 0x1_0000 && b < 0x1_0000
    ensures FromBig(BytesOf([a, b], byteOrder)) == 0x1_0000 * Ordered(a, byteOrder) + Ordered(b, byteOrder)
  {
    assert [a, b][..1] == [a] && [a][..0] == [];
    var bytes := PackWord(a, byteOrder) + PackWord(b, byteOrder);
    assert BytesOf([a, b], byteOrder) == bytes;
    assert bytes[..3][..2][..1] == bytes[..1] && bytes[..1][..0] == [] && bytes[..3][..2] == bytes[..2];
    assert FromBig(bytes[..1]) == bytes[0] && FromBig(bytes[..2]) == 256 * bytes[0] + bytes[1];
    assert FromBig(bytes[..3]) == 256 * FromBig(bytes[..2]) + bytes[2];
    assert bytes[..4] == bytes;
  }

  lemma {:induction false} FromBigAppend(b: seq<nat>, hi: nat, lo: nat)
    ensures FromBig(b + [hi, lo]) == 0x1_0000 * FromBig(b) + 256 * hi + lo
  {
    var all := b + [hi, lo];
    assert all[..|all| - 1] == b + [hi] && (b + [hi])[..|b|] == b;
  }

  lemma FourRead(a: nat, b: nat, c: nat, d: nat)
    requires a < 0x1_0000 && b < 0x1_0000 && c < 0x1_0000 && d < 0x1_0000
    ensures FromBig(BytesOf([a, b, c, d], Big))
            == 0x1_0000_0000_0000 * a + 0x1_0000_0000 * b + 0x1_0000 * c + d
  {
    var (three, all) := ([a, b, c], [a, b, c, d]);
    assert all[..3] == three && three[..2] == [a, b];
    TwoRead(a, b, Big);
    assert BytesOf(three, Big) == BytesOf([a, b], Big) + [c / 256, c % 256];
    assert BytesOf(all, Big) == BytesOf(three, Big) + [d / 256, d % 256];
    FromBigAppend(BytesOf([a, b], Big), c / 256, c % 256);
    FromBigAppend(BytesOf(three, Big), d / 256, d % 256);
  }

  /** A raw number in engineering units. */
  function Units(raw: int, scale: real): real {
    raw as real * scale
  }

  lemma UnitsExactly(raw: int, scale: real)
    ensures Times(raw as real, scale) == Units(raw, scale)
    ensures scale == 1.0 ==> Units(raw, scale) == raw as real
  {
  }

  /** The number that n stands for modulo m, in two's complement. */
  function TwosComplement(n: int, m: int): int {
    if 2 * n >= m then n - m else n
  }

  lemma TwoBytesRead(a: nat, b: nat, signed: bool, byteOrder: Order)
    requires a < 0x1_0000 && b < 0x1_0000
    ensures var n := 0x1_0000 * Ordered(a, byteOrder) + Ordered(b, byteOrder);
            Unpack(BytesOf([a, b], byteOrder), signed) == if signed then TwosComplement(n, 0x1_0000_0000) else n
  {
    PowersOf256();
    TwoRead(a, b, byteOrder);
  }

  /** What two registers are read as: high word first unless the word order is little; 32-bit two's complement. */
  lemma TwoReadExactly(
    registers: seq<int>, signed: bool, byteOrder: Order, wordOrder: Order, scale: real, f: Floats)
    requires |registers| >= 2 && AreWords(registers[..2])
    ensures var (x, y) := (Ordered(registers[0], byteOrder), Ordered(registers[1], byteOrder));
            var n: int := if wordOrder == Big then 0x1_0000 * x + y else 0x1_0000 * y + x;
            var v: int := if signed then TwosComplement(n, 0x1_0000_0000) else n;
            Decode(registers, if signed then Int32 else Uint32, byteOrder, wordOrder, scale, f)
            == Ok(if scale == 1.0 then Units(v, scale) else f.round6(Units(v, scale)))
  {
    var two := registers[..2];
    var (a, b) := (two[0], two[1]);
    TwoBytesRead(a, b, signed, byteOrder);
    TwoBytesRead(b, a, signed, byteOrder);
    assert two == [a, b] && InOrder(two, wordOrder) == if wordOrder == Big then [a, b] else [b, a];
    UnitsExactly(Unpack(BytesOf(InOrder(two, wordOrder), byteOrder), signed), scale);
  }

  /** And four: always most significant register first, 64-bit two's complement. */
  lemma FourReadExactly(
    registers: seq<int>, signed: bool, byteOrder: Order, wordOrder: Order, scale: real, f: Floats)
    requires |registers| >= 4 && AreWords(registers[..4])
    ensures var n: int := 0x1_0000_0000_0000 * registers[0] + 0x1_0000_0000 * registers[1]
                              + 0x1_0000 * registers[2] + registers[3];
            var v: int := if signed then TwosComplement(n, 0x1_0000_0000_0000_0000) else n;
            Decode(registers, if signed then Int64 else Uint64, byteOrder, wordOrder, scale, f)
            == Ok(Units(v, scale))
  {
    PowersOf256();
    var four := registers[..4];
    assert four == [four[0], four[1], four[2], four[3]];
    FourRead(four[0], four[1], four[2], four[3]);
    UnitsExactly(Unpack(BytesOf(four, Big), signed), scale);
  }

  /** One register: unsigned and cut off, or 16-bit two's complement in either byte order. */
  lemma OneReadExactly(registers: seq<int>, byteOrder: Order, wordOrder: Order, scale: real, f: Floats)
    requires registers != [] && AreWords(registers[..1])
    ensures Decode(registers, Uint16, byteOrder, wordOrder, scale, f)
            == Ok(CutOff(Units(registers[0], scale)) as real)
    ensures Decode(registers, Int16, byteOrder, wordOrder, scale, f)
            == Ok(Units(TwosComplement(registers[0], 0x1_0000), scale))
  {
    PowersOf256();
    assert registers[..1][0] == registers[0];
    UnitsExactly(registers[0], scale);
    CutOffIsTruncation(Units(registers[0], scale));
    UnitsExactly(TwosComplement(registers[0], 0x1_0000), scale);
  }

  /** Too few registers give zero, or an error where only one is needed. */
  lemma TooFewRegisters(registers: seq<int>, format: Format, byteOrder: Order, wordOrder: Order, scale: real, f: Floats)
    ensures var r := Decode(registers, format, byteOrder, wordOrder, scale, f);
            && (format in {Uint16, Int16, Unknown} && registers == [] ==> r == Err(IndexError))
            && (format in {Uint32, Int32, Float32} && |registers| < 2 ==> r == Ok(0.0))
            && (format in {Uint64, Int64} && |registers| < 4 ==> r == Ok(0.0))
  {
  }

  // ---- scaled values -------------------------------------------------------------------------------------------

  lemma TruncationError(r: real)
    ensures -1.0 < r - Truncated(r) as real < 1.0
  {
  }

  function Product(x: real, scale: real): real {
    x * scale
  }

  lemma ScaledError(value: real, scale: real)
    requires scale > 0.0
    ensures -scale < value - Times(Truncated(value / scale) as real, scale) < scale
  {
    var q := value / scale;
    var t := Truncated(q) as real;
    TruncationError(q);
    Quotient(value, scale);
    Distributes(q, t, scale);
    LessTimes(q - t, scale);
    assert Times(t, scale) == Product(t, scale) by {
      TimesIsProduct(t, scale);
    }
  }

  lemma TimesIsProduct(x: real, scale: real)
    ensures Times(x, scale) == Product(x, scale)
  {
  }

  lemma Quotient(value: real, scale: real)
    requires scale > 0.0
    ensures Product(value / scale, scale) == value
  {
  }

  lemma Distributes(a: real, b: real, scale: real)
    ensures Product(a - b, scale) == Product(a, scale) - Product(b, scale)
  {
  }

  lemma LessTimes(e: real, scale: real)
    requires scale > 0.0 && -1.0 < e < 1.0
    ensures -scale < Product(e, scale) < scale
  {
    assert (1.0 - e) * scale > 0.0 && (1.0 + e) * scale > 0.0;
  }

  /** How far the decoder's own rounding may move a value. */
  function Slack(format: Format): real {
    match format
    case Uint16 => 1.0
    case Uint32 => 0.0000005
    case Int32 => 0.0000005
    case _ => 0.0
  }

  lemma ScaledIsNear(raw: int, format: Format, scale: real, f: Floats)
    requires Sound(f)
    ensures var d := Scaled(raw, format, scale, f) - Times(raw as real, scale);
            -Slack(format) <= d <= Slack(format)
  {
    TruncationError(Times(raw as real, scale));
  }

  /** With a positive scale, what comes back is less than one scale step and the format's own rounding away. */
  lemma ScaledValuesComeBackClose(
    value: real, format: Format, byteOrder: Order, wordOrder: Order, scale: real, f: Floats)
    requires Sound(f) && scale > 0.0 && Holds(format, Truncated(value / scale))
    requires !(format == Int16 && byteOrder == Little)
    ensures var encoded := Encode(value, format, byteOrder, wordOrder, scale, f);
            && encoded.Ok?
            && var decoded := Decode(encoded.value, format, byteOrder, wordOrder, scale, f);
            && decoded.Ok? && -(scale + Slack(format)) < decoded.value - value < scale + Slack(format)
  {
    EncodedComesBack(value, format, byteOrder, wordOrder, scale, f);
    var raw := Truncated(value / scale);
    HeldIsCarried(format, raw, byteOrder);
    ScaledError(value, scale);
    ScaledIsNear(raw, format, scale, f);
  }
}
