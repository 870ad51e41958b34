/**
 * Conversion between the supported scalar values and the bytes handed to the keychain.
 *
 * Swift's `Int` is stored through its in-memory representation. The model fixes that
 * representation to the one of 64-bit iOS (arm64): eight bytes, two's complement,
 * least significant byte first. This is an assumption of the model; the code itself
 * uses whatever the platform lays out.
 */
module ValueConverter {
  import opened Wrappers
  import opened Primitives
  import Utf8

  /** `MemoryLayout<Int>.size` on a 64-bit platform. */
  const IntSize: nat := 8

  /** The number of distinct 64-bit patterns. */
  const Modulus: nat := 0x1_0000_0000_0000_0000

  /** Swift's `Int` on a 64-bit platform. */
  type Int64 = n: int | -0x8000_0000_0000_0000 <= n < 0x8000_0000_0000_0000

  /** `SCKeychainOperationValueConverterError`. */
  datatype ConverterError = UnsupportedValueType | CouldNotEncodeValue

  /** The dynamic type of the `Any` handed to `data(with:)`: one of the three supported types or some other. */
  datatype AnyValue =
    | StringValue(s: string)
    | BoolValue(b: bool)
    | IntValue(n: Int64)
    | OtherValue(typeName: string)

  /** 256 to the power k. */
  function Pow256(k: nat): (p: nat)
    ensures p >= 1
  {
    if k == 0 then 1 else 256 * Pow256(k - 1)
  }

  lemma Pow256OfIntSize()
    ensures Pow256(IntSize) == Modulus
  {
  }

  /** The unsigned number whose little-endian digits in base 256 are `bs`. */
  function LittleEndianValue(bs: Bytes): (v: nat)
    ensures v < Pow256(|bs|)
  {
    if bs == [] then 0 else bs[0] + 256 * LittleEndianValue(bs[1..])
  }

  /** The `width` least significant base-256 digits of `u`, least significant first. */
  function LittleEndian(u: nat, width: nat): (r: Bytes)
    ensures |r| == width
  {
    if width == 0 then [] else [u % 256] + LittleEndian(u / 256, width - 1)
  }

  /** Reading back little-endian digits gives the number, when it fits in the width. */
  lemma {:induction false} LittleEndianValueOf(u: nat, width: nat)
    requires u < Pow256(width)
    ensures LittleEndianValue(LittleEndian(u, width)) == u
  {
    if width > 0 {
      LittleEndianValueOf(u / 256, width - 1);
      assert LittleEndian(u, width)[1..] == LittleEndian(u / 256, width - 1);
    }
  }

  /** Writing the value of a byte sequence back in its own width gives the sequence. */
  lemma {:induction false} LittleEndianOfValue(bs: Bytes)
    ensures LittleEndian(LittleEndianValue(bs), |bs|) == bs
  {
    if bs != [] {
      LittleEndianOfValue(bs[1..]);
      var v := LittleEndianValue(bs);
      assert v % 256 == bs[0] && v / 256 == LittleEndianValue(bs[1..]);
    }
  }

  /** A byte sequence has value zero exactly when every byte is zero. */
  lemma {:induction false} LittleEndianValueZero(bs: Bytes)
    ensures LittleEndianValue(bs) == 0 <==> forall i :: 0 <= i < |bs| ==> bs[i] == 0
  {
    if bs != [] {
      LittleEndianValueZero(bs[1..]);
      assert forall i :: 1 <= i < |bs| ==> bs[i] == bs[1..][i - 1];
    }
  }

  /** The 64-bit pattern of a signed value (two's complement). */
  function Unsigned(n: Int64): (u: nat)
    ensures u < Modulus
    ensures u == n % Modulus
  {
    if n < 0 then n + Modulus else n
  }

  /** The signed value of a 64-bit pattern; the inverse of `Unsigned`. */
  function Signed(u: nat): (n: Int64)
    requires u < Modulus
    ensures Unsigned(n) == u
    ensures n == 0 <==> u == 0
  {
    if u < Modulus / 2 then u else u - Modulus
  }

  /** `Data(from: Int)`: the value's eight bytes as they lie in memory. */
  function IntBytes(n: Int64): (r: Bytes)
    ensures |r| == IntSize
    ensures LittleEndianValue(r) == Unsigned(n)
  {
    Pow256OfIntSize();
    LittleEndianValueOf(Unsigned(n), IntSize);
    LittleEndian(Unsigned(n), IntSize)
  }

  /**
   * `integer(from:)`, that is `Data.to(type: Int.self)`: None when there are fewer
   * bytes than an `Int` takes; otherwise the `Int` held by the first eight bytes,
   * whatever follows them.
   */
  function IntegerFrom(data: Bytes): (r: Option<Int64>)
    ensures r.None? <==> |data| < IntSize
    ensures r.Some? ==> IntBytes(r.value) == data[..IntSize]
  {
    if |data| < IntSize then None
    else
      var prefix := data[..IntSize];
      Pow256OfIntSize();
      LittleEndianOfValue(prefix);
      Some(Signed(LittleEndianValue(prefix)))
  }

  /**
   * `bool(from:)`: None on short input; otherwise false exactly when the first eight
   * bytes are all zero. There is no type tag, so any stored integer reads as a Bool.
   */
  function BoolFrom(data: Bytes): (r: Option<bool>)
    ensures r.None? <==> |data| < IntSize
    ensures r.Some? ==> (r.value <==> exists i :: 0 <= i < IntSize && data[i] != 0)
  {
    match IntegerFrom(data)
    case None => None
    case Some(value) =>
      LittleEndianValueZero(data[..IntSize]);
      assert forall i :: 0 <= i < IntSize ==> data[..IntSize][i] == data[i];
      Some(value != 0)
  }

  /** The check at the end of `data(with:)`: bytes were produced, or `couldNotEncodeValue`. */
  function Produced(data: Option<Bytes>): (r: Result<Bytes, ConverterError>)
    ensures r.Success? <==> data.Some?
    ensures r.Failure? ==> r.error == CouldNotEncodeValue
  {
    match data
    case Some(bytes) => Success(bytes)
    case None => Failure(CouldNotEncodeValue)
  }

  /**
   * `data(with:)`: strings become their UTF-8 bytes, Bools the bytes of the `Int` 1 or 0,
   * Ints their eight bytes; any other type throws `unsupportedValueType`. What it
   * produces decodes back to the value it was given.
   */
  function DataWith(value: AnyValue): (r: Result<Bytes, ConverterError>)
    ensures r.Failure? <==> value.OtherValue?
    ensures r.Failure? ==> r.error == UnsupportedValueType
    ensures value.StringValue? ==> r.Success? && Utf8.Decode(r.value) == Some(value.s)
    ensures value.BoolValue? ==>
      r.Success? && r.value == IntBytes(if value.b then 1 else 0) && BoolFrom(r.value) == Some(value.b)
    ensures value.IntValue? ==>
      r.Success? && |r.value| == IntSize && IntegerFrom(r.value) == Some(value.n)
  {
    match value
    case StringValue(s) =>
      Utf8.DecodeEncode(s);
      Produced(Some(Utf8.Encode(s)))
    case BoolValue(b) =>
      var n: Int64 := if b then 1 else 0;
      IntRoundTrip(n);
      Produced(Some(IntBytes(n)))
    case IntValue(n) =>
      IntRoundTrip(n);
      Produced(Some(IntBytes(n)))
    case OtherValue(_) =>
      Failure(UnsupportedValueType)
  }

  /**
   * `Data.to(type:)` as the code runs it: a zero `Int`, the length guard, then a copy
   * of the first eight bytes over the integer's storage.
   */
  method DataTo(data: Bytes) returns (r: Option<Int64>)
    ensures r == IntegerFrom(data)
  {
    var storage := new Byte[IntSize](_ => 0);
    if |data| < storage.Length {
      return None;
    }
    var i := 0;
    while i < storage.Length
      invariant 0 <= i <= storage.Length
      invariant storage[..i] == data[..i]
    {
      storage[i] := data[i];
      i := i + 1;
    }
    assert storage[..] == data[..IntSize];
    Pow256OfIntSize();
    r := Some(Signed(LittleEndianValue(storage[..])));
  }

  /** Int round trip: the bytes of n decode to n. */
  lemma IntRoundTrip(n: Int64)
    ensures IntegerFrom(IntBytes(n)) == Some(n)
  {
    var bs := IntBytes(n);
    assert bs[..IntSize] == bs;
    Pow256OfIntSize();
    assert Signed(Unsigned(n)) == n;
  }

  /** Bool round trip: what `data(with:)` makes of b reads back as b. */
  lemma BoolRoundTrip(b: bool)
    ensures DataWith(BoolValue(b)).Success? && BoolFrom(DataWith(BoolValue(b)).value) == Some(b)
  {
  }

  /** Bytes after the first eight do not change the decoded `Int`. */
  lemma IntegerFromIgnoresTrailing(data: Bytes, trailing: Bytes)
    requires |data| >= IntSize
    ensures IntegerFrom(data + trailing) == IntegerFrom(data)
  {
    assert (data + trailing)[..IntSize] == data[..IntSize];
  }

  /** A Bool and the `Int` 1 or 0 store the same bytes. */
  lemma BoolStoredAsInt(b: bool)
    ensures DataWith(BoolValue(b)) == DataWith(IntValue(if b then 1 else 0))
  {
  }

  /** Reading an `Int` as a Bool yields whether it is non-zero; an `Int` 0 reads as false. */
  lemma IntReadAsBool(n: Int64)
    ensures BoolFrom(IntBytes(n)) == Some(n != 0)
  {
    IntRoundTrip(n);
  }
}
