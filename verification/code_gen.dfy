/** Generation of six-digit one-time codes (`GenerateRandomCode` in mfa.go).
    The three bytes read from the secure random source are an input: either
    the bytes themselves or the error the source reported. */
module CodeGen {
  import opened Results
  import opened Decimal

  /** Number of characters in a code. */
  const CodeLength: nat := 6

  /** `10^CodeLength`: the packed random value is reduced modulo this. */
  const CodeModulus: nat := 1000000

  /** The buffer filled by `rand.Read`. */
  datatype RandomBytes = RandomBytes(b0: bv8, b1: bv8, b2: bv8)

  /** Why generation failed: the random source's error, wrapped. */
  datatype GenError = RandomReadFailed(cause: string)

  /** A well-formed code: exactly six decimal digits, leading zeros kept. */
  predicate IsCode(s: string) {
    |s| == CodeLength && AllDigits(s)
  }

  /** The 24-bit big-endian value `b0<<16 | b1<<8 | b2`. The shifted bytes
      occupy disjoint bits, so the bitwise or is an ordinary sum. */
  function Pack(r: RandomBytes): (v: nat)
    ensures v == (r.b0 as int) * 65536 + (r.b1 as int) * 256 + (r.b2 as int)
    ensures v < 0x100_0000
  {
    PackIsSum(r.b0, r.b1, r.b2);
    (((r.b0 as bv24) << 16) | ((r.b1 as bv24) << 8) | (r.b2 as bv24)) as int
  }

  /** The shift-and-or packing of three bytes equals the positional sum. */
  lemma PackIsSum(b0: bv8, b1: bv8, b2: bv8)
    ensures (((b0 as bv24) << 16) | ((b1 as bv24) << 8) | (b2 as bv24)) as int
         == (b0 as int) * 65536 + (b1 as int) * 256 + (b2 as int)
  {
    var low := ((b1 as bv16) << 8) | (b2 as bv16);
    LowHalf(b1, b2);
    Widen(b0, b1, b2);
    HighByte(b0, low);
  }

  lemma Widen(b0: bv8, b1: bv8, b2: bv8)
    ensures ((b0 as bv24) << 16) | ((b1 as bv24) << 8) | (b2 as bv24)
         == ((b0 as bv24) << 16) | ((((b1 as bv16) << 8) | (b2 as bv16)) as bv24)
  {
  }

  lemma LowHalf(b1: bv8, b2: bv8)
    ensures (((b1 as bv16) << 8) | (b2 as bv16)) as int == (b1 as int) * 256 + (b2 as int)
  {
  }

  lemma HighByte(b0: bv8, low: bv16)
    ensures (((b0 as bv24) << 16) | (low as bv24)) as int == (b0 as int) * 65536 + (low as int)
  {
  }

  /** `GenerateRandomCode`: fails exactly when the random source fails; on
      success yields a six-digit code whose decimal reading is the packed
      bytes modulo one million. */
  function GenerateRandomCode(entropy: Result<RandomBytes, string>): (r: Result<string, GenError>)
    ensures r.Ok? <==> entropy.Ok?
    ensures entropy.Err? ==> r.error == RandomReadFailed(entropy.error)
    ensures r.Ok? ==> IsCode(r.value) && Value(r.value) == Pack(entropy.value) % CodeModulus
  {
    match entropy
    case Err(e) => Err(RandomReadFailed(e))
    case Ok(bytes) =>
      var v := Pack(bytes) % CodeModulus;
      CodeModulusIsPow10();
      DigitsLength(v, CodeLength);
      Ok(PadZeros(v, CodeLength))
  }

  lemma CodeModulusIsPow10()
    ensures Pow10(CodeLength) == CodeModulus
  {
  }

  lemma GenerateOk(bytes: RandomBytes)
    ensures GenerateRandomCode(Ok(bytes)) == Ok(PadZeros(Pack(bytes) % CodeModulus, CodeLength))
  {
  }

  /** The bytes whose packed value is `v`, for any `v` below `2^24`. */
  function BytesFor(v: nat): (r: RandomBytes)
    requires v < 0x100_0000
    ensures Pack(r) == v
  {
    SplitBytes(v);
    RandomBytes(ByteOf(v / 65536), ByteOf((v / 256) % 256), ByteOf(v % 256))
  }

  lemma SplitBytes(v: nat)
    requires v < 0x100_0000
    ensures v / 65536 < 256
    ensures v == (v / 65536) * 65536 + ((v / 256) % 256) * 256 + v % 256
  {
    var q := v / 256;
    assert v == q * 256 + v % 256;
    assert q == (q / 256) * 256 + q % 256;
    assert q / 256 == v / 65536;
  }

  /** The byte whose unsigned value is `n`; the same byte as `n as bv8`, built
      by counting up because the solver reasons unreliably about that cast. */
  function ByteOf(n: nat): (b: bv8)
    requires n < 256
    ensures b as int == n
  {
    if n == 0 then 0
    else
      var p := ByteOf(n - 1);
      IncrementByte(p);
      p + 1
  }

  lemma IncrementByte(x: bv8)
    requires x as int < 255
    ensures (x + 1) as int == x as int + 1
  {
  }

  /** Every six-digit string, leading zeros included, is a code the generator
      can produce; so the codes produced are exactly the six-digit strings. */
  lemma EveryCodeGeneratable(s: string)
    requires IsCode(s)
    ensures exists bytes :: GenerateRandomCode(Ok(bytes)) == Ok(s)
  {
    var v := Value(s);
    ValueBound(s);
    CodeModulusIsPow10();
    PadZerosOfValue(s);
    var bytes := BytesFor(v);
    assert Pack(bytes) % CodeModulus == v;
    GenerateOk(bytes);
  }

  /** Codes determine their values: two random draws give the same code
      exactly when their packed values agree modulo one million. */
  lemma SameCodeIffSameResidue(x: RandomBytes, y: RandomBytes)
    ensures GenerateRandomCode(Ok(x)) == GenerateRandomCode(Ok(y))
        <==> Pack(x) % CodeModulus == Pack(y) % CodeModulus
  {
  }
}
