/**
 The modexp reference for inputs of up to 48 bytes, and the framing of its input (section "Specification" of
 EIP-198).
 */
module Modexp {
  import opened Wrappers
  import opened Bytes

  const MAX_INPUT_BYTES := 48
  const U256_LIMIT: nat := 0x1_0000_0000_0000_0000_0000_0000_0000_0000_0000_0000_0000_0000_0000_0000_0000_0000

  /** The gas schedule is a library function of the lengths and of the leading exponent word. */
  type GasCost = (nat, nat, nat, nat) -> nat

  datatype Output = Output(gas: nat, data: seq<Byte>)

  /** `buffer_read`: a slice, padded on the right with zeros to the requested size. */
  function BufferRead(data: seq<Byte>, start: nat, size: nat): (read: seq<Byte>)
    ensures |read| == size
  {
    var slice := data[Min(start, |data|)..Min(start + size, |data|)];
    slice + Zeros(size - |slice|)
  }

  /** What follows the reading of the fields; the arguments are the bytes read. */
  function Operate(base: seq<Byte>, exp: seq<Byte>, modulus: seq<Byte>, expHead: seq<Byte>, gasCost: GasCost): Output {
    var gas := gasCost(|base|, |modulus|, |exp|, BigEndian(expHead));
    if base == [] && modulus == [] then Output(gas, [])
    else
      var m := BigEndian(modulus);
      if m == 0 then Output(gas, Zeros(|modulus|))
      else Output(gas, ToBigEndian(Pow(BigEndian(base), BigEndian(exp)) % m, |modulus|))
  }

  /** The computation for three lengths that were accepted. */
  function ReadAndOperate(data: seq<Byte>, baseLength: nat, expLength: nat, modulusLength: nat,
          gasCost: GasCost): Output {
    var expStart := 96 + baseLength;
    Operate(
      BufferRead(data, 96, baseLength),
      BufferRead(data, expStart, expLength),
      BufferRead(data, expStart + expLength, modulusLength),
      BufferRead(data, expStart, Min(32, expLength)),
      gasCost)
  }

  /** `modexp_384_bits`; `None` is the ValueError. */
  function Modexp384(data: seq<Byte>, gasCost: GasCost): Option<Output> {
    var baseLength := BigEndian(BufferRead(data, 0, 32));
    var expLength := BigEndian(BufferRead(data, 32, 32));
    var modulusLength := BigEndian(BufferRead(data, 64, 32));
    if baseLength > MAX_INPUT_BYTES || expLength > MAX_INPUT_BYTES || modulusLength > MAX_INPUT_BYTES then None
    else Some(ReadAndOperate(data, baseLength, expLength, modulusLength, gasCost))
  }

  /** `create_input_data`; `None` is the OverflowError of a length that does not fit 256 bits. */
  function CreateInputData(baseLen: nat, expLen: nat, modulusLen: nat, base: seq<Byte>, exp: seq<Byte>,
          modulus: seq<Byte>): Option<seq<Byte>> {
    if baseLen >= U256_LIMIT || expLen >= U256_LIMIT || modulusLen >= U256_LIMIT then None
    else Some(ToBigEndian(baseLen, 32) + ToBigEndian(expLen, 32) + ToBigEndian(modulusLen, 32) + base + exp + modulus)
  }

  // Framing.

  /** Reading inside the data is slicing. */
  lemma {:induction false} ReadInside(front: seq<Byte>, field: seq<Byte>, back: seq<Byte>)
    ensures BufferRead(front + field + back, |front|, |field|) == field
  {
    assert (front + field + back)[|front|..|front| + |field|] == field;
  }

  /** Zeros at the end of the data change no read. */
  lemma {:induction false} ReadPadded(data: seq<Byte>, k: nat, start: nat, size: nat)
    ensures BufferRead(data + Zeros(k), start, size) == BufferRead(data, start, size)
  {
    var a, b := BufferRead(data + Zeros(k), start, size), BufferRead(data, start, size);
    forall i | 0 <= i < size
      ensures a[i] == b[i]
    {
      if start + i < |data| {
        assert a[i] == (data + Zeros(k))[start + i] == data[start + i];
        assert b[i] == data[start + i];
      }
    }
  }

  ghost predicate ReadAlike(a: seq<Byte>, b: seq<Byte>) {
    forall start: nat, size: nat {:trigger BufferRead(a, start, size)} ::
      BufferRead(a, start, size) == BufferRead(b, start, size)
  }

  /** Two inputs that read the same everywhere give the same result. */
  lemma {:induction false} ReadsDetermineResult(a: seq<Byte>, b: seq<Byte>, gasCost: GasCost)
    requires ReadAlike(a, b)
    ensures Modexp384(a, gasCost) == Modexp384(b, gasCost)
  {
    var baseLength, expLength := BigEndian(BufferRead(a, 0, 32)), BigEndian(BufferRead(a, 32, 32));
    ReadsDetermineOutput(a, b, baseLength, expLength, BigEndian(BufferRead(a, 64, 32)), gasCost);
  }

  lemma {:induction false} ReadsDetermineOutput(a: seq<Byte>, b: seq<Byte>, baseLength: nat, expLength: nat,
          modulusLength: nat, gasCost: GasCost)
    requires ReadAlike(a, b)
    ensures ReadAndOperate(a, baseLength, expLength, modulusLength, gasCost)
         == ReadAndOperate(b, baseLength, expLength, modulusLength, gasCost)
  {
  }

  /** Appending zero bytes to any input changes neither the output nor the gas nor the failure. */
  lemma {:induction false} TrailingZerosChangeNothing(data: seq<Byte>, k: nat, gasCost: GasCost)
    ensures Modexp384(data + Zeros(k), gasCost) == Modexp384(data, gasCost)
  {
    forall start: nat, size: nat
      ensures BufferRead(data + Zeros(k), start, size) == BufferRead(data, start, size)
    {
      ReadPadded(data, k, start, size);
    }
    ReadsDetermineResult(data + Zeros(k), data, gasCost);
  }

  lemma {:induction false} LengthRoundTrip(n: nat)
    requires n < U256_LIMIT
    ensures BigEndian(ToBigEndian(n, 32)) == n
  {
    LimitIs256Bits();
    ToBigEndianRoundTrip(n, 32);
  }

  /** The fields of a framed input are read back. */
  lemma {:induction false} FieldsAreRead(base: seq<Byte>, exp: seq<Byte>, modulus: seq<Byte>, data: seq<Byte>)
    requires CreateInputData(|base|, |exp|, |modulus|, base, exp, modulus) == Some(data)
    ensures BigEndian(BufferRead(data, 0, 32)) == |base|
    ensures BigEndian(BufferRead(data, 32, 32)) == |exp|
    ensures BigEndian(BufferRead(data, 64, 32)) == |modulus|
    ensures BufferRead(data, 96, |base|) == base
    ensures BufferRead(data, 96 + |base|, |exp|) == exp
    ensures BufferRead(data, 96 + |base| + |exp|, |modulus|) == modulus
  {
    HeaderIsRead(|base|, |exp|, |modulus|, base + exp + modulus, data);
    BodyIsRead(ToBigEndian(|base|, 32) + ToBigEndian(|exp|, 32) + ToBigEndian(|modulus|, 32), base, exp, modulus, data);
  }

  lemma {:induction false} HeaderIsRead(baseLen: nat, expLen: nat, modulusLen: nat, body: seq<Byte>, data: seq<Byte>)
    requires baseLen < U256_LIMIT && expLen < U256_LIMIT && modulusLen < U256_LIMIT
    requires data == ToBigEndian(baseLen, 32) + ToBigEndian(expLen, 32) + ToBigEndian(modulusLen, 32) + body
    ensures BigEndian(BufferRead(data, 0, 32)) == baseLen
    ensures BigEndian(BufferRead(data, 32, 32)) == expLen
    ensures BigEndian(BufferRead(data, 64, 32)) == modulusLen
  {
    var b, e, m := ToBigEndian(baseLen, 32), ToBigEndian(expLen, 32), ToBigEndian(modulusLen, 32);
    assert data == [] + b + (e + m + body) && data == b + e + (m + body) && data == (b + e) + m + body;
    LengthIsRead([], baseLen, e + m + body);
    LengthIsRead(b, expLen, m + body);
    LengthIsRead(b + e, modulusLen, body);
  }

  lemma {:induction false} LengthIsRead(front: seq<Byte>, n: nat, back: seq<Byte>)
    requires n < U256_LIMIT
    ensures BigEndian(BufferRead(front + ToBigEndian(n, 32) + back, |front|, 32)) == n
  {
    ReadInside(front, ToBigEndian(n, 32), back);
    LengthRoundTrip(n);
  }

  lemma {:induction false} BodyIsRead(head: seq<Byte>, base: seq<Byte>, exp: seq<Byte>, modulus: seq<Byte>,
          data: seq<Byte>)
    requires data == head + base + exp + modulus
    ensures BufferRead(data, |head|, |base|) == base
    ensures BufferRead(data, |head| + |base|, |exp|) == exp
    ensures BufferRead(data, |head| + |base| + |exp|, |modulus|) == modulus
  {
    assert data == head + base + (exp + modulus);
    ReadInside(head, base, exp + modulus);
    ReadInside(head + base, exp, modulus);
    assert data == (head + base + exp) + modulus + [];
    ReadInside(head + base + exp, modulus, []);
  }

  /**
   On framed input the computation fails exactly when a length exceeds 48; otherwise the output has the length of
   the modulus and encodes base ** exp mod modulus, or zero for a zero modulus. The gas is that of the lengths and
   the leading 32 bytes of the exponent.
   */
  lemma {:induction false} ModexpOfFramedInput(base: seq<Byte>, exp: seq<Byte>, modulus: seq<Byte>, gasCost: GasCost)
    requires |base| < U256_LIMIT && |exp| < U256_LIMIT && |modulus| < U256_LIMIT
    ensures var result := Modexp384(CreateInputData(|base|, |exp|, |modulus|, base, exp, modulus).value, gasCost);
      var m := BigEndian(modulus);
      && (result == None <==> |base| > 48 || |exp| > 48 || |modulus| > 48)
      && (result.Some? ==>
            && |result.value.data| == |modulus|
            && BigEndian(result.value.data) == (if m == 0 then 0 else Pow(BigEndian(base), BigEndian(exp)) % m)
            && result.value.gas == gasCost(|base|, |modulus|, |exp|, BigEndian(exp[..Min(32, |exp|)])))
  {
    var data := CreateInputData(|base|, |exp|, |modulus|, base, exp, modulus).value;
    FieldsAreRead(base, exp, modulus, data);
    ExponentHeadIsRead(data, 96 + |base|, exp);
    var m := BigEndian(modulus);
    if |base| <= 48 && |exp| <= 48 && |modulus| <= 48 {
      if m == 0 {
        ZerosAreZero(|modulus|);
      } else {
        BigEndianRoundTrip(modulus);
        ToBigEndianRoundTrip(Pow(BigEndian(base), BigEndian(exp)) % m, |modulus|);
      }
    }
  }

  lemma {:induction false} ExponentHeadIsRead(data: seq<Byte>, start: nat, exp: seq<Byte>)
    requires BufferRead(data, start, |exp|) == exp
    ensures BufferRead(data, start, Min(32, |exp|)) == exp[..Min(32, |exp|)]
  {
    var n := Min(32, |exp|);
    var head := BufferRead(data, start, n);
    forall i | 0 <= i < n
      ensures head[i] == exp[i]
    {
      assert exp[i] == if start + i < |data| then data[start + i] else 0;
    }
  }

  lemma {:induction false} ZerosAreZero(k: nat)
    ensures BigEndian(Zeros(k)) == 0
  {
    if k > 0 {
      ZerosAreZero(k - 1);
      assert Zeros(k)[..k - 1] == Zeros(k - 1);
    }
  }

  /** For any input, the computation fails exactly when one of the three declared lengths exceeds 48. */
  lemma {:induction false} FailsOnLongLengthsOnly(data: seq<Byte>, gasCost: GasCost)
    ensures Modexp384(data, gasCost) == None <==>
      exists field :: 0 <= field < 3 && BigEndian(BufferRead(data, 32 * field, 32)) > 48
  {
    assert 32 * 0 == 0 && 32 * 1 == 32 && 32 * 2 == 64;
    var b, e := BigEndian(BufferRead(data, 32 * 0, 32)), BigEndian(BufferRead(data, 32 * 1, 32));
    var m := BigEndian(BufferRead(data, 32 * 2, 32));
    if Modexp384(data, gasCost) == None {
      assert b > 48 || e > 48 || m > 48;
    }
  }

  /** Framing raises exactly when a length does not fit 256 bits. */
  lemma {:induction false} FramingRaises(baseLen: nat, expLen: nat, modulusLen: nat, base: seq<Byte>, exp: seq<Byte>,
          modulus: seq<Byte>)
    ensures CreateInputData(baseLen, expLen, modulusLen, base, exp, modulus) == None <==>
      baseLen >= Pow(256, 32) || expLen >= Pow(256, 32) || modulusLen >= Pow(256, 32)
  {
    LimitIs256Bits();
  }

  lemma {:induction false} LimitIs256Bits()
    ensures U256_LIMIT == Pow(256, 32)
  {
    assert Pow(256, 4) == 0x1_0000_0000 by {
      assert Pow(256, 1) == 256 && Pow(256, 2) == 0x1_0000 && Pow(256, 3) == 0x100_0000;
    }
    PowAdd(256, 4, 4);
    PowAdd(256, 8, 8);
    PowAdd(256, 16, 16);
  }
}
