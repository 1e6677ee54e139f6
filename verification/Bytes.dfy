/** Byte strings read as numbers: Python's `int.from_bytes` and `int.to_bytes`. */
module Bytes {

  type Byte = x: int | 0 <= x < 256

  function Min(a: nat, b: nat): nat {
    if a < b then a else b
  }

  function Pow(b: nat, e: nat): nat {
    if e == 0 then 1 else b * Pow(b, e - 1)
  }

  /** `int.from_bytes(b, "big")` */
  function BigEndian(b: seq<Byte>): nat {
    if b == [] then 0 else BigEndian(b[..|b| - 1]) * 256 + b[|b| - 1]
  }

  /** `n.to_bytes(k, "big")` for `n < 256 ** k`; higher digits are dropped. */
  function ToBigEndian(n: nat, k: nat): (b: seq<Byte>)
    ensures |b| == k
  {
    if k == 0 then [] else ToBigEndian(n / 256, k - 1) + [n % 256]
  }

  /** `int.from_bytes(b, "little")` */
  function LittleEndian(b: seq<Byte>): nat {
    if b == [] then 0 else b[0] + 256 * LittleEndian(b[1..])
  }

  /** `n.to_bytes(k, "little")` for `n < 256 ** k`; higher digits are dropped. */
  function ToLittleEndian(n: nat, k: nat): (b: seq<Byte>)
    ensures |b| == k
  {
    if k == 0 then [] else [n % 256] + ToLittleEndian(n / 256, k - 1)
  }

  function Zeros(k: nat): (b: seq<Byte>)
    ensures |b| == k
    ensures forall i :: 0 <= i < k ==> b[i] == 0
  {
    seq(k, _ => 0)
  }

  lemma {:induction false} PowAdd(b: nat, x: nat, y: nat)
    ensures Pow(b, x + y) == Pow(b, x) * Pow(b, y)
  {
    if x == 0 {
    } else {
      PowAdd(b, x - 1, y);
      assert b * (Pow(b, x - 1) * Pow(b, y)) == (b * Pow(b, x - 1)) * Pow(b, y);
    }
  }

  lemma {:induction false} PowMonotone(b: nat, x: nat, y: nat)
    requires 1 <= b && x <= y
    ensures 1 <= Pow(b, x) <= Pow(b, y)
    decreases y
  {
    if y == 0 {
    } else if x == y {
      PowMonotone(b, x - 1, y - 1);
    } else {
      PowMonotone(b, x, y - 1);
    }
  }

  lemma {:induction false} BigEndianRoundTrip(b: seq<Byte>)
    ensures BigEndian(b) < Pow(256, |b|)
    ensures ToBigEndian(BigEndian(b), |b|) == b
  {
    if b == [] {
    } else {
      BigEndianRoundTrip(b[..|b| - 1]);
      assert b == b[..|b| - 1] + [b[|b| - 1]];
    }
  }

  lemma {:induction false} ToBigEndianRoundTrip(n: nat, k: nat)
    requires n < Pow(256, k)
    ensures BigEndian(ToBigEndian(n, k)) == n
  {
    if k == 0 {
    } else {
      ToBigEndianRoundTrip(n / 256, k - 1);
      var b := ToBigEndian(n, k);
      assert b[..k - 1] == ToBigEndian(n / 256, k - 1);
    }
  }

  lemma {:induction false} LittleEndianRoundTrip(b: seq<Byte>)
    ensures LittleEndian(b) < Pow(256, |b|)
    ensures ToLittleEndian(LittleEndian(b), |b|) == b
  {
    if b == [] {
    } else {
      LittleEndianRoundTrip(b[1..]);
      assert LittleEndian(b) % 256 == b[0] && LittleEndian(b) / 256 == LittleEndian(b[1..]);
    }
  }

  lemma {:induction false} BigEndianAppend(a: seq<Byte>, b: seq<Byte>)
    ensures BigEndian(a + b) == BigEndian(a) * Pow(256, |b|) + BigEndian(b)
  {
    if b == [] {
      assert a + b == a;
    } else {
      var c := b[..|b| - 1];
      assert (a + b)[..|a + b| - 1] == a + c;
      BigEndianAppend(a, c);
      assert BigEndian(a) * Pow(256, |c|) * 256 == BigEndian(a) * Pow(256, |b|);
    }
  }

  lemma {:induction false} PowIsPower(b: nat, e: nat)
    ensures Pow(b, 0) == 1 && Pow(b, 1) == b && Pow(b, e + 1) == Pow(b, e) * b
  {
    assert Pow(b, 1) == b * Pow(b, 0);
  }

  /** In big-endian order the first byte weighs most, in little-endian order the last one. */
  lemma {:induction false} PlaceValues(c: Byte, b: seq<Byte>)
    ensures BigEndian([c] + b) == c * Pow(256, |b|) + BigEndian(b)
    ensures LittleEndian(b + [c]) == LittleEndian(b) + c * Pow(256, |b|)
  {
    BigEndianAppend([c], b);
    assert [c][..0] == [] && BigEndian([c]) == c;
    LittleEndianLast(b, c);
  }

  lemma {:induction false} LittleEndianLast(b: seq<Byte>, c: Byte)
    ensures LittleEndian(b + [c]) == LittleEndian(b) + c * Pow(256, |b|)
  {
    if b == [] {
      assert b + [c] == [c] && [c][1..] == [];
    } else {
      assert (b + [c])[1..] == b[1..] + [c];
      LittleEndianLast(b[1..], c);
      assert 256 * (c * Pow(256, |b| - 1)) == c * Pow(256, |b|);
    }
  }

  lemma {:induction false} ToLittleEndianRoundTrip(n: nat, k: nat)
    requires n < Pow(256, k)
    ensures LittleEndian(ToLittleEndian(n, k)) == n
  {
    if k > 0 {
      ToLittleEndianRoundTrip(n / 256, k - 1);
      assert ToLittleEndian(n, k)[1..] == ToLittleEndian(n / 256, k - 1);
    }
  }
}
