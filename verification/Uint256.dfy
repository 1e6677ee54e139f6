/** The low/high split of 256-bit numbers, and its use for 32-byte words. */
module Uint256 {
  import opened Bytes

  const TWO_128: nat := 0x1_0000_0000_0000_0000_0000_0000_0000_0000

  /** `int_to_uint256`; the high part of a wider number is not cut. */
  function IntToUint256(value: nat): (nat, nat) {
    (value % TWO_128, value / TWO_128)
  }

  /** `uint256_to_int` */
  function Uint256ToInt(low: nat, high: nat): nat {
    low + high * TWO_128
  }

  lemma {:induction false} SplitRoundTrip(value: nat)
    ensures var (low, high) := IntToUint256(value); Uint256ToInt(low, high) == value && low < TWO_128
  {
  }

  lemma {:induction false} JoinRoundTrip(low: nat, high: nat)
    requires low < TWO_128
    ensures IntToUint256(Uint256ToInt(low, high)) == (low, high)
  {
  }

  lemma {:induction false} Pow256Of16()
    ensures Pow(256, 16) == TWO_128
  {
    assert Pow(256, 4) == 0x1_0000_0000 by {
      assert Pow(256, 1) == 256 && Pow(256, 2) == 0x1_0000 && Pow(256, 3) == 0x100_0000;
    }
    PowAdd(256, 4, 4);
    PowAdd(256, 8, 8);
  }

  /** Splitting a 32-byte word splits its bytes in the middle. */
  lemma {:induction false} SplitOfWord(word: seq<Byte>)
    requires |word| == 32
    ensures IntToUint256(BigEndian(word)) == (BigEndian(word[16..]), BigEndian(word[..16]))
  {
    assert word == word[..16] + word[16..];
    BigEndianAppend(word[..16], word[16..]);
    BigEndianRoundTrip(word[16..]);
    Pow256Of16();
    JoinRoundTrip(BigEndian(word[16..]), BigEndian(word[..16]));
  }

  /** `cairo_recover_eth_address`: the two halves of a message hash, high half first, are its 32 bytes. */
  function HashBytes(low: nat, high: nat): seq<Byte> {
    ToBigEndian(high, 16) + ToBigEndian(low, 16)
  }

  lemma {:induction false} HashIsReassembled(hash: seq<Byte>)
    requires |hash| == 32
    ensures var (low, high) := IntToUint256(BigEndian(hash)); HashBytes(low, high) == hash
  {
    SplitOfWord(hash);
    BigEndianRoundTrip(hash[..16]);
    BigEndianRoundTrip(hash[16..]);
    assert hash[..16] + hash[16..] == hash;
  }
}
