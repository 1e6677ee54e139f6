/** Packing of byte strings into 31-byte words behind their length. */
module Calldata {
  import opened Bytes
  import opened Hex

  /** `pack_calldata` */
  function PackCalldata(data: seq<Byte>): seq<nat> {
    HexTextAllHex(data);
    [|data|] + PieceNumbers(HexText(data), 62)
  }

  /** The reader of the format: as many bytes as the header says, 31 per word, the rest in the last word. */
  function UnpackWords(len: nat, words: seq<nat>): seq<Byte> {
    if len == 0 || words == [] then []
    else
      var n := Min(31, len);
      ToBigEndian(words[0], n) + UnpackWords(len - n, words[1..])
  }

  function UnpackCalldata(packed: seq<nat>): seq<Byte> {
    if packed == [] then [] else UnpackWords(packed[0], packed[1..])
  }

  /** The words are the big-endian numbers of 31-byte pieces. */
  function Words(data: seq<Byte>): seq<nat> {
    ByteNumbers(data, 31)
  }

  lemma {:induction false} PackedWords(data: seq<Byte>)
    ensures PackCalldata(data) == [|data|] + Words(data)
  {
    PieceNumbersOfText(data, 31);
  }

  lemma {:induction false} WordsRoundTrip(data: seq<Byte>)
    ensures UnpackWords(|data|, Words(data)) == data
  {
    if data != [] {
      var n := Min(31, |data|);
      WordsRoundTrip(data[n..]);
      BigEndianRoundTrip(data[..n]);
      assert Words(data)[1..] == Words(data[n..]);
      assert data == data[..n] + data[n..];
    }
  }

  lemma {:induction false} WordsFit(data: seq<Byte>)
    ensures |data| <= 31 * |Words(data)| < |data| + 31
    ensures forall i :: 0 <= i < |Words(data)| ==> Words(data)[i] < Pow(256, 31)
  {
    if data != [] {
      var n := Min(31, |data|);
      WordsFit(data[n..]);
      BigEndianRoundTrip(data[..n]);
      PowMonotone(256, n, 31);
    }
  }

  /** Unpacking undoes packing, leading zeros included; the words are ceil(n / 31) and fit 248 bits. */
  lemma {:induction false} CalldataRoundTrip(data: seq<Byte>)
    ensures UnpackCalldata(PackCalldata(data)) == data
    ensures |PackCalldata(data)| == 1 + (|data| + 30) / 31
    ensures forall i :: 1 <= i < |PackCalldata(data)| ==> PackCalldata(data)[i] < Pow(2, 248)
  {
    PackedWords(data);
    WordsRoundTrip(data);
    WordsFit(data);
    var packed := PackCalldata(data);
    assert packed[1..] == Words(data);
    Pow2Is256(31);
    assert forall i :: 1 <= i < |packed| ==> packed[i] == packed[1..][i - 1];
  }

  lemma {:induction false} Pow2Is256(k: nat)
    ensures Pow(2, 8 * k) == Pow(256, k)
  {
    if k > 0 {
      Pow2Is256(k - 1);
      PowAdd(2, 8, 8 * (k - 1));
      assert Pow(2, 8) == 256 by {
        PowAdd(2, 4, 4);
        assert Pow(2, 1) == 2 && Pow(2, 2) == 4 && Pow(2, 3) == 8 && Pow(2, 4) == 16;
      }
    }
  }

  /** Different byte strings are packed differently. */
  lemma {:induction false} PackingIsInjective(a: seq<Byte>, b: seq<Byte>)
    requires PackCalldata(a) == PackCalldata(b)
    ensures a == b
  {
    CalldataRoundTrip(a);
    CalldataRoundTrip(b);
  }
}
