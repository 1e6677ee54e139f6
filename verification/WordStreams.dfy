/**
 Byte streams passed to the hash functions as words: a header, full words, the last partial word and its length in
 bytes. Keccak takes 8-byte little-endian words, sha256 4-byte big-endian ones.
 */
module WordStreams {
  import opened Wrappers
  import opened Bytes
  import opened Hex
  import Uint256

  datatype Order = Little | Big

  function ToNumber(bytes: seq<Byte>, order: Order): nat {
    match order
    case Little => LittleEndian(bytes)
    case Big => BigEndian(bytes)
  }

  /** `num.to_bytes(width, order)`; `None` is the OverflowError. */
  function ToBytes(num: nat, width: nat, order: Order): Option<seq<Byte>> {
    if num >= Pow(256, width) then None
    else
      match order
      case Little => Some(ToLittleEndian(num, width))
      case Big => Some(ToBigEndian(num, width))
  }

  /** The split: as many full words as fit. */
  function FullWords(data: seq<Byte>, width: nat, order: Order): seq<nat>
    requires 0 < width
  {
    if |data| < width then [] else [ToNumber(data[..width], order)] + FullWords(data[width..], width, order)
  }

  /** What the full words leave over; empty when they cover the data. */
  function Remainder(data: seq<Byte>, width: nat): (rest: seq<Byte>)
    requires 0 < width
    ensures |rest| < width
  {
    if |data| < width then data else Remainder(data[width..], width)
  }

  /** The calldata for some bytes. */
  function Encode(data: seq<Byte>, width: nat, order: Order): (calldata: seq<nat>)
    requires 0 < width
    ensures 3 <= |calldata|
  {
    var words, rest := FullWords(data, width, order), Remainder(data, width);
    [|words|] + words + [ToNumber(rest, order), |rest|]
  }

  function JoinWords(words: seq<nat>, width: nat, order: Order): Option<seq<Byte>> {
    if words == [] then Some([])
    else
      match (ToBytes(words[0], width, order), JoinWords(words[1..], width, order))
      case (Some(first), Some(rest)) => Some(first + rest)
      case _ => None
  }

  /** The bytes fed to the hash: `calldata[1:-2]` on the word width, `calldata[-2]` on `calldata[-1]` bytes. */
  function Decode(calldata: seq<nat>, width: nat, order: Order): Option<seq<Byte>>
    requires 3 <= |calldata|
  {
    var n := |calldata|;
    match (JoinWords(calldata[1..n - 2], width, order), ToBytes(calldata[n - 2], calldata[n - 1], order))
    case (Some(words), Some(last)) => Some(words + last)
    case _ => None
  }

  lemma {:induction false} NumberRoundTrip(bytes: seq<Byte>, order: Order)
    ensures ToBytes(ToNumber(bytes, order), |bytes|, order) == Some(bytes)
  {
    BigEndianRoundTrip(bytes);
    LittleEndianRoundTrip(bytes);
  }

  lemma {:induction false} WordsAndRemainder(data: seq<Byte>, width: nat, order: Order)
    requires 0 < width
    ensures JoinWords(FullWords(data, width, order), width, order).Some?
    ensures JoinWords(FullWords(data, width, order), width, order).value + Remainder(data, width) == data
  {
    if |data| >= width {
      var front, back := data[..width], data[width..];
      WordsAndRemainder(back, width, order);
      NumberRoundTrip(front, order);
      var words := FullWords(data, width, order);
      assert words[0] == ToNumber(front, order) && words[1..] == FullWords(back, width, order);
      var joined := JoinWords(FullWords(back, width, order), width, order).value;
      assert (front + joined) + Remainder(back, width) == front + (joined + Remainder(back, width));
      assert data == front + back;
    }
  }

  /** The decoder feeds the hash exactly the original bytes, for every length and with an empty remainder too. */
  lemma {:induction false} StreamRoundTrip(data: seq<Byte>, width: nat, order: Order)
    requires 0 < width
    ensures Decode(Encode(data, width, order), width, order) == Some(data)
  {
    var words, rest := FullWords(data, width, order), Remainder(data, width);
    var calldata := Encode(data, width, order);
    assert calldata[1..|calldata| - 2] == words;
    WordsAndRemainder(data, width, order);
    NumberRoundTrip(rest, order);
  }

  /** `cairo_keccak` for a given hash function. */
  function CairoKeccak(calldata: seq<nat>, keccak: seq<Byte> -> seq<Byte>): Option<(nat, nat)>
    requires 3 <= |calldata|
  {
    match Decode(calldata, 8, Little)
    case None => None
    case Some(bytes) => Some(Uint256.IntToUint256(BigEndian(keccak(bytes))))
  }

  /** Keccak of the stream is the low/high pair of the hash of the bytes, and the pair gives back the hash. */
  lemma {:induction false} KeccakHashesTheBytes(data: seq<Byte>, keccak: seq<Byte> -> seq<Byte>)
    requires |keccak(data)| == 32
    ensures var result := CairoKeccak(Encode(data, 8, Little), keccak);
      result.Some? && Uint256.HashBytes(result.value.0, result.value.1) == keccak(data)
  {
    StreamRoundTrip(data, 8, Little);
    Uint256.HashIsReassembled(keccak(data));
  }

  /** `cairo_compute_sha256_u32_array` for a given hash function. */
  function CairoSha256(calldata: seq<nat>, sha256: seq<Byte> -> seq<Byte>): Option<seq<nat>>
    requires 3 <= |calldata|
  {
    match Decode(calldata, 4, Big)
    case None => None
    case Some(bytes) =>
      HexTextAllHex(sha256(bytes));
      Some([8] + PieceNumbers(HexText(sha256(bytes)), 8))
  }

  /** Without a ragged end, the pieces of a digest are its full words. */
  lemma {:induction false} DigestWordsAreBytes(digest: seq<Byte>)
    requires |digest| % 4 == 0
    ensures ByteNumbers(digest, 4) == FullWords(digest, 4, Big) && Remainder(digest, 4) == []
    ensures 4 * |FullWords(digest, 4, Big)| == |digest|
  {
    if digest != [] {
      DigestWordsAreBytes(digest[4..]);
    }
  }

  /** The sha256 answer is 8 words that join to the digest of the bytes. */
  lemma {:induction false} Sha256HashesTheBytes(data: seq<Byte>, sha256: seq<Byte> -> seq<Byte>)
    requires |sha256(data)| == 32
    ensures var result := CairoSha256(Encode(data, 4, Big), sha256);
      result.Some? && |result.value| == 9 && result.value[0] == 8 &&
      JoinWords(result.value[1..], 4, Big) == Some(sha256(data))
  {
    StreamRoundTrip(data, 4, Big);
    var digest := sha256(data);
    PieceNumbersOfText(digest, 4);
    DigestWordsAreBytes(digest);
    WordsAndRemainder(digest, 4, Big);
    var words := FullWords(digest, 4, Big);
    assert ([8] + words)[1..] == words;
    assert JoinWords(words, 4, Big).value + [] == JoinWords(words, 4, Big).value;
  }

  /** A word is written on its width when it fits, and raises otherwise. */
  lemma {:induction false} WordFits(num: nat, width: nat, order: Order)
    ensures ToBytes(num, width, order).Some? <==> num < Pow(256, width)
    ensures num < Pow(256, width) ==>
      |ToBytes(num, width, order).value| == width && ToNumber(ToBytes(num, width, order).value, order) == num
  {
    if num < Pow(256, width) {
      ToBigEndianRoundTrip(num, width);
      ToLittleEndianRoundTrip(num, width);
    }
  }

  /** The bytes of the stream exist when every word and the remainder fit. */
  lemma {:induction false} DecodeRaises(calldata: seq<nat>, width: nat, order: Order)
    requires 3 <= |calldata|
    ensures var n := |calldata|;
      Decode(calldata, width, order) == None <==>
        calldata[n - 2] >= Pow(256, calldata[n - 1]) || exists i :: 1 <= i < n - 2 && calldata[i] >= Pow(256, width)
  {
    var words := calldata[1..|calldata| - 2];
    JoinRaises(words, width, order);
    assert forall i :: 1 <= i < |calldata| - 2 ==> calldata[i] == words[i - 1];
    assert forall i :: 0 <= i < |words| ==> words[i] == calldata[i + 1];
  }

  lemma {:induction false} JoinRaises(words: seq<nat>, width: nat, order: Order)
    ensures JoinWords(words, width, order) == None <==> exists i :: 0 <= i < |words| && words[i] >= Pow(256, width)
  {
    if words != [] {
      JoinRaises(words[1..], width, order);
      assert forall i :: 0 <= i < |words| - 1 ==> words[1..][i] == words[i + 1];
      assert forall i :: 0 < i < |words| ==> words[i] == words[1..][i - 1];
    }
  }

  /** The first byte of a big-endian word weighs most, the last byte of a little-endian one. */
  lemma {:induction false} WordOrder(c: Byte, b: seq<Byte>)
    ensures ToNumber([c] + b, Big) == c * Pow(256, |b|) + ToNumber(b, Big)
    ensures ToNumber(b + [c], Little) == ToNumber(b, Little) + c * Pow(256, |b|)
  {
    PlaceValues(c, b);
  }
}
