/** Python's hexadecimal text: `bytes.hex`, `bytes.fromhex`, `f"{n:0wx}"` and `int(s, 16)`. */
module Hex {
  import opened Wrappers
  import opened Bytes

  function HexChar(d: int): char
    requires 0 <= d < 16
  {
    "0123456789abcdef"[d]
  }

  predicate IsHex(c: char) {
    '0' <= c <= '9' || 'a' <= c <= 'f' || 'A' <= c <= 'F'
  }

  function Digit(c: char): (d: nat)
    requires IsHex(c)
    ensures d < 16
  {
    if '0' <= c <= '9' then c as int - '0' as int
    else if 'a' <= c <= 'f' then c as int - 'a' as int + 10
    else c as int - 'A' as int + 10
  }

  predicate AllHex(s: string) {
    forall i :: 0 <= i < |s| ==> IsHex(s[i])
  }

  /** The ASCII white space that `bytes.fromhex` skips between two bytes. */
  predicate IsSpace(c: char) {
    c == ' ' || c == '\n' || c == '\t' || c == '\r' || c as int == 11 || c as int == 12
  }

  /** `b.hex()` */
  function HexText(b: seq<Byte>): (s: string)
    ensures |s| == 2 * |b|
  {
    if b == [] then "" else [HexChar(b[0] / 16), HexChar(b[0] % 16)] + HexText(b[1..])
  }

  /** `bytes.fromhex(s)`; `None` is the ValueError. */
  function FromHex(s: string): Option<seq<Byte>> {
    if s == "" then Some([])
    else if IsSpace(s[0]) then FromHex(s[1..])
    else if |s| < 2 || !IsHex(s[0]) || !IsHex(s[1]) then None
    else
      match FromHex(s[2..])
      case None => None
      case Some(rest) => Some([16 * Digit(s[0]) + Digit(s[1])] + rest)
  }

  /** `int(s, 16)` for plain hexadecimal text. */
  function IntFromHex(s: string): nat
    requires AllHex(s)
  {
    if s == "" then 0 else IntFromHex(s[..|s| - 1]) * 16 + Digit(s[|s| - 1])
  }

  /** `f"{n:x}"` */
  function HexOf(n: nat): (s: string)
    ensures 0 < |s|
  {
    if n < 16 then [HexChar(n)] else HexOf(n / 16) + [HexChar(n % 16)]
  }

  /** `f"{n:0{w}x}"`: padded on the left with zeros, never cut. */
  function HexPad(n: nat, w: nat): string {
    var s := HexOf(n);
    if |s| >= w then s else seq(w - |s|, _ => '0') + s
  }

  /** The last `w` hexadecimal digits of `n`. */
  function HexFixed(n: nat, w: nat): (s: string)
    ensures |s| == w
  {
    if w == 0 then "" else HexFixed(n / 16, w - 1) + [HexChar(n % 16)]
  }

  lemma {:induction false} HexFixedZero(w: nat)
    ensures HexFixed(0, w) == seq(w, _ => '0')
  {
    if w == 0 {
    } else {
      HexFixedZero(w - 1);
    }
  }

  lemma {:induction false} HexPadIsFixed(n: nat, w: nat)
    requires 0 < w && n < Pow(16, w)
    ensures HexPad(n, w) == HexFixed(n, w)
  {
    if n < 16 {
      HexFixedZero(w - 1);
      assert n / 16 == 0;
    } else {
      assert Pow(16, w) == 16 * Pow(16, w - 1);
      assert w > 1;
      assert n / 16 < Pow(16, w - 1);
      HexPadIsFixed(n / 16, w - 1);
    }
  }

  /** A number too wide for the padding keeps all its digits. */
  lemma {:induction false} HexOfLength(n: nat, w: nat)
    requires Pow(16, w) <= n
    ensures |HexOf(n)| > w
  {
    if w == 0 {
    } else {
      assert 16 * Pow(16, w - 1) <= n;
      PowMonotone(16, 0, w - 1);
      HexOfLength(n / 16, w - 1);
    }
  }

  lemma {:induction false} HexTextAppend(a: seq<Byte>, b: seq<Byte>)
    ensures HexText(a + b) == HexText(a) + HexText(b)
  {
    if a == [] {
      assert a + b == b;
    } else {
      assert (a + b)[1..] == a[1..] + b;
      HexTextAppend(a[1..], b);
    }
  }

  lemma {:induction false} HexFixedIsBytes(n: nat, k: nat)
    ensures HexFixed(n, 2 * k) == HexText(ToBigEndian(n, k))
  {
    if k == 0 {
    } else {
      HexFixedIsBytes(n / 256, k - 1);
      var last: Byte := n % 256;
      HexTextAppend(ToBigEndian(n / 256, k - 1), [last]);
      assert n / 16 / 16 == n / 256;
      assert n / 16 % 16 == last / 16 && n % 16 == last % 16;
      assert HexFixed(n, 2 * k) == HexFixed(n / 256, 2 * (k - 1)) + [HexChar(last / 16)] + [HexChar(last % 16)];
      assert HexText([last]) == [HexChar(last / 16), HexChar(last % 16)] + HexText([]);
    }
  }

  lemma {:induction false} Pow16(k: nat)
    ensures Pow(16, 2 * k) == Pow(256, k)
  {
    if k == 0 {
    } else {
      Pow16(k - 1);
      assert Pow(16, 2 * k) == 16 * (16 * Pow(16, 2 * (k - 1)));
    }
  }

  /** Formatting a number on `2 * k` digits writes its `k` big-endian bytes. */
  lemma {:induction false} HexPadIsBytes(n: nat, k: nat)
    requires 0 < k && n < Pow(256, k)
    ensures HexPad(n, 2 * k) == HexText(ToBigEndian(n, k))
  {
    Pow16(k);
    HexPadIsFixed(n, 2 * k);
    HexFixedIsBytes(n, k);
  }

  lemma {:induction false} DigitOfHexChar(d: nat)
    requires d < 16
    ensures IsHex(HexChar(d)) && !IsSpace(HexChar(d)) && Digit(HexChar(d)) == d
  {
  }

  function Prepend(front: seq<Byte>, rest: Option<seq<Byte>>): Option<seq<Byte>> {
    match rest
    case None => None
    case Some(r) => Some(front + r)
  }

  lemma {:induction false} FromHexByte(c: Byte, rest: string)
    ensures FromHex([HexChar(c / 16), HexChar(c % 16)] + rest) == Prepend([c], FromHex(rest))
  {
    DigitOfHexChar(c / 16);
    DigitOfHexChar(c % 16);
    var s := [HexChar(c / 16), HexChar(c % 16)] + rest;
    assert s[2..] == rest;
    assert 16 * (c / 16) + c % 16 == c;
  }

  lemma {:induction false} PrependTwice(a: seq<Byte>, b: seq<Byte>, rest: Option<seq<Byte>>)
    ensures Prepend(a, Prepend(b, rest)) == Prepend(a + b, rest)
  {
    if rest.Some? {
      assert a + (b + rest.value) == a + b + rest.value;
    }
  }

  /** `fromhex` reads back what `hex` wrote, whatever follows. */
  lemma {:induction false} FromHexText(b: seq<Byte>, rest: string)
    ensures FromHex(HexText(b) + rest) == Prepend(b, FromHex(rest))
  {
    if b == [] {
      assert HexText(b) + rest == rest;
      NoPrepend(FromHex(rest));
    } else {
      HexTextFirst(b, rest);
      FromHexByte(b[0], HexText(b[1..]) + rest);
      FromHexText(b[1..], rest);
      PrependTwice([b[0]], b[1..], FromHex(rest));
      assert [b[0]] + b[1..] == b;
    }
  }

  lemma {:induction false} NoPrepend(rest: Option<seq<Byte>>)
    ensures Prepend([], rest) == rest
  {
    if rest.Some? {
      assert [] + rest.value == rest.value;
    }
  }

  lemma {:induction false} HexTextFirst(b: seq<Byte>, rest: string)
    requires b != []
    ensures HexText(b) + rest == [HexChar(b[0] / 16), HexChar(b[0] % 16)] + (HexText(b[1..]) + rest)
  {
  }

  lemma {:induction false} FromHexOfText(b: seq<Byte>)
    ensures FromHex(HexText(b)) == Some(b)
  {
    FromHexText(b, "");
    assert HexText(b) + "" == HexText(b) && b + [] == b;
  }

  lemma {:induction false} HexTextAllHex(b: seq<Byte>)
    ensures AllHex(HexText(b))
  {
    if b == [] {
    } else {
      HexTextAllHex(b[1..]);
      DigitOfHexChar(b[0] / 16);
      DigitOfHexChar(b[0] % 16);
    }
  }

  lemma {:induction false} IntFromHexSnoc(s: string, c: char)
    requires AllHex(s) && IsHex(c)
    ensures AllHex(s + [c]) && IntFromHex(s + [c]) == IntFromHex(s) * 16 + Digit(c)
  {
    assert (s + [c])[..|s|] == s;
  }

  /** `int(b.hex(), 16) == int.from_bytes(b, "big")` */
  lemma {:induction false} IntFromHexText(b: seq<Byte>)
    ensures AllHex(HexText(b)) && IntFromHex(HexText(b)) == BigEndian(b)
  {
    HexTextAllHex(b);
    if b == [] {
    } else {
      var init, last := b[..|b| - 1], b[|b| - 1];
      IntFromHexText(init);
      DigitOfHexChar(last / 16);
      DigitOfHexChar(last % 16);
      IntFromHexSnoc(HexText(init), HexChar(last / 16));
      IntFromHexSnoc(HexText(init) + [HexChar(last / 16)], HexChar(last % 16));
      assert HexText(b) == HexText(init) + [HexChar(last / 16)] + [HexChar(last % 16)] by {
        assert b == init + [last];
        HexTextAppend(init, [last]);
        assert HexText([last]) == [HexChar(last / 16), HexChar(last % 16)] + HexText([]);
      }
    }
  }

  // Fixed-width pieces, the last one ragged: `textwrap.wrap` on text without white space, or slices in a loop.

  /** The numbers that pieces of `width` digits spell. */
  function PieceNumbers(text: string, width: nat): seq<nat>
    requires 0 < width && AllHex(text)
  {
    if text == "" then []
    else
      var n := Min(width, |text|);
      [IntFromHex(text[..n])] + PieceNumbers(text[n..], width)
  }

  /** The big-endian numbers of pieces of `width` bytes. */
  function ByteNumbers(data: seq<Byte>, width: nat): seq<nat>
    requires 0 < width
  {
    if data == [] then []
    else
      var n := Min(width, |data|);
      [BigEndian(data[..n])] + ByteNumbers(data[n..], width)
  }

  /** Twice as many digits as bytes spell the same numbers. */
  lemma {:induction false} PieceNumbersOfText(data: seq<Byte>, width: nat)
    requires 0 < width
    ensures AllHex(HexText(data)) && PieceNumbers(HexText(data), 2 * width) == ByteNumbers(data, width)
  {
    HexTextAllHex(data);
    if data != [] {
      var n := Min(width, |data|);
      var front, back := data[..n], data[n..];
      assert data == front + back;
      HexTextAppend(front, back);
      IntFromHexText(front);
      PieceNumbersOfText(back, width);
      var text := HexText(data);
      assert text[..2 * n] == HexText(front) && text[2 * n..] == HexText(back);
    }
  }

  // What the text looks like.

  predicate IsLowerHex(c: char) {
    '0' <= c <= '9' || 'a' <= c <= 'f'
  }

  /** Digits are written in lower case and read in either case. */
  lemma {:induction false} DigitsAreLowerCase(d: nat, c: char)
    requires d < 16
    ensures HexChar(d) as int == if d < 10 then '0' as int + d else 'a' as int + d - 10
    ensures IsHex(c) && Digit(c) == d <==> c == HexChar(d) || (d >= 10 && c as int == 'A' as int + d - 10)
  {
  }

  /** Each byte is written as its high and its low digit. */
  lemma {:induction false} HexTextDigits(b: seq<Byte>, i: nat)
    requires i < |b|
    ensures HexText(b)[2 * i] == HexChar(b[i] / 16) && HexText(b)[2 * i + 1] == HexChar(b[i] % 16)
  {
    if i > 0 {
      HexTextDigits(b[1..], i - 1);
    }
  }

  lemma {:induction false} HexOfSpells(n: nat)
    ensures AllHex(HexOf(n)) && IntFromHex(HexOf(n)) == n
    ensures forall i :: 0 <= i < |HexOf(n)| ==> IsLowerHex(HexOf(n)[i])
    ensures n > 0 ==> HexOf(n)[0] != '0'
  {
    if n < 16 {
      DigitsAreLowerCase(n, HexChar(n));
      IntFromHexSnoc("", HexChar(n));
      assert "" + [HexChar(n)] == [HexChar(n)];
    } else {
      HexOfSpells(n / 16);
      DigitsAreLowerCase(n % 16, HexChar(n % 16));
      IntFromHexSnoc(HexOf(n / 16), HexChar(n % 16));
    }
  }

  lemma {:induction false} LeadingZeros(k: nat, s: string)
    requires AllHex(s)
    ensures AllHex(seq(k, _ => '0') + s) && IntFromHex(seq(k, _ => '0') + s) == IntFromHex(s)
  {
    var text := seq(k, _ => '0') + s;
    if s == "" {
      if k > 0 {
        LeadingZeros(k - 1, "");
        assert text[..k - 1] == seq(k - 1, _ => '0') + "";
      }
    } else {
      LeadingZeros(k, s[..|s| - 1]);
      assert text[..|text| - 1] == seq(k, _ => '0') + s[..|s| - 1];
    }
  }

  /** `f"{n:0wx}"` spells `n` in lower case on `w` digits, or on as many as it takes without a leading zero. */
  lemma {:induction false} HexPadSpells(n: nat, w: nat)
    requires 0 < w
    ensures AllHex(HexPad(n, w)) && IntFromHex(HexPad(n, w)) == n
    ensures forall i :: 0 <= i < |HexPad(n, w)| ==> IsLowerHex(HexPad(n, w)[i])
    ensures |HexPad(n, w)| >= w && (|HexPad(n, w)| > w ==> HexPad(n, w)[0] != '0')
  {
    HexOfSpells(n);
    if |HexOf(n)| < w {
      LeadingZeros(w - |HexOf(n)|, HexOf(n));
    }
  }

  /** `bytes.fromhex` skips white space before a byte, and rejects any other character that is no digit. */
  lemma {:induction false} FromHexSkipsSpace(c: char, rest: string)
    ensures c as int == 32 || 9 <= c as int <= 13 ==> FromHex([c] + rest) == FromHex(rest)
    ensures c as int != 32 && !(9 <= c as int <= 13) && !IsHex(c) ==> FromHex([c] + rest) == None
  {
    assert ([c] + rest)[1..] == rest;
  }
}
