/**
 Two decoders of the same dict access log (key, previous value, new value, ...): `serialize_memory` keeps the last
 value of each 16-byte word and prints them in order; `extract_memory_from_execute` writes the words over zeros.
 */
module MemoryDecoders {
  import opened Wrappers
  import opened Bytes
  import opened Hex

  /** The first `n` accesses of a log, as pairs of a key and its new value. */
  function Writes(log: seq<nat>, n: nat): (writes: seq<(nat, nat)>)
    requires 3 * n <= |log|
    ensures |writes| == n
  {
    if n == 0 then [] else Writes(log, n - 1) + [(log[3 * (n - 1)], log[3 * (n - 1) + 2])]
  }

  lemma {:induction false} WritesAt(log: seq<nat>, n: nat, i: nat)
    requires 3 * n <= |log| && i < n
    ensures Writes(log, n)[i] == (log[3 * i], log[3 * i + 2])
  {
    if i < n - 1 {
      WritesAt(log, n - 1, i);
    }
  }

  // serialize_dict and serialize_memory.

  function LastValues(writes: seq<(nat, nat)>): map<nat, nat> {
    if writes == [] then map[]
    else
      var last := writes[|writes| - 1];
      LastValues(writes[..|writes| - 1])[last.0 := last.1]
  }

  function WordText(values: map<nat, nat>, i: nat): string {
    HexPad(if i in values then values[i] else 0, 32)
  }

  function MemoryText(values: map<nat, nat>, words: nat): string {
    if words == 0 then "" else MemoryText(values, words - 1) + WordText(values, words - 1)
  }

  /** With a scope for the values, zero stands for no value. */
  function Scoped<V>(scope: nat -> V): nat -> Option<V> {
    (v: nat) => if v == 0 then None else Some(scope(v))
  }

  function Decoded<V>(values: map<nat, nat>, decode: nat -> V): map<nat, V> {
    map key | key in values :: decode(values[key])
  }

  /** `serialize_dict`; `decode` is the identity without a scope, `Scoped(scope)` with one. */
  method SerializeDict<V>(log: seq<nat>, decode: nat -> V) returns (output: map<nat, V>)
    requires |log| % 3 == 0
    ensures output == Decoded(LastValues(Writes(log, |log| / 3)), decode)
  {
    output := map[];
    var dictIndex := 0;
    ghost var n := 0;
    while dictIndex < |log|
      invariant 0 <= dictIndex <= |log| && dictIndex == 3 * n
      invariant output == Decoded(LastValues(Writes(log, n)), decode)
    {
      var key, value := log[dictIndex], log[dictIndex + 2];
      output := output[key := decode(value)];
      DecodedSnoc(log, n, decode);
      n := n + 1;
      dictIndex := dictIndex + 3;
    }
  }

  /** Read through a scope, every key keeps its own value, except that zero is no value. */
  lemma {:induction false} ZeroIsNoValue<V>(values: map<nat, nat>, scope: nat -> V, key: nat)
    ensures key in Decoded(values, Scoped(scope)) <==> key in values
    ensures key in values ==>
      Decoded(values, Scoped(scope))[key] == if values[key] == 0 then None else Some(scope(values[key]))
  {
  }

  /** A key holds the value of its last write, and only written keys are held. */
  lemma {:induction false} LastWriteWins(writes: seq<(nat, nat)>, i: nat)
    requires i < |writes| && forall j :: i < j < |writes| ==> writes[j].0 != writes[i].0
    ensures writes[i].0 in LastValues(writes) && LastValues(writes)[writes[i].0] == writes[i].1
    ensures forall key :: key in LastValues(writes) ==> exists j :: 0 <= j < |writes| && writes[j].0 == key
  {
    WrittenKeysOnly(writes);
    if i < |writes| - 1 {
      LastWriteWins(writes[..|writes| - 1], i);
    }
  }

  lemma {:induction false} WrittenKeysOnly(writes: seq<(nat, nat)>)
    ensures forall key :: key in LastValues(writes) ==> exists j :: 0 <= j < |writes| && writes[j].0 == key
  {
    if writes != [] {
      WrittenKeysOnly(writes[..|writes| - 1]);
    }
  }

  lemma {:induction false} WritesSnoc(log: seq<nat>, n: nat)
    requires 3 * n + 3 <= |log|
    ensures LastValues(Writes(log, n + 1)) == LastValues(Writes(log, n))[log[3 * n] := log[3 * n + 2]]
  {
    assert Writes(log, n + 1)[..n] == Writes(log, n);
  }

  lemma {:induction false} DecodedSnoc<V>(log: seq<nat>, n: nat, decode: nat -> V)
    requires 3 * n + 3 <= |log|
    ensures Decoded(LastValues(Writes(log, n + 1)), decode)
         == Decoded(LastValues(Writes(log, n)), decode)[log[3 * n] := decode(log[3 * n + 2])]
  {
    WritesSnoc(log, n);
  }

  lemma {:induction false} OverlaySnoc(log: seq<nat>, n: nat, wordsLen: nat)
    requires 3 * n + 3 <= |log|
    ensures Overlay(Writes(log, n + 1), wordsLen)
        == OverlayOne(Overlay(Writes(log, n), wordsLen), log[3 * n], log[3 * n + 2])
  {
    assert Writes(log, n + 1)[..n] == Writes(log, n);
  }

  method SerializeMemory(log: seq<nat>, wordsLen: nat) returns (text: string)
    requires |log| % 3 == 0
    ensures text == MemoryText(LastValues(Writes(log, |log| / 3)), wordsLen * 2)
    ensures Words128(Writes(log, |log| / 3)) ==> Spells(text, LastValues(Writes(log, |log| / 3)), wordsLen * 2)
  {
    if Words128(Writes(log, |log| / 3)) {
      LastValuesAreWords(Writes(log, |log| / 3));
      MemoryTextSpells(LastValues(Writes(log, |log| / 3)), wordsLen * 2);
    }
    var values := SerializeDict(log, value => value);
    assert values == LastValues(Writes(log, |log| / 3));
    text := "";
    for i := 0 to wordsLen * 2
      invariant text == MemoryText(values, i)
    {
      text := text + WordText(values, i);
    }
  }

  /** 32 lower-case hexadecimal digits for each 16-byte word, which spell its value. */
  ghost predicate Spells(text: string, values: map<nat, nat>, words: nat) {
    && |text| == 32 * words
    && (forall i :: 0 <= i < |text| ==> IsLowerHex(text[i]))
    && forall i :: 0 <= i < words ==> SpellsWord(text, i, ValueAt(values, i))
  }

  ghost predicate SpellsWord(text: string, i: nat, value: nat) {
    && 32 * i + 32 <= |text|
    && AllHex(text[32 * i..32 * i + 32]) && IntFromHex(text[32 * i..32 * i + 32]) == value
  }

  lemma {:induction false} MemoryTextSpells(values: map<nat, nat>, words: nat)
    requires forall i: nat :: ValueAt(values, i) < Pow(256, 16)
    ensures Spells(MemoryText(values, words), values, words)
  {
    if words > 0 {
      MemoryTextSpells(values, words - 1);
      WordSpells(ValueAt(values, words - 1));
      SpellsNext(MemoryText(values, words - 1), WordText(values, words - 1), values, words - 1);
    }
  }

  lemma {:induction false} WordSpells(value: nat)
    requires value < Pow(256, 16)
    ensures |HexPad(value, 32)| == 32 && AllHex(HexPad(value, 32)) && IntFromHex(HexPad(value, 32)) == value
    ensures forall i :: 0 <= i < 32 ==> IsLowerHex(HexPad(value, 32)[i])
  {
    HexPadIsBytes(value, 16);
    HexPadSpells(value, 32);
  }

  lemma {:induction false} SpellsNext(front: string, word: string, values: map<nat, nat>, n: nat)
    requires Spells(front, values, n)
    requires |word| == 32 && AllHex(word) && IntFromHex(word) == ValueAt(values, n)
    requires forall i :: 0 <= i < 32 ==> IsLowerHex(word[i])
    ensures Spells(front + word, values, n + 1)
  {
    var text := front + word;
    forall i | 0 <= i < n + 1
      ensures SpellsWord(text, i, ValueAt(values, i))
    {
      if i < n {
        assert SpellsWord(front, i, ValueAt(values, i));
        assert text[32 * i..32 * i + 32] == front[32 * i..32 * i + 32];
      } else {
        assert text[32 * n..32 * n + 32] == word;
      }
    }
  }

  // extract_memory_from_execute.

  /** `mem[lo:hi] = bytes`: past the end of the list, assignment extends it. */
  function AssignSlice(mem: seq<Byte>, lo: nat, hi: nat, bytes: seq<Byte>): seq<Byte>
    requires lo <= hi
  {
    mem[..Min(lo, |mem|)] + bytes + mem[Min(hi, |mem|)..]
  }

  /** One write; `None` is the ValueError of `bytes.fromhex` for a value with an odd number of digits. */
  function OverlayOne(mem: Option<seq<Byte>>, key: nat, value: nat): Option<seq<Byte>> {
    if mem == None then None
    else
      match FromHex(HexPad(value, 32))
      case None => None
      case Some(bytes) => Some(AssignSlice(mem.value, key * 16, key * 16 + 16, bytes))
  }

  function Overlay(writes: seq<(nat, nat)>, wordsLen: nat): Option<seq<Byte>> {
    if writes == [] then Some(Zeros(wordsLen * 32))
    else
      var last := writes[|writes| - 1];
      OverlayOne(Overlay(writes[..|writes| - 1], wordsLen), last.0, last.1)
  }

  method ExtractMemory(log: seq<nat>, wordsLen: nat) returns (result: Option<seq<Byte>>)
    requires |log| % 3 == 0
    ensures result == Overlay(Writes(log, |log| / 3), wordsLen)
  {
    var mem: seq<Byte> := Zeros(wordsLen * 32);
    var i := 0;
    ghost var n := 0;
    while i < |log|
      invariant 0 <= i <= |log| && i == 3 * n
      invariant Overlaid(log, n, wordsLen, Some(mem))
    {
      var written := WriteWord(mem, log, i, n, wordsLen);
      n := n + 1;
      if written == None {
        OverlayStaysNone(log, n, wordsLen);
        return None;
      }
      mem := written.value;
      i := i + 3;
    }
    result := Some(mem);
  }

  ghost predicate Overlaid(log: seq<nat>, n: nat, wordsLen: nat, mem: Option<seq<Byte>>) {
    3 * n <= |log| && Overlay(Writes(log, n), wordsLen) == mem
  }

  /** The body of its loop: one access of the log. */
  method WriteWord(mem: seq<Byte>, log: seq<nat>, i: nat, ghost n: nat, ghost wordsLen: nat)
    returns (written: Option<seq<Byte>>)
    requires i == 3 * n && i + 3 <= |log| && Overlaid(log, n, wordsLen, Some(mem))
    ensures Overlaid(log, n + 1, wordsLen, written)
  {
    var k, v := log[i], log[i + 2];
    OverlaySnoc(log, n, wordsLen);
    var word := FromHex(HexPad(v, 32));
    match word {
      case None => written := None;
      case Some(bytes) => written := Some(mem[..Min(k * 16, |mem|)] + bytes + mem[Min(k * 16 + 16, |mem|)..]);
    }
  }

  lemma {:induction false} OverlayStaysNone(log: seq<nat>, n: nat, wordsLen: nat)
    requires |log| % 3 == 0 && Overlaid(log, n, wordsLen, None)
    ensures Overlaid(log, |log| / 3, wordsLen, None)
    decreases |log| - n
  {
    if 3 * n < |log| {
      OverlaySnoc(log, n, wordsLen);
      OverlayStaysNone(log, n + 1, wordsLen);
    }
  }

  // The decoders agree.

  /** What Cairo memory holds: 128-bit words. */
  ghost predicate Words128(writes: seq<(nat, nat)>) {
    forall i :: 0 <= i < |writes| ==> writes[i].1 < Pow(256, 16)
  }

  ghost predicate KeysBelow(writes: seq<(nat, nat)>, words: nat) {
    forall i :: 0 <= i < |writes| ==> writes[i].0 < words
  }

  function WordBytes(value: nat): (bytes: seq<Byte>)
    ensures |bytes| == 16
  {
    ToBigEndian(value, 16)
  }

  function ValueAt(values: map<nat, nat>, i: nat): nat {
    if i in values then values[i] else 0
  }

  lemma {:induction false} WordIsWritten(mem: seq<Byte>, key: nat, value: nat)
    requires value < Pow(256, 16)
    ensures OverlayOne(Some(mem), key, value) == Some(AssignSlice(mem, key * 16, key * 16 + 16, WordBytes(value)))
  {
    HexPadIsBytes(value, 16);
    FromHexOfText(WordBytes(value));
  }

  /** `mem` holds the values word by word. */
  ghost predicate Holds(mem: seq<Byte>, values: map<nat, nat>, words: nat) {
    |mem| == words * 16 &&
    forall i :: 0 <= i < words ==> mem[i * 16..i * 16 + 16] == WordBytes(ValueAt(values, i))
  }

  lemma {:induction false} ZeroWord(k: nat)
    ensures ToBigEndian(0, k) == Zeros(k)
  {
    if k > 0 {
      ZeroWord(k - 1);
      assert Zeros(k) == Zeros(k - 1) + [0];
    }
  }

  /** The overlay after any writes inside memory holds the last value of each word. */
  lemma {:induction false} OverlayHolds(writes: seq<(nat, nat)>, wordsLen: nat)
    requires Words128(writes) && KeysBelow(writes, 2 * wordsLen)
    ensures Overlay(writes, wordsLen).Some?
    ensures Holds(Overlay(writes, wordsLen).value, LastValues(writes), 2 * wordsLen)
  {
    if writes == [] {
      ZeroWord(16);
      assert forall i :: 0 <= i < 2 * wordsLen ==> Zeros(wordsLen * 32)[i * 16..i * 16 + 16] == Zeros(16);
    } else {
      var init, last := writes[..|writes| - 1], writes[|writes| - 1];
      OverlayHolds(init, wordsLen);
      var mem := Overlay(init, wordsLen).value;
      WordIsWritten(mem, last.0, last.1);
      AssignHolds(mem, LastValues(init), 2 * wordsLen, last.0, last.1);
    }
  }

  lemma {:induction false} AssignHolds(mem: seq<Byte>, values: map<nat, nat>, words: nat, key: nat, value: nat)
    requires Holds(mem, values, words) && key < words
    ensures Holds(AssignSlice(mem, key * 16, key * 16 + 16, WordBytes(value)), values[key := value], words)
  {
    var next := AssignSlice(mem, key * 16, key * 16 + 16, WordBytes(value));
    assert |next| == |mem|;
    forall i | 0 <= i < words
      ensures next[i * 16..i * 16 + 16] == WordBytes(ValueAt(values[key := value], i))
    {
      if i == key {
        assert next[key * 16..key * 16 + 16] == WordBytes(value);
      } else {
        assert i * 16 + 16 <= key * 16 || key * 16 + 16 <= i * 16;
        assert next[i * 16..i * 16 + 16] == mem[i * 16..i * 16 + 16];
        assert ValueAt(values[key := value], i) == ValueAt(values, i);
      }
    }
  }

  lemma {:induction false} TextOfHeld(mem: seq<Byte>, values: map<nat, nat>, words: nat, n: nat)
    requires Holds(mem, values, words) && n <= words
    requires forall i: nat :: ValueAt(values, i) < Pow(256, 16)
    ensures n * 16 <= |mem| && HexText(mem[..n * 16]) == MemoryText(values, n)
  {
    if n > 0 {
      var i := n - 1;
      TextOfHeld(mem, values, words, i);
      NextWord(mem, values, words, i);
      TextOfWord(mem[..i * 16], WordBytes(ValueAt(values, i)), ValueAt(values, i));
    }
  }

  lemma {:induction false} NextWord(mem: seq<Byte>, values: map<nat, nat>, words: nat, i: nat)
    requires Holds(mem, values, words) && i < words
    ensures i * 16 + 16 <= |mem| && mem[..i * 16 + 16] == mem[..i * 16] + WordBytes(ValueAt(values, i))
  {
    assert i * 16 + 16 <= words * 16;
    assert mem[..i * 16 + 16] == mem[..i * 16] + mem[i * 16..i * 16 + 16];
  }

  lemma {:induction false} TextOfWord(front: seq<Byte>, word: seq<Byte>, value: nat)
    requires value < Pow(256, 16) && word == WordBytes(value)
    ensures HexText(front + word) == HexText(front) + HexPad(value, 32)
  {
    HexTextAppend(front, word);
    HexPadIsBytes(value, 16);
  }

  lemma {:induction false} LastValuesAreWords(writes: seq<(nat, nat)>)
    requires Words128(writes)
    ensures forall i: nat :: ValueAt(LastValues(writes), i) < Pow(256, 16)
  {
    if writes == [] {
      PowMonotone(256, 0, 16);
    } else {
      var init, last := writes[..|writes| - 1], writes[|writes| - 1];
      LastValuesAreWords(init);
      forall i: nat
        ensures ValueAt(LastValues(writes), i) < Pow(256, 16)
      {
        assert i != last.0 ==> ValueAt(LastValues(writes), i) == ValueAt(LastValues(init), i);
      }
    }
  }

  /** An assignment past the end appends, wherever past the end it is. */
  lemma {:induction false} AssignedPastTheEnd(mem: seq<Byte>, lo: nat, hi: nat, bytes: seq<Byte>)
    requires |mem| <= lo <= hi
    ensures AssignSlice(mem, lo, hi, bytes) == mem + bytes
  {
  }

  /** A write past the end of memory makes it longer, for good. */
  lemma {:induction false} OverlayLength(writes: seq<(nat, nat)>, wordsLen: nat)
    requires Words128(writes)
    ensures Overlay(writes, wordsLen).Some?
    ensures |Overlay(writes, wordsLen).value| >= wordsLen * 32
    ensures |Overlay(writes, wordsLen).value| == wordsLen * 32 <==> KeysBelow(writes, 2 * wordsLen)
  {
    if writes != [] {
      var init, last := writes[..|writes| - 1], writes[|writes| - 1];
      OverlayLength(init, wordsLen);
      WordIsWritten(Overlay(init, wordsLen).value, last.0, last.1);
      assert writes == init + [last];
      assert KeysBelow(writes, 2 * wordsLen) <==> KeysBelow(init, 2 * wordsLen) && last.0 < 2 * wordsLen;
    }
  }

  /**
   For any log of 128-bit words, repeated keys in any order, the two decoders give the same memory exactly when no
   key lies past the end. The memory then has 32 bytes per word of the machine.
   */
  lemma {:induction false} DecodersAgree(writes: seq<(nat, nat)>, wordsLen: nat)
    requires Words128(writes)
    ensures Overlay(writes, wordsLen).Some?
    ensures HexText(Overlay(writes, wordsLen).value) == MemoryText(LastValues(writes), wordsLen * 2)
       <==> KeysBelow(writes, 2 * wordsLen)
    ensures KeysBelow(writes, 2 * wordsLen) ==> |Overlay(writes, wordsLen).value| == 32 * wordsLen
  {
    OverlayLength(writes, wordsLen);
    LastValuesAreWords(writes);
    var mem := Overlay(writes, wordsLen).value;
    if KeysBelow(writes, 2 * wordsLen) {
      OverlayHolds(writes, wordsLen);
      TextOfHeld(mem, LastValues(writes), 2 * wordsLen, 2 * wordsLen);
      assert mem[..2 * wordsLen * 16] == mem;
    } else {
      MemoryTextSpells(LastValues(writes), wordsLen * 2);
    }
  }
}
