/**
 Log receipts rebuilt from Starknet events: the events of the Kakarot contract that carry an EVM address, in order,
 with each topic put together from a low/high pair of keys.
 */
module LogTopics {
  import opened Wrappers
  import opened Bytes
  import opened Hex
  import Uint256

  datatype Event = Event(fromAddress: nat, keys: seq<nat>, data: seq<nat>)

  type Casing = string -> string

  datatype LogReceipt = LogReceipt(address: string, data: seq<Byte>, logIndex: nat, topics: seq<seq<Byte>>)

  /** `IndexError` on missing keys, `ValueError` on malformed text or data. */
  datatype Error = IndexError | ValueError

  const TWO_160: nat := 0x1_0000_0000_0000_0000_0000_0000_0000_0000_0000_0000

  /** Whether an event is kept; looking at the first key of an event without keys raises. */
  function IsLog(event: Event, kakarot: nat): Result<bool, Error> {
    if event.fromAddress != kakarot then Ok(false)
    else if event.keys == [] then Err(IndexError)
    else Ok(event.keys[0] < TWO_160)
  }

  /** `kakarot_events` */
  function KakarotEvents(events: seq<Event>, kakarot: nat): Result<seq<Event>, Error> {
    if events == [] then Ok([])
    else
      match KakarotEvents(events[..|events| - 1], kakarot)
      case Err(e) => Err(e)
      case Ok(kept) =>
        var last := events[|events| - 1];
        match IsLog(last, kakarot)
        case Err(e) => Err(e)
        case Ok(isLog) => Ok(if isLog then kept + [last] else kept)
  }

  /** The topics from the keys at `i`, `i + 1` on. */
  function Topics(keys: seq<nat>, i: nat): Result<seq<seq<Byte>>, Error>
    decreases |keys| - i
  {
    if i >= |keys| then Ok([])
    else if i + 1 >= |keys| then Err(IndexError)
    else
      match FromHex(HexPad(keys[i] + Uint256.TWO_128 * keys[i + 1], 64))
      case None => Err(ValueError)
      case Some(topic) =>
        match Topics(keys, i + 2)
        case Err(e) => Err(e)
        case Ok(rest) => Ok([topic] + rest)
  }

  predicate AreBytes(data: seq<nat>) {
    forall i :: 0 <= i < |data| ==> data[i] < 256
  }

  function AsBytes(data: seq<nat>): seq<Byte>
    requires AreBytes(data)
  {
    if data == [] then [] else [data[0]] + AsBytes(data[1..])
  }

  /** `checksum` is the casing of the address text, which depends on its keccak hash. */
  function Receipt(event: Event, logIndex: nat, checksum: Casing): Result<LogReceipt, Error>
    requires event.keys != []
  {
    if !AreBytes(event.data) then Err(ValueError)
    else
      match Topics(event.keys, 1)
      case Err(e) => Err(e)
      case Ok(topics) =>
        var address := checksum("0x" + HexPad(event.keys[0], 40));
        Ok(LogReceipt(address, AsBytes(event.data), logIndex, topics))
  }

  function Receipts(events: seq<Event>, checksum: Casing): Result<seq<LogReceipt>, Error>
    requires forall i :: 0 <= i < |events| ==> events[i].keys != []
  {
    if events == [] then Ok([])
    else
      match Receipts(events[..|events| - 1], checksum)
      case Err(e) => Err(e)
      case Ok(receipts) =>
        match Receipt(events[|events| - 1], |events| - 1, checksum)
        case Err(e) => Err(e)
        case Ok(receipt) => Ok(receipts + [receipt])
  }

  lemma {:induction false} KeptHaveKeys(events: seq<Event>, kakarot: nat)
    requires KakarotEvents(events, kakarot).Ok?
    ensures var kept := KakarotEvents(events, kakarot).value;
      forall i :: 0 <= i < |kept| ==> kept[i].keys != []
  {
    if events != [] {
      KeptHaveKeys(events[..|events| - 1], kakarot);
    }
  }

  /** `get_log_receipts` on a Starknet receipt. */
  function GetLogReceipts(events: seq<Event>, kakarot: nat, checksum: Casing): Result<seq<LogReceipt>, Error> {
    match KakarotEvents(events, kakarot)
    case Err(e) => Err(e)
    case Ok(kept) =>
      KeptHaveKeys(events, kakarot);
      Receipts(kept, checksum)
  }

  // What was emitted.

  /** An EVM log, or an event that is none: from another contract, or with a first key that is no EVM address. */
  datatype Emission =
    | Log(address: seq<Byte>, topics: seq<seq<Byte>>, data: seq<Byte>)
    | Foreign(event: Event)

  ghost predicate WellFormed(emission: Emission, kakarot: nat) {
    match emission
    case Log(address, topics, data) => |address| == 20 && forall i :: 0 <= i < |topics| ==> |topics[i]| == 32
    case Foreign(event) => event.fromAddress != kakarot || (event.keys != [] && event.keys[0] >= TWO_160)
  }

  /** The keys that carry topics: low, high, low, high, ... */
  function TopicKeys(topics: seq<seq<Byte>>): seq<nat> {
    if topics == [] then []
    else
      var (low, high) := Uint256.IntToUint256(BigEndian(topics[0]));
      [low, high] + TopicKeys(topics[1..])
  }

  function AsNumbers(data: seq<Byte>): seq<nat> {
    if data == [] then [] else [data[0]] + AsNumbers(data[1..])
  }

  function Emit(emission: Emission, kakarot: nat): Event {
    match emission
    case Log(address, topics, data) => Event(kakarot, [BigEndian(address)] + TopicKeys(topics), AsNumbers(data))
    case Foreign(event) => event
  }

  function EmitAll(emissions: seq<Emission>, kakarot: nat): seq<Event> {
    if emissions == [] then []
    else EmitAll(emissions[..|emissions| - 1], kakarot) + [Emit(emissions[|emissions| - 1], kakarot)]
  }

  function Logs(emissions: seq<Emission>): (logs: seq<Emission>)
    ensures forall i :: 0 <= i < |logs| ==> logs[i].Log?
  {
    if emissions == [] then []
    else
      var init, last := Logs(emissions[..|emissions| - 1]), emissions[|emissions| - 1];
      if last.Log? then init + [last] else init
  }

  lemma {:induction false} TopicRoundTrip(topic: seq<Byte>)
    requires |topic| == 32
    ensures var (low, high) := Uint256.IntToUint256(BigEndian(topic));
      FromHex(HexPad(low + Uint256.TWO_128 * high, 64)) == Some(topic)
  {
    Uint256.SplitRoundTrip(BigEndian(topic));
    WordTextRoundTrip(topic);
  }

  lemma {:induction false} WordTextRoundTrip(word: seq<Byte>)
    requires |word| == 32
    ensures FromHex(HexPad(BigEndian(word), 64)) == Some(word)
  {
    BigEndianRoundTrip(word);
    HexPadIsBytes(BigEndian(word), 32);
    FromHexOfText(word);
  }

  lemma {:induction false} TopicsStep(keys: seq<nat>, i: nat, topic: seq<Byte>, rest: seq<seq<Byte>>)
    requires i + 1 < |keys| && FromHex(HexPad(keys[i] + Uint256.TWO_128 * keys[i + 1], 64)) == Some(topic)
    requires Topics(keys, i + 2) == Ok(rest)
    ensures Topics(keys, i) == Ok([topic] + rest)
  {
  }

  lemma {:induction false} KeysOfTopics(keys: seq<nat>, i: nat, topics: seq<seq<Byte>>)
    requires i <= |keys| && keys[i..] == TopicKeys(topics) && topics != []
    ensures i + 2 <= |keys| && (keys[i], keys[i + 1]) == Uint256.IntToUint256(BigEndian(topics[0]))
    ensures keys[i + 2..] == TopicKeys(topics[1..])
  {
    assert keys[i..][0] == keys[i] && keys[i..][1] == keys[i + 1];
    assert keys[i + 2..] == keys[i..][2..];
  }

  lemma {:induction false} TopicsRoundTrip(keys: seq<nat>, i: nat, topics: seq<seq<Byte>>)
    requires forall j :: 0 <= j < |topics| ==> |topics[j]| == 32
    requires i <= |keys| && keys[i..] == TopicKeys(topics)
    ensures Topics(keys, i) == Ok(topics)
    decreases topics
  {
    if topics != [] {
      KeysOfTopics(keys, i, topics);
      TopicRoundTrip(topics[0]);
      TopicsRoundTrip(keys, i + 2, topics[1..]);
      TopicsStep(keys, i, topics[0], topics[1..]);
      assert [topics[0]] + topics[1..] == topics;
    }
  }

  lemma {:induction false} DataRoundTrip(data: seq<Byte>)
    ensures AreBytes(AsNumbers(data)) && AsBytes(AsNumbers(data)) == data
  {
    if data != [] {
      DataRoundTrip(data[1..]);
      assert AsNumbers(data)[1..] == AsNumbers(data[1..]);
    }
  }

  lemma {:induction false} AddressBound(address: seq<Byte>)
    requires |address| == 20
    ensures BigEndian(address) < Pow(256, 20) == TWO_160
    ensures ToBigEndian(BigEndian(address), 20) == address
  {
    BigEndianRoundTrip(address);
    Uint256.Pow256Of16();
    PowAdd(256, 16, 4);
    assert Pow(256, 4) == 0x1_0000_0000 by {
      assert Pow(256, 1) == 256 && Pow(256, 2) == 0x1_0000 && Pow(256, 3) == 0x100_0000;
    }
  }

  /** The receipt of one emitted log: the address in 40 digits, its data and exactly its topics. */
  lemma {:induction false} LogRoundTrip(log: Emission, kakarot: nat, logIndex: nat, checksum: Casing)
    requires log.Log? && WellFormed(log, kakarot)
    ensures IsLog(Emit(log, kakarot), kakarot) == Ok(true)
    ensures Receipt(Emit(log, kakarot), logIndex, checksum) == Ok(ReceiptOf(log, logIndex, checksum))
  {
    AddressBound(log.address);
    HexPadIsBytes(BigEndian(log.address), 20);
    var keys := Emit(log, kakarot).keys;
    assert keys[1..] == TopicKeys(log.topics);
    TopicsRoundTrip(keys, 1, log.topics);
    DataRoundTrip(log.data);
  }

  /** Filtering keeps the emitted logs, all of them and in order. */
  lemma {:induction false} FilterKeepsLogs(emissions: seq<Emission>, kakarot: nat)
    requires forall i :: 0 <= i < |emissions| ==> WellFormed(emissions[i], kakarot)
    ensures KakarotEvents(EmitAll(emissions, kakarot), kakarot) == Ok(EmitAll(Logs(emissions), kakarot))
    ensures forall i :: 0 <= i < |Logs(emissions)| ==> WellFormed(Logs(emissions)[i], kakarot)
  {
    if emissions != [] {
      var init, last := emissions[..|emissions| - 1], emissions[|emissions| - 1];
      FilterKeepsLogs(init, kakarot);
      var events := EmitAll(emissions, kakarot);
      assert events[..|events| - 1] == EmitAll(init, kakarot);
      if last.Log? {
        LogRoundTrip(last, kakarot, 0, text => text);
        assert (Logs(init) + [last])[..|Logs(init)|] == Logs(init);
      }
    }
  }

  lemma {:induction false} EmittedHaveKeys(logs: seq<Emission>, kakarot: nat)
    requires forall i :: 0 <= i < |logs| ==> logs[i].Log?
    ensures |EmitAll(logs, kakarot)| == |logs|
    ensures forall i :: 0 <= i < |logs| ==> EmitAll(logs, kakarot)[i].keys != []
  {
    if logs != [] {
      EmittedHaveKeys(logs[..|logs| - 1], kakarot);
    }
  }

  /** The receipt that a log stands for. */
  function ReceiptOf(log: Emission, logIndex: nat, checksum: Casing): LogReceipt
    requires log.Log?
  {
    LogReceipt(checksum("0x" + HexText(log.address)), log.data, logIndex, log.topics)
  }

  function ReceiptsFor(logs: seq<Emission>, checksum: Casing): (receipts: seq<LogReceipt>)
    requires forall i :: 0 <= i < |logs| ==> logs[i].Log?
    ensures |receipts| == |logs| && forall i :: 0 <= i < |logs| ==> receipts[i] == ReceiptOf(logs[i], i, checksum)
  {
    if logs == [] then []
    else ReceiptsFor(logs[..|logs| - 1], checksum) + [ReceiptOf(logs[|logs| - 1], |logs| - 1, checksum)]
  }

  lemma {:induction false} ReceiptsOfLogs(logs: seq<Emission>, kakarot: nat, checksum: Casing)
    requires forall i :: 0 <= i < |logs| ==> logs[i].Log? && WellFormed(logs[i], kakarot)
    requires forall i :: 0 <= i < |EmitAll(logs, kakarot)| ==> EmitAll(logs, kakarot)[i].keys != []
    ensures Receipts(EmitAll(logs, kakarot), checksum) == Ok(ReceiptsFor(logs, checksum))
  {
    if logs != [] {
      var n, init, last := |logs| - 1, logs[..|logs| - 1], logs[|logs| - 1];
      EmittedHaveKeys(init, kakarot);
      ReceiptsOfLogs(init, kakarot, checksum);
      LogRoundTrip(last, kakarot, n, checksum);
      var receipts, receipt := ReceiptsFor(init, checksum), ReceiptOf(last, n, checksum);
      ReceiptsSnoc(EmitAll(init, kakarot), Emit(last, kakarot), receipts, receipt, checksum);
    }
  }

  lemma {:induction false} ReceiptsSnoc(events: seq<Event>, event: Event, receipts: seq<LogReceipt>,
                                        receipt: LogReceipt, checksum: Casing)
    requires event.keys != [] && forall i :: 0 <= i < |events| ==> events[i].keys != []
    requires Receipts(events, checksum) == Ok(receipts) && Receipt(event, |events|, checksum) == Ok(receipt)
    ensures Receipts(events + [event], checksum) == Ok(receipts + [receipt])
  {
    assert (events + [event])[..|events|] == events;
  }

  /**
   For any mix of logs and other events, the receipts are those of the logs in emission order, with consecutive
   indices, their data and exactly their 32-byte topics.
   */
  lemma {:induction false} LogsRoundTrip(emissions: seq<Emission>, kakarot: nat, checksum: Casing)
    requires forall i :: 0 <= i < |emissions| ==> WellFormed(emissions[i], kakarot)
    ensures var result := GetLogReceipts(EmitAll(emissions, kakarot), kakarot, checksum); var logs := Logs(emissions);
      && result.Ok? && |result.value| == |logs|
      && forall i :: 0 <= i < |logs| ==> result.value[i] == ReceiptOf(logs[i], i, checksum)
  {
    FilterKeepsLogs(emissions, kakarot);
    EmittedHaveKeys(Logs(emissions), kakarot);
    ReceiptsOfLogs(Logs(emissions), kakarot, checksum);
  }

  // What raises.

  lemma {:induction false} AsBytesAt(data: seq<nat>, i: nat)
    requires AreBytes(data) && i < |data|
    ensures |AsBytes(data)| == |data| && AsBytes(data)[i] == data[i]
  {
    if |data| > 1 {
      AsBytesAt(data[1..], if i > 0 then i - 1 else 0);
    }
  }

  predicate IsKeyless(event: Event, kakarot: nat) {
    event.fromAddress == kakarot && event.keys == []
  }

  /** An event of the contract without any key raises, wherever it is. */
  lemma {:induction false} MissingFirstKeyRaises(events: seq<Event>, kakarot: nat)
    ensures KakarotEvents(events, kakarot).Err? <==> exists i :: 0 <= i < |events| && IsKeyless(events[i], kakarot)
    ensures KakarotEvents(events, kakarot).Err? ==> KakarotEvents(events, kakarot).error == IndexError
  {
    if events != [] {
      var n, init := |events| - 1, events[..|events| - 1];
      MissingFirstKeyRaises(init, kakarot);
      if i :| 0 <= i < n && IsKeyless(init[i], kakarot) {
        assert IsKeyless(events[i], kakarot);
      } else {
        assert forall i :: 0 <= i < n ==> !IsKeyless(init[i], kakarot) && events[i] == init[i];
        assert IsLog(events[n], kakarot).Err? <==> IsKeyless(events[n], kakarot);
      }
    }
  }

  /** Data that are no bytes raise a ValueError, whatever the keys. */
  lemma {:induction false} BadDataRaises(event: Event, logIndex: nat, checksum: Casing)
    requires event.keys != []
    ensures Receipt(event, logIndex, checksum) == Err(ValueError)
       <==> Topics(event.keys, 1) == Err(ValueError) || exists i :: 0 <= i < |event.data| && event.data[i] >= 256
  {
  }

  /** Halves of 128 bits make `n` topics, as long as no high half is missing. */
  lemma {:induction false} MissingHalfRaises(keys: seq<nat>, i: nat, n: nat)
    requires i + 2 * n <= |keys| <= i + 2 * n + 1
    requires forall j :: i <= j < |keys| ==> keys[j] < Uint256.TWO_128
    ensures if |keys| == i + 2 * n then Topics(keys, i).Ok? && |Topics(keys, i).value| == n
            else Topics(keys, i) == Err(IndexError)
    decreases n
  {
    if n > 0 {
      HalvesParse(keys[i], keys[i + 1]);
      MissingHalfRaises(keys, i + 2, n - 1);
    }
  }

  lemma {:induction false} HalvesParse(low: nat, high: nat)
    requires low < Uint256.TWO_128 && high < Uint256.TWO_128
    ensures FromHex(HexPad(low + Uint256.TWO_128 * high, 64)).Some?
  {
    var value := low + Uint256.TWO_128 * high;
    HalvesFit(low, high);
    HexPadIsBytes(value, 32);
    FromHexOfText(ToBigEndian(value, 32));
  }

  lemma {:induction false} HalvesFit(low: nat, high: nat)
    requires low < Uint256.TWO_128 && high < Uint256.TWO_128
    ensures low + Uint256.TWO_128 * high < Pow(256, 32)
  {
    Uint256.Pow256Of16();
    PowAdd(256, 16, 16);
    assert Pow(256, 32) == Uint256.TWO_128 * Uint256.TWO_128;
  }
}
