/** The init code that `store_bytecode` generates, run on an EVM with the instructions it uses. */
module InitCode {
  import opened Wrappers
  import opened Bytes
  import opened Hex

  const PUSH1 := "60"
  const PUSH2 := "61"
  const CODECOPY := "39"
  const RETURN := "f3"

  /** One line of the template, with its leading line break and indentation. */
  function Line(text: string): string {
    "\n    " + text
  }

  function InitText(bytecode: seq<Byte>): string {
    Line(PUSH2 + " " + HexPad(|bytecode|, 4)) +
    (Line(PUSH1 + " 0e") +
     (Line(PUSH1 + " 00") +
      (Line(CODECOPY) +
       (Line(PUSH2 + " " + HexPad(|bytecode|, 4)) +
        (Line(PUSH1 + " 00") +
         (Line(RETURN) + Line(HexText(bytecode))))))))
  }

  /** `deploy_bytecode`; `None` is the ValueError of `bytes.fromhex`. */
  function DeployBytecode(bytecode: seq<Byte>): Option<seq<Byte>> {
    FromHex(InitText(bytecode))
  }

  // A small EVM (Appendix H.2 of the Ethereum Yellow Paper).

  datatype Outcome = Returned(data: seq<Byte>) | Stopped | Failed

  /** How a run ended and the program counters it went through. */
  datatype Run = Run(outcome: Outcome, pcs: seq<nat>)

  const STACK_LIMIT := 1024

  /** Code, like memory, reads as zero past its end. */
  function ByteAt(bytes: seq<Byte>, i: nat): Byte {
    if i < |bytes| then bytes[i] else 0
  }

  function Read(bytes: seq<Byte>, offset: nat, len: nat): (data: seq<Byte>)
    ensures |data| == len
    ensures forall i :: 0 <= i < len ==> data[i] == ByteAt(bytes, offset + i)
  {
    seq<Byte>(len, i requires 0 <= i < len => ByteAt(bytes, offset + i))
  }

  function Write(memory: seq<Byte>, offset: nat, data: seq<Byte>): seq<Byte> {
    if data == [] then memory
    else
      var grown := if |memory| < offset + |data| then memory + Zeros(offset + |data| - |memory|) else memory;
      grown[..offset] + data + grown[offset + |data|..]
  }

  function Word(high: nat, low: nat): nat {
    256 * high + low
  }

  /** Execution from `pc`; the top of the stack comes first. */
  function Exec(code: seq<Byte>, pc: nat, stack: seq<nat>, memory: seq<Byte>): Run
    decreases |code| - pc
  {
    if pc >= |code| then Run(Stopped, [])
    else
      var opcode := code[pc];
      if opcode == 0x60 && |stack| < STACK_LIMIT then
        At(pc, Exec(code, pc + 2, [ByteAt(code, pc + 1)] + stack, memory))
      else if opcode == 0x61 && |stack| < STACK_LIMIT then
        At(pc, Exec(code, pc + 3, [Word(ByteAt(code, pc + 1), ByteAt(code, pc + 2))] + stack, memory))
      else if opcode == 0x39 && |stack| >= 3 then
        At(pc, Exec(code, pc + 1, stack[3..], Write(memory, stack[0], Read(code, stack[1], stack[2]))))
      else if opcode == 0xf3 && |stack| >= 2 then
        Run(Returned(Read(memory, stack[0], stack[1])), [pc])
      else if opcode == 0x00 then
        Run(Stopped, [pc])
      else
        Run(Failed, [pc])
  }

  function At(pc: nat, run: Run): Run {
    run.(pcs := [pc] + run.pcs)
  }

  // The generated program.

  /** The seven instructions in front of the payload. */
  function Header(n: nat): (header: seq<Byte>)
    requires n < 65536
    ensures |header| == 14
  {
    [0x61, n / 256, n % 256, 0x60, 0x0e, 0x60, 0x00, 0x39, 0x61, n / 256, n % 256, 0x60, 0x00, 0xf3]
  }

  lemma {:induction false} FromHexLine(text: string, rest: string)
    ensures FromHex(Line(text) + rest) == FromHex(text + rest)
  {
    FromHexBlank("\n    ", text + rest);
    assert Line(text) + rest == "\n    " + (text + rest);
  }

  lemma {:induction false} FromHexBlank(blank: string, rest: string)
    requires forall i :: 0 <= i < |blank| ==> IsSpace(blank[i])
    ensures FromHex(blank + rest) == FromHex(rest)
  {
    if blank == "" {
      assert blank + rest == rest;
    } else {
      FromHexBlank(blank[1..], rest);
      FromHexSpace(blank[0], blank[1..] + rest);
      assert blank + rest == [blank[0]] + (blank[1..] + rest);
    }
  }

  lemma {:induction false} FromHexSpace(c: char, rest: string)
    requires IsSpace(c)
    ensures FromHex([c] + rest) == FromHex(rest)
  {
    assert ([c] + rest)[1..] == rest;
  }

  /** A line that holds one opcode. */
  lemma {:induction false} FromHexOpcode(opcode: Byte, rest: string, tail: seq<Byte>)
    requires FromHex(rest) == Some(tail)
    ensures FromHex(Line(HexText([opcode])) + rest) == Some([opcode] + tail)
  {
    FromHexLine(HexText([opcode]), rest);
    FromHexText([opcode], rest);
  }

  /** A line that holds an opcode and its immediate bytes. */
  lemma {:induction false} FromHexInstruction(opcode: Byte, argument: seq<Byte>, rest: string, tail: seq<Byte>)
    requires FromHex(rest) == Some(tail)
    ensures FromHex(Line(HexText([opcode]) + " " + HexText(argument)) + rest) == Some([opcode] + (argument + tail))
  {
    var op, arg := HexText([opcode]), HexText(argument);
    FromHexLine(op + " " + arg, rest);
    assert op + " " + arg + rest == op + ([' '] + (arg + rest));
    FromHexText([opcode], [' '] + (arg + rest));
    FromHexSpace(' ', arg + rest);
    FromHexText(argument, rest);
  }

  lemma {:induction false} OneByteText(b: Byte)
    ensures HexText([b]) == [HexChar(b / 16), HexChar(b % 16)]
  {
    assert HexText([b][1..]) == "";
  }

  lemma {:induction false} Mnemonics()
    ensures HexText([0x60]) == PUSH1 && HexText([0x61]) == PUSH2
    ensures HexText([0x39]) == CODECOPY && HexText([0xf3]) == RETURN
  {
    OneByteText(0x60);
    OneByteText(0x61);
    OneByteText(0x39);
    OneByteText(0xf3);
  }

  lemma {:induction false} PushLines()
    ensures PUSH1 + " 0e" == HexText([0x60]) + " " + HexText([0x0e])
    ensures PUSH1 + " 00" == HexText([0x60]) + " " + HexText([0x00])
  {
    OneByteText(0x60);
    OneByteText(0x0e);
    OneByteText(0x00);
  }

  /** Two-byte lengths are written on exactly four digits. */
  lemma {:induction false} LengthDigits(n: nat)
    requires n < 65536
    ensures HexPad(n, 4) == HexText([n / 256, n % 256])
  {
    assert n < Pow(256, 2) by {
      assert Pow(256, 2) == 256 * Pow(256, 1) && Pow(256, 1) == 256 * Pow(256, 0);
    }
    HexPadIsBytes(n, 2);
    TwoBytes(n);
  }

  lemma {:induction false} TwoBytes(n: nat)
    requires n < 65536
    ensures ToBigEndian(n, 2) == [n / 256, n % 256]
  {
    var high: Byte := n / 256;
    assert ToBigEndian(high, 1) == ToBigEndian(high / 256, 0) + [high % 256] == [high];
    assert ToBigEndian(n, 2) == ToBigEndian(n / 256, 1) + [n % 256];
  }

  /** The template assembles to the header followed by the payload. */
  lemma {:induction false} DeployIsHeaderAndPayload(bytecode: seq<Byte>)
    requires |bytecode| < 65536
    ensures DeployBytecode(bytecode) == Some(Header(|bytecode|) + bytecode)
  {
    var n := |bytecode|;
    var size: seq<Byte> := [n / 256, n % 256];
    var tail := AssembleBack(bytecode, size);
    var back := Line(PUSH2 + " " + HexPad(n, 4)) + (Line(PUSH1 + " 00") + (Line(RETURN) + Line(HexText(bytecode))));
    LengthDigits(n);
    AssembleFront(size, HexPad(n, 4), back, tail);
    HeaderLayout(bytecode, size, tail);
  }

  lemma {:induction false} HeaderLayout(bytecode: seq<Byte>, size: seq<Byte>, tail: seq<Byte>)
    requires |bytecode| < 65536 && size == [|bytecode| / 256, |bytecode| % 256]
    requires tail == [0x61] + size + [0x60, 0x00, 0xf3] + bytecode
    ensures [0x61] + (size + ([0x60] + ([0x0e] + ([0x60] + ([0x00] + ([0x39] + tail))))))
        == Header(|bytecode|) + bytecode
  {
  }

  /** The lines after CODECOPY. */
  lemma {:induction false} AssembleBack(bytecode: seq<Byte>, size: seq<Byte>) returns (tail: seq<Byte>)
    requires |bytecode| < 65536 && size == [|bytecode| / 256, |bytecode| % 256]
    ensures tail == [0x61] + size + [0x60, 0x00, 0xf3] + bytecode
    ensures FromHex(Line(PUSH2 + " " + HexPad(|bytecode|, 4))
      + (Line(PUSH1 + " 00") + (Line(RETURN) + Line(HexText(bytecode))))) == Some(tail)
  {
    LengthDigits(|bytecode|);
    Mnemonics();
    AssembleOffset(bytecode);
    var end := Line(RETURN) + Line(HexText(bytecode));
    FromHexInstruction(0x61, size, Line(PUSH1 + " 00") + end, [0x60, 0x00, 0xf3] + bytecode);
    tail := [0x61] + (size + ([0x60, 0x00, 0xf3] + bytecode));
    assert tail == [0x61] + size + [0x60, 0x00, 0xf3] + bytecode;
  }

  lemma {:induction false} AssembleOffset(bytecode: seq<Byte>)
    ensures FromHex(Line(PUSH1 + " 00") + (Line(RETURN) + Line(HexText(bytecode))))
        == Some([0x60, 0x00, 0xf3] + bytecode)
  {
    PushLines();
    AssembleReturn(bytecode);
    FromHexInstruction(0x60, [0x00], Line(RETURN) + Line(HexText(bytecode)), [0xf3] + bytecode);
    assert [0x60] + ([0x00] + ([0xf3] + bytecode)) == [0x60, 0x00, 0xf3] + bytecode;
  }

  lemma {:induction false} AssembleReturn(bytecode: seq<Byte>)
    ensures FromHex(Line(RETURN) + Line(HexText(bytecode))) == Some([0xf3] + bytecode)
  {
    var payload := Line(HexText(bytecode));
    FromHexLine(HexText(bytecode), "");
    assert payload + "" == payload && HexText(bytecode) + "" == HexText(bytecode);
    FromHexOfText(bytecode);
    Mnemonics();
    FromHexOpcode(0xf3, payload, bytecode);
  }

  /** The lines up to CODECOPY. */
  lemma {:induction false} AssembleFront(size: seq<Byte>, digits: string, back: string, tail: seq<Byte>)
    requires FromHex(back) == Some(tail) && digits == HexText(size)
    ensures FromHex(Line(PUSH2 + " " + digits)
        + (Line(PUSH1 + " 0e") + (Line(PUSH1 + " 00") + (Line(CODECOPY) + back))))
         == Some([0x61] + (size + ([0x60] + ([0x0e] + ([0x60] + ([0x00] + ([0x39] + tail)))))))
  {
    Mnemonics();
    PushLines();
    FromHexOpcode(0x39, back, tail);
    var t3, b3 := Line(CODECOPY) + back, [0x39] + tail;
    FromHexInstruction(0x60, [0x00], t3, b3);
    var t2, b2 := Line(PUSH1 + " 00") + t3, [0x60] + ([0x00] + b3);
    FromHexInstruction(0x60, [0x0e], t2, b2);
    var t1, b1 := Line(PUSH1 + " 0e") + t2, [0x60] + ([0x0e] + b2);
    FromHexInstruction(0x61, size, t1, b1);
  }

  /** The payload starts at the hard-coded offset 0x0e. */
  lemma {:induction false} PayloadIsAtOffset(bytecode: seq<Byte>)
    requires |bytecode| < 65536
    ensures Read(Header(|bytecode|) + bytecode, 0x0e, |bytecode|) == bytecode
  {
    var code := Header(|bytecode|) + bytecode;
    assert forall i :: 0 <= i < |bytecode| ==> ByteAt(code, 14 + i) == bytecode[i];
  }

  /** A push onto 1024 values fails. */
  lemma {:induction false} FullStackFails(code: seq<Byte>, stack: seq<nat>, memory: seq<Byte>)
    requires code != [] && (code[0] == 0x60 || code[0] == 0x61) && |stack| >= 1024
    ensures Exec(code, 0, stack, memory) == Run(Failed, [0])
  {
  }

  /** Memory reads what was written last, and zero where nothing was. */
  lemma {:induction false} WrittenAt(memory: seq<Byte>, offset: nat, data: seq<Byte>, i: nat)
    ensures ByteAt(Write(memory, offset, data), i)
         == if offset <= i < offset + |data| then data[i - offset] else ByteAt(memory, i)
  {
  }

  lemma {:induction false} WriteThenRead(data: seq<Byte>)
    ensures Read(Write([], 0, data), 0, |data|) == data
  {
    if data != [] {
      assert Write([], 0, data) == data;
    }
  }

  lemma {:induction false} StepPush1(code: seq<Byte>, pc: nat, stack: seq<nat>, memory: seq<Byte>, run: Run)
    requires pc + 1 < |code| && code[pc] == 0x60 && |stack| < 1024
    requires Exec(code, pc + 2, [code[pc + 1]] + stack, memory) == run
    ensures Exec(code, pc, stack, memory) == At(pc, run)
  {
  }

  lemma {:induction false} StepPush2(code: seq<Byte>, pc: nat, stack: seq<nat>, memory: seq<Byte>, run: Run)
    requires pc + 2 < |code| && code[pc] == 0x61 && |stack| < 1024
    requires Exec(code, pc + 3, [Word(code[pc + 1], code[pc + 2])] + stack, memory) == run
    ensures Exec(code, pc, stack, memory) == At(pc, run)
  {
  }

  lemma {:induction false} StepCodecopy(code: seq<Byte>, pc: nat, dest: nat, offset: nat, len: nat, run: Run)
    requires pc < |code| && code[pc] == 0x39
    requires Exec(code, pc + 1, [], Write([], dest, Read(code, offset, len))) == run
    ensures Exec(code, pc, [dest, offset, len], []) == At(pc, run)
  {
    assert [dest, offset, len][3..] == [];
  }

  /** The bytes of a program that starts with the header. */
  predicate StartsWithHeader(code: seq<Byte>, n: nat) {
    && 14 <= |code| && n < 65536
    && code[0] == 0x61 && Word(code[1], code[2]) == n
    && code[3] == 0x60 && code[4] == 0x0e
    && code[5] == 0x60 && code[6] == 0x00
    && code[7] == 0x39
    && code[8] == 0x61 && Word(code[9], code[10]) == n
    && code[11] == 0x60 && code[12] == 0x00
    && code[13] == 0xf3
  }

  lemma {:induction false} HeaderStarts(bytecode: seq<Byte>)
    requires |bytecode| < 65536
    ensures StartsWithHeader(Header(|bytecode|) + bytecode, |bytecode|)
  {
  }

  /** What follows CODECOPY returns the first `n` bytes of memory. */
  lemma {:induction false} BackReturns(code: seq<Byte>, n: nat, memory: seq<Byte>)
    requires StartsWithHeader(code, n)
    ensures Exec(code, 8, [], memory) == At(8, At(11, Run(Returned(Read(memory, 0, n)), [13])))
  {
    var r13 := Run(Returned(Read(memory, 0, n)), [13]);
    assert Exec(code, 13, [0, n], memory) == r13;
    assert [0] + [n] == [0, n] && [n] + [] == [n];
    StepPush1(code, 11, [n], memory, r13);
    StepPush2(code, 8, [], memory, At(11, r13));
  }

  /** What precedes CODECOPY, and CODECOPY itself, loads `n` bytes of code from offset 0x0e. */
  lemma {:induction false} FrontCopies(code: seq<Byte>, n: nat, run: Run)
    requires StartsWithHeader(code, n)
    requires Exec(code, 8, [], Write([], 0, Read(code, 0x0e, n))) == run
    ensures Exec(code, 0, [], []) == At(0, At(3, At(5, At(7, run))))
  {
    OffsetCopies(code, n, run);
    assert [n] + [] == [n];
    StepPush2(code, 0, [], [], At(3, At(5, At(7, run))));
  }

  lemma {:induction false} OffsetCopies(code: seq<Byte>, n: nat, run: Run)
    requires StartsWithHeader(code, n)
    requires Exec(code, 8, [], Write([], 0, Read(code, 0x0e, n))) == run
    ensures Exec(code, 3, [n], []) == At(3, At(5, At(7, run)))
  {
    MiddleCopies(code, n, run);
    assert [14] + [n] == [14, n];
    StepPush1(code, 3, [n], [], At(5, At(7, run)));
  }

  lemma {:induction false} MiddleCopies(code: seq<Byte>, n: nat, run: Run)
    requires StartsWithHeader(code, n)
    requires Exec(code, 8, [], Write([], 0, Read(code, 0x0e, n))) == run
    ensures Exec(code, 5, [14, n], []) == At(5, At(7, run))
  {
    StepCodecopy(code, 7, 0, 14, n, run);
    assert [0] + [14, n] == [0, 14, n];
    StepPush1(code, 5, [14, n], [], At(7, run));
  }

  /** A program that starts with the header returns what follows it, having executed the header only. */
  lemma {:induction false} HeaderReturns(code: seq<Byte>, payload: seq<Byte>)
    requires StartsWithHeader(code, |payload|)
    requires Read(code, 0x0e, |payload|) == payload
    ensures Exec(code, 0, [], []) == Run(Returned(payload), [0, 3, 5, 7, 8, 11, 13])
  {
    WriteThenRead(payload);
    BackReturns(code, |payload|, Write([], 0, payload));
    FrontCopies(code, |payload|, At(8, At(11, Run(Returned(payload), [13]))));
    AllPcs(Returned(payload));
  }

  lemma {:induction false} AllPcs(outcome: Outcome)
    ensures At(0, At(3, At(5, At(7, At(8, At(11, Run(outcome, [13]))))))) == Run(outcome, [0, 3, 5, 7, 8, 11, 13])
  {
    assert [0] + ([3] + ([5] + ([7] + ([8] + ([11] + [13]))))) == [0, 3, 5, 7, 8, 11, 13];
  }

  lemma {:induction false} HeaderReturnsPayload(bytecode: seq<Byte>)
    requires |bytecode| < 65536
    ensures Exec(Header(|bytecode|) + bytecode, 0, [], []) == Run(Returned(bytecode), [0, 3, 5, 7, 8, 11, 13])
  {
    HeaderStarts(bytecode);
    PayloadIsAtOffset(bytecode);
    HeaderReturns(Header(|bytecode|) + bytecode, bytecode);
  }

  /** A stack filled by two-byte pushes cannot ask for 65536 bytes of return data. */
  lemma {:induction false} ReturnDataIsBounded(code: seq<Byte>, pc: nat, stack: seq<nat>, memory: seq<Byte>)
    requires forall i :: 0 <= i < |stack| ==> stack[i] < 65536
    ensures Exec(code, pc, stack, memory).outcome.Returned? ==> |Exec(code, pc, stack, memory).outcome.data| < 65536
    decreases |code| - pc
  {
    if pc >= |code| {
    } else if code[pc] == 0x60 && |stack| < STACK_LIMIT {
      ReturnDataIsBounded(code, pc + 2, [ByteAt(code, pc + 1)] + stack, memory);
    } else if code[pc] == 0x61 && |stack| < STACK_LIMIT {
      ReturnDataIsBounded(code, pc + 3, [Word(ByteAt(code, pc + 1), ByteAt(code, pc + 2))] + stack, memory);
    } else if code[pc] == 0x39 && |stack| >= 3 {
      ReturnDataIsBounded(code, pc + 1, stack[3..], Write(memory, stack[0], Read(code, stack[1], stack[2])));
    }
  }

  ghost predicate Deploys(bytecode: seq<Byte>) {
    match DeployBytecode(bytecode)
    case None => false
    case Some(code) => Exec(code, 0, [], []).outcome == Returned(bytecode)
  }

  /** The generated program deploys its payload exactly when the payload has a two-byte length. */
  lemma {:induction false} InitCodeDeploysPayload(bytecode: seq<Byte>)
    ensures Deploys(bytecode) <==> |bytecode| < 65536
  {
    if |bytecode| < 65536 {
      DeployIsHeaderAndPayload(bytecode);
      HeaderReturnsPayload(bytecode);
    } else {
      match DeployBytecode(bytecode) {
        case None =>
        case Some(code) => ReturnDataIsBounded(code, 0, [], []);
      }
    }
  }

  /** No byte of the payload is ever executed. */
  lemma {:induction false} PayloadIsNeverExecuted(bytecode: seq<Byte>)
    requires |bytecode| < 65536
    ensures DeployBytecode(bytecode).Some?
    ensures var code := DeployBytecode(bytecode).value; var header := |code| - |bytecode|;
      header == 0x0e && code[header..] == bytecode &&
      forall i :: 0 <= i < |Exec(code, 0, [], []).pcs| ==> Exec(code, 0, [], []).pcs[i] < header
  {
    DeployIsHeaderAndPayload(bytecode);
    HeaderReturnsPayload(bytecode);
  }

  lemma {:induction false} HexOfAllHex(n: nat)
    ensures AllHex(HexOf(n))
  {
    DigitOfHexChar(n % 16);
    if n >= 16 {
      HexOfAllHex(n / 16);
    }
  }

  /** An odd number of digits in front of white space is rejected. */
  lemma {:induction false} OddDigitsAreRejected(text: string, rest: string)
    requires AllHex(text) && |text| % 2 == 1
    requires rest != "" && !IsHex(rest[0])
    ensures FromHex(text + rest) == None
  {
    var s := text + rest;
    assert s[0] == text[0];
    if |text| == 1 {
      assert s[1] == rest[0];
    } else {
      assert s[2..] == text[2..] + rest;
      OddDigitsAreRejected(text[2..], rest);
    }
  }

  /** Lengths written on five digits never reach the EVM: `bytes.fromhex` raises. */
  lemma {:induction false} FiveDigitLengthsAreRejected(bytecode: seq<Byte>)
    requires 0x10000 <= |bytecode| < 0x100000
    ensures DeployBytecode(bytecode) == None
  {
    var n := |bytecode|;
    var digits := HexPad(n, 4);
    assert Pow(16, 4) <= n < Pow(16, 5) by {
      PowAdd(16, 2, 2);
      PowAdd(16, 4, 1);
      assert Pow(16, 1) == 16 * Pow(16, 0) && Pow(16, 2) == 16 * Pow(16, 1);
    }
    HexOfLength(n, 4);
    HexPadIsFixed(n, 5);
    assert digits == HexOf(n) && |digits| == 5;
    HexOfAllHex(n);
    var back := Line(CODECOPY)
        + (Line(PUSH2 + " " + digits) + (Line(PUSH1 + " 00") + (Line(RETURN) + Line(HexText(bytecode)))));
    var rest := Line(PUSH1 + " 0e") + (Line(PUSH1 + " 00") + back);
    assert InitText(bytecode) == Line(PUSH2 + " " + digits) + rest;
    assert rest[0] == '\n';
    OddDigitsAreRejected(digits, rest);
    RejectedLine(digits, rest);
  }

  lemma {:induction false} RejectedLine(digits: string, rest: string)
    requires FromHex(digits + rest) == None
    ensures FromHex(Line(PUSH2 + " " + digits) + rest) == None
  {
    Mnemonics();
    FromHexLine(PUSH2 + " " + digits, rest);
    assert PUSH2 + " " + digits + rest == HexText([0x61]) + ([' '] + (digits + rest));
    FromHexText([0x61], [' '] + (digits + rest));
    FromHexSpace(' ', digits + rest);
  }
}
