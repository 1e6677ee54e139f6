# Kakarot client, code generation and test tooling: a verified model

Kakarot runs an EVM on Starknet. This project models the Python code around that EVM and proves what the code is
relied on for. Four clusters are covered, one Dafny module per component:

- **The transaction client.** `Nonces` is the per-account nonce cache (bounded polling, resynchronisation,
  rollback) run against a network that moves on its own. `LazyQueue` is the queue of lazy accounts and its flush.
  `Relayers` funds, rotates and drains the relayer pool through that queue; `Erc20` is the token ledger behind it.
- **Code generation and linking.** `InitCode` assembles the init code from its text template and runs it on a small
  EVM. `Linker` patches library placeholders by replacing text everywhere; `LinkerExamples` shows at 20 bytes what its
  conditions are needed for.
- **Memory and trees.** `MemoryDecoders` has two decoders of one dict access log; `RlpTree` rebuilds nested items
  from segmented memory.
- **Wire codecs and accounting.** `Modexp`, `AccessLists`, `Calldata`, `WordStreams`, `Uint256`, `LogTopics`, and
  `Coverage` for line coverage over runs. `Bytes`, `Hex` and `Wrappers` hold what they share: big- and little-endian
  numbers, `bytes.fromhex`, `:0Nx` formatting, `Option` and `Result`.

Code that updates state is a class or a method proved against a function of the old state; the main results are
lemmas about these functions, over all inputs or all runs. Exceptions are values (`None` or `Err`). Hash functions,
storage addresses, checksum casing, `int(text, 16)` of access list entries and the modexp gas schedule are arbitrary
functions, passed as parameters. An `await` is an atomic step of one sequential client.

## What the code does not promise

These natural readings of the code fail. A lemma marked *example* gives concrete inputs; the other lemmas named here
say, for all inputs, exactly when the reading holds, or which family of inputs breaks it.

- *Placeholders that contain a non-hexadecimal character, differ between libraries and occur at references only are
  safe to replace.* They are not: the end of one address and the text behind it can spell the next placeholder,
  whatever the addresses (*example* `LinkerExamples.UndelimitedPlaceholderIsLost`). What matters is the text that a
  step meets, the compiler's text with the addresses of earlier placeholders in it. Linking is correct when each
  placeholder occurs at references only there, and only then unless an occurrence elsewhere cuts into a reference
  (`Linker.LinkingIsCorrect`); such a cut may be harmless (*example* `LinkerExamples.CutCanBeHarmless`).
  Placeholders that start and end with a non-hexadecimal character, as the compiler's `__$...$__` do, cannot be
  spelled by addresses, so for them the compiler's text alone decides (`Linker.DelimitedLinkingIsCorrect`).
- *One placeholder for two addresses loses one of them.* Usually (*example*
  `LinkerExamples.SharedPlaceholderIsLost`), but misaligned replacements can cancel out (*example*
  `LinkerExamples.DisagreementCanCancel`).
- *A flush sends each call once.* A flush that raises in the middle clears nothing, and the next flush sends the
  first slots again. What the client took on is neither lost nor sent twice exactly when no flush raised after
  having sent a call (`LazyQueue.NothingTakenIsLostOrDuplicated`). An invocation that raises loses its calls:
  counting these too, nothing is lost or sent twice at any point exactly when, in addition, no invocation that
  brought a call raised (`LazyQueue.NothingIsLostOrDuplicated`). The end of a run alone does not tell, since a lost
  call can hide one sent twice (*example* `LazyQueue.LostCallHidesDuplicate`).
- *Calls run in the order they were issued.* Queued calls do, exactly as long as no flush that raised had sent one
  of them (`LazyQueue.QueuedCallsRunInIssueOrder`). All calls do exactly when, in addition, nothing that is sent at
  once overtakes a pending call (`LazyQueue.CallsRunInIssueOrder`). Over several accounts, a flush groups calls by
  account (`LazyQueue.LazyRunMatchesEagerRun`).
- *Accepted nonces of an account increase.* They need not, even though every request takes the network's nonce: when
  the client gives up a submission whose transaction is still pending, the next request can give the same nonce out
  again (`Nonces.LaggingNetworkReusesNonce`), and a network that does not compare nonces can accept both (*example*
  `Nonces.UncheckedNetworkAcceptsTwice`). The submission given up is the cause: without one, nonces increase on
  every network whose nonces never decrease (`Nonces.AwaitedNoncesIncrease`), and after one the network can always
  continue so that they do not (`Nonces.PendingCanBreakOrder`). When nobody else uses the accounts, they increase
  exactly when each transaction was accepted at the account's nonce, as a network that compares nonces demands
  (`Nonces.OrderIsNonceChecking`).
- *Funding checks that the sender can pay.* It checks single shortfalls only, so the batch may still revert as a
  whole (`Relayers.FundingIsExact`).
- *Funding and draining leave the main account as it was.* When a check or the sending of the batch raises, the
  account stays lazy with the transfers pending, and a later flush sends them (`Relayers.RaisedFundingStaysLazy`,
  `Relayers.WithdrawalDrainsPool`).
- *Init code exists for every bytecode.* The template writes the length on four digits: from 65536 bytes on, either
  `bytes.fromhex` raises or the program does not return its payload (`InitCode.InitCodeDeploysPayload`).
- *The two memory decoders agree.* Slice assignment past the end extends the list, so they agree exactly when all
  keys are inside memory (`MemoryDecoders.DecodersAgree`).
- *Rebuilding a tree ends.* It exhausts any recursion limit exactly when the list lies on or leads to a cycle of
  lists (`RlpTree.CyclicMemoryIsTooDeep`).
- *Merging gives one entry per account.* Entries are merged by the spelling of the address; one account spelled in
  two ways keeps two entries (`AccessLists.OneEntryPerAccount`).

## Model

| member | source | states |
|---|---|---|
| Linker.ProcessBytecode | kakarot_scripts/utils/kakarot.py:298-318 | The nested loops over libraries and references compute the step-by-step specification `LinkSteps` on the object without its `0x`, every step reading text that the earlier steps patched |
| Linker.ProcessLibrary | kakarot_scripts/utils/kakarot.py:307-312 | The inner loop appends one library's steps to those already done |
| Linker.LinkingIsCorrect | kakarot_scripts/utils/kakarot.py:298-318 | For disjoint references to hexadecimal addresses and placeholders that contain another character and stand for one address each: if every placeholder occurs at references only in the text its step meets (the compiler's text with the addresses of earlier placeholders), the result keeps its length, reads every address at its reference and is otherwise unchanged; and only if, unless an occurrence elsewhere cuts into a reference |
| Linker.DelimitedLinkingIsCorrect | kakarot_scripts/utils/kakarot.py:298-318 | With placeholders that start and end with a character that is not hexadecimal and straddle no reference edge, linking is correct if and only if placeholders occur at references only in the compiler's text |
| Linker.LibrariesAreLinked | kakarot_scripts/utils/kakarot.py:303-312 | The same in terms of libraries: each reference of each library reads, in lower case, the digits of that library's address behind the `0x`, and all other code is the compiler's, when, and but for cuts only when, every placeholder occurs at references only in the text its step meets |
| Linker.PlainAddressSpells | kakarot_scripts/utils/kakarot.py:310-312 | The text written for a library is the address without `0x`, digit by digit, in lower case |
| Linker.SliceAt | kakarot_scripts/utils/kakarot.py:309 | A slice has the characters from its start on, before its end and the end of the text |
| Linker.HitsApart | kakarot_scripts/utils/kakarot.py:310-312 | The replaced occurrences do not overlap |
| Linker.HitFor | kakarot_scripts/utils/kakarot.py:310-312 | Every occurrence is replaced, or overlapped from the left by one that is |
| Linker.ReplaceWrites | kakarot_scripts/utils/kakarot.py:310-312 | A replacement of equal width writes the value at its hits and changes nothing else |
| Linker.InterleaveSnoc | kakarot_scripts/utils/kakarot.py:310-312 | Replacing an empty placeholder puts the address before each character and at the end |
| Linker.RunProgresses | kakarot_scripts/utils/kakarot.py:307-312 | After any number of steps, either exactly the references whose placeholder was met are linked, or one step met a placeholder astray and, unless it cuts into a reference, the text is damaged |
| Linker.StepCompletes | kakarot_scripts/utils/kakarot.py:308-312 | One replace-everywhere step on patched text finishes all references that share its placeholder and touches nothing else |
| Linker.OccurrenceIsOriginal | kakarot_scripts/utils/kakarot.py:310-312 | Written addresses never create, nor take part in, an occurrence of a delimited placeholder |
| Linker.DamageStays | kakarot_scripts/utils/kakarot.py:310-312 | Code overwritten at a stray placeholder is not restored by any later step |
| LinkerExamples.UndelimitedPlaceholderIsLost | kakarot_scripts/utils/kakarot.py:307-312 | For any two addresses, a bytecode whose two placeholders differ, contain a non-hexadecimal character and occur at references only, and which is still linked wrongly |
| LinkerExamples.SharedPlaceholderIsLost | kakarot_scripts/utils/kakarot.py:307-312 | Two libraries with one placeholder, any, and two addresses, any, both end up with the second address |
| LinkerExamples.DisagreementCanCancel | kakarot_scripts/utils/kakarot.py:307-312 | Three libraries, one placeholder and two addresses that are nevertheless linked right, since misaligned replacements cancel out: agreement is sufficient, not necessary |
| LinkerExamples.CutCanBeHarmless | kakarot_scripts/utils/kakarot.py:307-312 | For any second address, a bytecode in which an occurrence of the first placeholder cuts into the second reference and which is nevertheless linked right: the exception in the equivalence is needed |
| InitCode.InitCodeDeploysPayload | kakarot_scripts/utils/kakarot.py:880-890 | The generated program returns exactly the bytecode if and only if the bytecode is shorter than 65536 bytes |
| InitCode.DeployIsHeaderAndPayload | kakarot_scripts/utils/kakarot.py:880-890 | `bytes.fromhex` of the text template, white space included, is the 14-byte header followed by the bytecode |
| InitCode.HeaderReturnsPayload | kakarot_scripts/utils/kakarot.py:867-890 | Running header and payload visits the seven header instructions and halts at RETURN with the payload |
| InitCode.PayloadIsNeverExecuted | kakarot_scripts/utils/kakarot.py:872-890 | No visited program counter lies in the payload, and the hard-coded offset 0x0e is where the payload begins |
| InitCode.ReturnDataIsBounded | kakarot_scripts/utils/kakarot.py:867-890 | No program of the small EVM, whatever its bytes, returns 65536 bytes or more, since its stack is filled by two-byte pushes |
| InitCode.WrittenAt | kakarot_scripts/utils/kakarot.py:878-879 | Memory of the small EVM reads what was copied last, and zero where nothing was |
| InitCode.FiveDigitLengthsAreRejected | kakarot_scripts/utils/kakarot.py:882-886 | A length written on five digits makes the template an odd run of digits, which raises |
| Nonces.NonceCache.GetNonce | kakarot_scripts/utils/starknet.py:632-655 | On every exit path the result is the last polled nonce, the cache is that plus one, other accounts are untouched and at most 12 polls happen |
| Nonces.RequestEndsAtMatch | kakarot_scripts/utils/starknet.py:632-651 | A request polls until the first answer equal to the cached nonce, or to the first answer of all when none is cached, and for ten retries at most |
| Nonces.NonceCache.Rollback | kakarot_scripts/utils/starknet.py:835-838 | A rejection lowers the account's cached nonce by one and nothing else; an unknown account raises |
| Nonces.CacheChanges | kakarot_scripts/utils/starknet.py:632-655 | In any step the cache changes only for the account whose request is answered, and by one for the account whose rejection is observed |
| Nonces.LastPollIsFirstMatch | kakarot_scripts/utils/kakarot.py:96-116 | The wait ends at the first answer equal to the expected nonce, or at the last retry |
| Nonces.PollsRefineGetNonce | kakarot_scripts/utils/kakarot.py:67-126 | The poll-by-poll client of the state machine takes as many polls as the loop and ends with its nonce and its cache |
| Nonces.LaggingNetworkReusesNonce | kakarot_scripts/utils/starknet.py:637-655 | In any run, while the network stays behind the cache, a request spends all its retries and gives out the network's nonce, although a transaction was sent with it before |
| Nonces.FailedSendingWaits | kakarot_scripts/utils/starknet.py:653-686 | A nonce that was taken but could not be sent is not rolled back: while the network does not move, the next request spends all its retries and gives out the same nonce |
| Nonces.RunIsSafe | kakarot_scripts/utils/starknet.py:632-655 | In every run, nonces of sent transactions do not exceed the network nonce of their account, never decrease, and lie below it once accepted, through timeouts, failed sendings, resyncs and rollbacks |
| Nonces.NoAcceptedNonceIsReissued | kakarot_scripts/utils/starknet.py:632-655 | In every run, a request gives out the network's nonce, at least every nonce given before and more than every accepted one |
| Nonces.AcceptedNoncesIncrease | kakarot_scripts/utils/starknet.py:825-840 | On a network that accepts a transaction only at its account's nonce, accepted transactions carry strictly increasing nonces in submission order, in every run, submissions given up included |
| Nonces.AwaitedNoncesIncrease | kakarot_scripts/utils/starknet.py:825-840 | On every network whose nonces never decrease, with other users of the accounts, the same holds in every run in which the client gives up no submission whose transaction is pending |
| Nonces.RunIsAwaited | kakarot_scripts/utils/starknet.py:632-655 | In such a run only the last transaction can be pending, and its nonce, like one that is held, lies above all accepted ones of its account |
| Nonces.PendingCanBreakOrder | kakarot_scripts/utils/starknet.py:825-840 | Waiting is needed: every run in which the client is done with a transaction that is still pending has a continuation in which accepted nonces of its account do not increase |
| Nonces.OrderIsNonceChecking | kakarot_scripts/utils/starknet.py:632-655 | Without other users of the accounts, accepted nonces increase if and only if a network that compares nonces would have allowed the same run |
| Nonces.UncheckedNetworkAcceptsTwice | kakarot_scripts/utils/starknet.py:825-840 | A concrete run with a submission given up in which a network that does not compare nonces accepts nonce 0 twice |
| Nonces.RunSettles | kakarot_scripts/utils/kakarot.py:795-797 | When every submission settles before the next, the cache runs ahead of the network only by the transaction under way |
| Nonces.CacheMatchesNetworkBetweenSubmissions | kakarot_scripts/utils/kakarot.py:67-126 | In such a run the cache equals the network nonce between submissions, so the next request needs one poll |
| LazyQueue.Client.RegisterLazyAccount | kakarot_scripts/utils/starknet.py:594-595 | Marks the address and leaves queue and sent transactions alone |
| LazyQueue.Client.RemoveLazyAccount | kakarot_scripts/utils/starknet.py:598-599 | Unmarks the address; its queued calls stay queued |
| LazyQueue.Client.ExecuteV1 | kakarot_scripts/utils/starknet.py:606-618 | Queues the calls of a lazy account behind its earlier ones, sends those of any other account at once, or sends nothing when the transaction raises |
| LazyQueue.Client.ExecuteCalls | kakarot_scripts/utils/starknet.py:621-629 | Sends each slot as one transaction even while its account is lazy; the queue is cleared when all went through and kept whole when one raised |
| LazyQueue.Perform | kakarot_scripts/utils/starknet.py:594-629 | The events of a run are calls of the client: each has the effect of its method |
| LazyQueue.SlotKeepsPlace | kakarot_scripts/utils/starknet.py:613 | An account that queues again keeps its place in the queue; a new account goes last |
| LazyQueue.NothingIsLostOrDuplicated | kakarot_scripts/utils/starknet.py:594-629 | At every point of any interleaving of invocations, registrations, removals and flushes, issued calls equal sent plus pending calls per account as multisets, if and only if no flush raised after having sent a call and no invocation that brought a call raised |
| LazyQueue.NothingTakenIsLostOrDuplicated | kakarot_scripts/utils/starknet.py:594-629 | At the end of any interleaving, the calls of all invocations that did not raise equal sent plus pending calls per account as multisets, if and only if no flush raised after having sent a call |
| LazyQueue.LostCallHidesDuplicate | kakarot_scripts/utils/starknet.py:594-629 | A concrete run in which a call lost by a raising invocation makes up for the same call sent twice |
| LazyQueue.FlushConserves | kakarot_scripts/utils/starknet.py:621-629 | One flush keeps that balance if and only if it does not raise, or raises before any call was sent |
| LazyQueue.SurplusNeverShrinks | kakarot_scripts/utils/starknet.py:606-629 | No later operation takes back a call that was sent twice |
| LazyQueue.InvokeOrder | kakarot_scripts/utils/starknet.py:606-618 | An invocation keeps issue order if and only if it is queued, or commutes with what its account has pending |
| LazyQueue.CallsRunInIssueOrder | kakarot_scripts/utils/starknet.py:594-629 | At every point of any interleaving, an account's sent and then pending calls are its calls in issue order, if and only if none sent at once overtakes a pending one it does not commute with and no raising flush had sent one |
| LazyQueue.QueuedCallsRunInIssueOrder | kakarot_scripts/utils/starknet.py:606-629 | In any interleaving, whatever is sent at once in between, an account's flushed and then pending calls are its queued calls, once each and in issue order, if and only if no raising flush had sent one |
| LazyQueue.HarmlessRunsKeepQueueOrder | kakarot_scripts/utils/starknet.py:606-629 | The queued calls of all accounts do so if and only if no flush raised after having sent a call |
| LazyQueue.LazyRunMatchesEagerRun | kakarot_scripts/utils/starknet.py:606-629 | Lazy until one flush sends, per account, the calls of the eager run in order; over all accounts, when every invocation brings a call, the sequence is the same if and only if the eager run does not interleave accounts |
| Erc20.TransactKeepsSupply | kakarot_scripts/utils/starknet.py:222-229 | No transaction of queued transfers, run or reverted, changes the total supply |
| Erc20.TransferFromMeans | kakarot_scripts/utils/starknet.py:977-985 | A transfer on behalf of an owner fails exactly on a missing balance or allowance; it moves the amount, uses up an allowance that is not infinite, and affects nothing else |
| Erc20.TransferMeans | kakarot_scripts/utils/starknet.py:222-229 | A transfer fails exactly on a missing balance; it moves the amount and affects nothing else |
| Relayers.RelayerPool.Next | kakarot_scripts/utils/starknet.py:934-937 | Hands out the account at the index and advances it modulo the pool; an empty pool raises |
| Relayers.RelayerPool.NextMany | kakarot_scripts/utils/starknet.py:934-937 | The j-th of k successive calls of `__next__` returns the account at (start + j) modulo the pool size, through the positions `IndexAfter` |
| Relayers.RelayerPool.Withdraw | kakarot_scripts/utils/starknet.py:967-987 | The method moves the client from any state, with a flush that may raise, to the state `WithdrawAll` |
| Relayers.RelayerPool.QueueWithdrawals | kakarot_scripts/utils/starknet.py:972-985 | Balances are read before the flush; exactly the relayers with a balance get a transfer of all of it |
| Relayers.WithdrawalDrainsPool | kakarot_scripts/utils/starknet.py:967-987 | From an empty queue, withdrawing empties all relayers and gives the target exactly the sum if and only if each relayer with a balance is listed once and approved it and sending does not raise; otherwise no balance moves; supply is kept; laziness is restored unless sending raises, when the account stays lazy with the batch pending |
| Relayers.DrainCallsRun | kakarot_scripts/utils/starknet.py:972-985 | The queued withdrawals run through exactly when the pool is drainable |
| Relayers.CreateFunding | kakarot_scripts/utils/starknet.py:880-896 | The funding phase, with the default amount and outside devnet, moves the client from any state to the state `FundAll`, both when a ValueError ends it and when the flush raises |
| Relayers.QueueFunding | kakarot_scripts/utils/starknet.py:887-893 | The loop queues the specified transfers and stops at the first address whose shortfall alone exceeds the sender's balance |
| Relayers.FundingIsExact | kakarot_scripts/utils/starknet.py:880-896 | Each address ends at the larger of its balance and the amount, paid by the sender alone, if and only if the sender holds the sum of the shortfalls and sending does not raise; then a second pass queues nothing; otherwise no balance moves; supply is kept |
| Relayers.FundingRuns | kakarot_scripts/utils/starknet.py:207-229 | The transfers queued from balances read up front all run exactly when the sender can pay for all of them |
| Relayers.MissingTopsUp | kakarot_scripts/utils/starknet.py:209-217 | What is missing brings a balance to the larger of itself and the amount |
| Relayers.RaisedFundingStaysLazy | kakarot_scripts/utils/starknet.py:880-896 | A ValueError or an exception of the flush sends nothing and leaves the main account lazy with the transfers so far pending; otherwise queue and laziness are restored |
| Relayers.IndexWraps | kakarot_scripts/utils/starknet.py:934-937 | The index before the k-th further call, as `NextMany` goes through it, is (start + k) modulo the pool size |
| Relayers.RoundRobinIsFair | kakarot_scripts/utils/starknet.py:934-937 | Among the positions that `NextMany` goes through, from any start and over any number of calls, two are picked a number of times that differs by at most one |
| Relayers.PicksCount | kakarot_scripts/utils/starknet.py:934-937 | The number of picks of a position is the number of calls at that position |
| MemoryDecoders.SerializeDict | tests/utils/serde.py:60-83 | The loop over (key, previous, new) triples builds the map of last writes, with values as they are or read through a scope |
| MemoryDecoders.ZeroIsNoValue | tests/utils/serde.py:75-82 | Read through a scope, every key keeps its own value, except that zero is no value |
| MemoryDecoders.SerializeMemory | tests/utils/serde.py:215-222 | For 128-bit values, 64 lower-case hexadecimal digits per memory word, of which each half spells the last value of its 16-byte word, zero where nothing was written |
| Hex.HexPadSpells | tests/utils/serde.py:221 | `:032x` and its like spell the number in lower case on at least the given width, and without a leading zero when it takes more |
| Hex.DigitsAreLowerCase | tests/utils/serde.py:221 | Digits are written in lower case and read in either case |
| Hex.HexTextDigits | tests/utils/helpers.py:260 | `bytes.hex` writes the high and then the low digit of each byte |
| Hex.FromHexSkipsSpace | tests/utils/helpers.py:92 | `bytes.fromhex` skips white space before a byte and raises on any other character that is no digit |
| MemoryDecoders.ExtractMemory | tests/utils/helpers.py:87-93 | The in-place slice assignments compute `Overlay`, with Python's extending assignment past the end and its ValueError on odd digits |
| MemoryDecoders.LastWriteWins | tests/utils/serde.py:72-83 | A key holds the value of its last access, and only accessed keys are held |
| MemoryDecoders.OverlayHolds | tests/utils/helpers.py:88-92 | After any writes inside memory, each word of the overlay is the big-endian form of its last value, zero by default |
| MemoryDecoders.OverlayLength | tests/utils/helpers.py:92 | The overlay keeps 32 bytes per word if and only if no key lies past the end; otherwise it is longer for good |
| MemoryDecoders.AssignedPastTheEnd | tests/utils/helpers.py:92 | Slice assignment past the end appends, wherever past the end it is |
| MemoryDecoders.WritesAt | tests/utils/helpers.py:89-91 | The writes of a log are the key and the third number of each access |
| MemoryDecoders.DecodersAgree | tests/utils/serde.py:215-222 | For any log of 128-bit values, keys repeated in any order, both decoders give the same bytes if and only if no key lies past the end |
| RlpTree.SerializeRlpItem | tests/utils/serde.py:224-235 | The recursive loop over triples computes `ReadItems`, with its first error |
| RlpTree.SerializeTriple | tests/utils/serde.py:228-234 | One triple is read as bytes or as a nested list |
| RlpTree.RebuildIsExact | tests/utils/serde.py:224-235 | The reader succeeds with a tree if and only if the cells of the segments, from the offset of each pointer on, hold that tree, one triple per item to the end of each list segment, and its depth is within the recursion limit |
| RlpTree.CellsFromAt | tests/utils/serde.py:43-52 | Reading a list from a pointer gives the cells of its segment from the offset of the pointer to the end |
| RlpTree.PlacedTreeIsRebuilt | tests/utils/serde.py:31-58 | Every nested tree, written behind any memory with one segment per list, at any offsets and among any other cells, is read back exactly |
| RlpTree.AcyclicMemoryIsReadInFull | tests/utils/serde.py:224-235 | On any memory whose list pointers form no cycle, well laid out or not, a limit above the rank of the first segment is never exhausted |
| RlpTree.CyclicMemoryIsTooDeep | tests/utils/serde.py:224-235 | On any memory, a list exhausts every recursion limit if and only if it is one of some lists each of which points to another of them behind triples that lay out items |
| RlpTree.ListInItselfIsTooDeep | tests/utils/serde.py:233-234 | The list whose only item is itself is such a list |
| RlpTree.ItemsSettle | tests/utils/serde.py:224-235 | A result other than a RecursionError is the same under every larger limit |
| Modexp.ModexpOfFramedInput | cairo_zero/tests/src/kakarot/precompiles/generate_modexp_data.py:14-60 | On framed input it fails exactly when a length exceeds 48; otherwise the output has the modulus length and encodes base ** exp mod modulus, zero for a zero modulus |
| Modexp.FieldsAreRead | cairo_zero/tests/src/kakarot/precompiles/generate_modexp_data.py:63-77 | The three lengths and three fields that were framed are the ones read back |
| Modexp.TrailingZerosChangeNothing | cairo_zero/tests/src/kakarot/precompiles/generate_modexp_data.py:25-60 | Appending zero bytes to any input, well framed or not, changes neither output, gas nor failure |
| Modexp.FailsOnLongLengthsOnly | cairo_zero/tests/src/kakarot/precompiles/generate_modexp_data.py:29-34 | Any input at all fails exactly when one of its three declared lengths exceeds 48 |
| Modexp.FramingRaises | cairo_zero/tests/src/kakarot/precompiles/generate_modexp_data.py:71-73 | Framing raises exactly when a length does not fit 256 bits |
| AccessLists.FlattenTxAccessList | tests/utils/helpers.py:220-231 | The loops compute the flat form: address, number of keys, low and high half of each key |
| AccessLists.FlatAccessAt | tests/utils/helpers.py:226-230 | An entry takes its address, the number of its keys, and each key as its low and then its high 128 bits |
| AccessLists.FlatListIsDecodable | tests/utils/helpers.py:220-231 | A reader of the flat form recovers every address and every key, for lists of any shape |
| AccessLists.MergeAccessList | tests/utils/helpers.py:234-248 | The loop computes `Merged`, one set of slots per address text |
| AccessLists.MergeIsUnion | tests/utils/helpers.py:238-248 | The merged map has exactly the listed addresses, each with the slots of all keys of all its entries; the slot of a key is computed from its low and then its high 128 bits |
| AccessLists.MergeDependsOnPairsOnly | tests/utils/helpers.py:238-248 | Lists with the same addresses and the same pairs of address and key merge alike |
| AccessLists.MergeInvariance | tests/utils/helpers.py:238-248 | Reordering, repeating and splitting entries does not change the result |
| AccessLists.OneEntryPerAccount | tests/utils/helpers.py:240 | Each account has one merged entry if and only if the list never spells its address in two ways |
| Uint256.SplitRoundTrip | kakarot_scripts/utils/uint256.py:6-13 | Joining the split of any number gives it back, with a low half below 2 ** 128 |
| Uint256.JoinRoundTrip | kakarot_scripts/utils/uint256.py:6-13 | Splitting a joined pair gives the pair back |
| Uint256.SplitOfWord | kakarot_scripts/utils/uint256.py:6-9 | Splitting a 32-byte word cuts its bytes in the middle |
| Uint256.HashIsReassembled | tests/utils/syscall_handler.py:42 | The two halves of a message hash, high half first, are its 32 bytes |
| Calldata.CalldataRoundTrip | tests/utils/helpers.py:251-260 | Unpacking by the length header returns the bytes despite leading zeros in any chunk; there are ceil(n / 31) words, each below 2 ** 248 |
| Calldata.PackedWords | tests/utils/helpers.py:260 | The words after the length are the big-endian numbers of 31-byte pieces |
| Hex.PieceNumbersOfText | tests/utils/helpers.py:260 | Parsing pieces of the hexadecimal text, cut at an even width, reads the big-endian numbers of the pieces of bytes, ragged end included |
| Calldata.PackingIsInjective | tests/utils/helpers.py:251-260 | Different byte strings are packed differently |
| WordStreams.StreamRoundTrip | cairo_zero/tests/src/utils/test_bytes.py:149-159 | Splitting into words and a last partial word, then decoding, gives the original bytes for every length and either byte order |
| WordStreams.DecodeRaises | tests/utils/syscall_handler.py:27-30 | Decoding raises exactly when a word does not fit its width or the remainder does not fit its length |
| WordStreams.WordOrder | tests/utils/syscall_handler.py:28-29 | The first byte of a big-endian word weighs most, the last byte of a little-endian one |
| WordStreams.KeccakHashesTheBytes | tests/utils/syscall_handler.py:23-34 | Keccak of a stream is taken on exactly the original bytes, and the returned pair holds the whole hash |
| WordStreams.Sha256HashesTheBytes | tests/utils/syscall_handler.py:84-98 | Sha256 of a stream is taken on exactly the original bytes, and the eight returned words join to the digest |
| LogTopics.LogsRoundTrip | kakarot_scripts/utils/kakarot.py:416-449 | For any mix of logs and other events, the receipts are those of the logs, in emission order, with consecutive indices, their data and their topics |
| LogTopics.FilterKeepsLogs | kakarot_scripts/utils/kakarot.py:421-425 | Filtering keeps all emitted logs and only these, in order |
| LogTopics.LogRoundTrip | kakarot_scripts/utils/kakarot.py:427-446 | The receipt of one emitted log has its address in the given casing, its data and exactly its topics |
| LogTopics.TopicRoundTrip | kakarot_scripts/utils/kakarot.py:435-440 | A 32-byte topic survives the split into a low/high pair and the 64-digit text |
| LogTopics.MissingFirstKeyRaises | kakarot_scripts/utils/kakarot.py:421-425 | Filtering raises exactly when an event of the contract has no key |
| LogTopics.MissingHalfRaises | kakarot_scripts/utils/kakarot.py:434-444 | With halves of 128 bits, topics are put together exactly when no high half is missing, and raise an IndexError otherwise |
| LogTopics.BadDataRaises | kakarot_scripts/utils/kakarot.py:431 | Data that are no bytes raise a ValueError, and so do topics that do not parse; nothing else does |
| Coverage.Store.Reset | tests/utils/coverage.py:45-47 | Afterwards the dictionaries reflect no runs |
| Coverage.Store.ReportRuns | tests/utils/coverage.py:25-42 | The report has exactly the files that a run touched and whose name is not empty and has no excluded part in it, in the order of their names, character by character, each described by the runs since the last reset alone, and it ends that period |
| Coverage.VmWithCoverage.RunInstruction | tests/utils/coverage.py:68-71 | The program counter is recorded |
| Coverage.VmWithCoverage.PcToLine | tests/utils/coverage.py:89-120 | The walk up the parent locations adds the whole chain, to the covered lines only when the instruction was touched |
| Coverage.VmWithCoverage.CoverFile | tests/utils/coverage.py:122-128 | In whatever order instructions are visited, dictionaries that reflect some runs reflect one more |
| Coverage.ChainIsAdded | tests/utils/coverage.py:103-120 | A line is added if and only if it lies in the range of the location or of a parent, in a file without "autogen" anywhere in its name |
| Coverage.ContainsMeansHasPart | tests/utils/coverage.py:36 | `part in text` means that the text is the part with something in front and something behind |
| Coverage.RunIsReflected | tests/utils/coverage.py:122-128 | Adding the chains of one run's instructions extends what the dictionaries reflect by exactly that run |
| Coverage.CoveredIsStatement | tests/utils/coverage.py:111-113 | Over any runs, covered lines are statements |
| Coverage.ReportIsSound | tests/utils/reporting.py:49-52 | A reported file has covered inside statements and missed as the sorted difference; its dumped entry has exactly the statement lines, with 1 exactly on the chains of touched instructions |
| Coverage.DumpHoldsEveryFile | tests/utils/reporting.py:47-54 | The whole dump exists if and only if every file has statements; its keys are exactly the short file names, so it has an entry per file if and only if these differ |
| Coverage.LastFileWins | tests/utils/reporting.py:49-53 | The entry of a short name is that of the last file of that name |
| Coverage.ShortNameIsLastPart | tests/utils/reporting.py:49 | The short name has no separator in it and is the whole name or stands behind a separator |
| Coverage.SortedIsSorted | tests/utils/coverage.py:22 | The list of a set of lines has its elements in strictly increasing order |
| Coverage.BeforeMeansPrecedes | tests/utils/coverage.py:38 | File names are ordered by the smaller character at the first difference, or by the end of the shorter name |

## Left out

- Linker.LinkingIsCorrect: assumes that every placeholder contains a character that is not hexadecimal and that equal placeholders ask for equal addresses; it does not decide runs in which an occurrence outside the references cuts into a reference, where the outcome depends on the characters (`CutCanBeHarmless`).
- Linker.DelimitedLinkingIsCorrect: assumes placeholders that start and end with a character that is not hexadecimal and straddle no reference edge.
- InitCode.InitCodeDeploysPayload: the EVM has PUSH1, PUSH2, CODECOPY, RETURN and STOP, and any other opcode fails; that no program deploys 65536 bytes or more is proved relative to these instructions. Gas and code size limits are not modelled.
- Nonces.OrderIsNonceChecking: covers runs in which nobody else raises the nonces of the accounts; with other users, the sufficient condition is that of `AwaitedNoncesIncrease`.
- RlpTree.SerializeRlpItem: Python's recursion limit is the parameter `limit`; all exceptions other than a RecursionError are one error.
- Modexp.ModexpOfFramedInput: `gas_cost` is an arbitrary function, and Python's three-argument `pow` is the power followed by the remainder.
- Coverage.VmWithCoverage.RunInstruction: the Cairo machine itself; line numbers are natural numbers.
- Relayers.CreateFunding: the devnet mint request, the one-shot `amount` keyword, and the deployment and approval of relayers after the funding phase.
- Erc20.TransactKeepsSupply: the token contract is not part of the repository's client; balances, allowances with an infinite value and all-or-nothing transactions are modelled.
- LazyQueue.Client.ExecuteV1: the multisig branch, hashing and signing. An exception is taken to come before anything is sent.
- LogTopics.LogsRoundTrip: the branch that returns the logs of a web3 node as they are; checksum casing is an arbitrary function of the address text.
- AccessLists.OneEntryPerAccount: the parsing of hexadecimal text and the storage address are arbitrary functions.
- `RelayerPool.get` returns the account at a salt modulo the pool size, from a pool that is created once.
- `int_to_bytes`, `hex_string_to_bytes_array` and `pack_64_bits_little` convert integers and text to bytes and bytes to 64-bit words; `serialize_stack` lists the values of a dict in order. They are not modelled.
- RPC, web3, requests and file access, deployment scripts, cryptography and ABI encoding are library or service calls.
- The Cairo and Solidity sources of the EVM itself, and the mocks that patch system calls and hints.
