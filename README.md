# Blockchain chain-state engine in Dafny

This project models the chain-state engine of a small proof-of-work
blockchain simulator written in Java. The model covers these parts:

- **`Blockchain`** holds four things:
  - the list of blocks;
  - the balance ledger (participant name to Java `int`);
  - the current difficulty (the number of leading `'0'` hex characters a new block's hash needs);
  - an undo history of chain states.
- **`Blockchain.addNewBlock`** works in five steps:
  1. It saves a state.
  2. It appends the block.
  3. It adopts the block's outgoing difficulty.
  4. It checks that every block names its predecessor's hash. If a link is broken, it undoes and reports failure.
  5. On success, it credits the miner with the block reward.
- **`BlockchainHistory`** is a stack of chain states. `save` pushes one, `undo` pops one and installs it in the chain, and `clear` empties the stack.
- **`Block`** stores the stripped data and the predecessor hash, and finds its own hash by proof of work:
  1. It hashes `id + timeStamp` (a `long` sum), the predecessor hash and a magic number.
  2. It encodes the 32-byte digest as 64 lowercase hex characters.
  3. It tests for the required run of leading `'0'` characters.
  4. After each rejection it draws a new magic number, `Math.abs(random.nextInt())`.

  A one-step rule then sets the block's outgoing difficulty.
- **`SignedTransaction`** is an immutable sender, amount, receiver and public key, with one signature slot that starts empty and is set by `setSigned`, which may overwrite it. Its text is `"%s sent %d VC to %s"`.

The modules are:

| file | module | contents |
|---|---|---|
| `java_lang.dfy` | `JavaLang` | Java `int`/`long` wrap-around, `Math.abs`, decimal rendering, `String.strip`, `startsWith`, `"0".repeat` |
| `config.dfy` | `Config` | `BLOCK_REWARD = 100`, `BLOCK_MIN_CREATION_SECONDS = 0`, `BLOCK_MAX_CREATION_SECONDS = 1` |
| `ledger.dfy` | `Ledger` | the balance map as a value: reward credit, transfer, balance check, sum of balances |
| `transaction.dfy` | `Transactions` | `SignedTransaction` |
| `block.dfy` | `Blocks` | hex encoding, the hashed fields, the acceptance test, the difficulty rule, the search loop, `Block` |
| `chain.dfy` | `Chain` | the shared block list, `BlockchainState`, `BlockchainHistory`, `Blockchain` |

The model keeps several behaviours of the code that a reader might not expect:

- **A chain state holds the live list, not a copy.**
  - `getState` wraps the chain's own `ArrayList`, and `addNewBlock` then appends into that same list.
  - The list is therefore an object here (`Chain.BlockList`), shared by reference between the chain and every saved state.
  - When a block is rejected, `undo` reinstalls the same list object, and it still ends with the rejected block.
  - `Chain.Blockchain.AddNewBlock` states that the list grows by the new block whatever the outcome.
  - `Chain.RejectionIsPermanent` shows the consequence: once a bad block is in the list, every later `addNewBlock` fails.
- **The difficulty is adopted before validation.** It is not restored by the undo, and `clear` keeps it.
- **The second test of the difficulty rule compares the difficulty itself** with `BLOCK_MAX_CREATION_SECONDS`, not the elapsed time.
  - With the configured constants, a search measured at 0 seconds or more lowers the difficulty by one, down to 0.
  - `Blocks.DifficultyOnlyFalls` proves this for any sequence of blocks.
- **The block's data is not hashed.** The hashed text is the decimal of the wrapped `long` sum `id + timeStamp`, then the predecessor hash, then the magic number.
- **The block id is Java `int` arithmetic.** `generateNewBlock` computes the id as an `int` (`size + 1`) and passes it on as a `long`. The model keeps the `int` wrap-around, which would matter only past `Integer.MAX_VALUE - 1` blocks, more than an `ArrayList` can hold.

The Javadoc of `addNewBlock` (Blockchain/src/blockchain/model/Blockchain.java:50-51) promises an undo "to the state the was before adding new block". The model follows the code rather than that sentence. Because the saved state is the live list, a rejected append keeps the block in the list. The difficulty, already adopted before the check, is not restored either.

Nondeterminism and foreign code become parameters:

- SHA-256 is `sha: string -> Digest` (a 32-byte result; the UTF-8 encoding of the input is folded into it).
- `random.nextInt()` is `draws: nat -> Int32`, the k-th draw of one search.
- The clock reading is `timeStamp`, the search duration in seconds is `elapsed`, and the current thread id is `threadId`.

The proof-of-work loop terminates only if some attempt succeeds. `Puzzle.Solvable` states this as a precondition. The model also requires a difficulty of at most 62; the code itself sets no such limit:

- The byte loop tests the prefix only once the string, after a byte's pad, holds at least as many characters as the difficulty.
- `Blocks.TestReachedExactly` proves when that happens:
  - up to difficulty 62, every attempt reaches the test;
  - at 63, an attempt reaches it only when the last digest byte is below 16;
  - from 64 on, no attempt reaches it.
- An attempt that does not reach the test keeps its magic number, so the source repeats that same attempt forever.

Getters are reads of the model's fields; `Block.getQtyOfZeros` is the field `endQtyOfZeros`.

## Model

| member | source | states |
|---|---|---|
| JavaLang.JavaAbs | Blockchain/src/blockchain/model/Block.java:73 | `Math.abs` of a draw is non-negative and equal to the draw or its negation, except that `Integer.MIN_VALUE` is returned unchanged |
| JavaLang.Strip | Blockchain/src/blockchain/model/Block.java:26 | the stored data is a contiguous part of the given data; everything cut off on either side is whitespace; the result neither starts nor ends with whitespace |
| JavaLang.StripIdempotent | Blockchain/src/blockchain/model/Block.java:26 | stripping already-stripped data changes nothing |
| JavaLang.DecimalInjective | Blockchain/src/blockchain/model/SignedTransaction.java:64 | different integers have different decimal forms |
| JavaLang.StartsWithZeros | Blockchain/src/blockchain/model/Block.java:72 | `startsWith("0".repeat(q))` holds exactly when the string has at least q characters and the first q are all `'0'` |
| Ledger.Credit | Blockchain/src/blockchain/model/Blockchain.java:144 | definition of the wrapping `put` of a reward; its meaning is proved in Ledger.CreditEffect and Ledger.CreditTotal |
| Ledger.Transfer | Blockchain/src/blockchain/model/Blockchain.java:70-72 | definition of the two `put`s of a transfer; its meaning is proved in Ledger.TransferEffect and Ledger.TransferTotal |
| Ledger.CanAfford | Blockchain/src/blockchain/model/Blockchain.java:81 | definition of the balance check; its meaning is proved in Ledger.AffordableTransferKeepsSenderSolvent and stated by Chain.Blockchain.IsTransactionValid |
| Ledger.CreditEffect | Blockchain/src/blockchain/model/Blockchain.java:142-145 | a reward gives the miner an entry, raises it by the amount (modulo 2^32, an absent miner counting as 0) and leaves every other entry unchanged |
| Ledger.CreditTotal | Blockchain/src/blockchain/model/Blockchain.java:144 | a reward raises the sum of all balances by the amount, exactly when the miner's balance does not overflow and modulo 2^32 always |
| Ledger.TransferEffect | Blockchain/src/blockchain/model/Blockchain.java:69-73 | a transfer debits the sender and credits the receiver (absent counts as 0), each modulo 2^32, leaves everybody else unchanged, and leaves the ledger as it was when sender and receiver coincide |
| Ledger.TransferTotal | Blockchain/src/blockchain/model/Blockchain.java:69-73 | a transfer preserves the sum of all balances, exactly when neither update overflows and modulo 2^32 always |
| Ledger.AffordableTransferKeepsSenderSolvent | Blockchain/src/blockchain/model/Blockchain.java:80-83 | a transfer of a non-negative amount that the balance check accepts leaves the sender with a balance between 0 and its old one |
| Transactions.SignedTransaction.constructor | Blockchain/src/blockchain/model/SignedTransaction.java:22-27 | the four fields hold the given values and there is no signature yet |
| Transactions.SignedTransaction.SetSigned | Blockchain/src/blockchain/model/SignedTransaction.java:46-48 | the signature slot holds exactly the given bytes and nothing else changes |
| Transactions.TransactionText | Blockchain/src/blockchain/model/SignedTransaction.java:64 | definition of `"%s sent %d VC to %s"`; its meaning is proved in Transactions.TextDeterminesAmount |
| Transactions.SignedTransaction.ToString | Blockchain/src/blockchain/model/SignedTransaction.java:62-65 | definition: the text of the transaction's own sender, amount and receiver; its meaning is proved in Transactions.ToStringIgnoresKeyAndSignature |
| Transactions.TextDeterminesAmount | Blockchain/src/blockchain/model/SignedTransaction.java:62-65 | between a fixed sender and receiver, the text `"%s sent %d VC to %s"` determines the amount |
| Transactions.ToStringIgnoresKeyAndSignature | Blockchain/src/blockchain/model/SignedTransaction.java:62-65 | the text depends only on sender, amount and receiver, never on the key or signature |
| Blocks.ToHexString | Blockchain/src/blockchain/model/Block.java:68 | `Integer.toHexString` of a byte has one character below 16 and two otherwise, never a leading zero, and reads back as the byte |
| Blocks.Pad | Blockchain/src/blockchain/model/Block.java:69 | definition of the `'0'` appended for a one-character hex; its meaning is proved in Blocks.PadThenHex |
| Blocks.PadThenHex | Blockchain/src/blockchain/model/Block.java:68-69 | the pad followed by `Integer.toHexString` is always exactly the two-digit lowercase form of the byte |
| Blocks.Hex | Blockchain/src/blockchain/model/Block.java:67-79 | the hex string of a digest has two characters per byte, all lowercase hex digits |
| Blocks.HexRoundTrip | Blockchain/src/blockchain/model/Block.java:67-79 | the digest can be read back from its hex string |
| Blocks.HexInjective | Blockchain/src/blockchain/model/Block.java:67-79 | different digests give different hash strings |
| Blocks.HashInput | Blockchain/src/blockchain/model/Block.java:61 | definition of the hashed text; its meaning is proved in Blocks.IdAndTimeStampOnlySummed and Blocks.HashInputDeterminesMagic |
| Blocks.IdAndTimeStampOnlySummed | Blockchain/src/blockchain/model/Block.java:61 | `id` and `timeStamp` enter the hashed text only through their wrapped `long` sum: for one predecessor hash and magic number, two headers give the same text exactly when `id + timeStamp` agrees modulo 2^64 |
| Blocks.LaterIdEarlierTimeCollide | Blockchain/src/blockchain/model/Block.java:61 | block `id + 1` stamped at `t` and block `id` stamped at `t + 1` hash the same text for the same predecessor hash and magic number |
| Blocks.HashInputDeterminesMagic | Blockchain/src/blockchain/model/Block.java:61 | for one block, different magic numbers give different hashed texts |
| Blocks.TestReachedExactly | Blockchain/src/blockchain/model/Block.java:67-71 | an attempt reaches the prefix test always up to difficulty 62, at 63 exactly when the last digest byte is below 16, and never from 64 on |
| Blocks.CheckedPrefix | Blockchain/src/blockchain/model/Block.java:71-72 | the prefix test on the partial string, once it has at least q characters, agrees with the test on the full hex string |
| Blocks.HexStep | Blockchain/src/blockchain/model/Block.java:68-78 | the pad and `toHexString` of byte i extend the hex of the first i bytes to that of the first i+1 |
| Blocks.FirstAcceptedUnique | Blockchain/src/blockchain/model/Block.java:60-81 | the first successful attempt of a run is unique |
| Blocks.ZeroDifficultyAcceptsFirstAttempt | Blockchain/src/blockchain/model/Block.java:71-77 | with difficulty 0 the first attempt is accepted |
| Blocks.NextDifficulty | Blockchain/src/blockchain/model/Block.java:86 | the outgoing difficulty is within one of the incoming one, it is one higher exactly when the search was faster than the minimum, and it is never negative when the incoming one is not |
| Blocks.DifficultyIgnoresSlowness | Blockchain/src/blockchain/model/Block.java:86 | any two times at or above the minimum give the same outgoing difficulty |
| Blocks.DifficultyOnlyFalls | Blockchain/src/blockchain/model/Block.java:86 | over any run of blocks none of which was measured below the minimum, the difficulty falls by one per block until it reaches 0 |
| Blocks.ScanDigest | Blockchain/src/blockchain/model/Block.java:65-79 | one attempt's byte loop accepts exactly the digests whose hex string starts with q zeros, and on acceptance has built the whole hex string |
| Blocks.SearchHash | Blockchain/src/blockchain/model/Block.java:51-92 | the search ends at the first accepted attempt; the magic number and hash are that attempt's; the hash has 64 characters and starts with q zeros; the outgoing difficulty follows the rule |
| Blocks.Block.constructor | Blockchain/src/blockchain/model/Block.java:25-33 | the data is stored stripped; the predecessor hash, id, start difficulty, time stamp and miner are as given; the hash and magic number come from the first accepted attempt starting from magic number 0 |
| Blocks.Block.GenerateHash | Blockchain/src/blockchain/model/Block.java:51-92 | a repeated search starts from the block's current magic number and rewrites the magic number, time and outgoing difficulty; the returned hash is the first accepted attempt's |
| Chain.BlockList.Add | Blockchain/src/blockchain/model/Blockchain.java:57 | the block is appended at the end of the list object |
| Chain.BlockList.Clear | Blockchain/src/blockchain/model/Blockchain.java:102 | the list object is emptied in place |
| Chain.TipHash | Blockchain/src/blockchain/model/Blockchain.java:41 | the predecessor hash is `"0"` on an empty chain; a block naming it links to the chain, and on a non-empty chain it is the only hash that does |
| Chain.LinkedSnoc | Blockchain/src/blockchain/model/Blockchain.java:146-162 | a chain with one more block is linked exactly when the old chain was linked and the new block names the old tip's hash |
| Chain.UnlinkedStaysUnlinked | Blockchain/src/blockchain/model/Blockchain.java:146-162 | a broken link stays broken whatever is appended |
| Chain.MinedBlockAccepted | Blockchain/src/blockchain/model/Blockchain.java:41-44 | a block built on the current tip is accepted exactly when the chain was linked before |
| Chain.MinerName | Blockchain/src/blockchain/model/Blockchain.java:143 | definition of `"miner%d"`; its meaning is proved in Chain.MinerNameInjective |
| Chain.MinerNameInjective | Blockchain/src/blockchain/model/Blockchain.java:143 | different miner ids are credited under different ledger names |
| Chain.BlockchainHistory.constructor | Blockchain/src/blockchain/model/BlockchainHistory.java:14-16 | the history belongs to the given chain and starts empty |
| Chain.BlockchainHistory.Save | Blockchain/src/blockchain/model/BlockchainHistory.java:18-20 | exactly one state is pushed on top, holding the chain's current list object |
| Chain.BlockchainHistory.Undo | Blockchain/src/blockchain/model/BlockchainHistory.java:22-26 | on a non-empty history the top state is popped and its list installed in the chain; on an empty history neither the history nor the chain changes |
| Chain.BlockchainHistory.Clear | Blockchain/src/blockchain/model/BlockchainHistory.java:28-30 | the history is emptied and the chain is not touched |
| Chain.Blockchain.constructor | Blockchain/src/blockchain/model/Blockchain.java:18-21 | a new chain has its own history, an empty list, an empty ledger and difficulty 0 |
| Chain.Blockchain.GetBlockchainSize | Blockchain/src/blockchain/model/Blockchain.java:25-27 | definition: the number of blocks in the chain's current list object |
| Chain.Blockchain.GetState | Blockchain/src/blockchain/model/Blockchain.java:33-35 | definition: a state holding the chain's live list object, not a copy; its consequence is stated by Chain.BlockchainHistory.Save and Chain.Blockchain.AddNewBlock |
| Chain.Blockchain.SetState | Blockchain/src/blockchain/model/Blockchain.java:29-31 | the state's list object becomes the chain's list |
| Chain.Blockchain.IsBlockchainValid | Blockchain/src/blockchain/model/Blockchain.java:146-162 | the result is true exactly when every block names the hash of the block before it (so always for fewer than two blocks) |
| Chain.Blockchain.GenerateNewBlock | Blockchain/src/blockchain/model/Blockchain.java:37-45 | the new block names the tip's hash (or `"0"`), has id size+1 as a Java `int`, starts at the chain's difficulty and links to the chain |
| Chain.Blockchain.AddNewBlock | Blockchain/src/blockchain/model/Blockchain.java:54-67 | the same list object gains the block in every case, and the difficulty becomes the block's outgoing one. The result is true exactly when the extended list is linked. On success the miner is credited and the saved state stays on the history; on failure the ledger and history are as before |
| Chain.Blockchain.AddToLedger | Blockchain/src/blockchain/model/Blockchain.java:142-145 | the entry `"miner<id>"` is credited with the block reward |
| Chain.Blockchain.AddTransactionToLedger | Blockchain/src/blockchain/model/Blockchain.java:69-73 | the ledger becomes the transfer of the amount from sender to receiver |
| Chain.Blockchain.IsTransactionValid | Blockchain/src/blockchain/model/Blockchain.java:80-83 | an absent sender (holding 0) passes exactly when the amount is at most 0; a sender with a non-negative balance paying someone else a non-negative amount passes exactly when the transfer would leave it a non-negative balance; no signature is consulted |
| Chain.Blockchain.Clear | Blockchain/src/blockchain/model/Blockchain.java:101-105 | the list (in place), the history and the ledger are emptied; the difficulty and the list object are kept |
| Chain.RejectionIsPermanent | Blockchain/src/blockchain/model/Blockchain.java:54-62 | after a block with a broken link has been appended, no later append can make the list linked again |

## Left out

- Serialization: `serialize` and `deserialize` are left out because they are Java object serialization and file I/O. This includes the write at the end of a successful `addNewBlock` and the reset of the transient difficulty on load.
- Console output: `displayBlockchain` and `Block.toString` are left out because they only format text for the console.
- Locking: the `ReentrantReadWriteLock` and the `synchronized` blocks are left out. The model is single-threaded.
- Foreign and nondeterministic inputs are parameters instead of computations:
  - SHA-256 through `MessageDigest`, including the UTF-8 encoding of its input;
  - the clock (`Date`, `LocalTime`, `Duration`);
  - the thread id;
  - `java.util.Random`.
- Blocks.SearchHash: requires a difficulty of at most 62, which the source does not demand. At 63 the source still reaches the prefix test when the last digest byte is below 16, and otherwise repeats the same attempt forever; that partial case is not modelled.
- Blocks.SearchHash: requires that some attempt of the run succeeds. The source instead loops forever when none does. The model also draws the new magic number right after the byte loop rejects a digest, not just before its `break`; nothing happens in between.
- Blocks.SearchHash: the magic numbers of rejected attempts, which the source writes into the block's field during the search, are not observable. Only the final one is.
- Blocks.Block.GenerateHash: the measured time is a whole number of seconds given as `elapsed`, because `Duration.toSeconds` of two clock readings is not computed.
- Chain.Blockchain.AddTransactionToLedger: requires the sender to have a ledger entry, because the source unboxes `ledger.get(sender)` and fails with an exception otherwise.
- Chain.MinerName and Transactions.TransactionText: render `%d` with ASCII digits, so `String.format` under a locale with other digits is not modelled.
- Transactions.SignedTransaction.SetSigned: the signature is an immutable byte sequence, so a caller later mutating the Java `byte[]` it passed is not modelled. The public key is its encoded bytes.
- RSA signing and validation (`RSASignerAndValidator`) are left out because they are a wrapper over `java.security.Signature`.
- The controller tasks (`BlockchainController`, `MinerTaskCallable`, `TransactionClientTask`) are left out because they are thread pools and random client traffic.
- `BlockchainFacade` is left out because it is an interface without an implementation.
- `BlockchainConfig` contributes only its three constants. Its runtime processor query is not modelled.
