# A verified model of a minimal proof-of-work ledger

This project models, in Dafny, the data-structure and encoding layer of a small
Go block-chain (package `Block`): the proof-of-work engine, the block record and
its hash, the in-memory chain, UTXO transaction construction, wallet address
payloads, and the pure and state-changing logic of the peer protocol. Every
module verifies with no assumption: hash functions, Base58 and gob encoding are
uninterpreted functions whose only known fact is the length of a digest.

Files and modules:

- `encoding.dfy` (`Encoding`): byte strings; big-endian integers as `math/big`
  and `encoding/binary` read and write them; `strconv.FormatInt(n, 10)`;
  `encoding/hex`; the order-preserving filter used by two loops of the server.
  Each encoding comes with its reader and a round-trip lemma.
- `crypto.dfy` (`Crypto`): SHA-256 (32-byte result), RIPEMD-160 (20-byte
  result), Base58 encode/decode, all uninterpreted. `Base58RoundTrips()` names
  the property that decoding undoes encoding; lemmas that need it take it as a
  precondition.
- `block.dfy` (`Blocks`): the `Block` class; `SetHash` overwrites `Hash` in
  place; `NewBlock` allocates and then hashes.
- `pow.dfy` (`Pow`): the 24-bit target, the hash input at a nonce, the nonce
  search `Run` and the check `IsValid` (`IsVaild` in the source).
- `blockchain.dfy` (`Chain`): the `BlockChain` class over a sequence of blocks
  and its link invariant.
- `wallet.dfy` (`Wallets`): public-key hash, checksum, address payload.
- `transaction.dfy` (`Transactions`): inputs, outputs, transactions, `Lock`,
  `SetID`, the coinbase and spending constructors.
- `server.dfy` (`Server`): the 12-byte command codec and the `Node` class that
  holds `knownNodes`, `blocksInTransit` and `mempool`, with the handlers as
  methods.

Behaviour of the code that a reader might not expect, and that the model
keeps:

- `setHash` hashes `Hash ‖ Data ‖ decimal(Timestamp)`, and `Hash` is still
  empty when `NewBlock` calls it. So `PrevHash` is not covered by a block's
  hash. `Blocks.NewBlocksHashAlike` states this.
- The chain is a slice of blocks held in memory. `NewBlock` only calls
  `setHash`; the proof of work is a separate object that nothing in the
  chain code calls.
- The block branch of `handleInv` drops every item equal to the first one,
  so duplicates of the first item leave the in-transit list too.
- `NewUTXOTransaction` calls `os.Exit(1)` on a transfer to oneself. The model
  returns `Err(ExitSelfTransfer)`, kept apart from the panics.
- `Pow.go` reads `block.Nonce`, but the `Block` struct in `Block.go` has no
  such field. The model adds a `Nonce` field, which `NewBlock` leaves at zero.
- `handleConnection` slices `request[:commandLength]` up to the capacity of
  the buffer that `ioutil.ReadAll` returns. That buffer holds at least 512
  bytes and is zero past the data read. So a request shorter than 12 bytes
  is read as itself followed by zeros, and it does not panic there.

Every Go `string` and `[]byte` is a `Bytes` value (`seq<byte>`). A nil slice
and an empty slice are both `[]`. Most panics, `log.Panic` calls and the
`os.Exit` call are `Err`/`Panic` results. Two are preconditions instead, and
"## Left out" names them: the empty-chain panic of `AddBlock` and the
long-command panic of `commandToBytes`.

## Model

| member | source | states |
|---|---|---|
| `Encoding.Int64ToBytes` | Block/Pow.go:55-59 | 8 bytes whose big-endian value is `uint64(i)`: `i` itself when non-negative, `i + 2^64` when negative |
| `Encoding.Int64ToBytesInjective` | Block/Pow.go:55-59 | distinct int64 values give distinct 8-byte encodings |
| `Encoding.BeBytesValue` | Block/Pow.go:57 | the k-byte big-endian encoding of n reads back as n mod 256^k |
| `Encoding.DecimalRoundTrip` | Block/Block.go:18 | `FormatInt(n, 10)` is an optional '-' then ASCII digits, and reads back as n |
| `Encoding.DecimalInjective` | Block/Block.go:18 | distinct timestamps render as distinct decimal strings |
| `Encoding.HexRoundTrip` | Block/Transaction.go:94 | hex decoding undoes hex encoding, for every byte string |
| `Encoding.HexEncodeInjective` | Block/Server.go:208 | distinct ids give distinct mempool keys |
| `Encoding.WithoutMembers` | Block/Server.go:197-203 | the filtered list lacks the removed value and keeps exactly the other elements |
| `Encoding.WithoutAppend` | Block/Server.go:114-118 | filtering works element by element: the filter of a concatenation is the concatenation of the filters |
| `Blocks.Block.constructor` | Block/Block.go:26 | the composite literal stores its four fields as given; Nonce is zero |
| `Blocks.Block.SetHash` | Block/Block.go:17-22 | Hash becomes the 32-byte SHA-256 of old Hash ++ Data ++ decimal(Timestamp); no other field changes |
| `Blocks.NewBlock` | Block/Block.go:25-28 | a fresh block stores data, prevBlockHash and the time unchanged; its Hash is SHA-256 of data ++ decimal(time) |
| `Blocks.NewBlocksHashAlike` | Block/Block.go:19-27 | two new blocks with equal data and time get equal 32-byte hashes whatever their PrevHash |
| `Pow.BelowTargetIffLeadingZeros` | Block/Pow.go:12-26 | a 32-byte hash is below 1 << (256-24) exactly when its first three bytes are zero |
| `Pow.NewProofOfWork` | Block/Pow.go:21-26 | the target is 2^232 = 256^29 and the block is the one given |
| `Pow.ProofOfWork.PrepareData` | Block/Pow.go:71-80 | the hash input is PrevHash ++ Data ++ be64(Timestamp) ++ be64(24) ++ be64(nonce): length, leading PrevHash, trailing nonce |
| `Pow.ProofOfWork.Run` | Block/Pow.go:29-54 | the nonce is the least one whose hash is strictly below the target; the returned hash is that hash and starts with three zero bytes; at MaxInt64 the search gives up with every smaller nonce failed |
| `Pow.ProofOfWork.IsValid` | Block/Pow.go:62-68 | holds iff the hash at the stored nonce is strictly below the target, i.e. starts with three zero bytes |
| `Pow.TargetItselfFails` | Block/Pow.go:62-68 | a block whose stored nonce hashes to exactly the target fails IsValid (strict comparison); that hash is 00 00 01 then 29 zero bytes |
| `Pow.RunThenValidate` | Block/Pow.go:29-68 | storing the nonce Run found in the block makes IsValid hold |
| `Chain.BlockChain.AddBlock` | Block/BlockChain.go:9-13 | needs a non-empty chain; appends exactly one fresh block linked to the old last Hash, keeps earlier blocks in order, preserves the link invariant |
| `Chain.NewGenesisBlock` | Block/BlockChain.go:15-17 | the genesis block holds "Genesis Block" and an empty PrevHash |
| `Chain.NewBlockChain` | Block/BlockChain.go:19-22 | a fresh chain of one genesis block that satisfies the link invariant |
| `Chain.BuildChain` | Block/BlockChain.go:24-36 | a new chain plus two AddBlock calls gives three linked blocks with the given data |
| `Wallets.HashPubKey` | Block/Wallet.go:46-52 | RIPEMD-160 of SHA-256 of the key, 20 bytes |
| `Wallets.Checksum` | Block/Wallet.go:54-58 | 4 bytes: the prefix of SHA-256 applied twice |
| `Wallets.GetAddress` | Block/Wallet.go:37-43 | if Base58 decoding undoes encoding, the address decodes to the 25-byte payload |
| `Wallets.AddressPayload` | Block/Wallet.go:37-43 | 25 bytes: version 0x00, the 20-byte key hash, then the checksum of the first 21 bytes |
| `Transactions.IsCoinbase` | Block/Transaction.go:78-80 | holds iff the only input has an empty txid and output index -1 |
| `Transactions.IsLockedWithKey` | Block/Transaction.go:38-40 | holds iff the output's key hash and the given one agree byte for byte |
| `Transactions.UsesKey` | Block/Transaction.go:33-36 | holds iff an output locked to the input key's hash would match the given hash; only a 20-byte hash can match |
| `Transactions.NewTXOutput` | Block/Transaction.go:61-65 | fails iff the address decodes to under 5 bytes; otherwise the value is kept and the output is locked to the bytes between version and checksum |
| `Transactions.Lock` | Block/Transaction.go:42-47 | fails iff the decoded address is shorter than 5 bytes; otherwise the key hash is the decoded address minus its first byte and last 4 bytes, value unchanged |
| `Transactions.SetID` | Block/Transaction.go:49-59 | the id is the 32-byte SHA-256 of the encoded transaction as it stands; inputs and outputs unchanged |
| `Transactions.NewCoinbaseTX` | Block/Transaction.go:67-76 | a coinbase (one input, empty txid, Vout -1) with the memo or "Reward to '<to>'" as PubKey, one output of 10 locked to `to`, id hashed while empty; fails only when `to` decodes too short |
| `Transactions.LockToWalletAddress` | Block/Transaction.go:61-65 | if Base58 decoding undoes encoding, an output for a wallet's address stores exactly that wallet's public-key hash |
| `Transactions.CoinbaseToWalletLocked` | Block/Transaction.go:67-80 | a coinbase paying a wallet's address succeeds, is a coinbase, and is locked to the wallet's key hash |
| `Transactions.InputsShape` | Block/Transaction.go:93-103 | input building fails iff some txid is not hex; otherwise one unsigned input per (txid, index) pair, each with the wallet's public key |
| `Transactions.SpendingInputsUseWalletKey` | Block/Transaction.go:33-36 | every input built for a wallet passes UsesKey with that wallet's key hash |
| `Transactions.NewUTXOTransaction` | Block/Transaction.go:82-115 | exits on from == to, panics when acc < amount, otherwise panics on a non-hex txid first and on a too-short address after; on success inputs as above, first output pays amount to `to`, a change output of acc - amount to `from` exists iff acc > amount, outputs total acc, id hashed while empty |
| `Server.CommandToBytes` | Block/Server.go:104-110 | 12 bytes: the command's bytes, then zeros |
| `Server.BytesToCommand` | Block/Server.go:112-120 | the input with every zero byte removed, order kept; no zero byte remains |
| `Server.CommandRoundTrip` | Block/Server.go:104-120 | padding with zeros then dropping zeros returns a command without zero bytes |
| `Server.CommandCodecRoundTrip` | Block/Server.go:104-120 | bytesToCommand(commandToBytes(c)) == c for an ASCII command of at most 12 bytes without NUL |
| `Server.MempoolLacks` | Block/Server.go:208 | holds iff the mempool lookup, the zero Transaction for a missing key, has an empty (nil) ID |
| `Server.Node.constructor` | Block/Server.go:39-43 | the start-up state: only the seed node known, nothing in transit, empty mempool |
| `Server.Node.NodeIsKnown` | Block/Server.go:153-161 | true iff the address occurs in knownNodes |
| `Server.Node.HandleVersion` | Block/Server.go:126-147 | sends getblocks iff local height is lower, version iff higher, nothing iff equal; the sender is then known, added at the end only if new, no duplicate |
| `Server.Node.HandleInv` | Block/Server.go:180-212 | block kind: requests Items[0] and leaves Items without every copy of Items[0] in transit (empty Items panic after clearing the list); tx kind: requests Items[0] iff the mempool has no transaction with an id for hex(Items[0]) |
| `Server.Node.HandleGetData` | Block/Server.go:218-242 | sends the block found (panics if the lookup failed) or the mempool entry for hex(ID), the zero transaction when absent |
| `Server.CommandFrame` | Block/Server.go:76-80 | the 12 bytes the command is read from: the request's first 12, or a shorter request padded with zeros |
| `Server.FrameCommand` | Block/Server.go:76-80 | the command of a short request is the request without its zero bytes; of a longer one, its first 12 bytes without zeros |
| `Server.Node.HandleConnection` | Block/Server.go:75-91 | dispatches only "version"; any other command, a short request included, sends nothing and changes nothing; a failed version decode panics; otherwise exactly HandleVersion's three height cases and its knownNodes update |

## Left out

- Networking and goroutines: `StartServer`, `net.Listen`/`Accept`, `go handleConnection` and `ioutil.ReadAll` are I/O and concurrency. The handlers are modelled as sequential updates of the node's state. The source's lack of locking around that state is not modelled.
- The send functions `sendData`, `sendVersion`, `sendGetBlocks`, `sendInv`, `sendGetData`, `sendBlock` and `sendTx` have empty bodies or only frame and forward. A handler returns the `Message` values it would send instead.
- gob encoding and decoding come from a foreign library. `SetID` hashes an uninterpreted `GobEncode`. Each handler takes an already-decoded payload. `HandleConnection` takes the decoder's result as a parameter.
- Server.Node.HandleConnection: the source's `handleVersion` gob-decodes `request[:commandLength]`, the 12 command bytes, instead of the payload (Block/Server.go:129). gob reads the first of those bytes as a message length. That byte is either a letter of "version" (at least 101, with at most 11 bytes after it) or 0 (an empty message with no type id). So, read from the code (not executed), that decode always fails. In Go, every "version" request then reaches `log.Panic`, and `knownNodes` is never updated through `handleConnection`. The model takes the decoder's result as a parameter. Its `decoded.Some?` branch is the evidently intended behaviour, not one the program as written can reach.
- Chain.BlockChain.AddBlock: requires a non-empty chain, where Go would panic on an empty one. Every chain comes from NewBlockChain, which holds the genesis block, and AddBlock only grows it.
- Wallets.HashPubKey: total. Go's `crypto.RIPEMD160.New()` panics unless `golang.org/x/crypto/ripemd160` is linked into the binary, and none of Block.go, BlockChain.go, Pow.go, Transaction.go, Wallet.go or Server.go imports it. The model assumes it is linked.
- `handleGetBlocks` only forwards `GetBlockHashes` (not part of this model) to `sendInv`, and `handleConnection` never dispatches to it. It is not modelled.
- SHA-256, RIPEMD-160, ECDSA key generation (`NewWallet`, `newKeyPair`) and `rand.Reader` are cryptography and randomness. Hashes are uninterpreted functions with known output lengths. The private key is not modelled.
- Base58.go is not part of this model. Base58 encode and decode are uninterpreted, and their round trip is a hypothesis of the lemmas that need it.
- `time.Now()` in `NewBlock` is a clock, so the timestamp is a parameter.
- The printing in `Run` and all of CLI.go are output and argument parsing only. CLI.go also relies on `DB`, `Iterator`, `FindUTXO` and the wallet file, none of which is defined in those files.
- Pow/Pow.go is an earlier draft of Block/Pow.go that does not compile. It is not modelled.
- `GetBestHeight`, `GetBlockHashes`, `GetBlock` and `FindSpendableOutputs` are called but defined in none of those files. Their results are parameters.
- Transactions.NewUTXOTransaction: Go's map iteration order is unspecified. The selected outputs come as a sequence, and the only ordering claim is one input per (txid, index) pair, in the order given.
- Transactions.NewUTXOTransaction: amounts are unbounded integers, so the overflow of Go's `int` in `acc - amount` is not modelled.
- Server.CommandToBytes: requires an ASCII command of at most 12 bytes. Every call site passes such a literal. The rune decoding of `range` on non-ASCII text, and the panic on a longer command, are not modelled.
- Server.MempoolLacks: nil and empty byte slices are both `[]`. So a mempool entry whose ID is a non-nil empty slice counts as absent, although Go's `== nil` test would say it is present.
