# Verified model of the STOC node's proposal builder, codecs, transaction index and caches

A Dafny 4.11 model of the parts of the chain's Go code whose correctness is a statement about
whole runs, together with proofs. `dafny verify dfyconfig.toml` checks everything.

## What is modelled

**Block proposal builder** (`MempoolIterator`, `IteratorRuns`, `Proposal`, `BuilderLaws`, `CascadeSkip`, `NonceCascade`, `CascadeExact`, `CascadeForms`,
`BuilderTrace`).
The EVM lane is a map from sender to its nonce-ordered bucket behind a heap of bucket heads; the Cosmos lane is a
priority-ordered list. `EVMMempoolIterator` is a class with the original's fields (`evmIterator`, `cosmosIterator`,
`lastReturnedFromEVM`); its methods are proved against functions on the value `Lanes`. `Proposal.PrepareProposal` is the
handler's loop, proved against `Proposal.Run`, which iterates one `Pass`. Verifier and selector are state machines over
arbitrary state types. The plain handler that always calls `Next()` is the same `Run` with `cascade` false.

The cascade skip is shown to save time only (`CascadeSkip.CascadeOnlySavesTime`) under premises written out as
predicates: refusals leave the verifier as it was, EVM transactions convert, heads are totally ordered, and whatever a pop
drops is dead from then on. That the runs avoid the iteration cap is not a premise: with it in reach, the plain selection
is a prefix of the other.

The dead-bucket premise is not automatic. Three results say what to look for in the mempool beforehand:

- `NonceCascade.NonceCascadeExact`, for a verifier that asks every ordered transaction, in either lane, for the next nonce of
  each of its signers: the skip changes nothing if no bucket starts below its account's next nonce while holding
  it further back, and no pending Cosmos transaction carries for an account the sequence before that of a transaction behind
  the head of its bucket. Other checks, with state of their own, the errors they report, and the selector are arbitrary.
- `CascadeExact.CascadeExactIff`, for any verifier whose refusals leave no trace and any selector, the default one that passes
  over what does not fit included, with at most 8192 pending: the selections are equal **if and only if** no bucket hides a
  turn, provided the selector takes something of what is hidden. Visit all pending transactions in the order of the lanes,
  keeping the recorded sequences, and let those the verifier is asked about and accepts have their turn; what the selector
  takes of them is what the plain handler selects (`CascadeExact.PlainSelection`). A bucket hides a turn when it is popped, at
  a transaction the verifier is asked about and refuses for good, and a later transaction of it would get its turn.
  Where nothing is hidden the proviso is empty, so the skip changes nothing for any selector
  (`CascadeExact.NothingHiddenEqual`); where everything in turn fits it holds (`CascadeExact.CascadeExactFits`); and it cannot
  be dropped (`CascadeForms.HiddenWithoutRoom`).
- `CascadeForms.CascadeExactApart`: where only nonces decide, and the accounts whose buckets start off the next nonce have no
  ordered transaction in the Cosmos lane, this reads: no bucket starts below the account's next nonce while holding that nonce
  further back.

All three families of permanent errors in app/permanent_nonce_err.go lose valid transactions. `CascadeForms.LosesValidTx` is a
mempool with a nonce too low in front. In `CascadeForms.LosesAcrossLanes` the first transaction cannot be paid for at the moment, so that
the next one's nonce is too high; in `CascadeForms.LosesByGas` the nonce in front is right but the gas is too low; in both the account's Cosmos transactions fill the gap before
the rest of its bucket is reached.

**Protobuf codec** (`Wire`, `MessageCodec`, `WireBuffer`, `Messages`, `RoundTrip`, `TokenFields`, `TokenBuffer`). Bytes, varints with the
64-bit wrap-around and the ten-group limit, signed 64-bit end indices, the unknown-field skipper with its group depth, and
the generated loops for `Module`, `Token`, `WalletDistribution` and `TokenTax`. Beside the code-shaped functions stands an
independent grammar: a message is a list of `Item`s, a group being a tree. Decoder and skipper are shown to accept exactly
that grammar. The methods of `WireBuffer` and `TokenBuffer` are the index loops and the backwards fill of the generated
code, proved against the functions. Field numbers and wire types follow "Message Structure" of the Protocol Buffers
Encoding specification; decoding merges as "Last One Wins" asks.

**EVM transaction index** (`TxIndexKeys`, `KVIndexer`, `Backfill`). The store is a map from byte keys; its history is a log
of entries, and the store always equals the replay of that log. `Backfill.TxIndexer` is the object, `Backfill.IndexEthTx`
the command. Two facts about the code came out:

- Lookups by (height, index) go through the hash, so a transaction included in two blocks answers for both places with the
  result stored last. `KVIndexer.OwnResultIff` gives the exact condition on the blocks indexed (no later entry of the block
  and no block indexed after it carries the hash), `KVIndexer.RepeatedHashAnswersElsewhere` an instance.
- The help text of `index-eth-tx backward` says that on an empty database it starts from the latest block
  (forks/cosmos-evm-v0.6.0/server/indexer_cmd.go:24); the loop starts one below it. The model follows the code, see
  `Backfill.BackwardFromEmptySkipsLatest`.

**Caches** (`EscrowCache`, `OrphanCache`). The escrow closure is a state machine whose steps are its lock operations, reads
and assignments, interleaved arbitrarily among any number of callers. The orphan check is an LRU list in front of a decoder.

**Small arithmetic and parsing** (`Custody`, `MinGasPrice`, `ChainId`).

## Model

| member | source | states |
|---|---|---|
| MempoolIterator.TopExists | forks/cosmos-evm-v0.6.0/mempool/iterator.go:219-225 | a non-empty EVM lane with ranked heads has a head ahead of all others, so Peek is determined |
| MempoolIterator.EVMMempoolIterator.GetNextEVMTx | forks/cosmos-evm-v0.6.0/mempool/iterator.go:219-225 | returns the head of the best bucket, none exactly when the lane is empty |
| MempoolIterator.EVMMempoolIterator.ShouldUseEVM | forks/cosmos-evm-v0.6.0/mempool/iterator.go:188-217 | the choice of lane: EVM unless the Cosmos head has a strictly higher tip |
| MempoolIterator.EVMMempoolIterator.Tx | forks/cosmos-evm-v0.6.0/mempool/iterator.go:110-127 | hands out the preferred head, falls back to the Cosmos head when conversion fails, changes only the cached lane |
| MempoolIterator.EVMMempoolIterator.Next | forks/cosmos-evm-v0.6.0/mempool/iterator.go:82-105 | advances the lane of the last transaction handed out; returns nil exactly when both lanes are then exhausted |
| MempoolIterator.EVMMempoolIterator.PopCurrentAccount | forks/cosmos-evm-v0.6.0/mempool/iterator.go:147-157 | drops the top bucket if the last transaction came from the EVM lane, otherwise nothing |
| IteratorRuns.RepeatsIffStrayPop | forks/cosmos-evm-v0.6.0/mempool/iterator.go:139-157 | over every run of any client: some transaction is handed out twice if and only if a pop other than the last operation is made on a Cosmos head |
| IteratorRuns.YieldsArePrefixes | forks/cosmos-evm-v0.6.0/mempool/iterator.go:82-157 | for every client that pops on EVM heads only, with or without conversion failures: Cosmos yields are a prefix of the lane, each sender's yields a prefix of its bucket |
| IteratorRuns.NothingTwice | forks/cosmos-evm-v0.6.0/mempool/iterator.go:82-157 | no such client is handed a transaction twice |
| IteratorRuns.HandsOutExactly | forks/cosmos-evm-v0.6.0/mempool/iterator.go:188-278 | Tx() hands out the bucket head with the highest tip (among equals the lowest rank) if it converts and the Cosmos head does not outbid it, else the Cosmos head; the cached lane says which |
| IteratorRuns.CosmosOutbidsIff | forks/cosmos-evm-v0.6.0/mempool/iterator.go:312-353 | for every Cosmos transaction: its tip exceeds an EVM tip exactly when it carries fees, its fee is at least (base fee + tip + 1) times its gas, and the price fits 256 bits |
| IteratorRuns.BondFeeIsLast | forks/cosmos-evm-v0.6.0/mempool/iterator.go:319-326 | the fee that counts is the last coin in the bond denomination |
| IteratorRuns.NoBondFee | forks/cosmos-evm-v0.6.0/mempool/iterator.go:319-326 | coins in other denominations do not count |
| IteratorRuns.UnpaidNeverFirst | forks/cosmos-evm-v0.6.0/mempool/iterator.go:204-216 | a Cosmos head that pays nothing in the bond denomination is never handed out before a best EVM head that converts |
| IteratorRuns.StepShrinks | forks/cosmos-evm-v0.6.0/mempool/iterator.go:147-157 | Next() shrinks the pending set by exactly one, a guarded pop by at least one |
| IteratorRuns.DrainComplete | forks/cosmos-evm-v0.6.0/mempool/iterator.go:82-127 | if all transactions convert, a client of Next() alone receives every pending one, each lane in its order |
| IteratorRuns.DrainsIffAllConvert | forks/cosmos-evm-v0.6.0/mempool/iterator.go:259-272 | a drain is complete if and only if every pending EVM transaction converts |
| IteratorRuns.StuckHeadHidesEvmLane | forks/cosmos-evm-v0.6.0/mempool/iterator.go:259-272 | while a head that does not convert is on top, only the Cosmos lane is handed out and then the run ends |
| Proposal.CheckSignersLoop | app/abci_proposal.go:223-243 | the signer loop computes the sequences to record, or refuses, as the recursive specification |
| Proposal.RecordLoop | app/abci_proposal.go:302-311 | the recording loop's result for any map order: taken sequences, or the sequence before for new signers |
| Proposal.ConsiderTx | app/abci_proposal.go:221-312 | what one transaction does to the block and how the loop goes on |
| Proposal.PrepareProposal | app/abci_proposal.go:149-315 | the whole loop over the iterator object selects and evicts what the run of passes does, for any verifier and selector |
| BuilderTrace.ConsiderEffect | app/abci_proposal.go:221-312 | what one transaction does to selection, eviction list (put there exactly if asked about, refused, and fewer than 1024 are there), sequences and states, and how the loop goes on |
| BuilderTrace.HandlerReport | app/abci_proposal.go:175-315 | what either handler returns, for any verifier and selector: the transactions taken, and the first 1024 turned down, in the order it visits the lanes |
| BuilderTrace.ThirdSight | app/abci_proposal.go:188-210 | a Cosmos transaction seen for the third time in a row is passed over unseen, the second time it is looked at again |
| BuilderTrace.EvmAlwaysSeen | app/abci_proposal.go:188-210 | an EVM transaction never counts as seen before |
| BuilderTrace.PassFailsIff | app/abci_proposal.go:225-230 | the proposal fails exactly at an ordered transaction whose signers cannot be read |
| BuilderLaws.PassShrinks | app/abci_proposal.go:175-210 | every pass that does not end the loop takes a pending transaction out, whether it shifts, pops or is forced on |
| BuilderLaws.RunBounds | app/abci_proposal.go:155-187 | passes are bounded by the pending count and by 8192, the invalid list by 1024, and nothing selected is taken back |
| BuilderLaws.InvalidNeverGates | app/abci_proposal.go:250-263 | the state of the invalid list never changes the course of a run, in particular never stops a pop |
| BuilderLaws.SequenceSafety | app/abci_proposal.go:221-247 | per signer, the selected ordered transactions carry consecutive sequences modulo 2^64, for any lanes, verifier and selector |
| BuilderLaws.RefusedKeepsSlot | app/abci_proposal.go:302-311 | after a capacity refusal every signer of the transaction, new to the block or not, is expected to carry exactly the sequence it carried there, wrap-around at 0 included |
| CascadeSkip.Simulation | app/abci_proposal.go:279-296 | from related states the plain and the skipping run keep related blocks to the end |
| CascadeSkip.CascadeOnlySavesTime | app/abci_proposal.go:279-296 | when popped remainders are dead: the plain selection is a prefix of the skipping one, and equal with at most 8192 pending |
| NonceCascade.DeadRest | app/abci_proposal.go:265-291 | the rest of a bucket is dead if none of it carries a nonce its account can get to, by the nonce as it is or by a pending Cosmos transaction, and only if those carrying the next nonce would be refused anyway |
| NonceCascade.NonceCascadeExact | app/abci_proposal.go:265-296 | with a nonce-checking verifier and no bucket holding a transaction whose turn can come behind a head that can be popped, skipping changes nothing, whatever other checks with their own state, their errors and the selector do |
| CascadeExact.PlainSelection | app/abci_proposal.go:175-315 | for any selector and any verifier whose refusals leave no trace, the plain handler selects exactly what is taken when the lanes are visited in their order |
| CascadeExact.CascadeExactIff | app/abci_proposal.go:265-296 | for the same verifiers and selectors and at most 8192 pending: the selections are equal if and only if no bucket hides a turn (is popped while a later transaction of it would get its turn), provided of every bucket that hides turns something is taken |
| CascadeExact.NothingHiddenEqual | app/abci_proposal.go:265-296 | hence, with no proviso: where no bucket hides a turn the skip changes nothing |
| CascadeExact.CascadeExactFits | app/abci_proposal.go:265-315 | and where everything in turn fits until the selector stops, the condition is exact as it stands |
| CascadeForms.CascadeExactApart | app/permanent_nonce_err.go:5-30 | where only nonces decide and accounts whose buckets start off the next nonce have no ordered Cosmos transaction pending: equal if and only if no bucket starts below the next nonce while holding it further back |
| CascadeForms.LosesValidTx | app/permanent_nonce_err.go:22-30 | a concrete mempool in which a nonce too low takes a valid transaction down with it |
| CascadeForms.LosesAcrossLanes | app/permanent_nonce_err.go:22-30 | a concrete mempool in which a nonce too high does, behind one that cannot be paid for at the moment, because the account's Cosmos transactions fill the gap later |
| CascadeForms.LosesByGas | app/permanent_nonce_err.go:22-30 | a concrete mempool in which an intrinsic-gas refusal at the right nonce does |
| CascadeForms.HiddenWithoutRoom | app/abci_proposal.go:298-311 | a concrete mempool and a selector without room: a turn is hidden and the selections agree, so the proviso on the selector cannot be dropped |
| Wire.SovIsLength | stoc/module/module.pb.go:146-148 | the bit-length formula is the number of bytes the encoder writes |
| Wire.VarintRoundTrip | stoc/module/module.pb.go:122-132 | decoding an encoded uint64 returns it and its exact length, whatever follows |
| Wire.ReadVarintExact | stoc/module/module.pb.go:157-171 | the varint loop succeeds exactly on inputs that start with one varint of at most ten groups, and yields its value modulo 2^64 |
| Wire.ReadVarintFails | stoc/module/module.pb.go:157-171 | reading a varint fails as unexpected end exactly within a varint of fewer than ten groups, as overflow exactly on ten continued groups |
| Wire.SkipComplete | stoc/module/module.pb.go:234-311 | the skipper returns the exact length of every well-formed field |
| Wire.SkipSound | stoc/module/module.pb.go:234-311 | what the skipper accepts inside the buffer is one well-formed field, its groups balanced |
| Wire.SkipExact | stoc/module/module.pb.go:234-311 | the skipper stops after n bytes if and only if those are one well-formed field |
| Wire.SkipErrors | stoc/module/module.pb.go:234-311 | how skipping fails at the first record: stray end marker, illegal wire type, wrapped length, or a broken varint |
| MessageCodec.FieldNumber | stoc/module/module.pb.go:172-173 | the signed 32-bit number congruent to the tag without its wire type |
| MessageCodec.FieldNumberOf | stoc/module/module.pb.go:172-173 | a tag made of a number below 2^29 and a wire type has that number |
| MessageCodec.FieldErrors | stoc/module/module.pb.go:174-184 | a field fails as end group, illegal tag or wrong wire type exactly by its tag and the table |
| MessageCodec.PayloadErrors | stoc/module/module.pb.go:199-211 | a payload fails as invalid length exactly when its end wraps, as unexpected end exactly when it passes the buffer, and is else the bytes in between |
| MessageCodec.DecodeRendered | stoc/module/module.pb.go:152-233 | decoding a list of accepted fields is applying them in order, errors included |
| MessageCodec.DecodeParses | stoc/module/module.pb.go:152-233 | whatever decodes splits into accepted fields with that meaning |
| MessageCodec.DecodeExact | stoc/module/module.pb.go:152-233 | Unmarshal succeeds with r if and only if the bytes are accepted fields whose effects give r |
| MessageCodec.NextFieldLocal | stoc/module/module.pb.go:155-227 | parsing a field depends neither on the bytes after it nor on its position |
| MessageCodec.DecodeConcat | stoc/module/module.pb.go:152-233 | decoding a then b into one message equals decoding a ++ b, errors included |
| MessageCodec.DecodeAnywhere | stoc/module/module.pb.go:152-233 | whether decoding succeeds, and with what message, does not depend on where in a larger buffer the bytes lie |
| WireBuffer.EncodeVarintAt | stoc/module/module.pb.go:122-132 | writes the varint so that it ends at the offset, in the computed size, and touches no other byte |
| WireBuffer.ReadVarintAt | stoc/module/module.pb.go:157-171 | the shift loop from any index computes the varint, or the same error |
| WireBuffer.SkipPayload | stoc/module/module.pb.go:255-302 | the switch on the wire type finds the record's end |
| WireBuffer.SkipModule | stoc/module/module.pb.go:234-311 | the skipper's loop with its depth counter terminates on every input and equals the recursive skipper |
| WireBuffer.ReadFieldAt | stoc/module/module.pb.go:156-227 | one pass of the Unmarshal loop never leaves the buffer and reads exactly one field |
| WireBuffer.Unmarshal | api/stoc/stoc/token.pulsar.go:1612-1725 | the generated loop equals the specification for every message table |
| RoundTrip.ModuleRoundTrip | stoc/module/module.pb.go:92-144 | Module survives marshal and unmarshal |
| RoundTrip.ModuleLastWins | stoc/module/module.pb.go:181-227 | Authority ends as the payload of the last field 1; unknown fields leave no trace |
| RoundTrip.DistributionRoundTrip | api/stoc/stoc/token.pulsar.go:1541-1725 | WalletDistribution survives the round trip with its unknown bytes |
| RoundTrip.TaxRoundTrip | api/stoc/stoc/token.pulsar.go:2493-2693 | TokenTax survives the round trip with its unknown bytes |
| RoundTrip.TokenRoundTrip | api/stoc/stoc/token.pulsar.go:660-1257 | every Token survives: 13 fields, repeated order, absent versus empty Tax, unknown bytes at all levels |
| RoundTrip.DecodedToken | api/stoc/stoc/token.pulsar.go:798-1257 | everything that decodes is in the domain of the round trip: uint32 in range, unknown bytes whole fields with other numbers |
| RoundTrip.TokenReencode | api/stoc/stoc/token.pulsar.go:660-1257 | any accepted bytes, canonical or not, with unknown fields kept or dropped: writing the token and reading it gives the same token |
| TokenFields.TokenReadsStrings | api/stoc/stoc/token.pulsar.go:830-1230 | into which string field of a token the field of each number is read, bytes written out, replacing what was held |
| TokenFields.TokenReadsNumbers | api/stoc/stoc/token.pulsar.go:997-1202 | Decimals is read modulo 2^32, Unlimited as non-zero |
| TokenFields.TokenReadsNested | api/stoc/stoc/token.pulsar.go:1048-1117 | a distribution is appended, Tax replaced or merged, each as its own unmarshal says |
| TokenFields.NestedReads | api/stoc/stoc/token.pulsar.go:1612-1725 | the fields of the nested messages |
| TokenFields.UnlistedInToken | api/stoc/stoc/token.pulsar.go:1233-1250 | a field of any wire type with a number above 13 changes no known field; its bytes are kept, or dropped if asked |
| TokenFields.UnlistedInNested | api/stoc/stoc/token.pulsar.go:1701-1718 | the same for numbers above 2 in the nested messages |
| TokenFields.UnlistedInModule | stoc/module/module.pb.go:213-227 | a field with a number above 1 leaves no trace in a module config |
| TokenFields.NewerField | api/stoc/stoc/token.pulsar.go:1233-1250 | for instance a delimited field of a newer schema, spelled out in bytes |
| TokenFields.TokenWrites | api/stoc/stoc/token.pulsar.go:660-797 | each field alone: its number and wire type, and nothing for a default value |
| TokenFields.NestedWrites | api/stoc/stoc/token.pulsar.go:1570-1611 | the repeated and the nested field, and the fields of the nested messages |
| TokenFields.TokenInOrder | api/stoc/stoc/token.pulsar.go:660-797 | a token is written field by field in the order of the numbers, unknown bytes last |
| TokenFields.TokenLastWins | api/stoc/stoc/token.pulsar.go:798-1257 | however the fields come, each string field ends as the payload of the last one with its number, Decimals and Unlimited as the value of the last with theirs |
| TokenBuffer.TokenSize | api/stoc/stoc/token.pulsar.go:586-658 | the computed size is the length of the encoding |
| TokenBuffer.PutDistributions | api/stoc/stoc/token.pulsar.go:725-740 | the loop from the last element down writes the repeated field in order in front of what is there |
| TokenBuffer.MarshalDistribution | api/stoc/stoc/token.pulsar.go:1570-1611 | the backwards fill of a nested message yields its encoding |
| TokenBuffer.MarshalTax | api/stoc/stoc/token.pulsar.go:2523-2566 | the backwards fill of a nested message yields its encoding |
| TokenBuffer.MarshalToken | api/stoc/stoc/token.pulsar.go:660-797 | a buffer of exactly the computed size is filled down to index 0 with the encoding |
| TokenBuffer.TokenMessage.Unmarshal | api/stoc/stoc/token.pulsar.go:798-1257 | decodes into the message held before; after an error it holds what the fields before the faulty one made of it, and of that one the bits of Decimals or the nested fields read so far |
| TokenBuffer.HalfReadOnly | api/stoc/stoc/token.pulsar.go:1001-1117 | what a faulty field leaves: the bits of Decimals read (6), one more distribution (8) or Tax (9) as their own unmarshal left them, and nothing else |
| TokenBuffer.LeftStops | api/stoc/stoc/token.pulsar.go:1612-1725 | an unmarshal that fails leaves what the faulty field makes of the message the fields before it made |
| TokenBuffer.HalfDistributionIs | api/stoc/stoc/token.pulsar.go:1687 | a half-read distribution has the bits of its percentage that were read |
| TokenBuffer.HalfUintMeans | api/stoc/stoc/token.pulsar.go:1001-1016 | a half-read Decimals is what the groups there are would mean if a zero one closed them |
| TokenBuffer.ModuleMessage.MarshalToSizedBuffer | stoc/module/module.pb.go:107-121 | writes the encoding at the end of the buffer, returns its length, changes nothing in front |
| TokenBuffer.ModuleMessage.Marshal | stoc/module/module.pb.go:92-101 | a fresh buffer of the computed size holds the encoding |
| TokenBuffer.ModuleMessage.Unmarshal | stoc/module/module.pb.go:152-233 | assigns Authority field by field and ends as the specification says; after an error it holds what the fields before the faulty one made of it |
| TxIndexKeys.BigEndianOrder | forks/cosmos-evm-v0.6.0/indexer/kv_indexer.go:170-174 | byte order of fixed-width big-endian numbers is numeric order |
| TxIndexKeys.KeyOrder | forks/cosmos-evm-v0.6.0/indexer/kv_indexer.go:170-174 | key order is the numeric order of (height, index), and keys determine the pair |
| TxIndexKeys.ParseOfKey | forks/cosmos-evm-v0.6.0/indexer/kv_indexer.go:227-233 | the block number is read back from a key; keys of any length but 17 have none |
| KVIndexer.EntriesNumbered | forks/cosmos-evm-v0.6.0/indexer/kv_indexer.go:57-116 | a block's entries are numbered 0 .. n-1 without holes, whatever is passed over |
| KVIndexer.EntriesDescribeBlock | forks/cosmos-evm-v0.6.0/indexer/kv_indexer.go:57-116 | the entries come in block order from exactly the messages that produce one, each with its hash, position, failure, gas and the gas summed within its transaction |
| KVIndexer.KeysApart | forks/cosmos-evm-v0.6.0/indexer/kv_indexer.go:165-174 | the two kinds of keys: prefixes 1 and 2, lengths, and no key of both kinds |
| KVIndexer.LookupByHash | forks/cosmos-evm-v0.6.0/indexer/kv_indexer.go:137-149 | a lookup by hash returns the result last written for it, an all-zero one reading as missing |
| KVIndexer.LookupFollowsLastWrite | forks/cosmos-evm-v0.6.0/indexer/kv_indexer.go:137-162 | after any writes every (height, index) entry points to a stored result: the one last written for the hash last written there |
| KVIndexer.LookupsAgree | forks/cosmos-evm-v0.6.0/indexer/kv_indexer.go:152-162 | with unique hashes, (h, k) finds the k-th indexed message of block h, numbered and dated so, and nothing beyond |
| KVIndexer.ReindexIff | forks/cosmos-evm-v0.6.0/indexer/kv_indexer.go:52-124 | over any run of blocks, indexing a block again changes nothing if and only if no block indexed after its last indexing carries one of its hashes |
| KVIndexer.ReindexChangesNothing | forks/cosmos-evm-v0.6.0/indexer/kv_indexer.go:52-124 | with unique hashes, indexing a block of the chain again leaves the store as it is |
| KVIndexer.OwnResultIff | forks/cosmos-evm-v0.6.0/indexer/kv_indexer.go:152-162 | over any run of blocks, a lookup of the k-th indexed message of a block gives that message's own result if and only if neither a later entry of the block nor any block indexed after its last indexing carries the hash |
| KVIndexer.RepeatedHashAnswersElsewhere | forks/cosmos-evm-v0.6.0/indexer/kv_indexer.go:152-162 | a transaction failing in block 1 and included again in block 2: the lookup of block 1 answers with block 2 |
| Backfill.TxIndexer.IndexMsgs | forks/cosmos-evm-v0.6.0/indexer/kv_indexer.go:81-116 | the message loop adds its transaction's entries to the batch and moves the 32-bit index on |
| Backfill.TxIndexer.IndexBlock | forks/cosmos-evm-v0.6.0/indexer/kv_indexer.go:52-124 | the store gains exactly the block's entries, or nothing when the batch cannot be written |
| Backfill.TxIndexer.LoadFirstBlock | forks/cosmos-evm-v0.6.0/indexer/kv_indexer.go:190-200 | the least key gives the lowest recorded height, -1 if there is none |
| Backfill.TxIndexer.LoadLastBlock | forks/cosmos-evm-v0.6.0/indexer/kv_indexer.go:177-187 | the greatest key gives the highest recorded height, -1 if there is none |
| Backfill.Extremes | forks/cosmos-evm-v0.6.0/indexer/kv_indexer.go:177-200 | lowest and highest are attained, bound all records, and are -1 exactly for an empty index |
| Backfill.IndexEthTx | forks/cosmos-evm-v0.6.0/server/indexer_cmd.go:84-112 | both loops, stopping at the first error; success exactly when every height in reach can be indexed |
| Backfill.CommandKeepsNoGap | forks/cosmos-evm-v0.6.0/server/indexer_cmd.go:84-112 | one command, complete or interrupted, leaves no gap |
| Backfill.BackfillNeverLeavesGap | forks/cosmos-evm-v0.6.0/server/indexer_cmd.go:23-29 | after any mix of runs every height between first and last record has been indexed |
| Backfill.BackwardCompletes | forks/cosmos-evm-v0.6.0/server/indexer_cmd.go:94-98 | a backward run without errors completes the index down to height 1 and records what the blocks hold |
| Backfill.ForwardCompletes | forks/cosmos-evm-v0.6.0/server/indexer_cmd.go:99-112 | a forward run without errors completes the index up to the store's height, from block 1 on if it was empty, and records what the blocks hold |
| Backfill.BackwardFromEmptySkipsLatest | forks/cosmos-evm-v0.6.0/server/indexer_cmd.go:90-98 | after a backward run on an empty index the latest block has been indexed if and only if it had been before |
| EscrowCache.StepKeepsInv | app/app.go:660-696 | every atomic step of every caller keeps lock exclusion and cache coverage |
| EscrowCache.CallCarriesInput | app/app.go:625-660 | in every interleaving a call under way carries the height, ends and kind of amount it was last made with |
| EscrowCache.LookupUsesFreshCache | app/app.go:660-696 | in every interleaving a lookup by a call made in block h uses a cache of height h or later that covers all transfer channels opened before h |
| EscrowCache.NoEscrowSendAccepted | app/app.go:692-728 | no call made with a custom token to or from such an escrow returns accepted |
| EscrowCache.OnlyEscrowSendRefused | app/app.go:692-728 | the other direction: a call that returns refused was made with a custom token and has at one end the escrow of a transfer channel that was visible, committed or not, in a block the cache has reached |
| EscrowCache.SomeoneMoves | app/app.go:661-696 | no interleaving deadlocks: while a call is under way some caller's step goes through |
| EscrowCache.CacheHeightMonotone | app/app.go:666-688 | the cache height never decreases |
| OrphanCache.OrphanChecker.IsOrphanEVMTx | forks/cosmos-evm-v0.6.0/mempool/mempool.go:494-532 | the answer and the cache left behind; a cache filled by earlier calls answers as a fresh decoding, within its capacity |
| OrphanCache.RunTransparent | forks/cosmos-evm-v0.6.0/mempool/mempool.go:494-532 | over every run of queries, insertions, removals and evictions the answers are those without a cache |
| OrphanCache.TransparentIff | forks/cosmos-evm-v0.6.0/mempool/mempool.go:500-506 | transparency holds if and only if transactions sharing a key with a decodable one decode alike |
| OrphanCache.AskRecency | forks/cosmos-evm-v0.6.0/mempool/mempool.go:500-531 | every query that decodes makes its line the most recent, keeps the order of the others, and drops the least recent only from a full cache; a decode error changes nothing |
| Custody.CustomDenomExact | app/app.go:767-780 | the fast path finds a custom token exactly when there is one |
| Custody.RestrictionExact | app/app.go:764-803 | a send passes exactly when it carries no custom token or both ends may hold one |
| Custody.NextInCustody | app/app.go:764-852 | one event from a state in custody keeps it exactly if it does not give an account holding custom tokens a kind that may not hold them; the restriction itself never breaks it |
| Custody.CustodyIff | app/app.go:759-852 | over every run of send attempts and stored accounts, every state is in custody if and only if no account holding custom tokens is given such a kind; a plain account stored on first receipt is fine |
| Custody.CustodyKept | app/app.go:759-852 | hence custom tokens stay on wallets and the x/stoc module |
| Custody.MovesExact | app/app.go:764-803 | moving coins between two accounts succeeds exactly if the funds suffice, and takes from the one what it gives to the other, denom by denom |
| Custody.SendExact | app/app.go:764-803 | a send is carried out in full and with no other effect on balances exactly if it is let through and the funds suffice; else nothing moves |
| Custody.TotalsConserved | app/app.go:764-803 | the total of every denom is unchanged by any run |
| MinGasPrice.FeeBound | app/ante/cosmos_min_gas_price.go:77-83 | the demand differs from the exact product by less than one unit plus half a decimal unit per gas |
| MinGasPrice.FeeExact | app/ante/cosmos_min_gas_price.go:77-83 | it is the exact ceiling when the price is a multiple of the conversion step |
| MinGasPrice.FeeMonotone | app/ante/cosmos_min_gas_price.go:77-83 | it is monotone in price and gas |
| MinGasPrice.DivRoundNearest | app/ante/cosmos_min_gas_price.go:77 | the converted price is the nearest one, and of two equally near the even one |
| MinGasPrice.PassesExactly | app/ante/cosmos_min_gas_price.go:56-114 | exactly which transactions pass |
| MinGasPrice.RejectsExactly | app/ante/cosmos_min_gas_price.go:59-112 | exactly which are turned away for their type, their coins, or too low a fee |
| ChainId.AcceptsCanonical | app/evm.go:341-361 | every name, '_', canonical positive uint64, optional version is accepted with its number |
| ChainId.AcceptedIsCanonical | app/evm.go:341-361 | every accepted id has that shape |
| ChainId.ChainIdExact | app/evm.go:341-361 | both directions in one statement |
| ChainId.PrintParse | app/evm.go:341-361 | parsing a printed id gives the number back |
| ChainId.NoLeadingZero | app/evm.go:352 | a decimal has no leading zero |
| ChainId.OnlyDecimal | app/evm.go:352 | of all digit strings for a number, the decimal is the one without leading zeros |
| ChainId.NonCanonicalIff | app/evm.go:349-357 | an id is refused as non-canonical exactly when the digits of a positive uint64 there have a zero in front |

## Left out

- IteratorRuns.NothingTwice: for clients that pop only while CurrentIsEVM() holds, as the handler does; for the others it is false, and IteratorRuns.RepeatsIffStrayPop says exactly when.
- CascadeExact.CascadeExactIff: gives no condition where a bucket hides turns and the selector has room for none of them; the verifier and the selector have then seen transactions in one run that they have not seen in the other.
- KVIndexer.LookupsAgree: asks for unique hashes across blocks; without them KVIndexer.OwnResultIff is the exact condition.
- EscrowCache.OnlyEscrowSendRefused: allows for channels opened by transactions that are reverted or only checked; the rebuild can cache those for the rest of the block, as it can in the code.
- EscrowCache.NoEscrowSendAccepted: covers channels opened before the caller's block; a channel opened earlier within the same block is the residual the code comment names.
- EscrowCache.SomeoneMoves: freedom from deadlock only; fairness of the lock and the writer preference of sync.RWMutex are not modelled.
- Custody.CustodyKept: the account keeper is not part of this model; that it gives no account holding custom tokens a forbidden kind is a premise, and by Custody.CustodyIff the exact one.
- MinGasPrice.FeeBound: states the rounding of decimals (half to even at 18 digits) as given; cosmossdk.io/math is not part of this model, nor its overflow panics.
- MempoolIterator.TopExists: bucket heads of equal tip are told apart by a rank (arrival time) that differs between senders; the heap itself (TransactionsByPriceAndNonce) is not part of this model and appears as Peek, Shift and Pop.
- Calling Next() or PopCurrentAccount() before Tx(), a Cosmos-only iterator, the no-op mempool fast path, and the removal of invalid transactions after the loop.
- Panics, recovery and poison eviction in the handler: they arise inside libraries. A zero gas limit makes the tip division panic; the model's Cosmos transactions have gas of at least 1.
- Negative coin amounts in fees, and the matching of error texts by substring: a refusal is simply permanent or not.
- Transaction verifier, selector, signer extraction, unordered flags and EVM-to-SDK conversion are parameters with no more contract than a theorem names.
- The runtime's Skip, Sov and EncodeVarint used by token.pulsar.go are not part of this model; they are taken to do what the functions of module.pb.go do. Whether its nested unmarshal merges or clears, and whether unknown fields are dropped, are parameters.
- Nil receivers, marshal appending to a caller's buffer, deterministic-map options, and buffers of 2^63 bytes or more in the codec. Setting bits with `|=` is written as addition below the next weight.
- UTF-8 validity and other reading of string fields: they are byte strings here.
- Decoding of transactions, parsing of events and the codec of TxResult in the indexer; database errors are one flag of the batch write. Heights are below 2^63 and blocks hold fewer than 2^31 indexed messages.
- The indexer's background service (indexer_service.go), JSON-RPC and websocket servers, metrics and logging.
- The x/stoc and x/evmutil keepers, the authz screen, multisig gas, pending-transaction cap, ante chain assembly, upgrades, genesis export and CLI commands.
- The query, genesis and params codecs and ReleaseRecipient: they repeat the same shapes and would only add easy members; likewise the reflection methods.
- Hash functions, signatures and address derivation: abstract values or functions.
