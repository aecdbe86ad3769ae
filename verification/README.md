# A verified model of the push-snode storage node

push-snode keeps signed blocks of messages for the wallets of its shards. Validators queue finished blocks, storage
nodes read the queues, store every block once, and file its transactions into inboxes; when the contract moves
shards, a node copies the missing blocks from its peers and expires what it no longer serves. This project models
those protocols in Dafny and proves what they keep.

`dafny verify dfyconfig.toml` checks everything. The modules follow the program:

| file | models |
|---|---|
| `Bytes`, `Wire`, `Messages`, `MessageIO` | the protobuf messages of a block: records, printing, reading, the reader and writer loops |
| `Crypto`, `TxChecks` | signatures and hashes as a value the theorems quantify over; CAIP addresses and transaction checks |
| `Signing`, `BlockChecks` | signing, attesting, appending patches, recovering every signer; the three block checks |
| `ReplicatedQueue` | the append-only queue, its non-atomic reads, and the polling client |
| `BlockStore` | storing a block once under concurrent and repeated calls; what a consumer's table and inboxes hold, with errors anywhere |
| `Inbox` | the shards a block touches, and the inbox rows written for it |
| `ShardState`, `Reshard`, `BitUtil` | masks, the inverse index, what to ask of which node, reshard steps and their history |
| `SyncStatus`, `PeerSync`, `ShardSync` | copying blocks from peers that answer anything, the status of the copy, and what a fixed snapshot leads to |
| `Expiry`, `KeysetPaging`, `ListUtil` | batched updates and deletes, listing transactions with ties; pages and lists |
| `RandomSample` | sampling through a sparse array |

## How things are represented

- A Postgres table is a map or sequence held by a class; a query is a function of it. Where the code leaves an order
  open (`LIMIT` without `ORDER BY`, equal timestamps), the order is a parameter or an arbitrary choice.
- Calls that interleave with others take what happened in between as a parameter (`between`, `arriving`), and whole
  runs are sequences of steps over a small state.
- `Crypto.Scheme` stands for the libraries. Theorems that need it say which assumption they use: `Sound` (recovering
  from a signature gives the signer), `Binds` (one signature does not recover to its signer over one other message),
  `CollisionFree` (SHA-256 is injective), `Injective` (proved for the protobuf serialization). One scheme meets them
  all (`Crypto.AssumptionsHoldTogether`).
- Strings are their UTF-8 bytes. Thrown errors are `None`, `Throws` or a false result.

## Where the code does not do what one might expect

Each of these is proved, with the exact condition where there is one.

- `recoverPatchAddress` keeps the whole signer list, so a patch is recognised iff no other patch was appended before
  (`Signing.PatchRecoveredIffFirst`; `Signing.SecondPatchIsNotRecognised` is an instance).
- `StorageNode.accept` drops the result of `handleBlock`, so no item is ever reported as new: one that is stored
  returns what a known one returns (`BlockStore.StorageNode.Accept`, `BlockStore.StorageNode.ConsumeItems`). A block
  whose unpacking throws stays stored and is never unpacked again (`BlockStore.FailedUnpackIsNotRetried`).
- The client logs an `accept` that throws and moves its offset past the item, so a row whose storing failed is never
  handed over again by that queue (`BlockStore.FailedRowIsLost`). The hash of a row that was passed is stored iff it was
  there before or some item handed over that offers it did not fail (`BlockStore.ReplicatedRowsAreStored`).
- When a block and a node share no shard, every wallet is unpacked (`Inbox.DisjointWritesEverything`).
- A reshard that only removes shards is not recorded, so a shard that is lost and regained is not asked for again
  although its data was set to expire (`Reshard.RegainedShardIsNotSynced`, `Reshard.GainIsSyncedIff`). A missing
  assignment throws while it is being logged, so the fallback to an empty set is never used.
- Expiry and deletion match rows by hash alone, so rows of shards the node keeps are deleted too
  (`Expiry.RowsLost` says which, `Expiry.KeptRowIsLost` is an instance).
- A page request that a peer answers with an error object reads as an empty page: the shard is recorded as copied
  (`ShardSync.RecordedIsCompleteIff`).
- The shards already recorded are turned into texts before they are compared with the listed ids, which are numbers.
  A shard is left out iff its id is the text of a recorded one (`SyncStatus.ConstructNodeShardMap`), so never:
  recorded shards are served again and recorded once more (`PeerSync.PassRecords`). A view becomes SYNCED by number, not
  by which shards are recorded (`SyncStatus.SyncedIffCountReached`), so the status of a row that is not SYNCED is right
  after every pass iff the row had nothing recorded (`SyncStatus.StatusRightIffFresh`;
  `SyncStatus.ResumedRowIsSyncedTooEarly` is an instance).
- `lastTs` is in milliseconds and `firstTs` in seconds: handed back unconverted it is refused, or the listing starts
  over (`KeysetPaging.UnconvertedCursorRestarts`). Paging is complete for times in whole milliseconds, which are the
  only ones written; `KeysetPaging.NextCursorExactIff` gives the condition for any times, and
  `KeysetPaging.UnalignedTimesRepeat` times that fail it.
- The update of block expiry pages through an order it does not fix: it reaches all selected blocks whatever the
  queries' orders iff one page holds them (`Expiry.UpdateReachesAllIff`; `Expiry.OrderChangeMisses` is an instance).
  The batches over inbox rows reach all rows with a hash of the shards iff each such hash has, in one of the shards, all
  but fewer than 1000 of the rows (`Expiry.BatchesReachAllIff`).
- Expired blocks are deleted under a moving offset, so one run removes everything iff one page holds it
  (`Expiry.AtLeastHalf`).

## Model

| member | source | states |
|---|---|---|
| Wire.ParsePrinted | src/generated/push/block_pb.js:1396-1435 | Records printed one after the other are read back as the same records, for any records and any payloads. |
| Wire.MessageEnds | src/generated/push/block_pb.js:1396-1401 | After any records an end-group tag ends the message, whatever follows; wire types 3, 6 and 7 and a record cut short make it unreadable. |
| Wire.FoldSkips | src/generated/push/block_pb.js:1419-1422 | Records with unknown numbers leave the message being read as it is. |
| Messages.TxRoundTrip | src/generated/push/block_pb.js:2633-2768 | Reading a written transaction gives the transaction, with default fields skipped and recipients in order. |
| Messages.ValidatorDataRoundTrip | src/generated/push/block_pb.js:658-720 | Reading written validator data gives it back, for every vote number. |
| Messages.AttestorDataRoundTrip | src/generated/push/block_pb.js:838-886 | Reading written attestor data gives it back. |
| Messages.TxObjRoundTrip | src/generated/push/block_pb.js:978-1053 | Reading a written transaction object gives it back, nested messages and votes included. |
| Messages.SignerRoundTrip | src/generated/push/block_pb.js:1230-1278 | Reading a written signer gives it back. |
| Messages.BlockRoundTrip | src/generated/push/block_pb.js:1396-1480 | Reading a written block gives the block, although field 4 is written between 1 and 2. |
| Messages.BlockEncodingInjective | src/generated/push/block_pb.js:1448-1480 | Two blocks with the same bytes are the same block. |
| Messages.TxEncodingInjective | src/generated/push/block_pb.js:2703-2768 | Two transactions with the same bytes are the same transaction. |
| Messages.TxBytes | src/generated/push/block_pb.js:2703-2768 | The bytes of a transaction, tag by tag: nine fields in order, empty ones left out, one chunk per recipient. |
| Messages.VoteBytes | src/generated/push/block_pb.js:689-720 | The bytes of votes and signers, tag by tag; a negative vote is its 64-bit complement. |
| Messages.TxObjBytes | src/generated/push/block_pb.js:1027-1053 | The bytes of a transaction object, tag by tag, with its nested messages. |
| Messages.BlockBytes | src/generated/push/block_pb.js:1448-1480 | The bytes of a block, tag by tag; field 4 comes second. |
| Messages.ReadNumbers | src/generated/push/block_pb.js:1396-1435 | Any number reads modulo 2^32 as a type and modulo 2^64 as a time, as a signed 64-bit vote; the last value of a repeated single field wins. |
| Messages.UnknownFieldsSkipped | src/generated/push/block_pb.js:1396-1435 | For each of the six messages, what is read depends on the records with known numbers only. |
| Messages.LeafWithExtensions | src/generated/push/block_pb.js:2633-2690 | A transaction, validator data, a vote or a signer written with added records reads as the one without. |
| Messages.TxObjWithExtensions | src/generated/push/block_pb.js:978-1017 | The same for a transaction object, with records added to it and inside its nested messages. |
| Messages.BlockWithExtensions | src/generated/push/block_pb.js:1396-1435 | Records with unknown numbers, added to a written block or to the messages nested in it at any depth, do not change what is read. |
| MessageIO.DeserializeFromReader | src/generated/push/block_pb.js:1396-1435 | The reader loop, one field at a time over the bytes, computes the decoding function of any of the messages. |
| MessageIO.SerializeTransaction | src/generated/push/block_pb.js:2703-2768 | The field writes produce the encoding of the transaction. |
| MessageIO.SerializeTransactionObj | src/generated/push/block_pb.js:1027-1053 | The field writes produce the encoding of the transaction object with its nested messages. |
| MessageIO.SerializeBlock | src/generated/push/block_pb.js:1448-1480 | The field writes produce the encoding of the block. |
| MessageIO.CloneByBytes | src/services/messaging-common/blockUtil.ts:414-414 | Serializing and reading back always succeeds and copies the block exactly. |
| Crypto.ProtobufInjective | src/generated/push/block_pb.js:1448-1480 | The protobuf serialization has the injectivity the signature theorems assume. |
| Crypto.AssumptionsHoldTogether | src/services/messaging-common/blockUtil.ts:431-462 | A scheme exists that meets every assumption of the signature theorems at once, for all keys and messages. |
| Signing.BlockObject.SignAsValidator | src/services/messaging-common/blockUtil.ts:367-379 | Throws iff there are signers already; otherwise every transaction has the vote 1 and no attestations, its content is kept, and the one signer signed that block. |
| Signing.BlockObject.SignAsAttestor | src/services/messaging-common/blockUtil.ts:382-402 | Leaves the block alone and makes a patch: one vote 1 per transaction and a signature over the clone that holds the validator's signature and these votes. |
| Signing.AttestorPatchIsPatch | src/services/messaging-common/blockUtil.ts:382-402 | The patch an attestor makes is one of those the round trip speaks of. |
| Signing.BlockObject.AppendPatch | src/services/messaging-common/blockUtil.ts:405-411 | Adds one vote to each transaction, at its end, and one signer; a transaction the patch has no vote for gets an undefined one, after which serializing throws. |
| Signing.BlockObject.RecoverPatchAddress | src/services/messaging-common/blockUtil.ts:413-429 | Recovers from the block with the patch's votes and all its signers. |
| Signing.BlockObject.RecoverSignerAddress | src/services/messaging-common/blockUtil.ts:431-462 | Recovers from the part of the block that the indexed signer signed. |
| Signing.BlockObject.Assemble | src/services/messaging-common/blockUtil.ts:367-462 | A validator and any attestors sign and patch a block object; then each index recovers its signer, attestations match signers, and every attestor voted 1. |
| Signing.AttestationRoundTrip | src/services/messaging-common/blockUtil.ts:367-462 | For any number of patches with any votes in any order, signer 0 is the validator and signer i the i-th appended attestor. |
| Signing.AttestationsMatchSigners | src/services/messaging-common/blockUtil.ts:405-411 | After any appends each transaction has one attestation fewer than the block has signers. |
| Signing.ValidatorRecovered | src/services/messaging-common/blockUtil.ts:433-445 | The validator is recovered whatever patches were appended. |
| Signing.SignatureCoversSignedPart | src/services/messaging-common/blockUtil.ts:431-462 | A signer's signature, found at any place of any other block, recovers to its author iff that place has the same kind and time, token, transactions, validator data and, for an attestor, the validator's signature and the signer's own votes are the same; if it binds the two messages. |
| Signing.SignedPartsEqualIff | src/services/messaging-common/blockUtil.ts:433-457 | The parts two signers sign are equal iff those fields are. |
| Signing.TamperingIsNoticed | src/services/messaging-common/blockUtil.ts:367-462 | In a block that carries the signatures of an assembled one every index recovers its signer iff it is the assembled block, up to votes beyond those of the signers; if each signature binds its two messages. |
| Signing.PatchRecoveredIffFirst | src/services/messaging-common/blockUtil.ts:413-429 | A patch is recognised iff the block has no other patch yet, if its signature binds the two messages. |
| Signing.SecondPatchIsNotRecognised | src/services/messaging-common/blockUtil.ts:413-429 | For one sound scheme and any block and keys: the second of two patches is recognised before the first is appended and not after. |
| BlockChecks.CheckBlockAsAttestor | src/services/messaging-common/blockUtil.ts:464-526 | Ok iff token, counts, age, every transaction, total size, attestation counts and the validator's registration hold; what a transaction must satisfy is TxChecks.Acceptable. |
| BlockChecks.CheckBlockFinalized | src/services/messaging-common/blockUtil.ts:528-578 | Ok iff the limits hold, signers are as many as required, every vote is known and every signer is registered. |
| BlockChecks.CheckBlockAsSNode | src/services/messaging-common/blockUtil.ts:580-598 | Ok iff signers are as many as required, at least one, and all registered. |
| BlockChecks.AcceptedIff | src/services/messaging-common/blockUtil.ts:464-578 | For any block: accepted by an attestor iff its own fields could be submitted, each validator vote is 1, attestations are one fewer than signers, and signer 0 is registered; final iff also the number is right, votes are 1 or 2 and all other signers are registered. |
| BlockChecks.AcceptedTxIsSigned | src/services/messaging-common/blockUtil.ts:251-340 | In an accepted or final block the eip155 sender of a transaction is what is recovered from its signature over the hash of the transaction without it. |
| BlockChecks.TotalBytesAdds | src/services/messaging-common/blockUtil.ts:479-511 | The total size is the sum of the sizes of the serialized transactions. |
| BlockChecks.FinalizedImpliesSNode | src/services/messaging-common/blockUtil.ts:464-598 | A block accepted as final is accepted by an attestor and by a storage node. |
| BlockChecks.AssembledBlockFinalizedIff | src/services/messaging-common/blockUtil.ts:367-578 | Of a block built by the signing functions, in terms of the submitted block's own fields: when an attestor, a storage node and the final check accept it. Only the limits, the votes of the patches, the number of signers and their registration matter. |
| BlockChecks.AssembleAndCheck | src/services/messaging-common/blockUtil.ts:367-578 | Signing, attesting and checking in code: final iff the block could be submitted and the signers are registered and of the required number. |
| TxChecks.PrintParsedCaip | src/utilz/chainUtil.ts:17-48 | An accepted address is the printed form of its parts. |
| TxChecks.ParseCaipInjective | src/utilz/chainUtil.ts:17-48 | Two accepted addresses with the same parts are the same text. |
| TxChecks.ParseCaipIff | src/utilz/chainUtil.ts:17-48 | A text parses to three parts iff it is these parts with colons between them, none inside, and sizes in their limits. |
| TxChecks.Utf16LengthOfText | src/utilz/chainUtil.ts:35-45 | The sizes count UTF-16 units, for any text. |
| TxChecks.MessageOfClone | src/services/messaging-common/blockUtil.ts:299-303 | The message obtained by cloning and clearing the signature is a function of the transaction. |
| TxChecks.MessageIgnoresSignature | src/services/messaging-common/blockUtil.ts:299-303 | The checked message is the same exactly for transactions that differ at most in their signature. |
| TxChecks.SignedTxAcceptedIffOwnSender | src/services/messaging-common/blockUtil.ts:228-309 | A signed eip155 transaction passes the check iff its sender names the signing wallet. |
| TxChecks.SignatureNotTransferable | src/services/messaging-common/blockUtil.ts:251-309 | A signature moved to another transaction is accepted iff nothing but the signature differs, if it binds the two messages. |
| TxChecks.CheckTxIff | src/services/messaging-common/blockUtil.ts:312-344 | A transaction passes iff, by its own fields: token VT1, type 0, full addresses of sender and recipients, salt and signature of 4 bytes, and the signature right for INIT_DID, push, eip155 or solana. |
| ReplicatedQueue.QueueServer.Accept | src/services/messaging-dset/queueServer.ts:36-58 | True iff a row with a fresh id was appended; hashes stay unique; a refusal by the storage appends nothing. |
| ReplicatedQueue.QueueServer.AppendWithHashChecks | src/services/messaging-dset/queueServer.ts:65-80 | Appends iff the hash is new; the id moves on either way, which leaves gaps. |
| ReplicatedQueue.QueueServer.ReadWithLastOffset | src/services/messaging-dset/queueServer.ts:137-162 | The reply is made of a page seen before and a minimum seen after any concurrent appends. |
| ReplicatedQueue.ReplyIsSafe | src/services/messaging-dset/queueServer.ts:97-162 | With any appends between the two queries: the offset does not go back, the items are exactly the rows up to it, and no row is skipped when there are none. |
| ReplicatedQueue.ReplyIsPrecise | src/services/messaging-dset/queueServer.ts:97-162 | A page is full or holds all rows above the offset; after an empty one the offset stays, or is right before the next row if one has arrived. |
| ReplicatedQueue.QueueClient.HandleReply | src/services/messaging-dset/queueClient.ts:60-93 | An empty reply changes nothing and ends the poll of the endpoint; otherwise the items are handed over, the offset is stored only if it is larger, and the next request follows; an offset that is no number throws. |
| ReplicatedQueue.QueueClient.PollRemoteQueue | src/services/messaging-dset/queueClient.ts:27-97 | The nested loops over endpoints and requests compute the polling function; endpoints whose tables stay as they are have all rows above their offsets handed over, if the requests allowed can carry them. |
| ReplicatedQueue.OffsetNeverDecreases | src/services/messaging-dset/queueClient.ts:81-93 | For arbitrary replies the offset never decreases. |
| ReplicatedQueue.PollAllEffect | src/services/messaging-dset/queueClient.ts:44-95 | Each endpoint's offset and items depend on its own replies only. |
| ReplicatedQueue.ThrowEndsPoll | src/services/messaging-dset/queueClient.ts:81-93 | An offset that is no number ends the whole poll: the items stay handed over, the offset stays, later endpoints are not asked. |
| ReplicatedQueue.ReplicationIsExact | src/services/messaging-dset/queueClient.ts:44-95 | Over every interleaving of appends and requests, what was handed over is exactly the rows above the initial offset and up to the stored one, in id order, each once. |
| ReplicatedQueue.EnoughRequestsDeliverAll | src/services/messaging-dset/queueClient.ts:57-94 | Once appends stop, enough requests deliver every row. |
| ReplicatedQueue.PollOfHonestServer | src/services/messaging-dset/queueClient.ts:56-94 | One poll of a server that grows between and inside its replies hands over exactly the rows it passes. |
| ReplicatedQueue.PollHandsOverPages | src/services/messaging-dset/queueClient.ts:56-94 | Against a table that stays as it is one poll hands over exactly the first maxRequests pages above the offset, and the other rows are above the new offset. |
| ReplicatedQueue.PollDrains | src/services/messaging-dset/queueClient.ts:56-94 | If these pages hold them all, every row is handed over by one poll and none is left. |
| ReplicatedQueue.PollAllHandsOverPages | src/services/messaging-dset/queueClient.ts:44-95 | The same for every endpoint of a poll, which then does not throw. |
| RandomSample.SamplingIsBijective | src/utilz/randomUtil.ts:28-40 | Every ordered selection of positions is drawn by exactly one sequence of random choices. |
| RandomSample.TakenSimulatesRemoval | src/utilz/randomUtil.ts:35-37 | The sparse array stands for the array with the drawn position replaced by the last one. |
| RandomSample.GetRandomSubArray | src/utilz/randomUtil.ts:28-40 | Fails iff too many elements are asked for; otherwise the result is the source at pairwise distinct positions, for any choices. |
| BitUtil.BitsToPositions | src/utilz/bitUtil.ts:55-68 | The positions are increasing, below 32, are exactly the set bits of the number modulo 2^32, and their powers sum to it. |
| BitUtil.PositionsUnique | src/utilz/bitUtil.ts:55-68 | Two increasing lists of positions with one sum are equal. |
| BitUtil.HexRoundTrip | src/utilz/bitUtil.ts:71-83 | Decoding the hexadecimal text of bytes gives the bytes. |
| BitUtil.HexOfDecoded | src/utilz/bitUtil.ts:71-83 | Encoding what was decoded gives the text up to letter case. |
| BitUtil.HexFormat | src/utilz/bitUtil.ts:81-83 | Two lower-case digits for each byte, the high one first. |
| BitUtil.ReadableIff | src/utilz/bitUtil.ts:71-79 | Text is read iff all characters are hexadecimal digits; odd text gets a zero in front. |
| ShardState.StorageContractState.ReloadEveryAddress | src/services/messaging-common/storageContractState.ts:93-135 | Listed nodes get the shards of their masks, the index is rebuilt exactly, and the listener is told this node's shards or the check throws. |
| ShardState.InverseIsExact | src/services/messaging-common/storageContractState.ts:106-116 | Node n is listed for shard s iff s is among n's shards, and no entry is empty. |
| ShardState.InverseIsUnique | src/services/messaging-common/storageContractState.ts:106-116 | An index with exactly those pairs and no empty entry is the inverse. |
| ShardState.InverseLosesOnlyIdleNodes | src/services/messaging-common/storageContractState.ts:106-116 | Two assignments with one index give every node the same shards, so the index forgets only nodes without any. |
| ShardState.LastMaskWins | src/services/messaging-common/storageContractState.ts:93-104 | After any sequence of events a node has the shards of the last mask announced for it. |
| ShardState.MaskIff | src/services/messaging-common/storageContractState.ts:93-104 | A node has shard s below 32 iff the binary digit s of its mask modulo 2^32 is set. |
| ShardState.StorageContractState.GetStorageNodesForShard | src/services/messaging-common/storageContractState.ts:137-139 | Some nodes iff a node serves the shard, and then exactly those. |
| ShardState.SNodeInfoUtil.GetNodeIdFromShardId | src/utilz/snodeInfoUtil.ts:29-46 | Every other node is mapped to the requested shards it serves, and nodes with none are left out. |
| ShardState.ServingIsExact | src/utilz/snodeInfoUtil.ts:29-46 | A node is asked for a shard iff it is another node, serves it, and the shard was requested. |
| Reshard.StatusPartitions | src/services/messaging/storageNode.ts:138-150 | Added, deleted and common shards split old and new together, and either side is rebuilt from them. |
| Reshard.IsEqualSet | src/utilz/coll.ts:56-65 | The size check and the membership loop decide equality. |
| Reshard.NodeShardsTable.LoadNodeShards | src/services/messaging/BlockStorage.ts:232-251 | The shards of the row with the latest time, or none. |
| Reshard.LoadedAfterSave | src/services/messaging/BlockStorage.ts:232-265 | A saved assignment is what is loaded next iff the clock is past every row or the latest row says the same. |
| Reshard.ReshardHandler.HandleReshard | src/services/messaging/storageNode.ts:152-236 | The calls made and the history written, whichever awaited call throws. |
| Reshard.PersistsWhenAdding | src/services/messaging/storageNode.ts:182-233 | A reshard is recorded iff it adds shards and nothing before the insert throws. |
| Reshard.AssignedIsPersisted | src/services/messaging/storageNode.ts:152-236 | After a reshard without errors, whatever failed before it, every assigned shard is recorded. |
| Reshard.AssignedWasAdded | src/services/messaging/storageNode.ts:152-236 | From an empty history, every shard then assigned was among those some completed reshard of the run added. |
| Reshard.OnlyLostShardsExpire | src/services/messaging/storageNode.ts:172-186 | Expired are exactly the recorded shards no longer assigned, asked for exactly the assigned ones not recorded. |
| Reshard.CallsInOrder | src/services/messaging/storageNode.ts:172-233 | Losses are set to expire first, rows before blocks, then gains are asked for and pooling starts; an error keeps exactly the calls before the one that throws. |
| Reshard.GainIsSyncedIff | src/services/messaging/storageNode.ts:162-193 | In any run: everything assigned beyond the event before is asked for iff none of it is still recorded from before; and what is recorded then. |
| Reshard.RegainedShardIsNotSynced | src/services/messaging/storageNode.ts:168-233 | A run in which a shard is lost, set to expire, regained and not asked for. |
| Inbox.ShardFollowsAddress | src/services/messaging-common/blockUtil.ts:115-138 | Wallets with one address, prefixed or not, share a shard iff their lengths lie on the same side of the four-character limit. |
| Inbox.ShardOfIff | src/services/messaging-common/blockUtil.ts:115-138 | The shard of an address is the first byte of the SHA-256 of its last part without 0x modulo the number of shards; short addresses have none, other texts throw. |
| Inbox.CalculateAffectedShardsTx | src/services/messaging-common/blockUtil.ts:140-159 | Throws iff a wallet cannot be placed; otherwise adds the shards of sender and recipients, or all shards for INIT_DID. |
| Inbox.CalculateAffectedShards | src/services/messaging-common/blockUtil.ts:188-195 | The union over the block's transactions. |
| Inbox.AffectedIff | src/services/messaging-common/blockUtil.ts:140-195 | A block's shards are those of the senders and recipients of its transactions, and all shards for an INIT_DID. |
| Inbox.IndexStorage.UnpackBlockToInboxes | src/services/messaging/IndexStorage.ts:37-78 | The nested loops deliver each transaction to recipients and sender in order, up to the first failure of a wallet, an insert or an indexing. |
| Inbox.IndexStorage.PutPayloadToInbox | src/helpers/dbHelper.ts:391-430 | A new row gets the block's time; an existing one keeps its time and gets the payload; an INIT_DID transaction whose indexing throws leaves its row behind. |
| Inbox.DeliveriesOfOne | src/services/messaging/IndexStorage.ts:80-86 | A transaction goes to its recipients in order, then to its sender. |
| Inbox.DeliveredIff | src/services/messaging/IndexStorage.ts:53-86 | A wallet is delivered a transaction iff the block holds it and the wallet is its sender or a recipient. |
| Inbox.UnpackedRow | src/services/messaging/IndexStorage.ts:53-77 | Each row afterwards: the payload of the last delivery for its key and the time it had, or untouched. |
| Inbox.UnpackSucceedsIff | src/services/messaging/IndexStorage.ts:53-77 | Unpacking throws iff some delivery is refused, its insert fails, or it is of an INIT_DID transaction and its indexing fails. |
| Inbox.OnlyDeliveriesWrite | src/services/messaging/IndexStorage.ts:53-77 | Even when unpacking throws halfway, only rows of the block's deliveries change, and rows keep their times. |
| Inbox.WrittenPayload | src/services/messaging/IndexStorage.ts:53-77 | Even when unpacking throws halfway, no row goes, and a row there afterwards is as it was or holds the transaction of one of the block's deliveries for its key. |
| Inbox.UnpackTwice | src/helpers/dbHelper.ts:391-401 | Unpacking the same block again changes nothing, if nothing fails. |
| Inbox.WalletShardIsAffected | src/services/messaging-common/blockUtil.ts:115-195 | Every wallet's shard is in the block's shard set, INIT_DID included. |
| Inbox.OwnedWalletsGetRows | src/services/messaging/IndexStorage.ts:37-78 | After unpacking, every sender or recipient of a transaction whose shard the node owns has a row under category, shard, wallet and hash, with the transaction's fields, at the block's time or its old one. |
| Inbox.OnlyPartiesGetRows | src/services/messaging/IndexStorage.ts:53-77 | Thrown or not, a new or changed row is of a sender or recipient of one of the block's transactions, in that wallet's shard. |
| Inbox.OverlapWritesOnlyShared | src/services/messaging/IndexStorage.ts:41-65 | When block and node share a shard, every row written or changed lies in both shard sets and keeps its time, thrown or not. |
| Inbox.DisjointWritesEverything | src/services/messaging/IndexStorage.ts:63-75 | When they share none, unpacking succeeds iff every wallet has a shard and every upsert works, and then every wallet gets a foreign row. |
| Inbox.OverlapFailsOnlyForInitDid | src/services/messaging-common/blockUtil.ts:140-150 | With a shared shard and no failing insert, unpacking throws iff a wallet of an INIT_DID transaction cannot be parsed or its indexing fails. |
| BlockStore.BlockStorage.SaveBlockWithShardData | src/services/messaging/BlockStorage.ts:171-225 | True iff the hash is neither in the table nor inserted between check and insert; existing rows stay; either statement may throw, and then nothing is inserted by this call. |
| BlockStore.SaveRefinesSteps | src/services/messaging/BlockStorage.ts:177-210 | The save is the two statements of a call with any steps of other calls in between: true, false and a throw are the states the call is then in, over the same table. |
| BlockStore.SecondInsertIsNotNew | src/services/messaging/BlockStorage.ts:194-210 | Of two saves that both looked the hash up before inserting, the first returns true and the second false. |
| BlockStore.BlockStorage.GetBulkBlockHashes | src/services/messaging/BlockStorage.ts:154-160 | Exactly the asked-for hashes that are stored. |
| BlockStore.BlockStorage.GetBlockHashMap | src/services/messaging/BlockStorage.ts:154-169 | Each hash is mapped to whether it is stored. |
| BlockStore.StorageNode.HandleBlock | src/services/messaging/storageNode.ts:102-136 | Result, blocks and inboxes in every case: refused, known, lost to a concurrent insert, unpacked, failed to unpack, or a failing check or insert. |
| BlockStore.StorageNode.Accept | src/services/messaging/storageNode.ts:75-92 | False iff the text does not have the item's hash; otherwise, what is stored and unpacked, and undefined or an error as the block was handled, in every case; never true. |
| BlockStore.StorageNode.ConsumeItems | src/services/messaging-dset/queueClient.ts:68-80 | The loop over the items of replies, an error at any item being logged: table and inboxes are those of the items that did not fail, and no item is counted as new. |
| BlockStore.StoredOnce | src/services/messaging/BlockStorage.ts:177-210 | Over any interleaving of any number of calls, with errors anywhere: rows never change and each new row was inserted by exactly one, acceptable, call. |
| BlockStore.ExactlyOneNew | src/services/messaging/storageNode.ts:116-135 | When all calls for a hash have ended, returned or thrown, exactly one says the block is new iff it is stored, was not before, and no call failed after its insert. |
| BlockStore.ReturnedIsStored | src/services/messaging/storageNode.ts:116-135 | A call that returned leaves its block stored, and does not call a block new that was there before. |
| BlockStore.FailedUnpackIsNotRetried | src/services/messaging/storageNode.ts:122-135 | After a failed unpacking no other call for the hash ever unpacks. |
| BlockStore.StorableIff | src/services/messaging/storageNode.ts:75-127 | An item is stored iff its text is that of a block under its own hash, with the right number of registered signers and all wallets placeable; as that block, with the shards of its wallets and its bytes as text. |
| BlockStore.StoredIffOffered | src/services/messaging/storageNode.ts:75-136 | The table after any items: the rows of the start, and under other hashes exactly the rows offered. |
| BlockStore.OrderAndRepetitionDoNotMatter | src/services/messaging/storageNode.ts:128-131 | The table depends on which items arrive, not on their order, repetition or queue. |
| BlockStore.ConsumedBlocks | src/services/messaging-dset/queueClient.ts:68-80 | The table after items some of which fail is that of the others. |
| BlockStore.HashStoredIff | src/services/messaging-dset/queueClient.ts:68-80 | A hash is stored afterwards iff it was before or some storable item with it did not fail. |
| BlockStore.ReplicatedRowsAreStored | src/services/messaging-dset/queueClient.ts:68-93 | Over every run with storing failing at any items: a row the offset has passed was handed over, and its hash is stored iff it was before or some item that offers it did not fail; then its row is the one offered. |
| BlockStore.FailedRowIsLost | src/services/messaging-dset/queueClient.ts:68-93 | A row whose item failed is never handed over again however the run goes on, and is not stored if no other row of the queue has its hash. |
| ReplicatedQueue.RunContinues | src/services/messaging-dset/queueClient.ts:44-95 | A longer run goes on where the shorter one stopped, and what was handed over stays. |
| BlockStore.DeliveredWalletsKeepRows | src/services/messaging/storageNode.ts:75-136 | From queue items to inboxes: once an item has stored its block and the block is unpacked, every sender or recipient of its transactions whose shard the node owns keeps its row, with key and fields spelled out, whatever items follow. |
| SyncStatus.StorageSyncClient.UpdateAlreadySyncedShards | src/services/messaging/storageSyncClient.ts:75-92 | The shard enters the row's list before its last element, and the row becomes SYNCED iff the list then is as long as the client's shards. |
| SyncStatus.ConstructNodeShardMap | src/services/block/blockPolling.ts:89-136 | A listed shard is left out iff its id is the text of a recorded one; every other is mapped to one client per row that lists it, in row order. |
| SyncStatus.GetShardsThatNeedsToBeSynced | src/services/block/blockPolling.ts:89-101 | The listed ids of all rows without the texts of the shards any row has recorded. |
| SyncStatus.ClientsInOrder | src/services/block/blockPolling.ts:106-136 | The clients of a shard come in the order of the rows, one for each row that lists it. |
| SyncStatus.DecimalFormat | src/services/block/blockPolling.ts:89-101 | The text a recorded shard is compared as has its decimal digits without a leading zero. |
| SyncStatus.RecordedList | src/services/messaging/storageSyncClient.ts:75-80 | From any rows, what is recorded afterwards is what was before and, once more each, the shards finished. |
| SyncStatus.RecordedOrder | src/services/block/block.ts:242-249 | From a row with nothing recorded the list holds the finished shards in order, except that the first one stays last. |
| SyncStatus.SyncedExactlyWhenAllRecorded | src/services/messaging/storageSyncClient.ts:75-92 | From a row with nothing recorded, in whatever order shards finish, at every moment: each finished shard is recorded once and nothing else is, and the view is SYNCED iff all its shards are. |
| SyncStatus.SyncedIffCountReached | src/services/messaging/storageSyncClient.ts:81-87 | From any rows, a view is SYNCED iff it was, or the number of recorded shards was below that of its shards and has reached it. |
| SyncStatus.StatusRightIffFresh | src/services/messaging/storageSyncClient.ts:75-92 | The status of a row that is not SYNCED is right after every possible pass iff nothing was recorded in it. |
| SyncStatus.ResumedRowIsSyncedTooEarly | src/services/messaging/storageSyncClient.ts:81-87 | A resumed view that serves a recorded shard again and is SYNCED without the other one. |
| PeerSync.BlockPolling.StoreBlock | src/services/block/blockPolling.ts:294-304 | Any text of a reply: stored under the hash of its own bytes if it is a block the node accepts, dropped otherwise. |
| PeerSync.BlockPolling.MissingHashes | src/services/block/blockPolling.ts:285-286 | The hashes of the page that are not stored, in order. |
| PeerSync.BlockPolling.ProcessClient | src/services/block/blockPolling.ts:267-322 | For any replies: the loop's requests, page, table and record, and old rows stay while every new one is an accepted block under its hash. |
| PeerSync.TurnsOfLoop | src/services/block/blockPolling.ts:267-322 | What each kind of reply does to the loop: an empty page or an error object ends and records, a failed request breaks off, any other turn stores what came and goes on. |
| PeerSync.BlockPolling.InitiatePooling | src/services/block/blockPolling.ts:178-232 | One pass serves every shard of every row once, for any replies, with the same safety for the whole table. |
| PeerSync.ClientRunIsSafe | src/services/block/blockPolling.ts:267-322 | Whatever a peer answers, old rows stay and each new row is an acceptable block kept as the text of its bytes under their hash. |
| PeerSync.PassIsSafe | src/services/block/blockPolling.ts:178-232 | The same for a whole pass over any peers. |
| PeerSync.PassRecords | src/services/block/blockPolling.ts:178-222 | One pass from any rows, for any replies: a shard is recorded once more iff its loop ended, even if it was recorded already. |
| ShardSync.HonestRun | src/services/block/blockPolling.ts:267-322 | Against a fixed view, however the peer stops answering: requests, page reached, rows stored and whether the loop ends. |
| ShardSync.HonestPass | src/services/block/blockPolling.ts:178-222 | Against fixed views a pass stores exactly what the pages read list. |
| ShardSync.PassCopiesViews | src/services/block/blockPolling.ts:178-222 | After an undisturbed pass every valid block a view lists for a served shard is stored and the shard is finished. |
| ShardSync.MissingSuffices | src/services/block/blockPolling.ts:285-292 | Asking only for the missing hashes fills the table as the whole page would. |
| ShardSync.RecordedIsCompleteIff | src/services/block/blockPolling.ts:271-321 | From page 1 a recorded shard was read completely iff no page was refused before the last; undisturbed it takes ceil(n/20)+1 requests. |
| ShardSync.ViewIsCopied | src/services/block/blockPolling.ts:285-308 | Afterwards every hash of the view touching the shard is stored iff it was there or its block is valid, with the raw text unchanged. |
| ShardSync.PeerIsCopied | src/services/block/block.ts:342-359 | From a snapshot, in whatever order it is listed, to the copy: every block the peer had of the shard is stored, new ones as the very same row. |
| ShardSync.StoredRowsAreHonest | src/services/messaging/storageNode.ts:118-127 | A table filled from queues and peers keeps each block's bytes as text under their hash. |
| ShardSync.QueuesGrowSafely | src/services/messaging/storageNode.ts:75-136 | Queue items grow a table as safely as peers do, so a table filled by both holds only accepted blocks under their hashes. |
| ShardSync.SnapshotIff | src/services/block/block.ts:342-359 | A snapshot holds exactly the blocks whose second has passed and that touch one of its shards, with text and shards. |
| PeerSync.PassOutcome | src/services/block/blockPolling.ts:178-222 | After one pass from a row with nothing recorded, for any replies, each shard whose loop ended is recorded exactly once, nothing else is, and the view is SYNCED iff all its shards ended. |
| Expiry.ExpiryJobs.SetExpiryTimeForTransactions | src/services/messaging/IndexStorage.ts:160-204 | Whatever order each query lists the rows in: the rows changed are exactly those with a hash on some batch; all of them have a hash of a deleted shard, and in stable orders every such row is changed. |
| Expiry.BatchesReachAllIff | src/services/messaging/IndexStorage.ts:184-202 | The batches change every row with a hash of the deleted shards, whatever order each query lists, iff each such hash has rows in one of the shards of which fewer than 1000 have another hash. |
| Expiry.ExpiryJobs.DeleteShardsFromInboxes | src/services/messaging/IndexStorage.ts:207-239 | Whatever each batch picks, no expired row is left, and a row goes iff its hash occurs in an expired row. |
| Expiry.RowsLost | src/services/messaging/IndexStorage.ts:184-236 | After expiry and deletion a row is gone iff its hash occurs in an expired shard and the expiry has passed, or else in a row expired before. |
| Expiry.KeptRowIsLost | src/services/messaging/IndexStorage.ts:194-232 | A row of a kept shard that goes with its transaction's row in a shard that leaves. |
| Expiry.ExpiryJobs.UpdateBlockExpiryTimestampPaginated | src/services/messaging/IndexStorage.ts:121-158 | The count is that of the selected blocks, and the blocks changed are exactly those on the pages read; in a stable order these are all selected ones. |
| Expiry.SelectedIff | src/services/messaging/IndexStorage.ts:132-142 | A block is selected iff it has shards and all of them are among the ids. |
| Expiry.EveryOrderReachesAllIff | src/services/messaging/IndexStorage.ts:128-154 | Pages read by queries that list the rows anew hold all rows, for every choice of orders, iff one page holds them. |
| Expiry.UpdateReachesAllIff | src/services/messaging/IndexStorage.ts:121-158 | Every selected block gets the expiry, whatever order each query lists, iff one page holds them. |
| Expiry.ExpiryJobs.DeleteExpiredBlocksPaginated | src/services/messaging/IndexStorage.ts:241-270 | Deletes only expired blocks, counts what it deletes, and stops, whatever each query picks. |
| Expiry.OrderChangeMisses | src/services/messaging/IndexStorage.ts:132-154 | Two blocks and an order that changes between the queries: the update counts two and leaves one without an expiry. |
| Expiry.AtLeastHalf | src/services/messaging/IndexStorage.ts:247-267 | One run deletes at least half of the expired blocks, and all of them iff one page holds them. |
| Expiry.DeletedExactly | src/services/messaging/IndexStorage.ts:247-267 | How many of n expired blocks one run deletes, exactly. |
| Expiry.RunsDrain | src/services/messaging/IndexStorage.ts:241-270 | floor(log2 n)+1 runs delete any n expired blocks. |
| KeysetPaging.QueryReturnsPage | src/helpers/dbHelper.ts:521-533 | FETCH FIRST 30 ROWS WITH TIES gives a page closed under ties, in any order of equal times. |
| KeysetPaging.PageIff | src/helpers/dbHelper.ts:521-533 | A page by the rows' own times, for either direction: ordered, strictly beyond the cursor, 30 rows or all, and ties of the thirtieth. |
| KeysetPaging.GetTransactions | src/helpers/dbHelper.ts:501-555 | Refuses a malformed, zero or too large cursor and any sort but ASC, DESC or none; otherwise lists a page of the wallet's rows of the category strictly beyond the cursor, later times first unless ASC, each with the time it was filed at; fewer than 30 are all of them. |
| KeysetPaging.NextCursorExactIff | src/helpers/dbHelper.ts:522-527 | The next page starts where this one ended iff rounding to milliseconds passes no row. |
| KeysetPaging.UnalignedTimesRepeat | src/helpers/dbHelper.ts:522-527 | One row whose time is rounded up is listed on every page. |
| KeysetPaging.InboxRowsAreAligned | src/services/messaging/IndexStorage.ts:49-52 | A block's milliseconds, divided into seconds and rounded to microseconds, are whole milliseconds again. |
| KeysetPaging.PagesListEverything | src/helpers/dbHelper.ts:482-555 | However far one pages, in either direction, every row between the start and the cursor reached was listed once, in order. |
| KeysetPaging.PagingIsComplete | src/helpers/dbHelper.ts:482-555 | Paging to the empty page lists every row beyond the start exactly once, in either direction. |
| KeysetPaging.PageShrinksRest | src/helpers/dbHelper.ts:521-533 | A page that is not empty leaves strictly fewer rows, and a short page none. |
| KeysetPaging.PageCount | src/helpers/dbHelper.ts:521-533 | n rows take at most ceil(n/30) pages before the empty one. |
| KeysetPaging.UnconvertedCursorRestarts | src/helpers/dbHelper.ts:510-554 | The lastTs of a descending listing, handed back unconverted: when it is refused, and when the next listing starts at the newest row again. |

## Left out

- Wire.ReadVarint: has no limit of ten bytes, and lengths have no limit of 32 bits; numbers are reduced where they are stored. Groups (wire type 3) and a known field with another wire type read as errors.
- Messages.Transaction: strings are byte sequences, so invalid UTF-8 is not replaced on reading; a didMapping is carried as bytes; enum numbers are 64-bit.
- Signing.BlockObject: transaction objects, votes and signers are values, so sharing of nested objects between two blocks is not visible.
- TxChecks.CheckTxSignature: the signature checks of INIT_DID and of Solana are one abstract result each; errors they throw count as failures.
- TxChecks.CheckTx: checkTxPayload is left out because it never rejects anything; an INIT_DID payload that cannot be read throws in it, as it does in the signature check, which counts it as a failure.
- ReplicatedQueue.QueueServer.ReadWithLastOffset: appends become visible in id order; rows that commit out of id order are not modelled.
- ReplicatedQueue.QueueClient.PollRemoteQueue: the statistics of each endpoint are not kept.
- BitUtil.BitsToPositions: the final sort is left out, the list being in order already.
- Inbox.IndexStorage.UnpackBlockToInboxes: the key tables that indexing an INIT_DID transaction writes; whether an insert or an indexing fails is an outcome of each delivery.
- Inbox.Row: the expiration time is kept by the Expiry module.
- BlockStore.StorageNode.HandleBlock: the JSON copy of the block in the table is the block itself.
- Reshard.ReshardHandler.HandleReshard: an error while asking one peer for its view is logged and does not stop the reshard; which views were obtained is not modelled.
- ShardState.SNodeInfoUtil.GetNodeIdFromShardId: the lookup of the nodes' addresses in the validator contract.
- PeerSync.BlockPolling.ProcessClient: storing a reply's block fails only where a check or the unpacking does; an error of the table's own statements is logged by the code, and leaves the table as if the peer had left the block out of its reply. A peer answers finitely many page requests, since one that never stops keeps the loop going for ever; the blocks of a page are handled one after the other, which changes nothing by BlockStore.StoredOnce and BlockStore.OrderAndRepetitionDoNotMatter.
- PeerSync.BlockPolling.InitiatePooling: shard ids are numbers, as they are written; clients of one shard run one after the other, every other order having the same outcome by SyncStatus.SyncedExactlyWhenAllRecorded; later passes over the same clients are not modelled.
- ShardSync.HonestRun: the view is fixed and listed in one order by every query, and the table's statements do not fail.
- ShardSync.IsSnapshot: creating, counting and dropping the snapshot tables, and their expiry.
- KeysetPaging.GetTransactions: the format of the cursor text is reduced to empty, malformed or a time; seconds are exact, not floating point.
- BlockStorage.iterateAllStoredBlocks: as written it visits nothing.
- Postgres isolation levels, HTTP, JSON-RPC, retries, timers, mutexes, logging, contract clients and Redis.
- The other payload messages, Solana and StarkNet signing, address generation and the remaining utilities.
