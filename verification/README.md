# zeta_vault verification model

A Dafny model of the zeta_vault stack, from the encrypted file on disk to the client call, with proofs
of what the stack promises.

- **The vault file and its store** (`FileSystem`, `VaultSystem`, `VaultInvariant`, `VaultRecovery`,
  `VaultDurability`, `Syscalls`, `VaultStore`).  The file system has a durable and a volatile view.
  `VaultSystem` lets any number of processes construct, use, lock and destroy stores on one path, one
  system call at a time, with kills and power losses between any two calls.  A run starts from any disk
  at rest: without a vault file, or with any file at the vault path - an earlier vault, a restored one, or
  one that no password opens.  `VaultStore` is the store object itself; each system call it makes through
  `Syscalls.Kernel` is one step of that system, so every state between two of its calls is covered by the
  theorems about runs.
- **The operations** (`StoreSpec`, `AbstractVault`): what each operation of the store does, with every error
  in its order, and the same in terms of a plain map with a locked flag.
- **The formats** (`Bytes`, `Wire`, `Protocol`, `Plaintext`, `VaultFile`): encoders and decoders as
  functions on byte strings, with proofs that they are inverse to each other and that their bytes stand at
  the documented offsets.  `ProtocolCodec` and
  `PlaintextCodec` are the cursor and loop versions, proved equal to those functions.
- **The session** (`Sockets`, `Session`, `SessionLaws`, `Server`): the transfer loops over partial,
  interrupted transfers, and the server loop over a store and a socket.
- **The client and the whole** (`ClientSpec`, `Client`, `EndToEnd`, `Connection`): the calls, one call over
  a channel that may break at any byte, and whole runs - any number of connections, each one session of the
  server's accept loop - as the refinement of a map with a locked flag.
- **Terminal text** (`Utf8`): the single-line UTF-8 validator and the unchecked decoder behind it.

The cipher and the key derivation are parameters.  Three laws are assumed of them (`Crypto.Lawful`):
decryption undoes encryption under the same key and nonce, a ciphertext is 16 bytes longer than its
plaintext, and a decrypted text is 16 bytes shorter than its ciphertext, as the buffer sizes in
`load_existing` rely on.  `PlainCrypto` shows that the laws can be met.

Choices of the environment are explicit.  A socket is given by the parts and interruptions its calls
report, so that the same stream can arrive in many ways.  A save that fails at the operating system is a
`Fault`, one for each request, carrying the error's text.  A system call of the store may fail at any
time; a finite number of calls are interrupted by signals.  The kernel counts the calls that failed and
said so, and the methods of the store fail for want of the system exactly if that count rose.

Four findings are stated as theorems, each with its exact condition and a concrete case.  A secret with an
identifier of one to three bytes can be stored and then be too large to be read back
(`SessionLaws.ReadBackExactly`, `StoredButUnreadable`); the get that would read it ends the session.  A put
into a full vault is reported as LOCKED (`SessionLaws.LockedExactly`, `FullVaultSaysLocked`).  Since the
result of the directory sync is ignored, an acknowledged change can be lost in a power loss
(`VaultDurability.SurvivalExactly`, `AcknowledgedCanBeLost`).  An I/O error reported by a call does not mean
that the handle was closed, as a response may carry that status (`ClientSpec.DisconnectsExactly`,
`IoErrorOnTheWire`).

`dafny verify dfyconfig.toml` checks the project with Dafny 4.11.

## Model

| member | source | states |
|---|---|---|
| VaultInvariant.RunKeepsInv | src/storage/vault_store.cpp:111-164 | at every point of every run of any number of processes, kills and power losses, from any machine at rest with any file or none at the vault path: whoever has a store holds the lock, the vault path names only complete, synced files, loadable but for one found at the start, each one change after the one before, and open stores agree with the newest |
| VaultInvariant.StepKeepsInv | src/storage/vault_store.cpp:111-164 | every single system call, kill or power loss keeps that invariant |
| VaultInvariant.VaultIsCurrent | src/storage/vault_store.cpp:166-212 | whoever opens the vault path reads the newest published file |
| VaultInvariant.RestartVersions | src/storage/vault_store.cpp:146-156 | after a power loss the path is at one of the versions from the durable one on; the versions before it are kept in order |
| FileSystem.LossIsArbitrary | src/storage/vault_store.cpp:138-156 | what a file had not synced may come back as anything, and of the unsynced directory changes all or none may be left: what the syncs are for |
| FileSystem.LiveAfter | src/storage/vault_store.cpp:114-160 | what each call does to the directory as running processes see it |
| FileSystem.VaultAfterPowerLoss | src/storage/vault_store.cpp:146-156 | whichever selection of unsynced directory changes survives, the vault path stays at an inode it was pointed at, and does not disappear once durable |
| VaultRecovery.OthersAreShutOut | src/storage/vault_store.cpp:307-345 | at most one store exists per path, a locked one included, and while it exists no step of another process has any effect |
| VaultRecovery.LockIsNeverLost | src/storage/vault_store.cpp:307-345 | whoever holds the lock is alive: a kill, a release or a power loss frees it, and then the next process can get it |
| VaultRecovery.MemoryIsTheFile | src/storage/vault_store.cpp:245-287 | between operations an open store holds exactly what the vault file decrypts to, and can save it again |
| VaultRecovery.OnlyRenamePublishes | src/storage/vault_store.cpp:111-164 | no step but the rename changes what the vault path holds, and no step but a power loss takes it back |
| VaultRecovery.FailureChangesNothing | src/storage/vault_store.cpp:157-163 | an operation that fails anywhere before its rename leaves the file and the store as they were |
| VaultRecovery.PowerLossRecovers | src/storage/vault_store.cpp:111-164 | after a power loss at any point the path is absent only if it was never durable, and otherwise holds one whole version, which loads to what was saved unless it is the file found at the start; with working directory syncs nothing acknowledged is newer |
| VaultRecovery.VersionIsAPrefix | src/storage/vault_store.cpp:245-287 | with one password, each version holds the map after exactly the changes up to it |
| VaultRecovery.ReopenAfterPowerLoss | src/storage/vault_store.cpp:216-238 | the next store opened holds the map after a prefix of the changes, on top of what the file found at the start held, that includes every durable one and, with working directory syncs, every acknowledged one; files left behind do not matter; it fails to open only on a found file that does not load |
| VaultRecovery.FoundStays | src/storage/vault_store.cpp:225-237 | the file found at the start is durable and stays the first of all versions; every other version was saved by a store |
| VaultRecovery.UnreadableIsKept | src/storage/vault_store.cpp:225-237 | a vault file that no password opens is neither replaced nor lost in any run |
| VaultRecovery.ChecksAreExact | src/storage/vault_store.cpp:245-287 | in every reachable state a remove of a present identifier passes every check, and a put passes exactly under the stated identifier, count and size limits |
| VaultDurability.SurvivalExactly | src/storage/vault_store.cpp:146-156 | from any reachable state with a file just renamed: the operation reports success whatever the directory sync returns, and no power loss takes an acknowledged change back if and only if that sync succeeded; then the vault path holds exactly its file |
| VaultDurability.DurableIsSynced | src/storage/vault_store.cpp:150-156 | over any run, what no power loss can take back is exactly what there was at the last successful directory sync or restart |
| VaultDurability.RunSurvivalExactly | src/storage/vault_store.cpp:150-156 | at any point of any run, all acknowledged changes survive every power loss if and only if there are no more of them than versions at the last successful sync |
| VaultDurability.OnlyInFlightIsUncertain | src/storage/vault_store.cpp:146-156 | if no directory sync fails and no process is killed between rename and sync, at most the one operation between them can be lost |
| VaultDurability.AcknowledgedCanBeLost | src/storage/vault_store.cpp:150-156 | a run in which creation reports success after a failed directory sync and a power loss leaves no vault file |
| VaultDurability.AcknowledgedFileSurvives | src/storage/vault_store.cpp:150-156 | if the newest version is acknowledged and synced, the vault file after any power loss is byte for byte that version |
| Syscalls.Kernel.OpenTemp | src/storage/vault_store.cpp:114-120 | a new empty temporary file added to the disk, refused if the name is taken; nothing else changes |
| Syscalls.Kernel.Write | src/storage/vault_store.cpp:125-136 | a partial write extends the temporary file by exactly those bytes, changes nothing else on the disk and leaves the vault file alone |
| Syscalls.Kernel.Rename | src/storage/vault_store.cpp:146-148 | points the vault path at the temporary file or does nothing |
| Syscalls.Kernel.SyncParent | src/storage/vault_store.cpp:150-156 | whether or not the sync works, the caller goes on |
| VaultStore.ReadFile | src/storage/vault_store.cpp:166-212 | the whole current file, however it is split or interrupted, exactly unless a call fails or the file is above the limit |
| VaultStore.WriteAll | src/storage/vault_store.cpp:123-137 | the loop writes exactly the whole file unless a call fails: not for a signal and not for a partial write; it does not touch the vault path |
| VaultStore.WriteFileAtomically | src/storage/vault_store.cpp:111-164 | success, exactly if no call fails that is reported, means that this file is published and ready to be taken over; failure means process and vault file are unchanged |
| VaultStore.EncodeFile | src/storage/vault_store.cpp:447-456 | the header writer always fills its buffer exactly with the specified layout |
| VaultStore.DecodeFields | src/storage/vault_store.cpp:354-383 | the header reader agrees with the specified format on every input |
| VaultStore.LoadExisting | src/storage/vault_store.cpp:354-412 | exactly what the file decrypts to, or a refusal, unless a call fails |
| VaultStore.Persist | src/storage/vault_store.cpp:425-458 | a save fails with the serializer's error, or the system's exactly if a call failed, leaving the file alone, or is published, encrypted with a newly drawn nonce |
| VaultStore.VaultStore.Put | src/storage/vault_store.cpp:245-259 | the map, the error and the order of the checks are those of the specification; a system error is reported exactly if a call failed; on error the file is unchanged; on success the newest version is this change, holds the new state and is encrypted with a newly drawn nonce |
| VaultStore.VaultStore.Get | src/storage/vault_store.cpp:261-271 | the stored value, or the first error that applies |
| VaultStore.VaultStore.Remove | src/storage/vault_store.cpp:273-287 | as for put, with a missing identifier reported and not saved |
| VaultStore.VaultStore.List | src/storage/vault_store.cpp:289-299 | the sorted identifiers, whatever the order of the hash table |
| VaultStore.VaultStore.Lock | src/storage/vault_store.cpp:301-305 | the store is empty and locked and its key zeroed |
| VaultStore.VaultStore.Destroy | src/storage/vault_store.cpp:240-243 | the lock is released and the store gone |
| VaultStore.VaultStore.ValidMeans | src/storage/vault_store.cpp:245-305 | a valid store can save what it holds, and an open one agrees with the vault file |
| VaultStore.OpenStore | src/storage/vault_store.cpp:216-238 | succeeds only with the lock, holding what the file decrypts to or nothing for a new vault; fails without the lock and with the file unchanged, and only for an empty password, a taken lock, a file that does not load, a key that cannot be derived or a failed call |
| VaultStore.LoadOrCreate | src/storage/vault_store.cpp:225-237 | an existing vault is loaded and never overwritten; a missing one is created empty; it fails only as just said |
| VaultStore.CreateNew | src/storage/vault_store.cpp:347-352 | the empty vault is saved before the store exists, with a newly drawn salt and the default limits |
| AbstractVault.PutSucceedsExactly | src/storage/vault_store.cpp:245-259 | a put succeeds if and only if the store is open, identifier and size are allowed, the identifier is present or there is room for one more, the file stays within its size and the disk does not fail; then it stores the value, replacing an old one, and otherwise nothing changes |
| AbstractVault.PutExactly | src/storage/vault_store.cpp:245-259 | each error of put is reported exactly when the plain map calls for it |
| AbstractVault.GetExactly | src/storage/vault_store.cpp:261-271 | the stored value if and only if present, NOT_FOUND if and only if missing, of an open store and a valid identifier |
| AbstractVault.RemoveExactly | src/storage/vault_store.cpp:273-287 | found, missing and failed exactly as the plain map calls for; just the one identifier goes |
| AbstractVault.ListExactly | src/storage/vault_store.cpp:289-299 | refused if and only if locked; otherwise the key set, each identifier before those that differ from it first in a greater byte or go on |
| AbstractVault.InternalErrorExactly | src/server/server.cpp:97-108 | INTERNAL_ERROR is reported exactly for a failed save of an otherwise acceptable change or a vault grown too large |
| SecretId.ValidExactly | src/common/secret_id.h:12-25 | an identifier is one to 63 characters, a lower-case letter first, then lower-case letters, digits and underscores |
| StoreSpec.PutKeepsGood | src/storage/vault_store.cpp:245-259 | a put never leaves a map that could not be saved |
| StoreSpec.RemoveKeepsGood | src/storage/vault_store.cpp:273-287 | a remove never leaves a map that could not be saved |
| StoreSpec.RemoveOnlyFailsAtTheDisk | src/storage/vault_store.cpp:273-287 | a remove on a reachable open store can fail no size or count check, only at the operating system |
| StoreSpec.RemoveUndoesPut | src/storage/vault_store.cpp:245-287 | removing a newly put identifier restores the vault |
| StoreSpec.GetAfterPut | src/storage/vault_store.cpp:245-271 | a successful put is what get returns; other identifiers are unaffected |
| VaultFile.FileLayout | src/storage/vault_store.cpp:354-383 | a file is accepted exactly if magic, version, limits, salt, nonce, size and ciphertext stand at their offsets within their ranges |
| VaultFile.FieldsExact | src/storage/vault_store.cpp:354-383 | the accepted file headers are exactly the written ones within the limits |
| VaultFile.SavedFileLoads | src/storage/vault_store.cpp:425-458 | every file written is accepted under the same password with the same map, for any lawful cipher |
| VaultFile.LoadedIsSound | src/storage/vault_store.cpp:354-412 | any accepted file leaves the store in a state it can save again |
| VaultFile.LawsCanBeMet | src/storage/vault_store.cpp:435-443 | the assumed laws of the cipher are satisfiable |
| Plaintext.PlaintextLayout | src/storage/vault_store.cpp:476-487 | a plaintext is its entry count in four bytes, then the entries |
| Plaintext.EntryLayout | src/storage/vault_store.cpp:488-493 | an entry is the identifier and then the value, each after its four-byte length |
| Plaintext.PlaintextExact | src/storage/vault_store.cpp:505-540 | the accepted plaintexts are exactly the texts of at most 10000 valid, distinct, bounded entries |
| Plaintext.SerializedExact | src/storage/vault_store.cpp:460-503 | a map serializes exactly within the count, identifier and size limits, to a text of exactly its weight |
| Plaintext.SerializedRoundTrip | src/storage/vault_store.cpp:460-540 | deserializing a serialized map gives the map |
| Plaintext.Normalizes | src/storage/vault_store.cpp:460-540 | re-serializing an accepted text keeps length and map, and reproduces it exactly when it was sorted |
| Plaintext.ParsedIsPersistable | src/storage/vault_store.cpp:505-540 | whatever is accepted can be written again |
| Plaintext.PutPersistable | src/storage/vault_store.cpp:245-259 | the exact size condition of a put |
| Plaintext.RemovePersistable | src/storage/vault_store.cpp:273-287 | a remove keeps every limit |
| Bytes.FixedWidths | doc/en/architecture.org:21-34 | two-, four- and eight-byte integers have their lowest byte first |
| Bytes.BelowExactly | src/storage/vault_store.cpp:465-474 | one string is below another exactly if at their first difference it ends or has the smaller byte |
| Bytes.StrictlySortedUnique | src/storage/vault_store.cpp:465-474 | sorted distinct identifiers are determined by their set, so the text cannot depend on iteration order |
| PlaintextCodec.SerializePlaintext | src/storage/vault_store.cpp:460-503 | collecting in any order, sorting and two-pass encoding give the text that is a function of the map alone |
| PlaintextCodec.DeserializePlaintext | src/storage/vault_store.cpp:505-540 | the decoding loop agrees with the specification on every input |
| Wire.TakeSizedExact | src/protocol/protocol.cpp:60-69 | a length-prefixed string is read exactly where it was written, and nothing else is read as it |
| Wire.SizeCounter.Run | src/protocol/protocol.cpp:81-87 | the size pass succeeds exactly when no test fails and the size is representable, and counts the output |
| Wire.Writer.Run | src/protocol/protocol.cpp:88-93 | the write pass succeeds exactly when no test fails and the output fits, and appends it |
| Wire.EncodeTwoPass | src/protocol/protocol.cpp:81-96 | for every encode closure the two passes agree: the encoding-failed branch is never taken |
| Protocol.HeaderExact | src/protocol/protocol.cpp:121-158 | the accepted headers are exactly the encoded ones, field for field |
| Protocol.HeaderLayout | doc/en/architecture.org:21-34 | a header is accepted exactly if the six fields stand at their documented offsets, low byte first |
| Protocol.RequestsAreOdd | src/protocol/protocol.cpp:301-318 | the requests are the odd types up to 11, each answered by the type after it |
| Protocol.FramePrefixFree | src/protocol/protocol.cpp:100-119 | concatenated frames can be read in one way only |
| Protocol.IdRequestExact | src/protocol/protocol.cpp:160-178 | identifier requests: encode and decode are inverse in both directions on all inputs |
| Protocol.PutRequestExact | src/protocol/protocol.cpp:180-203 | put requests: the same for payloads that can travel, and the exact size bound id size + value size + 8 |
| Protocol.ResponseExact | src/protocol/protocol.cpp:259-290 | responses: the same, and the exact size bound diagnostic size + data size + 12 |
| Protocol.IdRequestLayout | src/protocol/protocol.cpp:160-168 | an identifier payload is the identifier after its four-byte length |
| Protocol.PutRequestLayout | src/protocol/protocol.cpp:180-188 | a put payload is the identifier and then the value, each after its four-byte length |
| Protocol.ResponseLayout | src/protocol/protocol.cpp:259-270 | a response payload is the status number in four bytes, then diagnostic and data, each after its length |
| Protocol.IdListLayout | src/protocol/protocol.cpp:205-227 | a list payload is the count in four bytes, then each identifier after its length |
| Errors.CodeIsPlace | include/zeta_vault/zeta_vault.h:25-36 | a status is its number in the order of the public header, in both directions |
| Protocol.IdListExact | src/protocol/protocol.cpp:205-257 | identifier lists: a bijection between strictly increasing valid lists of at most 10000 and accepted payloads, within 670004 bytes |
| Protocol.IncreasingIsSorted | src/protocol/protocol.cpp:214-224 | the pairwise test of the list codec is sortedness and validity of the whole list |
| ProtocolCodec.EncodeFrame | src/protocol/protocol.cpp:100-119 | a payload within the limit always encodes, to the specified frame |
| ProtocolCodec.DecodeHeader | src/protocol/protocol.cpp:121-158 | agrees with the specified header format on every input |
| ProtocolCodec.DecodePutRequest | src/protocol/protocol.cpp:190-203 | agrees with the specified payload format on every input |
| ProtocolCodec.EncodeIdList | src/protocol/protocol.cpp:205-227 | agrees with the specified encoder on every list, sorted or not |
| ProtocolCodec.DecodeIdList | src/protocol/protocol.cpp:229-257 | the decoding loop agrees with the specification on every input |
| ProtocolCodec.DecodeResponse | src/protocol/protocol.cpp:272-290 | agrees with the specification on every input, unknown statuses included |
| Sockets.ReadAll | src/common/io.cpp:49-70 | reads exactly the next bytes of the stream whatever the parts and interruptions, or reports how a shorter stream ended |
| Sockets.WriteAll | src/common/io.cpp:26-47 | sends everything, or exactly what the peer took before the connection broke |
| Sockets.SplittingKeepsStream | src/common/io.cpp:49-70 | splitting a part and interrupting between the halves does not change the stream |
| Sockets.SplittingKeepsRoom | src/common/io.cpp:26-47 | nor does it change how much the peer takes |
| Session.RepliesInOrder | src/server/server.cpp:211-304 | request frames that are all answered give exactly their replies in order, and the session goes on as if newly begun |
| SessionLaws.ServedExactly | src/server/server.cpp:236-300 | requests are all answered if and only if none is an oversize get in the state it meets, which is the fold of the abstract operations |
| SessionLaws.RequestsThenStop | src/server/server.cpp:211-304 | such requests, then anything that is no answerable request: exactly their replies are sent, the store is exactly the fold, and the session ends quietly or not as it should |
| SessionLaws.SessionExactly | src/server/server.cpp:206-305 | every stream of bytes is some answered requests and a rest that stops the session, changing nothing and getting no reply unless the peer stops taking replies |
| Session.ReplyDecodes | src/server/server.cpp:292-300 | each reply carries its request's identifier, the matching type and exactly status, text and data |
| Session.TrailingBytesAreHarmless | src/server/server.cpp:211-229 | an incomplete frame after any requests changes neither store nor replies |
| SessionLaws.FirstFrameExactly | src/server/server.cpp:211-229 | a stream begins with a request exactly if it begins with a request frame, and is cut short exactly if a good header announces more than follows |
| SessionLaws.AnsweredExactly | src/server/server.cpp:211-304 | the first request is answered exactly if it arrives whole with a good header and is not a get too large to answer; otherwise the store is left alone, nothing is sent, and the session ends quietly exactly if the peer closed before a whole header |
| SessionLaws.ReplyFitsExactly | src/server/server.cpp:292-300 | the only reply that cannot be encoded is that of a get whose value leaves no room for 12 bytes |
| SessionLaws.ListAlwaysFits | src/server/server.cpp:277-283 | listing an open store always encodes and decodes to exactly its sorted identifiers |
| SessionLaws.ReadBackExactly | src/server/server.cpp:253-260 | a value stored over the wire can be read back exactly when it is at most 2^20 - 12 bytes, always so for identifiers of 4 bytes or more |
| SessionLaws.StoredButUnreadable | src/server/server.cpp:292-300 | identifier a with a value of 2^20 - 9 bytes is stored and cannot be read back |
| SessionLaws.LockedExactly | src/server/server.cpp:97-108 | LOCKED is reported exactly for well-formed put, get, remove, list on a locked store and for adding to a full open one |
| SessionLaws.FullVaultSaysLocked | src/storage/vault_store.cpp:250-253 | a savable open vault of 10000 secrets, where a put of identifier b is answered LOCKED and changes nothing |
| SessionLaws.LockedTellsNothing | src/server/server.cpp:236-290 | a locked store answers no data and does not change |
| SessionLaws.LockedForever | src/server/server.cpp:121-158 | over any number of sessions of any clients a locked store stays locked and empty |
| SessionLaws.SessionKeepsGood | src/server/server.cpp:206-305 | no bytes a client sends bring the store into a state it could not save |
| Server.Server.HandleClient | src/server/server.cpp:206-305 | store, replies and end of a session are the specified function of the stream, its end, the room and the disk faults, not of its splitting; there are no faults if and only if no call fails |
| Server.Server.Run | src/server/server.cpp:121-158 | sessions follow one another on one store, however each ends |
| Server.Server.Turn | src/server/server.cpp:211-304 | one turn of the loop, over the real store and socket, is one turn of the specification |
| ClientSpec.CallKeepsHandle | src/client/client.cpp:157-160 | request identifiers are never zero, across the 64-bit wrap-around; a closed handle stays closed |
| ClientSpec.IdentifierAdvances | src/client/client.cpp:157-160 | every call that sends anything uses up its identifier: the next is one more, and 1 after 2^64 - 1 |
| ClientSpec.SentIsTheRequest | src/client/client.cpp:161-175 | what is sent is the request's frame under the handle's identifier, or a prefix of it |
| ClientSpec.AcceptsExactly | src/client/client.cpp:279-379 | a call accepts its arguments exactly if identifiers are valid and a put fits one payload |
| ClientSpec.DisconnectStatusExactly | src/client/client.cpp:171-200 | a closing call reports an I/O error exactly if the request did not get through or the stream ended before the announced response, and a protocol error otherwise |
| ClientSpec.DisconnectsExactly | src/client/client.cpp:148-203 | against any peer, a call on an open handle closes it if and only if its request does not get through, or no matching well-formed response begins the input, or a successful listing is malformed; it then reports an I/O or protocol error, and otherwise the status of the response |
| ClientSpec.IoErrorOnTheWire | src/client/client.cpp:201-202 | a response may carry the status I/O error, which the call returns with the handle open |
| ClientSpec.RefusalDoesNothing | src/client/client.cpp:152-155 | a call on a closed handle or with arguments it refuses sends nothing and changes nothing |
| ClientSpec.AcceptedExactly | src/client/client.cpp:175-202 | from any peer, a response is accepted exactly when a matching well-formed frame begins the stream, and exactly it is consumed |
| Client.Client.Transact | src/client/client.cpp:148-203 | the exchange over a real socket is the specified one |
| Client.Client.PutSecret | src/client/client.cpp:279-309 | the call is the specified one, arguments that cannot be encoded refused before anything is sent |
| Client.Client.GetSecret | src/client/client.cpp:311-353 | the call is the specified one, with the data of a successful response |
| Client.Client.ListSecrets | src/client/client.cpp:381-442 | the call is the specified one; a malformed list closes the handle |
| EndToEnd.CallRefines | src/client/client.cpp:148-203 | over a channel that may break at any byte: OK means performed once with the returned data, other errors mean no effect and are the vault's own or a refusal of the arguments, an I/O error at most one effect and a closed handle; never a protocol error; no unread bytes while open |
| EndToEnd.CallIsAnswered | src/client/client.cpp:148-203 | on an unbroken channel every call that can be sent gets the abstract vault's answer, oversize gets excepted |
| EndToEnd.AnswerIsPerform | src/server/server.cpp:236-290 | the server's answer to an encoded call is the meaning of the call |
| EndToEnd.AnswerExactly | src/server/server.cpp:236-290 | to any request whatever: a malformed one is refused as a bad argument, every other is answered with what its operation means on the plain map; data come with success only and a diagnostic with failure only |
| EndToEnd.NotFoundExactly | src/server/server.cpp:253-270 | NOT_FOUND exactly for a well-formed get or remove, on an open store, of what is not there |
| EndToEnd.SuccessExactly | src/server/server.cpp:236-290 | OK exactly for a well-formed request that finds what it needs and whose save succeeds |
| Connection.OneSession | src/server/server.cpp:206-305 | whatever calls are made on one handle and wherever its connection breaks in either direction, one session of the server on the bytes that reached it makes the same changes and sends the same replies |
| Connection.IdentifiersCount | src/client/client.cpp:157-160 | the calls of one connection count their identifiers up, from 2^64 - 1 on to 1 |
| Connection.IdentifiersDiffer | src/client/client.cpp:157-160 | fewer than 2^64 requests on one connection never share an identifier |
| Connection.ServerIsDriven | src/server/server.cpp:121-158 | any number of such connections, one after the other, are the server's accept loop on their streams |
| Connection.RunRefines | src/client/client.cpp:265-456 | any run of calls over connections that break anywhere leaves the accept loop in the state of the abstract vault after a selection of the calls in order, with exactly the successful ones and possibly some that ended in an I/O error; every answer OK is the abstract one |
| Utf8.ValidExactly | src/ctl/ctl.cpp:302-370 | the accepted texts are exactly the shortest-form encodings of scalar values without NUL, LF and CR (sections 3 and 4 of RFC 3629), each of exactly one sequence |
| Utf8.IsValidSingleLine | src/ctl/ctl.cpp:306-370 | the validator loop accepts exactly those texts |
| Utf8.Assemble | src/ctl/ctl.cpp:382-413 | the unchecked reads are in bounds and the masks and shifts give the next scalar value of the unique decoding |
| Utf8.IsDisplaySafeSingleLine | src/ctl/ctl.cpp:376-419 | true exactly when no scalar value is in U+0000-001F or U+007F-009F |

## Left out

- libsodium: the cipher, the key derivation and randomness are parameters or arbitrary values; nothing is claimed about a wrong password, and encryption itself never fails.
- zpp/wire is not part of this model: its reader, writer and size counter are modelled as cursors with the behaviour doc/en/architecture.org describes.
- VaultSystem reads the vault file in one step; the loop that reads it in parts is the method ReadFile, and no other process can write the file while the lock is held (OthersAreShutOut).
- A rename that reports failure is taken not to have happened, and fsync of a file is taken to make its content durable.  A vault file found at the start is taken to be durable.
- Ownership, mode and symbolic-link checks, directory creation, socket set-up, peer credentials, poll, accept and timeouts: they appear only as calls that may fail or connections that end.
- Texts of operating-system errors are arbitrary up to 64 KiB; the client's last_error string is not modelled; of the fixed diagnostics only that a failed request has one and how long it may be is stated, not the wording.
- Memory erasure, except that locking zeroes the key; secure buffers; allocation failure.
- Connection.RunRefines: covers one server process; restarts and power losses of the server are the subject of VaultRecovery and VaultDurability.  A client waits for each call before the next, as the library does, and connections are taken in the order they are accepted.
- Output arguments of a decoder that fails are not modelled; no caller reads them.
- std::sort is an insertion into a sorted sequence, and the hash table yields its keys in an arbitrary order.
- C ABI pointers, option structures and memory of results; the C++ wrapper; status names; example programs.
- Command-line parsing, prompts and messages of the two executables, and the file transfers of the management client (read_private_file, write_new_file_atomically), which repeat the write, sync and rename pattern for a path that must not exist.
