# Interchain Events: a verified model

Interchain Events lets a contract on the Cosmos Hub wait for a fact about another chain. A subscription names a
store, a key and a condition. Anyone may submit a value with a two-level Merkle proof; if the proof reaches the
given AppHash and the condition holds, the Hub marks the subscription `Triggered` and calls the subscriber's
contract, and a failing callback turns the mark into `Failed`. An off-chain watcher predicts the condition and
builds the proof bytes, and a state explorer builds and parses the storage keys that subscriptions name.

This project models that system in Dafny and proves what it promises. Verify the whole project with
`dafny verify dfyconfig.toml`.

## How it is organised

- **The protocol.** `Hub` has the contract: its handlers as an imperative class (`Hub.Contract`), each method tied to
  a function of the old store. `Host` is the CosmWasm host around it: a handler that fails leaves no writes, the
  callback runs in a snapshot of its own whose failure comes back as a reply, and a receiver reacts with an arbitrary
  finite tree of further messages (subscribe, submit, notify, deploy, fail, or try a subtree and swallow its failure).
  `Callbacks` says what an accepted submission leads to under any such reaction; `Lifecycle`, `Ledger` and `Paging`
  hold the theorems over all runs of transactions.
- **The proofs.** `Ics23` is the existence-proof check with the two specs. `HashTree` is the theory both tree kinds
  share; `Iavl` and `MultiStore` are the honest trees; `Chain` is the Hub's two-level check; `EndToEnd` joins it to
  the protocol. SHA-256 enters as any function with 32-byte results. It is never assumed to be injective: the theorems
  conclude "or two different strings out of this finite set of strings that were actually hashed have equal hashes".
- **The bytes.** `Varint`, `Wire`, `MerkleProof`, `ProofCodec`, `ConsensusState`, `TypedArrays`, `Hex`, `Bech32`,
  `StorageKeys`, `Utf8`.
- **The conditions.** `Conditions` (text and 128-bit numbers), `JsonPath` and `Watcher` (the float comparison and the
  JSON walk that predict the Hub's answer).

## What the proofs found

- The handler stores `Expired` and then returns an error, so the host rolls the write back: in every committed world
  no subscription is `Expired` (`Lifecycle.Conservation`), although the type's documentation lists it as a state;
  `Lifecycle.ExpiryIsRolledBack` has the write and the transaction that undoes it. The safety intended by it holds
  anyway, with the write rolled back (`Lifecycle.NeverFiresLate`) or kept (`Lifecycle.OverdueNeverTriggersRaw`).
- The watcher reads one page of 100: it sees all active subscriptions exactly when none has an id above 100. After 101
  subscriptions, and after any more, it does not see the latest (`Paging.WatcherMissesTheLatest`).
- `encodeVarint` works on 32 bits: it always ends within five bytes and reads back as the length modulo 2^32, so
  exactly the lengths below 2^32 survive; 2^32 itself reads back as 0 (`Varint.ScriptWrapsToZero`).
- The tendermint spec fixes only the first byte of a leaf prefix. The check is sound for a store under every hash
  function exactly when no ending of the store's name is itself a length-prefixed string
  (`MultiStore.SoundExactlyWhenUnambiguous`). On a name that has such an ending, such as the bytes 1, 65
  (`MultiStore.AmbiguousName`), the Hub accepts the store's pairs as those of a store that need not exist
  (`Chain.AmbiguousNamesAreUnsound`). Printable names shorter than 32 bytes never have one.
- The proof read off an IAVL tree is accepted exactly when the value is not empty and every header above a right child
  on the path, with its length byte, has at most 12 bytes. Fewer than 2^34 keys, versions below 2^34 and a height below
  64 are enough (`Iavl.ModestFits`); a root of version 2^62 over two leaves is refused (`Iavl.LongHeaderRefused`).
- The explorer shows a binary map key as `0x…` text and rebuilds the store key from that text, so the rebuilt key is the
  raw one exactly when namespace and key are printable bytes; the key 0xff under `A` is rebuilt as another
  (`StorageKeys.BinaryKeyIsNotRebuilt`). A printable item key of 8227 bytes can look like a map entry
  (`StorageKeys.LongItemLooksLikeMap`), a shorter one cannot.
- The watcher's floats never make it submit in vain for plain numerals below 2^128; what it misses are pairs that round
  to one float, such as 2^53 + 1 against 2^53 (`Watcher.WatcherMisses`).

## Model

| member | source | states |
|---|---|---|
| Chain.Sound | contracts/interchain-events/src/verification.rs:24-97 | If the check accepts against the AppHash of an honest multistore, whatever function decodes the proof bytes, the named store maps the key to the value, or two of the strings hashed by that multistore and that proof collide |
| Chain.OneValue | contracts/interchain-events/src/verification.rs:24-97 | Two accepted proofs for one AppHash, store and key carry one value, or exhibit a collision |
| Chain.Complete | contracts/interchain-events/src/verification.rs:35-94 | For every key of an honest multistore the two proofs read off its trees are accepted, exactly unless the value is empty or a header on the path is too long for the IAVL spec |
| Chain.CompleteOnTheWire | scripts/proof.ts:79-104 | The same down to the bytes: encoded as protobuf, wrapped by the script, decoded and checked by the Hub |
| Chain.AmbiguousNamesAreUnsound | contracts/interchain-events/src/verification.rs:24-97 | Where a store's name has another reading, the Hub accepts each provable pair of that store, encoded and wrapped, for the store of the other name, even if there is none |
| HashTree.ProofEndsAtLeaf | contracts/interchain-events/src/verification.rs:59-88 | A conforming proof that reaches the root of an honest tree starts at one of its leaf images, or yields two different hashed strings with equal hashes |
| HashTree.ChildAlignment | contracts/interchain-events/src/verification.rs:66-88 | Prefix bounds and a suffix of whole child slots leave the child only the left or the right slot |
| HashTree.PathToReachesRoot | contracts/interchain-events/src/verification.rs:59-64 | The audit path of a key folds to the root of its tree |
| Iavl.Sound | contracts/interchain-events/src/verification.rs:49-78 | A conforming proof that reaches a module root proves a pair of that module's tree, or exhibits a collision |
| Iavl.LeafKeyDetermined | contracts/interchain-events/src/verification.rs:66-73 | With leaf prefixes of exactly three varints a leaf image determines its key |
| Iavl.Complete | contracts/interchain-events/src/verification.rs:66-78 | The proof of any stored key verifies exactly when its value is not empty and the headers above right children fit the prefix bound |
| Iavl.ModestFits | contracts/interchain-events/src/verification.rs:66-78 | In trees of fewer than 2^34 keys, with versions below 2^34 and a height below 64, the headers on every path fit |
| Iavl.LongHeaderRefused | contracts/interchain-events/src/verification.rs:66-78 | A well-formed tree of two keys whose honest proof for the right key is refused |
| MultiStore.Sound | contracts/interchain-events/src/verification.rs:80-94 | A conforming proof that reaches the AppHash proves the module root under its store's name, or exhibits a collision |
| MultiStore.Complete | contracts/interchain-events/src/verification.rs:80-94 | The proof of any store's root always verifies |
| MultiStore.SoundExactlyWhenUnambiguous | contracts/interchain-events/src/verification.rs:80-94 | For a store under every hash function, all conforming proofs that reach the AppHash prove what was committed, exactly when the store's name is not ambiguous |
| MultiStore.MisreadVerifies | contracts/interchain-events/src/verification.rs:80-94 | In every multistore, the honest proof of a store whose name has another reading also verifies under that other name |
| MultiStore.ReadingsAreUnique | contracts/interchain-events/src/verification.rs:82-88 | A store's leaf image has no other prefix and key exactly when its name is not ambiguous |
| MultiStore.AmbiguousName | contracts/interchain-events/src/verification.rs:82-88 | The two bytes 1, 65 are an ambiguous name, with its other reading |
| MultiStore.ShortPrintableNames | contracts/interchain-events/src/verification.rs:82-88 | Printable names shorter than 32 bytes are never ambiguous |
| Ics23.WholeSlotsIsModulo | contracts/interchain-events/src/verification.rs:66-88 | The suffix rule by repeated subtraction is the modulo test |
| EndToEnd.FiredMeansTrue | contracts/interchain-events/src/contract.rs:184-290 | Over every run, a subscription fired with an honest AppHash has its watched key mapped, in the store it names, to a value that meets its condition, or hashed strings collide |
| EndToEnd.HonestProofFires | contracts/interchain-events/src/contract.rs:184-348 | For every reaction of the receiver, the honest proof bytes take effect on a subscription that wants them, triggered or failed as the callback decides; with an empty value or a header too long for the spec it reverts |
| EndToEnd.HonestProofCommits | contracts/interchain-events/src/contract.rs:184-348 | After any run, a transaction with the honest submission commits, whatever the receiver does: the subscription has then been fired once, by it |
| Callbacks.AcceptedResolves | contracts/interchain-events/src/contract.rs:288-348 | For every receiver and reaction an accepted submission stands: a failed callback leaves only the mark `Failed`, one that went through leaves all it did and the subscription triggered, fired by this submission alone |
| Callbacks.AcceptedCommits | contracts/interchain-events/src/contract.rs:288-348 | So it commits as a transaction after any run, as the subscription's first and only firing |
| Callbacks.PlainReceivers | contracts/proof-callback/src/contract.rs:38-46 | A recording receiver that does nothing more gains one event; at an address without a contract the subscription is failed and nothing else changes |
| Callbacks.FailsPartway | contracts/interchain-events/src/contract.rs:292-348 | A receiver that fails at any point of its reaction undoes all of it, its own record included |
| Callbacks.Resubscribes | contracts/interchain-events/src/contract.rs:288-317 | A receiver that subscribes again in its callback ends with the old subscription triggered and a new active one of its own |
| Hub.SubscribeExact | contracts/interchain-events/src/contract.rs:136-182 | A subscription is taken exactly when its three fields are not empty and nothing overflows; what it stores, and that a refusal stores none |
| Hub.SubmitExact | contracts/interchain-events/src/contract.rs:194-317 | A submission succeeds exactly on an active subscription whose key, expiry, proof and condition accept it; what it writes and dispatches, and what a refusal writes |
| Hub.Contract.ExecuteSubscribe | contracts/interchain-events/src/contract.rs:136-182 | The imperative handler's new store and answer are those of the specification function, early returns and overflow included |
| Hub.Contract.ExecuteSubmitProof | contracts/interchain-events/src/contract.rs:184-317 | The imperative handler's new store and answer are those of the specification function, with the `Expired` write kept |
| Hub.Contract.EvaluateCondition | contracts/interchain-events/src/contract.rs:229-286 | The condition step, with the path walk as a loop, computes the specified verdict |
| Hub.Contract.ReplyOnError | contracts/interchain-events/src/contract.rs:324-348 | The reply to a failed callback marks exactly that subscription failed |
| Host.ProofCallback.ExecuteInterchainEvent | contracts/proof-callback/src/contract.rs:26-55 | The receiver's log grows by one event with the caller and the block height |
| Host.ExecAllKeepsInv | contracts/interchain-events/src/contract.rs:288-347 | Through arbitrarily nested, re-entrant and failing callbacks, ids stay dense, nothing is committed as expired, and the books of triggers and events balance |
| Host.TriggerAndNotifyKeepInv | contracts/interchain-events/src/contract.rs:288-317 | Triggering and recording the callback together keep the books balanced |
| Host.FailedKeepsInv | contracts/interchain-events/src/contract.rs:324-348 | A callback that failed leaves the books as before the submission |
| Host.RunKeepsInv | contracts/interchain-events/src/contract.rs:136-348 | Every committed world of every run satisfies the invariant |
| Lifecycle.ExecAllEvolves | contracts/interchain-events/src/contract.rs:184-348 | At any nesting depth a subscription appears active, keeps its terms, and leaves `Active` only by one submission that its terms accept |
| Lifecycle.RunSettles | contracts/interchain-events/src/contract.rs:194-341 | Over every run, a subscription is active and never fired, or was fired by exactly one accepted submission between its creation and its expiry |
| Lifecycle.CommittedIsFinal | contracts/interchain-events/src/contract.rs:194-341 | Committed `Triggered` and `Failed` never change again, and all other fields never change |
| Lifecycle.NeverFiresLate | contracts/interchain-events/src/contract.rs:207-216 | Once a block is past the expiry, no later transaction changes an unfired subscription |
| Lifecycle.OverdueNeverTriggersRaw | contracts/interchain-events/src/contract.rs:207-216 | With refused handlers' writes kept, no sequence of subscribe, submit and reply calls triggers an overdue subscription, and without a reply to it, it is expired exactly when it was or a submission tried it |
| Lifecycle.ExpiryIsRolledBack | contracts/interchain-events/src/contract.rs:207-216 | The handler writes `Expired` and the transaction that called it leaves no trace |
| Lifecycle.Conservation | contracts/proof-callback/src/contract.rs:38-46 | After any run a recording receiver holds exactly as many events from the Hub as there are triggered subscriptions naming it |
| Ledger.LogIsHistory | contracts/proof-callback/src/contract.rs:38-46 | Entry by entry and in order, those events are the submissions that left a subscription naming the receiver triggered |
| Paging.ListingIsExact | contracts/interchain-events/src/contract.rs:371-386 | In every committed world the ids are exactly 1 to NEXT_ID - 1 and listing gives each record once, in order |
| Paging.PagesAreExact | contracts/interchain-events/src/contract.rs:371-386 | Following the last id with any limit of at least one ends and yields every subscription once, in order |
| Paging.PageLength | contracts/interchain-events/src/contract.rs:376-377 | A page holds what is left, capped by the limit and by 100 |
| Paging.SubscribeAppends | contracts/interchain-events/src/contract.rs:136-182 | A subscribing transaction that is taken lists its subscription last, with the caller as creator, the message's terms and an expiry counted from the current height; one that is refused leaves no trace |
| Paging.WatchesAreExact | contracts/interchain-events/src/contract.rs:388-412 | The watch query lists exactly the client's active subscriptions, each once, in order of id |
| Paging.WatcherMissesTheLatest | frontend/server/utils/watcher.ts:214-227 | A run of any length above 100 whose latest subscription is active and not seen |
| Paging.WatcherSeesAll | frontend/server/utils/watcher.ts:214-227 | The watcher sees every active subscription exactly when none has an id above 100 |
| Utf8.OrderIsCodePointOrder | contracts/interchain-events/src/contract.rs:31-42 | On valid UTF-8, byte order is code point order |
| Utf8.DecodesExactlyEncodings | contracts/interchain-events/src/contract.rs:33-40 | The decoder accepts exactly the encodings of section 3 of RFC 3629 and inverts them |
| Conditions.TextOrder | packages/shared/src/types.rs:15-17 | `String` comparison equals `Bytes` comparison and alphabetical order |
| Conditions.ParseExact | contracts/interchain-events/src/contract.rs:52-62 | For all byte strings: `parse_u128` accepts exactly digits with an optional plus sign, inside quotes, inside white space, of a value below 2^128, and yields that value |
| Conditions.DecimalRoundTrip | contracts/interchain-events/src/contract.rs:52-62 | Decimal text with any leading zeros, sign, quotes and white space parses back to its number, or errors instead of wrapping |
| Conditions.NumericOrder | contracts/interchain-events/src/contract.rs:43-47 | `Numeric` comparison is that of the numbers, whatever white space, quotes, signs and leading zeros spell them |
| Watcher.DoubleMonotone | frontend/server/utils/watcher.ts:183-205 | Rounding integers to 53-bit floats never swaps two of them |
| Watcher.HubComparesExactly | contracts/interchain-events/src/contract.rs:239-255 | The Hub's numeric conditions hold exactly when the numbers, however spelled, compare so below 2^128 |
| Watcher.WatcherIsSound | frontend/server/utils/watcher.ts:183-205 | For plain numerals below 2^128 the watcher's comparison holds exactly when the Hub's does and the two floats differ; below 2^53 they differ exactly when the numbers do |
| Watcher.WatcherMisses | frontend/server/utils/watcher.ts:183-205 | A value and a threshold for which the Hub would accept and the watcher does not submit |
| Watcher.JsonVerdictPredicted | frontend/server/utils/watcher.ts:154-168 | On a path that is missing or ends in a scalar the watcher predicts the Hub's verdict, when the script engine adds nothing under the path's names |
| JsonPath.Walk | contracts/interchain-events/src/contract.rs:265-271 | The Hub's loop over the segments computes the lookup |
| JsonPath.ScriptWalk | frontend/server/utils/watcher.ts:157-164 | The watcher's loop over the segments computes its lookup |
| JsonPath.ScalarAgreement | frontend/server/utils/watcher.ts:154-168 | A path that ends in a scalar is judged alike whatever the script engine adds to objects |
| JsonPath.Agreement | frontend/server/utils/watcher.ts:154-168 | So is a missing path, when the engine adds nothing under its names |
| Varint.DecodeEncode | contracts/interchain-events/src/proto.rs:163-178 | Every 64-bit value survives base-128 writing and reading |
| Varint.SelfDelimiting | contracts/interchain-events/src/proto.rs:163-178 | Bytes after a varint do not change how it reads |
| Varint.EncodeVarint | scripts/proof.ts:106-114 | The script's loop ends and pushes exactly the specified bytes |
| Varint.ScriptReadsBack | scripts/proof.ts:106-114 | At most five bytes, which read back as the value modulo 2^32 |
| Varint.ScriptExactBelow32Bits | scripts/proof.ts:106-114 | Exactly the values below 2^32 survive |
| Varint.ScriptWrapsToZero | scripts/proof.ts:106-114 | The value 2^32 reads back as 0 |
| Wire.ParseWrite | contracts/interchain-events/src/proto.rs:131-178 | Reading written fields gives the same fields in the same order |
| MerkleProof.BuildMerkleProof | scripts/proof.ts:79-104 | The script's buffers hold exactly the concatenated parts |
| MerkleProof.BuildIsWrite | scripts/proof.ts:79-104 | Those bytes are the protobuf message with one field 1 for each op |
| MerkleProof.DecodeBuild | contracts/interchain-events/src/proto.rs:163-178 | The Hub recovers exactly the two wrapped proofs and refuses any other number of them |
| TypedArrays.ConcatBytes | scripts/iavl-key.ts:23-32 | Copying parts at a moving offset yields their concatenation |
| ProofCodec.RoundTrip | contracts/interchain-events/src/verification.rs:37-47 | Every existence proof decodes from its protobuf bytes to itself |
| ConsensusState.ExtractInverts | contracts/interchain-events/src/proto.rs:131-159 | The root is extracted whenever it is present and not empty, for every response and timestamp, and the response is refused otherwise |
| ConsensusState.TimestampRoundTrip | contracts/interchain-events/src/proto.rs:64-70 | Negative seconds and nanoseconds survive |
| ConsensusState.RequestRoundTrip | contracts/interchain-events/src/proto.rs:116-128 | The query request decodes to what was encoded, omitted defaults included |
| Bech32.Regroup | frontend/app/composables/useStateExplorer.ts:63-73 | The loop on the unmasked 32-bit accumulator emits exactly the whole bytes among the leading bits |
| Bech32.WindowIsNextByte | frontend/app/composables/useStateExplorer.ts:66-72 | The byte taken from the wrapped accumulator is the next byte of the exact bit string |
| Bech32.OctetsInvertsQuintets | frontend/app/composables/useStateExplorer.ts:63-73 | Regrouping inverts the zero-padded 8-to-5 regrouping of every byte string |
| Bech32.AddrToHex | frontend/app/composables/useStateExplorer.ts:52-75 | The function returns the hex of the address's bytes, or fails on a character outside the alphabet |
| Bech32.AddressRoundTrip | frontend/app/composables/useStateExplorer.ts:52-75 | An address written for a byte string decodes to those bytes, whatever its prefix and checksum |
| Hex.HexToBytes | scripts/iavl-key.ts:11-17 | The loop stores `parseInt` of each pair and drops an odd last character |
| Hex.UnhexToHex | scripts/iavl-key.ts:58-62 | Decoding undoes encoding |
| Hex.PaddedLength | frontend/app/composables/useStateExplorer.ts:359 | Four padded hex digits are the two big-endian bytes of a 16-bit length |
| StorageKeys.CwStoragePlusMapKey | scripts/iavl-key.ts:38-45 | The script's buffers hold the length prefix, the namespace and the key |
| StorageKeys.BuildIavlKey | scripts/iavl-key.ts:51-56 | The script's key is 0x03, the address bytes and the map key |
| StorageKeys.ParseMapKey | frontend/app/composables/useStateExplorer.ts:323-349 | Parsing a built map key gives back its printable namespace and key |
| StorageKeys.IavlKeyInjective | scripts/iavl-key.ts:38-56 | With addresses of one length, different addresses, namespaces or keys give different keys, for all text |
| StorageKeys.BuildersAgree | frontend/app/composables/useStateExplorer.ts:355-362 | For all text the explorer's hex key denotes the bytes the script builds |
| StorageKeys.RebuiltKeyIsRaw | frontend/app/composables/useStateExplorer.ts:145-150 | The key rebuilt from parsed parts is the raw one exactly when namespace and key are printable bytes |
| StorageKeys.BinaryKeyIsNotRebuilt | frontend/app/composables/useStateExplorer.ts:145-150 | A binary key that parses as a map entry and is rebuilt as another key |
| StorageKeys.DisplayAgrees | frontend/app/composables/useStateExplorer.ts:97-137 | A key that parses as (ns, k) is displayed as `ns::k`, for every hex text |
| StorageKeys.ItemParsesAsMap | frontend/app/composables/useStateExplorer.ts:323-349 | A printable item key is taken for a map entry exactly when its first two bytes make a length that fits |
| StorageKeys.ItemsAreNotMaps | frontend/app/composables/useStateExplorer.ts:97-137 | Printable item keys of up to 8226 bytes never parse as maps and are shown verbatim |
| StorageKeys.LongItemLooksLikeMap | frontend/app/composables/useStateExplorer.ts:323-349 | An item key of 8227 blanks parses as a map entry |

## Left out

- SHA-256, base64 and JSON parsing: taken as arbitrary functions; a parsed document is a value both sides share.
- The ics23 and prost crates are not part of this model; their behaviour is written from ICS 23 (Vector Commitments), the Protocol Buffers encoding guide and the two proof specs whose constants the repository's design document writes out. Explanatory error texts are dropped, and hash or length operations outside both specs are refused when the root is computed instead of when the spec is compared.
- Compressed batch proofs: `Ics23` treats one as the batch it expands to, and `ProofCodec` reads it as no existence proof. A oneof alternative that a later one replaces is parsed but not decoded.
- Where the AppHash comes from: the submitter passes it, so the theorems are about a given honest AppHash.
- IAVL balance and rotations: the honest trees are any ordered trees whose numbers fit 64 bits.
- The callback's payload is the raw value, not its lossy UTF-8 text, and JSON wrapping, attributes, events, funds, address validation, cw2 versioning and the stored admin are not modelled.
- Gas: no message runs out of it. The text of a failed callback stands for whatever the host reports.
- Contract migration: a deployed receiver keeps its kind.
- Watcher verdicts on other values: arrays, objects, non-ASCII `Equals`, text and byte thresholds, and numerals that are not runs of digits, where the two sides are written differently.
- Watcher timers, retries, network access, signing and its capped event log, and the REST fetchers and user interface of the explorer.
- TreeNode.vue repeats the bech32 and key code; it is modelled once.
- The attestation registry, the grpc proxy and the designs of phases 2 and 3.
