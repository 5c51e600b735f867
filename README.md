# Peergos storage-quota accounting, modelled in Dafny

This project models the part of a Peergos server that keeps track of how much
storage each user holds and refuses writes beyond the user's quota:

- **MaybeMultihash** (`merkle_btree.dfy`, module `MerkleBtree`) is an optional
  content hash. The model covers `get`, `equals`, `hashCode`, and the two-case
  CBOR encoding and its decoder.
- **The DAG size diff** (`storage.dfy`, module `Storage`) covers
  `getRecursiveBlockSize`, `getChangeInContainedSize` with its pairing of the
  links found only before and only after, and `getLinksAndSize`. The block
  store is a value with `size`, `links` and a `rank` that orders every link
  below its parent.
- **SpaceCheckingKeyFilter** is split across three modules:
  - `server_ledger.dfy`, module `Ledger`, holds the `Usage` ledger and the
    `Stat` record, each as a value type and as a class updated in place;
  - `filter_spec.dfy`, module `FilterSpec`, holds the state every filter
    operation leaves behind, written as closed-form functions on a value
    state;
  - `server.dfy`, module `Server`, holds the filter itself: a class whose
    methods follow the Java code loop for loop and branch for branch.

  The modelled operations are `processMutablePointerEvent`,
  `processRemovedOwnedKeys`, `allowWrite`, `accept(CorenodeEvent)` and
  `processCorenodeEvent`. The postconditions of `ProcessRemovedOwnedKeys`,
  `ObserveOwnedKeys`, `UpdatePointer`, `ProcessMutablePointerEvent`,
  `AllowWrite` and `Register` tie the new state to the corresponding function
  in `FilterSpec`. `ProcessCorenodeEvent` and `Accept` have partial contracts,
  listed under "Left out". The properties are proved in
  `filter_properties.dfy` (module `FilterProperties`). They say that:
  - the order in which the retraction cascade visits keys does not matter;
  - retraction and update are idempotent;
  - owned keys keep ranking below their owners and no new dangling key
    appears;
  - sizes stay exact when no block links to the same child twice;
  - the quota test is exactly the condition stated;
  - reservations and refusals move effective usage by the stated amounts;
  - after `processCorenodeEvent` every key of the user's tree has a Stat.
- **TweetNaClKey** (`symmetric.dfy`, module `Symmetric`) covers the two
  constructors (a length check, and decoding of "key bytes then a flag byte"),
  `toDirty`, `random`, `createNonce` and `equals`.

The filter reads four things from the rest of the server:
- the block store;
- the owned keys recorded under a writer's root (`WriterData`);
- each mutable pointer's current target;
- each user's quota.

Blocks and the `WriterData` under a root are content-addressed, so they never
change: the filter object holds them as constants. Pointer targets and quotas
do change between calls, so each method that reads them takes them as a
parameter (`pointers`, `quota`), standing for what the source reads at the
time of the call. `FilterSpec.Environment` bundles what one call sees: the
store, the owned keys, the pointer targets and the key rank described under
"Left out".

Random bytes are a function parameter `random: nat -> byte`.

The model keeps these behaviours of the code as written:
- `allowWrite` admits a write only when `used <= quota` and
  `used + size < quota`. The second test is strict: a write that would fill
  the quota exactly is refused.
- A refused write also drops the writer's pending reservation.
- Retracting a writer, that is an event whose new root is absent, resets the
  Stats of the writer and of its cascade but never changes any user's usage.
- The retraction cascade reads the owned keys from the new root, which is the
  absent one (`WriterData.getWriterData(writer, newRoot, …)`).
- An update whose owner has no ledger is still observed: the new owned keys
  get Stats before the missing ledger stops the update. In the source this is
  a `NullPointerException` that is caught and logged.

## Model

| member | source | states |
|---|---|---|
| MerkleBtree.Cast | src/peergos/shared/merklebtree/MaybeMultihash.java:49 | reading a hash back from bytes gives a hash whose serialisation is those bytes |
| MerkleBtree.MaybeMultihash.Get | src/peergos/shared/merklebtree/MaybeMultihash.java:18-22 | succeeds iff a hash is present, returning the wrapped hash; fails with HashNotPresent otherwise |
| MerkleBtree.MaybeMultihash.Equals | src/peergos/shared/merklebtree/MaybeMultihash.java:28-36 | true iff the two values are equal; two absent values are equal; present and absent differ |
| MerkleBtree.MaybeMultihash.HashCode | src/peergos/shared/merklebtree/MaybeMultihash.java:38-41 | 0 when absent, the wrapped hash's code when present |
| MerkleBtree.MaybeMultihash.ToCbor | src/peergos/shared/merklebtree/MaybeMultihash.java:52-55 | CBOR null iff absent, otherwise a byte array of the hash's bytes |
| MerkleBtree.PresentIffNotEmpty | src/peergos/shared/merklebtree/MaybeMultihash.java:14-16 | isPresent holds exactly for the values other than the shared empty one, and a present value wraps its hash |
| MerkleBtree.Empty | src/peergos/shared/merklebtree/MaybeMultihash.java:57-61 | the shared value holds no hash |
| MerkleBtree.Of | src/peergos/shared/merklebtree/MaybeMultihash.java:63-65 | wraps exactly the given hash |
| MerkleBtree.FromCbor | src/peergos/shared/merklebtree/MaybeMultihash.java:43-50 | succeeds iff the object is CBOR null or a byte array, and then re-encodes to that same object; any other kind is IncorrectCbor |
| MerkleBtree.HashCodeAgreesWithEquals | src/peergos/shared/merklebtree/MaybeMultihash.java:28-41 | values that are equal under equals have equal hash codes |
| MerkleBtree.CborRoundTrip | src/peergos/shared/merklebtree/MaybeMultihash.java:43-55 | decoding the encoding of any value gives that value back |
| Storage.GetLinksAndSize | src/peergos/shared/storage/ContentAddressedStorage.java:139-142 | the block's links, and its size with a missing size read as 0 |
| Storage.Sizes | src/peergos/shared/storage/ContentAddressedStorage.java:88 | one recursive size per link, in link order |
| Storage.RecursiveBlockSizeNonNegative | src/peergos/shared/storage/ContentAddressedStorage.java:86-96 | getRecursiveBlockSize returns at least the block's own size, which is at least 0 |
| Storage.RemoveAll | src/peergos/shared/storage/ContentAddressedStorage.java:109-112 | keeps exactly the elements of the first list that do not occur in the second |
| Storage.RemoveAllConcat | src/peergos/shared/storage/ContentAddressedStorage.java:109-112 | removeAll keeps the order of what it keeps: removing from a concatenation is concatenating the two removals |
| Storage.RemoveAllCount | src/peergos/shared/storage/ContentAddressedStorage.java:109-112 | removeAll drops every occurrence of a removed element and keeps every occurrence of the others |
| Storage.PairUp | src/peergos/shared/storage/ContentAddressedStorage.java:114-120 | min(before, after) pairs taken position by position; the rest of each side is its extra list, and at most one extra list is non-empty |
| Storage.PairsRankBelow | src/peergos/shared/storage/ContentAddressedStorage.java:114-117 | each paired block ranks below the root it came from, so the pairwise recursion terminates |
| Storage.PairChanges | src/peergos/shared/storage/ContentAddressedStorage.java:127-131 | one recursive diff per pair, in pair order |
| Storage.ChangeInContainedSizeIsExact | src/peergos/shared/storage/ContentAddressedStorage.java:98-103 | without duplicate links, the change from an optional original is the updated root's recursive size minus the original's, an absent original counting as 0 |
| Storage.ChangeToSelfIsZero | src/peergos/shared/storage/ContentAddressedStorage.java:98-137 | updating a root to itself changes nothing |
| Storage.ChangeIsAntisymmetric | src/peergos/shared/storage/ContentAddressedStorage.java:105-137 | the change from a to b is the negation of the change from b to a |
| Storage.SharedLinksCancel | src/peergos/shared/storage/ContentAddressedStorage.java:109-112 | with distinct links, the links both roots share contribute equally to both sides |
| Storage.PairedAndExtraSizes | src/peergos/shared/storage/ContentAddressedStorage.java:119-135 | exact pairwise changes plus the extra sizes add up to the difference of the two lists' total sizes |
| Storage.ExactFromPairs | src/peergos/shared/storage/ContentAddressedStorage.java:105-137 | with distinct links and exact pairwise changes, the change is the difference of the recursive sizes |
| Storage.ChangeIsExactWithoutDuplicates | src/peergos/shared/storage/ContentAddressedStorage.java:105-137 | for the two-hash overload: when no block links a child twice, the change equals recursive size after minus recursive size before |
| Storage.DuplicateLinksBreakExactness | src/peergos/shared/storage/ContentAddressedStorage.java:109-112 | a concrete store where a duplicated link makes the change 0 although the recursive sizes are 2 and 1 |
| Symmetric.New | src/peergos/crypto/symmetric/TweetNaClKey.java:18-26 | succeeds iff the key is SECRETBOX_KEY_BYTES long, keeping the key and the flag; otherwise IncorrectKeySize with the length |
| Symmetric.Encoding | src/peergos/crypto/symmetric/TweetNaClKey.java:28-31 | one byte longer than the key: the key bytes, then a flag byte that is 1 iff the key is dirty and 0 iff it is clean |
| Symmetric.Decode | src/peergos/crypto/symmetric/TweetNaClKey.java:28-31 | succeeds iff the input is one byte longer than a key; the key is everything but the last byte, and the key is dirty iff that byte is non-zero; an empty input fails, and any other wrong length is IncorrectKeySize with the length minus one |
| Symmetric.DecodeEncoding | src/peergos/crypto/symmetric/TweetNaClKey.java:28-31 | decoding a valid key's encoding gives the key back |
| Symmetric.ArraysEqual | src/peergos/crypto/symmetric/TweetNaClKey.java:87 | true iff same length and the same byte at every index, that is iff the sequences are equal |
| Symmetric.Equals | src/peergos/crypto/symmetric/TweetNaClKey.java:79-89 | true iff the flags match and the key bytes are equal |
| Symmetric.RandomBytes | src/peergos/crypto/symmetric/TweetNaClKey.java:75 | fills exactly a[offset..offset+count] from the source and leaves every other byte unchanged |
| Symmetric.CreateNonce | src/peergos/crypto/symmetric/TweetNaClKey.java:72-77 | NONCE_BYTES bytes, each taken from the random source |
| Symmetric.Random | src/peergos/crypto/symmetric/TweetNaClKey.java:98-103 | a valid key whose bytes come from the random source and that is not dirty, the flag byte being left at 0 |
| Symmetric.ToDirty | src/peergos/crypto/symmetric/TweetNaClKey.java:46-50 | a valid key with the same key bytes and the dirty flag set |
| Ledger.EffectiveCountsEachWriterOnce | src/peergos/server/SpaceCheckingKeyFilter.java:93-95 | usage() is confirmed usage plus any one writer's reservation plus the reservations of all the other writers |
| Ledger.SumValuesRemove | src/peergos/server/SpaceCheckingKeyFilter.java:94 | the pending sum splits off any writer's entry, whatever order the stream visits the entries in |
| Ledger.UsageValue.GetPending | src/peergos/server/SpaceCheckingKeyFilter.java:89-91 | the writer's entry, or 0 when it has none |
| Ledger.UsageValue.AddPending | src/peergos/server/SpaceCheckingKeyFilter.java:81-83 | the writer's reservation grows by the delta; confirmed usage and other writers' entries are unchanged |
| Ledger.UsageValue.ClearPending | src/peergos/server/SpaceCheckingKeyFilter.java:85-87 | only the writer's entry is removed |
| Ledger.UsageValue.ConfirmUsage | src/peergos/server/SpaceCheckingKeyFilter.java:76-79 | confirmed usage grows by the delta and the writer's reservation is removed |
| Ledger.AddPendingEffect | src/peergos/server/SpaceCheckingKeyFilter.java:81-83 | usage() (confirmed plus all pending) grows by exactly the delta |
| Ledger.ClearPendingEffect | src/peergos/server/SpaceCheckingKeyFilter.java:85-87 | usage() falls by exactly the writer's reservation |
| Ledger.ConfirmUsageEffect | src/peergos/server/SpaceCheckingKeyFilter.java:76-79 | usage() loses the writer's reservation and gains the confirmed delta |
| Ledger.Usage.constructor | src/peergos/server/SpaceCheckingKeyFilter.java:72-74 | the given confirmed usage and no pending entries |
| Ledger.Usage.ConfirmUsage | src/peergos/server/SpaceCheckingKeyFilter.java:76-79 | in place: the new ledger is the old one confirmed by the delta, and usage() moves as ConfirmUsageEffect states |
| Ledger.Usage.AddPending | src/peergos/server/SpaceCheckingKeyFilter.java:81-83 | in place: the writer's reservation grows by the delta and usage() grows by the delta |
| Ledger.Usage.ClearPending | src/peergos/server/SpaceCheckingKeyFilter.java:85-87 | in place: the writer's entry is removed and usage() falls by it |
| Ledger.Usage.GetPending | src/peergos/server/SpaceCheckingKeyFilter.java:89-91 | the writer's reservation, 0 when absent |
| Ledger.Usage.EffectiveUsage | src/peergos/server/SpaceCheckingKeyFilter.java:93-95 | confirmed usage plus the sum of every pending reservation |
| Ledger.SumPending | src/peergos/server/SpaceCheckingKeyFilter.java:94 | the loop adds up exactly the sum of all pending values |
| Ledger.StatValue.Update | src/peergos/server/SpaceCheckingKeyFilter.java:49-53 | the owner is kept; root, owned keys and retained size are replaced |
| Ledger.ZeroStat | src/peergos/server/SpaceCheckingKeyFilter.java:240 | the given owner with no root, nothing retained and no owned keys |
| Ledger.Stat.constructor | src/peergos/server/SpaceCheckingKeyFilter.java:42-47 | a Stat holding exactly the given fields |
| Ledger.Stat.Update | src/peergos/server/SpaceCheckingKeyFilter.java:49-53 | in place: the new Stat is the old one updated, with the owner unchanged |
| FilterSpec.Zero | src/peergos/server/SpaceCheckingKeyFilter.java:240 | the same keys; the named keys are reset to an empty Stat of their own owner and every other Stat is unchanged |
| FilterSpec.WithStatsFor | src/peergos/server/SpaceCheckingKeyFilter.java:257-259 | adds the given keys; existing Stats are untouched and new keys get an empty Stat under the given owner |
| FilterSpec.PointerEventOutcome | src/peergos/server/SpaceCheckingKeyFilter.java:233-271 | UnknownWriter iff the roots differ and the writer has no Stat; NoUsage iff the roots differ, the writer is known, the new root is present and the owner has no ledger |
| FilterSpec.Register | src/peergos/server/SpaceCheckingKeyFilter.java:194-196 | adds the key and the user if absent, with an empty Stat and an empty ledger; existing entries stay as they were |
| FilterProperties.CascadeSetMembers | src/peergos/server/SpaceCheckingKeyFilter.java:273-282 | the keys processRemovedOwnedKeys resets, computed one root at a time, are exactly the keys with a Stat that the cascade reaches |
| FilterProperties.RetractionSetMembers | src/peergos/server/SpaceCheckingKeyFilter.java:239-251 | the keys a retraction resets are exactly the keys with a Stat that the retraction reaches |
| FilterProperties.CascadeSetAdd | src/peergos/server/SpaceCheckingKeyFilter.java:274-277 | retracting one more removed key adds exactly that key's own retraction, in whichever order the keys are taken |
| FilterProperties.CascadeSetBelow | src/peergos/server/SpaceCheckingKeyFilter.java:273-282 | every key a cascade bounded by a rank resets ranks below it, so a cascade from a writer's owned keys never resets the writer |
| FilterProperties.RetractionIsClosed | src/peergos/server/SpaceCheckingKeyFilter.java:239-248 | a retracted key's child that has a Stat and a present pointer is retracted too |
| FilterProperties.RetractionIsIdempotent | src/peergos/server/SpaceCheckingKeyFilter.java:239-251 | retracting a writer twice leaves the state of retracting it once |
| FilterProperties.RetractionKeepsLedger | src/peergos/server/SpaceCheckingKeyFilter.java:239-251 | an event with an absent new root leaves every usage ledger unchanged |
| FilterProperties.RetractStep | src/peergos/server/SpaceCheckingKeyFilter.java:274-277 | one iteration of processRemovedOwnedKeys extends the reset set by that key's cascade |
| FilterProperties.CascadeStep | src/peergos/server/SpaceCheckingKeyFilter.java:274-277 | resetting a key's retraction on top of the earlier keys' cascade gives the cascade of all of them |
| FilterProperties.PointerUpdateCommits | src/peergos/server/SpaceCheckingKeyFilter.java:253-270 | after an update with a ledger, the writer records the new root, its owned keys all have Stats, its retained size grew by the diff, and it has no reservation |
| FilterProperties.PointerUpdateConfirmsDelta | src/peergos/server/SpaceCheckingKeyFilter.java:255-266 | the owner's usage() loses the writer's reservation and gains the diff; the writer retains the diff more and records the new root |
| FilterProperties.PointerUpdateFixpoint | src/peergos/server/SpaceCheckingKeyFilter.java:253-270 | an update to the recorded root, whose owned keys all have Stats and which has no reservation, changes nothing |
| FilterProperties.PointerUpdateIsIdempotent | src/peergos/server/SpaceCheckingKeyFilter.java:253-270 | applying the same update twice leaves the state of applying it once, ledger included |
| FilterProperties.PointerEventIsIdempotent | src/peergos/server/SpaceCheckingKeyFilter.java:233-271 | replaying an event with a present new root changes nothing, whatever existing root the replay names |
| FilterProperties.PointerEventKeepsKeys | src/peergos/server/SpaceCheckingKeyFilter.java:233-271 | no pointer event drops a Stat or adds or drops a ledger |
| FilterProperties.PointerEventKeepsRanks | src/peergos/server/SpaceCheckingKeyFilter.java:233-271 | recorded owned keys keep ranking below their owners, so the recorded owned keys stay acyclic |
| FilterProperties.PointerEventNoNewDangling | src/peergos/server/SpaceCheckingKeyFilter.java:233-271 | a pointer event never records an owned key without a Stat, unless that key already had none |
| FilterProperties.ExactDelta | src/peergos/server/SpaceCheckingKeyFilter.java:255-266 | without duplicate links, retained size plus the diff is the new root's recursive size |
| FilterProperties.PointerUpdateKeepsSizesTracked | src/peergos/server/SpaceCheckingKeyFilter.java:255-266 | without duplicate links, an update keeps every Stat retaining exactly its root's recursive size |
| FilterProperties.PointerEventKeepsSizesTracked | src/peergos/server/SpaceCheckingKeyFilter.java:233-271 | without duplicate links, every Stat keeps retaining exactly its root's recursive size |
| FilterProperties.RegisterIsIdempotent | src/peergos/server/SpaceCheckingKeyFilter.java:194-196 | registering the same user and key twice is registering once |
| FilterProperties.RegisterKeepsInvariants | src/peergos/server/SpaceCheckingKeyFilter.java:194-196 | registration keeps the rank, exact-size and no-new-dangling invariants |
| FilterProperties.WriteCheckAdmits | src/peergos/server/SpaceCheckingKeyFilter.java:284-292 | a write is admitted iff the writer and its owner's ledger are known, usage() <= quota, and usage() + size < quota |
| FilterProperties.WriteCheckReserves | src/peergos/server/SpaceCheckingKeyFilter.java:298 | an admitted write grows usage() and the writer's reservation by its size, and usage() stays below quota |
| FilterProperties.WriteCheckRefusal | src/peergos/server/SpaceCheckingKeyFilter.java:292-296 | a refused write drops the writer's whole reservation, and the error reports confirmed usage, the quota, and size plus the dropped reservation |
| FilterProperties.WriteCheckFrame | src/peergos/server/SpaceCheckingKeyFilter.java:284-300 | allowWrite changes no Stat, no other user's ledger and no other writer's reservation |
| FilterProperties.TreeTrackedGrows | src/peergos/server/SpaceCheckingKeyFilter.java:213-215 | a tracked tree stays tracked as more Stats appear |
| FilterProperties.TreeTrackedFromChildren | src/peergos/server/SpaceCheckingKeyFilter.java:208-215 | a key with a Stat whose children's trees are all tracked has its whole tree tracked |
| Server.SpaceCheckingKeyFilter.constructor | src/peergos/server/SpaceCheckingKeyFilter.java:106-117 | a filter with no Stats and no ledgers |
| Server.SpaceCheckingKeyFilter.ProcessRemovedOwnedKeys | src/peergos/server/SpaceCheckingKeyFilter.java:273-282 | the loop resets exactly the cascade of the removed keys and leaves the ledgers alone |
| Server.SpaceCheckingKeyFilter.ObserveOwnedKeys | src/peergos/server/SpaceCheckingKeyFilter.java:257-259 | the computeIfAbsent loop adds an empty Stat for each new owned key and nothing else |
| Server.SpaceCheckingKeyFilter.UpdatePointer | src/peergos/server/SpaceCheckingKeyFilter.java:253-270 | the new state is PointerUpdate of the old under the pointer targets read during the call; it completes, or reports NoUsage when the owner has no ledger |
| Server.SpaceCheckingKeyFilter.ProcessMutablePointerEvent | src/peergos/server/SpaceCheckingKeyFilter.java:233-271 | the new state is PointerEvent of the old under the pointer targets read during the call, and the outcome is PointerEventOutcome |
| Server.SpaceCheckingKeyFilter.AllowWrite | src/peergos/server/SpaceCheckingKeyFilter.java:284-300 | the new state and the outcome are WriteCheck of the old state under the quotas read at the call |
| Server.SpaceCheckingKeyFilter.Register | src/peergos/server/SpaceCheckingKeyFilter.java:194-196 | the new state is Register of the old |
| Server.SpaceCheckingKeyFilter.ProcessCorenodeEvent | src/peergos/server/SpaceCheckingKeyFilter.java:205-220 | the user gets a ledger, no Stat is dropped, the invariants hold, and every key of the tree has a Stat |
| Server.SpaceCheckingKeyFilter.Accept | src/peergos/server/SpaceCheckingKeyFilter.java:194-198 | the user gets a ledger, the key gets a Stat, and the whole key tree is walked so that every key in it has a Stat |

## Left out

- All other members of ContentAddressedStorage are not part of this model,
  among them `put`, `putRaw`, `get`, `getRaw`, `pinUpdate`, `recursivePin`,
  `recursiveUnpin`, `getLinks` and `getSize` as network calls,
  `putSigningKey`, `putBoxingKey`, `getSigningKey`, `getBoxingKey`,
  `hashKey` and the HTTP client class. The links and sizes of blocks are the
  `BlockStore` value.
- Failing lookups are not modelled. In the source a failed
  `getChangeInContainedSize`, `getWriterData` or `getPointerTarget` future is
  caught and logged, and the rest of that step is skipped. Here the block
  store, the owned keys and the pointer targets are total functions, so every
  lookup succeeds.
- Asynchrony is not modelled: every `CompletableFuture` is its value. So is
  concurrency: the concurrent maps, `synchronized` and the thread pool.
  `accept(CorenodeEvent)` runs `processCorenodeEvent` synchronously, straight
  after registering.
- Persistence is not modelled: `init`, `close`, `readUsages`, `storeUsages`
  and `calculateUsage`, all of which read or write a file or walk the core
  node.
- `accept(MutableEvent)` is not modelled, because it verifies a signature
  before calling `processMutablePointerEvent`.
- Of TweetNaClKey, the model leaves out `encrypt` and `decrypt`, which are
  foreign calls into Salsa20Poly1305, and also `hashCode` and `type`. The
  getters `getKey` and `isDirty` are the fields `secretKey` and `isDirty`
  themselves.
- MaybeMultihash's `toString` is not modelled, because the model has no
  textual form of a hash.
- Java's 32- and 64-bit integer overflow is not modelled: sizes, usages and
  quotas are unbounded integers.
- `Cid.cast` is not validated: any byte string is accepted as a hash.
- `keyRank` is a modelling device. It stands for the premise that owned keys
  are acyclic ("keys form a tree without dups" in the source's comment),
  which the source does not check.
- In-place aliasing of `Stat` and `Usage` objects is not modelled. The
  filter's maps hold `StatValue` and `UsageValue` values, and each in-place
  update in the source is a map assignment here. The source shares no Stat or
  Usage object between two map entries. The writer's Stat is read again after
  the cascade, which by rank can never reach the writer. So the values behave
  as the objects do. The classes `Ledger.Stat` and `Ledger.Usage` model the
  objects' in-place updates on their own.
- Exceptions that the source catches and logs, other than the failing
  lookups above, are modelled as `Outcome` values or as "nothing happens". An exception escaping `allowWrite` or
  `processMutablePointerEvent` is a `Fail` outcome.
- Server.SpaceCheckingKeyFilter.ProcessCorenodeEvent: the contract does not
  state the whole new state. It states that the user has a ledger, that no
  Stat is dropped, that the invariants hold and that every key of the tree
  has a Stat. The exact Stats and usages after replaying every pointer of the
  tree are not stated.
- Server.SpaceCheckingKeyFilter.Accept: the same partial contract as
  ProcessCorenodeEvent, plus the registration of the key.
