# Verified model of the config, attachment and blinding cores

This project models, in Dafny, four parts of the library and proves what they promise:

- **Config messages** (`src/config.cpp`): nested config data, the diffs between versions, their
  canonical wire form, the merge of conflicting messages, and the mutable message that edits and
  publishes them.
- **Attachments** (`src/attachments.cpp`): the padding formula, the encrypted stream, and its three
  readers and writers: into memory, into a file, and piece by piece.
- **Blinded ids** (`src/blinding.cpp`, `src/bchat_encrypt.cpp`): blinded key pairs and ids, the secret
  that two blinded ids share, and the messages sealed with it.
- **Community messages** (`src/bchat_protocol.cpp`): padding, and the signature that is put into the
  message it signs.

`dafny verify dfyconfig.toml` checks everything.

## How it is modelled

Loops over containers are methods with invariants, proved against a function on values; objects that
update their fields are classes (`MutableConfigMessage`, `Decryptor`); buffers that are written in
place are arrays. The lemmas are about the functions, and hold for all inputs, all runs and, where they
are about a hash or a cipher, for every hash and cipher with the stated law.

| modules | part of the source |
|---|---|
| `ConfigData`, `ConfigDiff`, `ConfigApply`, `ConfigFork` | config data, pruning, diffs and their replay |
| `ConfigTree`, `ConfigWire`, `ConfigMessage`, `ConfigGrammar` | the wire form of data, diffs and messages |
| `ConfigMerge`, `ConfigMergeLoops`, `ConfigRuns`, `MutableConfig` | merging and editing messages |
| `ConfigEffects`, `ConfigDiverged`, `ConfigLives` | whole runs on several devices, and messages that come of merges |
| `AttachmentSizes`, `AttachmentStream`, `AttachmentFrames` | sizes, encryption, and what a stream holds |
| `AttachmentDecryptor`, `AttachmentDecrypt`, `SecretStream` | the two decryptors and the cipher they use |
| `Blinding`, `Community` | blinded ids and community messages |
| `Ordering`, `Arithmetic`, `Bytes`, `Options` | shared notions |

The parameters of the model are the hash of a message (`hashOf`), the stream cipher (`Cipher`, with the
law that pulling undoes pushing and costs 17 bytes), the curve (`Curve`: points of the prime-order
subgroup are multiples of the base point, modulo the group order; a point and its negative differ in the
sign bit of their encoding, as in section 5.1.2 of RFC 8032), the authenticated encryption (`Sealing`) and
the serialisation of protocol messages (`Codec`). `SecretStream.CountingCipherWorks`,
`Blinding.TinyCurveLawful` and `Blinding.PlainSealingOpens` show that these laws can be met.

## Where a promise holds only under a condition

- **No lost update.** Two devices edit the same message in different places. The merge keeps both edits
  exactly when the edit with the greater hash keeps every set and dict that both of them changed
  (`ConfigRuns.ForkMerge`). `ConfigLives.ForkLosesUpdate` is an input where an update is lost: one device
  empties a set, another adds to it.
- **No lost update over whole runs.** Two devices each publish a run of edits before they meet. For runs of
  up to `lag` messages, whatever they edit, both take part, and no update is lost exactly when every leaf is
  last touched by the run that changed it (`ConfigDiverged.RunsMergeExactly`); so nothing is lost when no leaf
  is touched by both runs (`ConfigDiverged.ApartRunsKept`). For runs of any length that edit different
  top-level keys, the shorter run takes no part exactly when it is `lag` or more messages behind; otherwise
  no update is lost exactly when the windows still hold a diff for every leaf the lesser run changed, and one
  for every leaf the greater run changed that a diff in the lesser window touches
  (`ConfigDiverged.RunsMerge`). `ConfigDiverged.LagTooShort` gives, for every lag, two runs of one message more
  that lose an update.
- **A merge can fail.** A set diff with a lone value that is no scalar passes the parser, which compares
  neighbours only; the merge then throws exactly when such a diff is replayed from data that has a set there
  (`ConfigMergeLoops.MergeConfigs`, `ConfigLives.BadSetBreaks`). Messages that come of edits and merges hold no
  such diff (`ConfigLives.EveryMessageIsGood`, `ConfigLives.CleanNeverBreaks`).
- **Replaying a message's own diffs** changes nothing for a message with a linear history
  (`ConfigRuns.SelfReplay`). For a message that comes of any edits and merges it loses nothing
  (`ConfigLives.EveryMessageIsGood`), and it changes nothing exactly when no diff revives an element
  (`ConfigLives.SelfReplayExactly`); `ConfigLives.RevivedElement` is a merge of three edits where one does.
  Such a message is the empty one, a new one, an edit, a merge, or a merge that is edited before it is published.
- **Padded size.** The encrypted size is the rounded size, with at least one byte of padding, exactly for
  the sizes in `AttachmentSizes.Fits`. Below 2^64 that is every size except those rounded to
  1340029796352 bytes (`AttachmentSizes.FitsExactly`); `AttachmentSizes.SizesThatDoNotFit` gives two of them.
- **Output buffer.** A buffer of the size that `decrypted_max_size` gives is never written past exactly when
  the bytes after the last full chunk are none, one, or at least 17, whatever the cipher
  (`AttachmentDecrypt.BufferEnoughExactly`). A stream that is accepted always fits
  (`AttachmentDecrypt.ReadableFits`); in the other cases a stream that is going to be refused can
  decrypt to more than the buffer holds before it is refused.
- **The two decryptors** never put out different data. They differ in what they refuse in three ways, stated
  exactly by `AttachmentDecrypt.Agreement`, with inputs for every cipher: padding that never ends
  (`AttachmentDecrypt.EndlessPadding`), an empty last frame (`AttachmentDecrypt.EmptyLastFrame`), and a frame
  of zeros tagged FINAL (`AttachmentDecrypt.EarlyFinal`).
- **0x15 ids from a bchat id** are those of the key pair, and give the shared secret, exactly when the
  Ed25519 key is not negative (`Blinding.Blind15Agrees`, `Blinding.Blind15ByIdAgrees`, with an input in
  `Blinding.NegativeKey`). 0x25 ids always agree.
- **Signed bytes.** The decoder takes the signature of a signed community message however it arrives. It
  checks it over the bytes that were signed always when an envelope carries the signature, and without an
  envelope exactly when the content was written as the serialiser writes it. In an envelope without a signature
  around signed content it never does: the code then goes on past its own assertion
  (`src/bchat_protocol.cpp:1094`) and checks over bytes that contain the signature
  (`Community.SignedBytesAgree`, with inputs in `Community.NotCanonical` and `Community.SignatureNotChecked`).

## Where the code and its documentation disagree

The model follows the code.

- `docs/api/docs/config_merge_logic.md` filters the replayed diffs by seqno and prunes after each one; the
  code replays all of them and prunes once at the end.
- The comment in `increment_impl` describes a window one narrower than the one it keeps in memory; the
  serialiser cuts it down (`src/config.cpp:750-761`).
- `update` and `finalize` of the decryptor are documented to throw after a successful `finalize`. `update`
  tests a flag that is never set, and `finalize` tests none. Instead a second end succeeds, and any further
  byte makes it fail (`AttachmentDecryptor.AfterFinish`).
- For 0x15 ids the check of a message's sender is meant to let the negated id through. It changes byte 31
  of the id, and the sign bit is in byte 32, so the negated id is never let through
  (`Blinding.NegatedSenderRefused`).

## Model

| member | source | states |
|---|---|---|
| ConfigData.PruneDict | src/config.cpp:31-54 | the in-place pruning loop yields the pruned dict, tells whether it is empty, and reports removals exactly when the dict was not pruned |
| ConfigData.PruneEntry | src/config.cpp:31-54 | one round edits the entry under its key only, and reports exactly when that entry changed |
| ConfigData.PruneDictValue | src/config.cpp:31-54 | a value is removed exactly when nothing but empty containers is in it; otherwise its pruned form is left |
| ConfigData.PruneKeepsLeaves | src/config.cpp:31-54 | pruning keeps every scalar and set element at its place, and adds none |
| ConfigData.PruneEstablishesPruned | src/config.cpp:31-54 | after pruning no empty set or dict is left at any depth |
| ConfigData.PrunedFormUnique | src/config.cpp:31-54 | two pruned dicts with the same leaves are equal |
| ConfigData.PruneIsNormalForm | src/config.cpp:31-54 | the result is the only pruned dict with the same leaves; pruning is idempotent and changes exactly the dicts that need it |
| ConfigDiff.DiffSets | src/config.cpp:57-86 | the two-cursor walk gives what was added and what was removed, and nothing exactly for equal sets |
| ConfigDiff.DiffDicts | src/config.cpp:88-154 | the two-cursor walk records a change under exactly the keys whose values differ, and nothing exactly for equal dicts |
| ConfigDiff.ChangeOfNew | src/config.cpp:88-154 | the change recorded for a new key or a key of another kind |
| ConfigDiff.ChangeOfRemoved | src/config.cpp:88-154 | the change recorded for a removed key |
| ConfigDiff.ChangeOfKept | src/config.cpp:88-154 | the change recorded for a key of the same kind, none exactly when the value is unchanged |
| ConfigDiff.DiffLookup | src/config.cpp:88-154 | a key is in the diff exactly when the two dicts differ under it |
| ConfigDiff.DiffEmptyIffEqual | src/config.cpp:88-154 | the diff is empty exactly for equal dicts |
| ConfigDiff.RemovedAsEmptied | src/config.cpp:97-109 | removing a container records what emptying it records |
| ConfigApply.ApplyDiff | src/config.cpp:356-426 | the in-place loop over a diff, with every branch of a change on a value of another kind; it fails exactly when it gets to a malformed set change whose source has a set there |
| ConfigApply.ApplyChange | src/config.cpp:356-426 | one change edits the entry under its key only, and when it fails |
| ConfigApply.DiffIsClean | src/config.cpp:88-154 | the diff of two versions holds no malformed set change |
| ConfigApply.CleanApplies | src/config.cpp:356-426 | a diff without one can be applied from every source |
| ConfigApply.ThrowsExactly | src/config.cpp:364-421 | a diff cannot be applied exactly when it has a malformed set change at a path where the source has a set |
| ConfigApply.ApplySetDiff | src/config.cpp:400-421 | elements are inserted and then removed |
| ConfigApply.RoundTrip | src/config.cpp:356-426 | applying the diff of two versions to the older one gives the newer one |
| ConfigApply.AgreesStep | src/config.cpp:356-426 | replaying one step of a history keeps the invariant, whatever kinds change and whatever keys vanish and return |
| ConfigApply.LinearReplay | src/config.cpp:663-687 | replaying a whole linear history onto its last version, or its first, gives the last version |
| ConfigApply.ApplyLeaf | src/config.cpp:356-426 | what one diff does to each scalar and set element at any depth |
| ConfigApply.LastWriterWins | src/config.cpp:679-684 | each scalar and set element is decided by the last replayed diff that touches it |
| ConfigFork.ForkReplayExact | src/config.cpp:663-687 | replaying two disjoint edits gives their three-way merge exactly when the greater one keeps every container both changed |
| ConfigFork.Merge3Leaves | src/config.cpp:663-687 | in the three-way merge each leaf is as in the edit that changed it |
| ConfigFork.Merge3LosesNothing | src/config.cpp:663-687 | the three-way merge is the only pruned data that loses no update |
| ConfigFork.NoLostUpdateExactly | src/config.cpp:663-687 | the replay loses no update exactly when the greater edit keeps every container both changed |
| ConfigFork.SeparateKeysKept | src/config.cpp:663-687 | edits of different top-level keys always satisfy that condition, in both orders |
| ConfigFork.LostUpdate | src/config.cpp:364-380 | a concrete fork in which an added element is lost |
| ConfigWire.ParseElements | src/config.cpp:268-309 | a list is a set exactly when it is what some set serialises to: scalars in strictly ascending order |
| ConfigWire.ParseValue | src/config.cpp:268-309 | a value is accepted exactly when it is what some pruned value serialises to |
| ConfigWire.ParsePair | src/config.cpp:268-309 | one more entry is accepted on top of those read, or no dict serialises to these entries |
| ConfigWire.ParseData | src/config.cpp:268-309 | data is accepted exactly when it is what some pruned dict serialises to, and that dict is the result |
| ConfigWire.WireDataInjective | src/config.cpp:245-266 | different data never serialise alike |
| ConfigWire.CanonicalData | src/config.cpp:245-309 | accepted data re-serialises to exactly what was read, and every pruned dict is read back |
| ConfigWire.LoadPart | src/config.cpp:224-236 | a list of a set change is accepted exactly when it is a set in ascending order or a lone value, which is never looked at |
| ConfigWire.LoadSetChange | src/config.cpp:217-236 | a set change is accepted exactly when some good or malformed one serialises to it |
| ConfigWire.LoadChange | src/config.cpp:203-243 | a change is accepted exactly when some change serialises to it |
| ConfigWire.LoadPair | src/config.cpp:203-243 | one more entry is accepted on top of those read, or no diff serialises to these entries |
| ConfigWire.LoadDiff | src/config.cpp:203-243 | a diff is accepted exactly when some diff serialises to it, with ascending keys at every depth |
| ConfigWire.WireDiffInjective | src/config.cpp:203-243 | different diffs never serialise alike |
| ConfigWire.CanonicalDiff | src/config.cpp:203-243 | a diff read re-serialises to exactly what was read |
| ConfigGrammar.SetGrammar | src/config.cpp:292-309 | a list is a set exactly when it holds 64-bit integers and then strings, each in ascending order |
| ConfigGrammar.DataGrammar | src/config.cpp:268-309 | data is accepted exactly when its keys ascend and its values are scalars, non-empty sets and non-empty dicts |
| ConfigGrammar.DataLeaves | src/config.cpp:245-266 | the scalars and elements of the data are those in its wire form, at the same paths |
| ConfigGrammar.DiffGrammar | src/config.cpp:203-243 | a diff is accepted exactly when its keys ascend and its values are "", "-", two lists or a diff |
| ConfigGrammar.WireApplied | src/config.cpp:356-426 | what a serialised diff does to each key when it is applied: "" takes the source's scalar, "-" removes, the first list is inserted and the second erased, and a key of another kind in the source is removed |
| ConfigMessage.SerializeLagged | src/config.cpp:750-761 | the rows written are those of the diffs inside the window, in ascending order |
| ConfigMessage.ReadRow | src/config.cpp:311-342 | a row is skipped exactly when too old, and otherwise read exactly when it is the wire form of a diff inside the window |
| ConfigMessage.AppendRow | src/config.cpp:311-342 | a row is added exactly when it comes after the last one |
| ConfigMessage.ParseLagged | src/config.cpp:311-342 | the list is accepted exactly when its recent rows are the wire form of a window |
| ConfigMessage.CanonicalLagged | src/config.cpp:311-342 | the window read is the only one with that wire form |
| ConfigMessage.ParseMsg | src/config.cpp:525-561 | a parsed message is pruned, has its diffs inside the window, and has the hash of its bytes |
| ConfigMessage.MessageRoundTrip | src/config.cpp:738-788 | serialising and reading back keeps everything but the diffs outside the window |
| ConfigMessage.IdLessExactly | src/config.cpp:657-659 | the greater seqno wins, and among equal ones the hash that is greater at the first difference |
| Ordering.KeyLessExactly | src/config.cpp:205-208 | byte strings are compared at their first difference |
| ConfigGrammar.WindowGrammar | src/config.cpp:311-342 | a list of rows is a window exactly when its recent rows, of seqno, 32-byte hash and diff, are the window's in ascending order |
| ConfigGrammar.MessageGrammar | src/config.cpp:525-561 | which message serialised bytes stand for: seqno under "#", data under "&", window under "<" and diff under "=", the last two of which may be missing |
| ConfigGrammar.MessageForm | src/config.cpp:738-761 | a message is written with all four parts, each of which follows its grammar |
| ConfigMerge.GreatestSurvives | src/config.cpp:587-614 | the greatest message always takes part |
| ConfigMerge.SurvivorsExistIffLag | src/config.cpp:607-614 | some message is left after the redundancy pass exactly when the lag is at least one |
| ConfigMerge.MergeOrTake | src/config.cpp:616-661 | who cannot sign takes the greatest message; who can merges exactly when two different messages take part, into the next seqno |
| ConfigMerge.MergeLastWriterWins | src/config.cpp:663-687 | merged data is pruned, and each leaf is decided by the last replayed diff, or by the greatest message |
| ConfigMerge.MergedMsgReadsBack | src/config.cpp:686-691 | the merged message can be published and read back |
| ConfigMerge.Superseded | src/config.cpp:589-610 | whatever was merged no longer takes part once the merged message is present |
| ConfigMerge.Absorption | src/config.cpp:563-691 | merging a published merge with everything it came from leaves the merge alone and gives it back |
| ConfigMergeLoops.IsCovered | src/config.cpp:596-604 | the inner loop finds whether a message is included in another or repeats an earlier one |
| ConfigMergeLoops.MarkRedundant | src/config.cpp:587-610 | a message is marked exactly when it is included, a repetition or too old; the seqno found is the highest |
| ConfigMergeLoops.KeepSurvivors | src/config.cpp:648-652 | what is left after erasing are the survivors, each once |
| ConfigMergeLoops.BestConfig | src/config.cpp:634-644 | without a signer the greatest message that is not redundant is chosen |
| ConfigMergeLoops.SortDescending | src/config.cpp:654-659 | the survivors in descending order, none lost |
| ConfigMergeLoops.EmplaceAll | src/config.cpp:668-675 | a message's own and lagged diffs are added without replacing anything |
| ConfigMergeLoops.BuildReplay | src/config.cpp:665-675 | each diff is replayed with the data of the greatest message that holds it |
| ConfigMergeLoops.ReplayAll | src/config.cpp:679-684 | all entries are applied in ascending order and recorded, or the replay fails exactly when one cannot be applied |
| ConfigMergeLoops.MergeSurvivors | src/config.cpp:654-691 | sorting, replaying and pruning give a message that depends on the set of survivors only |
| ConfigMergeLoops.MergeConfigs | src/config.cpp:563-691 | the whole merge is a function of the set of messages: order and repetitions do not matter. It fails exactly without messages, or when a merge is needed and a diff cannot be applied. Who cannot sign gets the greatest message as it is; who can gets a merge exactly when two different messages take part; otherwise the index is the first of that message |
| ConfigRuns.UpdateLagged | src/config.cpp:461-487 | which diffs an update carries along, and that they are unchanged |
| ConfigRuns.UpdateWindow | src/config.cpp:461-487 | an update's chain of diffs is the end of the old chain and its own diff |
| ConfigRuns.UpdateStaysLinear | src/config.cpp:461-487 | an update of a linear message is linear, and its chain has exactly the last `lag` diffs |
| ConfigRuns.RunStaysLinear | src/config.cpp:461-487 | in every run of updates the window holds the diffs of the latest versions, as many as the lag allows, with consecutive seqnos |
| ConfigRuns.StaleAncestor | src/config.cpp:589-610 | a message takes no part when merged with one that was reached from it by any run |
| ConfigRuns.SelfReplay | src/config.cpp:663-687 | replaying a linear message's own diffs onto it changes nothing |
| ConfigRuns.ForkMerge | src/config.cpp:563-691 | two edits of one message both take part, and no update is lost exactly under the condition on shared containers |
| ConfigRuns.ForkOfSeparateKeys | src/config.cpp:563-691 | edits of different top-level keys are both kept, whichever hash is greater |
| ConfigRuns.DefaultIsLinear | src/config.cpp:521-523 | the message every config starts from is linear |
| ConfigEffects.MergedLeaf | src/config.cpp:679-687 | each leaf of a merge is as the last entry that touches it says |
| ConfigEffects.SameEffectFromHolders | src/config.cpp:356-426 | for a leaf that both sources have it makes no difference which one a diff is replayed from |
| ConfigEffects.ChangesTouch | src/config.cpp:88-154 | a diff touches every leaf in which its versions differ, whatever it is replayed from |
| ConfigEffects.ElementEffect | src/config.cpp:57-154 | a diff says of each set element exactly what became of it, also where containers came or went, in every source with the containers for it |
| ConfigEffects.ScalarEffect | src/config.cpp:88-154 | and of each scalar |
| ConfigDiverged.RunDescends | src/config.cpp:461-487 | what a message reached by a run still holds, and that it remembers every change while the lag covers the run |
| ConfigDiverged.DivergedSurvive | src/config.cpp:589-614 | which of two diverged messages take part |
| ConfigDiverged.DivergedLeaf | src/config.cpp:663-687 | leaf by leaf: the merge of two diverged messages is right exactly when the windows hold what is needed |
| ConfigDiverged.DivergedMerge | src/config.cpp:663-687 | no update is lost exactly when the windows still hold what is needed |
| ConfigDiverged.RunsMerge | src/config.cpp:563-691 | two whole runs of edits of different keys: who takes part, exactly when no update is lost, and that runs of up to `lag` messages are kept |
| ConfigDiverged.TooFarBehind | src/config.cpp:607-626 | a run that is too far behind is lost unless it changed nothing |
| ConfigDiverged.LagTooShort | src/config.cpp:563-691 | for every lag: two runs of one message more, of which the lesser one's first edit is lost |
| ConfigDiverged.CoveredLeaf | src/config.cpp:663-687 | leaf by leaf, for runs the lag covers: the merge is right exactly when the run that changed the leaf is the last to touch it |
| ConfigDiverged.CoveredMerge | src/config.cpp:663-687 | the same for all leaves together |
| ConfigDiverged.RunsMergeExactly | src/config.cpp:563-691 | two runs of any edits, up to `lag` messages long: both take part, and exactly when no update is lost |
| ConfigDiverged.ApartRunsKept | src/config.cpp:663-687 | nothing is lost when no leaf is touched by both runs |
| ConfigLives.MergedKeepsOwn | src/config.cpp:563-691 | a published merge of any messages loses nothing when its own diffs are replayed |
| ConfigLives.UpdateKeepsOwn | src/config.cpp:461-487 | an edit keeps that |
| ConfigLives.EditedMergeKeepsOwn | include/bchat/config.hpp:288-297 | a merge that is edited before it is published loses nothing when its own diffs are replayed |
| ConfigLives.EveryMessageIsGood | src/config.cpp:461-707 | every message that any edits and merges lead to loses nothing when its own diffs are replayed, and holds no malformed set change |
| ConfigLives.CleanNeverBreaks | src/config.cpp:679-684 | such messages can always be merged |
| ConfigLives.BadSetBreaks | src/config.cpp:408-421 | a malformed set change in a message that no other includes, and whose data has a set there, makes every merge in which it takes part fail |
| ConfigLives.SelfReplayExactly | src/config.cpp:663-687 | exactly when replaying a message's own diffs changes nothing |
| ConfigLives.RevivedElement | src/config.cpp:563-691 | a message that comes of edits and a merge, for every lag from two on, whose own replay revives an element |
| ConfigLives.ForkLosesUpdate | src/config.cpp:563-691 | a fork of one message in which an update is lost |
| MutableConfig.TrimFront | src/config.cpp:466-471 | exactly the diffs too old for the next message are erased |
| MutableConfig.TrimBack | src/config.cpp:473-480 | exactly the diffs not older than the message are erased |
| MutableConfig.TrimLagged | src/config.cpp:464-480 | the strict window is left, and the defensive loop erases nothing from a valid message |
| MutableConfig.MutableConfigMessage.FromMessage | src/config.cpp:500-511 | a mutable copy starts from the message's data with the next seqno and the carried-over window |
| MutableConfig.MutableConfigMessage.FromConfigs | src/config.cpp:693-707 | a merge is not incremented again; a message taken over is |
| MutableConfig.MutableConfigMessage.IncrementImpl | src/config.cpp:461-487 | data stays, its diff joins the window, the seqno goes up by one |
| MutableConfig.MutableConfigMessage.RefreshDiff | src/config.cpp:725-730 | data is pruned and the diff is that against the base |
| MutableConfig.MutableConfigMessage.Serialize | src/config.cpp:732-788 | the wire form of the pruned message with the strict window |
| MutableConfig.MutableConfigMessage.RefreshHash | src/config.cpp:790-795 | the hash is that of the wire form |
| MutableConfig.MutableConfigMessage.Increment | src/config.cpp:500-519 | the next message has the same window as if this one had been published and read back |
| MutableConfig.MutableConfigMessage.Merge | src/config.cpp:693-707 | the merging constructor with exactly the cases in which it throws |
| MutableConfig.PublishEdit | src/config.cpp:500-519 | what others read of an edited and published message is its update |
| MutableConfig.PublishMerge | include/bchat/config.hpp:288-297 | what others read of messages that were merged, edited and published: a merge keeps its seqno and gets the diff to the merged data |
| MutableConfig.OutcomeIsSound | src/config.cpp:563-707 | whatever the merge yields can be edited: pruned, with its window below its seqno |
| MutableConfig.MergeSerialized | src/config.cpp:563-691 | devices that see the same valid messages, in any order and any number of times, end up with the same one |
| AttachmentSizes.PadFactor | src/attachments.cpp:39 | the pad factor is a power of two, at least 4096, and 1/64 to 1/32 of the size |
| AttachmentSizes.RoundedSize | src/attachments.cpp:41-42 | the next multiple of the pad factor |
| AttachmentSizes.PaddingExact | src/attachments.cpp:29-76 | with the compensation for tags the encrypted size is exactly the rounded size, with at least one byte of padding, exactly for the sizes that fit; otherwise 17 bytes short |
| AttachmentSizes.FitsExactly | src/attachments.cpp:29-76 | below 2^64 exactly one rounded size does not fit |
| AttachmentSizes.NeverInTag | src/attachments.cpp:39-42 | a pad factor with a small multiple just short of whole encrypted chunks never leads to a size that ends within a tag |
| AttachmentSizes.SizesThatDoNotFit | src/attachments.cpp:29-76 | two sizes that do not fit |
| AttachmentSizes.MaxRegularSize | include/bchat/attachments.hpp:34-40 | the documented limit is the largest size padded like one of 10 MB |
| AttachmentSizes.MaxSizeIs | src/attachments.cpp:78-92 | the output size for every encrypted size, with the wrap-around that makes short ones fail |
| AttachmentSizes.MaxSizeExact | src/attachments.cpp:78-92 | for an encrypted attachment it is the data and the padding without its terminator |
| AttachmentStream.PushChunk | src/attachments.cpp:175-181 | a chunk is written behind what is there, 17 bytes longer |
| AttachmentStream.EncryptImpl | src/attachments.cpp:127-204 | the buffer is filled to its last byte with the padded data, cut into chunks with FINAL on the last |
| AttachmentStream.EncryptToFile | src/attachments.cpp:386-468 | the file writer emits the same bytes, although it takes FINAL from the data alone |
| AttachmentStream.ChunkedText | src/attachments.cpp:121-204 | the chunks spell the padded data |
| AttachmentFrames.PadEndIsFirst | src/attachments.cpp:532-534 | the end of the padding is the first byte that is not zero |
| AttachmentFrames.DepadPadded | src/attachments.cpp:532-540 | removing the padding gives the data, whatever it begins with |
| AttachmentFrames.FramesOfPushed | src/attachments.cpp:657-683 | decrypting what was encrypted gives the frames back |
| AttachmentFrames.EncryptedFrames | src/attachments.cpp:127-204 | the frames of an encrypted attachment are the chunks of its padded data |
| AttachmentDecryptor.FeedSplit | src/attachments.cpp:706-759 | bytes handed over in two pieces do what they do in one |
| AttachmentDecryptor.SplitInvariance | src/attachments.cpp:706-759 | however the bytes are cut up, the decryptor ends in the same state with the same output calls, for any cipher and any input |
| AttachmentDecryptor.DecryptorResult | src/attachments.cpp:642-779 | exactly which streams are accepted, and what is put out, in terms of the frames |
| AttachmentDecryptor.DecryptorRoundTrip | src/attachments.cpp:626-779 | an encrypted attachment comes out again, however it is cut up |
| AttachmentDecryptor.FeedSpans | src/attachments.cpp:688-703 | the output callback is called with some data every time, except for a last chunk that is nothing but its tag |
| AttachmentDecryptor.AfterFinish | src/attachments.cpp:706-779 | what further bytes and ends do after a successful end |
| AttachmentDecryptor.Decryptor.constructor | src/attachments.cpp:626-637 | a new decryptor has seen nothing |
| AttachmentDecryptor.Decryptor.ProcessHeader | src/attachments.cpp:642-655 | the header sets the cipher state, or fails on a wrong first byte |
| AttachmentDecryptor.Decryptor.ProcessChunk | src/attachments.cpp:657-704 | the new state after one chunk |
| AttachmentDecryptor.Decryptor.StealInto | src/attachments.cpp:713-720 | no byte is lost between the buffer and the rest |
| AttachmentDecryptor.Decryptor.DrainBuffer | src/attachments.cpp:712-734 | completing the buffered chunk leaves what is left to do unchanged |
| AttachmentDecryptor.Decryptor.Update | src/attachments.cpp:706-759 | the buffering loop does what one pass over all bytes so far does |
| AttachmentDecryptor.Decryptor.Finalize | src/attachments.cpp:761-779 | the last chunk is processed, and success needs a FINAL tag |
| AttachmentDecrypt.SkipPadding | src/attachments.cpp:505-566 | the loop over leading chunks finds the one in which the padding ends |
| AttachmentDecrypt.CopyData | src/attachments.cpp:549-602 | the first data and all later chunks are written one behind the other, up to the FINAL one |
| AttachmentDecrypt.DecryptInto | src/attachments.cpp:470-603 | refusal, overrun or data, and that the buffer holds the data |
| AttachmentDecrypt.RefusedAtOnce | src/attachments.cpp:475-486 | too few bytes, a first byte other than 0x53 and too small a buffer are refused |
| AttachmentDecrypt.OneShotFrames | src/attachments.cpp:501-602 | exactly which streams are accepted, and with what data, in terms of the frames |
| AttachmentDecrypt.Agreement | src/attachments.cpp:470-779 | the two decryptors agree, with the exact condition in either direction |
| AttachmentDecrypt.EndlessPadding | src/attachments.cpp:509-511 | padding that never ends: streaming gives no data, in one go it is refused |
| AttachmentDecrypt.EmptyLastFrame | src/attachments.cpp:569-571 | an empty last frame: streaming accepts it, in one go it is refused |
| AttachmentDecrypt.EarlyFinal | src/attachments.cpp:658-661 | a frame of zeros tagged FINAL: accepted in one go, refused by streaming |
| AttachmentDecrypt.MaxSizeRoom | src/attachments.cpp:78-92 | the output size against what a stream of that size can hold |
| AttachmentDecrypt.ReadPaddingSize | src/attachments.cpp:545-549 | the data of a stream and the byte that ends its padding fit what the stream can hold |
| AttachmentDecrypt.RoomEnoughExactly | src/attachments.cpp:545-549 | for every cipher and state: for which sizes the output size is enough for all that any stream decrypts to |
| AttachmentDecrypt.BufferEnoughExactly | src/attachments.cpp:470-603 | for every cipher: for which sizes no call with a buffer of the output size writes past it, and that for the others some call does |
| AttachmentDecrypt.NoOverrun | src/attachments.cpp:548-574 | no stream of such a size is written past the buffer |
| AttachmentDecrypt.ReadableFits | src/attachments.cpp:605-624 | a stream that is accepted fits the buffer, whatever its size |
| AttachmentDecrypt.OneShotRoundTrip | src/attachments.cpp:605-624 | encrypting and decrypting gives the data back |
| Blinding.Blind15KeyPair | src/blinding.cpp:232-268 | the blinded public key is that of the blinded scalar |
| Blinding.Blind25KeyPair | src/blinding.cpp:270-321 | the same with the factor negated in place for a negative key |
| Blinding.BlindedPoints | src/blinding.cpp:163-230 | which points the 0x15 and 0x25 ids of a key are |
| Blinding.NotABchatId | src/blinding.cpp:91-138 | only 32 bytes, or 33 that begin with 05, have a blinded id |
| Blinding.Blind25Agrees | src/blinding.cpp:76-87 | the 0x25 id is the same from the bchat id, the Ed25519 key and the key pair, for either sign |
| Blinding.Blind15Agrees | src/blinding.cpp:63-74 | the 0x15 id from the bchat id is that of the key pair exactly when the key is not negative |
| Blinding.NegativeKey | src/blinding.cpp:63-74 | a negative key for which it is not |
| Blinding.BlindedSharedSecret | src/bchat_encrypt.cpp:216-278 | the in-place computation gives the shared secret, and fails for ids of different kinds |
| Blinding.SharedPointIs | src/bchat_encrypt.cpp:251-265 | which point the two sides share: one factor for 0x15 ids, both factors for 0x25 ids |
| Blinding.SecretIs | src/bchat_encrypt.cpp:232-276 | the secret names the sender's key before the recipient's, whichever side computes it; ids of different kinds share none |
| Blinding.PointsAgree | src/bchat_encrypt.cpp:216-278 | both sides arrive at the same point, for both kinds of id and all signs |
| Blinding.SecretsAgree | src/bchat_encrypt.cpp:216-278 | the hashed secret of sender and recipient is the same |
| Blinding.Blind15ByIdAgrees | src/bchat_encrypt.cpp:216-278 | for a 0x15 id made from the bchat id they agree exactly when the recipient's key is not negative |
| Blinding.FromEdIsId | src/blinding.cpp:163-230 | the id from the Ed25519 key is the one that goes with the key pair |
| Blinding.ReadersAgree | src/bchat_encrypt.cpp:598-606 | sender and recipient each find their role and the secret of the message |
| Blinding.EncryptForBlindedRecipient | src/bchat_encrypt.cpp:280-361 | the sealed message, built up in its buffer |
| Blinding.SealedForm | src/bchat_encrypt.cpp:313-361 | the layout of what is sent, and what the box opens to |
| Blinding.SealedRefused | src/bchat_encrypt.cpp:285-304 | for which recipients and servers nothing is sealed |
| Blinding.MatchSender | src/bchat_encrypt.cpp:655-671 | whether the key inside a message goes with the id it was sent from |
| Blinding.OpenBox | src/bchat_encrypt.cpp:611-680 | opening the box and splitting off the sender's key, with every refusal |
| Blinding.DecryptFromBlindedRecipient | src/bchat_encrypt.cpp:577-681 | the opened message, with every refusal |
| Blinding.OpenedMeans | src/bchat_encrypt.cpp:592-680 | whatever is opened has at least 73 bytes and version zero, and ends in a key whose id is the sender's |
| Blinding.SendersLetThrough | src/bchat_encrypt.cpp:658-671 | which ids of a sender are let through |
| Blinding.NegatedSenderRefused | src/bchat_encrypt.cpp:658-671 | the 0x15 id of the negated point of a sender is never let through |
| Blinding.MessageRoundTrip | src/bchat_encrypt.cpp:577-681 | a message is read back, with the sender's bchat id, by its recipient and by its sender |
| Community.Pad | src/bchat_protocol.cpp:372-389 | the payload, the byte 0x80, and zeros up to a multiple of 160, at least one |
| Community.UnpadMessage | src/bchat_protocol.cpp:391-411 | the loop from the end drops zeros and one terminator |
| Community.UnpadPad | src/bchat_protocol.cpp:372-411 | padding is undone, whatever the payload ends in |
| Community.UnpadExactly | src/bchat_protocol.cpp:391-411 | what is dropped of any bytes: the zeros at the end and one byte 0x80 before them |
| Community.UnpadKeeps | src/bchat_protocol.cpp:391-411 | bytes are left alone exactly when they do not end in what looks like padding |
| Community.Encode | src/bchat_protocol.cpp:572-627 | the signature is over the padded content, which must not carry one |
| Community.EncodedIs | src/bchat_protocol.cpp:580-627 | when content is refused, and what is sent otherwise |
| Community.Decode | src/bchat_protocol.cpp:957-1110 | which signature is taken, and over which bytes it is checked |
| Community.BareDecoded | src/bchat_protocol.cpp:1009-1033 | bare content is refused exactly when it cannot be read or its signature is not 64 bytes long |
| Community.SignedBytesAgree | src/bchat_protocol.cpp:957-1110 | on every way a signed message can arrive: its signature is taken, and exactly when it is checked over the bytes that were signed |
| Community.NotCanonical | src/bchat_protocol.cpp:1097-1110 | content written otherwise than the serialiser writes it, checked over other bytes than were signed |
| Community.SignatureNotChecked | src/bchat_protocol.cpp:1089-1096 | a signed message in an envelope without a signature, checked over bytes that contain the signature |
| Community.EnvelopeDecoded | src/bchat_protocol.cpp:1009-1096 | what every envelope around padded content decodes to, with its refusals |
| Community.UnsignedRoundTrip | src/bchat_protocol.cpp:624-627 | an unsigned message that cannot be taken for an envelope comes back byte for byte |

## Left out

- The rest of the repository: the config types built on these messages, groups, profiles, networking, the C wrappers and the bindings.
- Unknown top-level keys and signatures of config messages; signing enters the merge as the flag `canSign`.
- The byte syntax of bt-encoding: the wire form is the tree of lists, dicts, strings and integers.
- Overflow of the 64-bit seqno, and a lag below one, for which no message survives (`SurvivorsExistIffLag`).
- Config data is edited as a value: the references into nested dicts that the mutable accessor hands out, and aliasing through them, are not modelled.
- The setter for the seqno of an existing message and the constructor that keeps it; `increment` copies the message in the source and is modelled in place.
- ConfigWire.LoadChange: an integer in place of a change is refused, where the source's loop does not advance.
- ConfigWire.LoadPair: refuses an integer in place of a change, like `LoadChange`.
- ConfigWire.LoadDiff: refuses an integer in place of a change, like `LoadChange`.
- ConfigMessage.ParseMsg: does not read unknown keys and signatures.
- ConfigMergeLoops.SortDescending: the order and contents that `std::sort` gives, not its algorithm.
- ConfigMergeLoops.MergeConfigs: messages are told apart by seqno and hash, as in the source, so messages with the same id are taken to be the same message.
- MutableConfig.MergeSerialized: assumes that no two of the given messages have the same hash; a message with an integer in place of a change is skipped.
- MutableConfig.MutableConfigMessage.FromConfigs: the cases in which the source's constructor throws are excluded here and stated by `Merge`.
- AttachmentSizes.PaddingExact: sizes are unbounded, so that `size_t` does not wrap; `DecryptedMaxSize`, which relies on the wrap-around, is modelled with it.
- AttachmentDecrypt.DecryptInto: streams within one chunk of 2^64 bytes are excluded; a write past the buffer is the outcome `Overrun`.
- AttachmentDecryptor.DecryptorResult: the cipher state that is used for fewer than 25 bytes is not set in the source; it is a parameter here.
- The derivation of keys and nonces from the seed and the data, the limit on sizes, and all file handling around encryption.
- That a changed ciphertext is refused: the cipher's laws say nothing of bytes that were not encrypted with it.
- Blinding.DecryptFromBlindedRecipient: secret keys are scalars with the public key that goes with them; seeds, points outside the prime-order subgroup and the hashes themselves are not modelled.
- Community.Decode: the fields of an envelope other than its content and signature, and the verification of the proof that comes with a signature.
- Blinding.Blind25Agrees: the bchat id is computed from the key; a caller's own bchat id handed to `blinded25_id_from_ed` is not modelled.
- Community inbox messages as a whole: their padding and their sealing are modelled apart from each other.
- Hexadecimal forms of ids, and the ids and key pairs for version checks.
