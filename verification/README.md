# A Dafny model of Pydio Cells' stateful cores

The project models eight parts of Pydio Cells and proves what their users rely on. Code that updates state in
the repository is a class or a loop here, proved against a specification function; the properties are then proved
about that function, for all inputs, all runs and all reachable states. `dafny verify dfyconfig.toml` checks it.

1. **Encrypted block stream** (`BlockFormat`, `BlockIO`, `BlockStream`, `Materials`, `StreamRuns`): the binary block
   with its flag-packed optional header, the encryptor that cuts and seals a plaintext, the decryptor that serves any
   plain range through buffers of any size, and the announced output size. `LegacyReader` is the older reader with
   its own encrypted-range arithmetic. The cipher is a pair of functions with two laws, opening inverts sealing and a
   sealed piece is 16 bytes longer; `LawfulCipherExists` gives an instance, so nothing rests on an assumption.
2. **Activity boxes** (`Bytes`, `Decimal`, `Bolt`, `ActivityBoxes`, `ActivityLists`, `ActivityRuns`, `ActivityMeaning`,
   `ActivityDAO`): ordered logs with sequence-allocated big-endian keys, unread counters, purge, feeds, batching and
   compaction.
3. **Service migrations** (`Migrations`) over restarts in which any migration may fail at any time.
4. **Query trees** (`QueryText`): the SQL printer, a parser for what it prints, and the expression builder.
5. **Mail queue** (`MailQueue`): pushes, batched passes with retries, conservation and termination over runs.
6. **Environment substitution** (`EnvExpansion`): the splicing loop against a template read once.
7. **Datasource allocation** (`PeerAddresses`, `Datasources`): name and port probes, folder lookup, runs of requests.
8. **PKCS#7 padding** (`Padding`), section 6.3 of RFC 5652.

## Where the code falls short of the plain property

Each item is proved as an equivalence between the plain property and a condition that a caller can check, and a
lemma shows the property failing at a concrete input.

- A block reads back exactly when its nonce has 12 bytes, its payload is shorter than 2^31, and its options, if any,
  write at least one option of at most 255 bytes each (`RoundTripIffEncodable`). A record of options that writes
  nothing still sets the flag, and the block cannot be read (`SilentOptionsExample`).
- An encodable block that is cut short is refused exactly when it has options, or is not cut inside its length, or
  the bytes left of the length are not all zeros (`CutShortIsRefusedIff`); otherwise it reads as an empty block
  (`PlainBlockCutShortExample`). The encryptor writes only blocks with options.
- A negative offset of an open-ended range acts as a length limit, unless it is -1 or the plaintext is short
  (`NegativeOffsetIffHarmless`, `NegativeOffsetExample`). Only a direct caller of `SetPlainRange` gets there: the
  handler of the repository refuses a negative start and never asks for an open-ended range
  (common/views/handler-encryption.go:122-132).
- The legacy encrypted range holds every block it needs exactly when the offset inside its block plus the length fits
  the number of blocks computed from the length alone (`RangeCoversIffFits`, `FetchedIsEnoughIff`,
  `RangeAcrossBorderExample`).
- Marking an activity id that was never issued as read hides later posts; the next post is unread exactly when the
  number in the id is not above the inbox sequence (`NextPostIsUnreadIff`, `UnissuedMarkExample`).
- A downgrade that fails stores the version it has just undone, so the next start begins with that same Down
  (`FailedDowngradeRepeatsLastDown`). Two starts run no Down twice exactly when nothing was due, or the first due Down
  failed, or none failed, or the Down of the stored version fails in the second start (`DowngradeRepeatsNothingIff`,
  `CleanRetryRepeatsNothingIff`, `RepeatedDownExample`).
- The printed query is SQL exactly when, at every depth, no query without conditions is nested beside something else
  (`PrintedTextIsSqlIffPrintable`, `EmptySubqueryExample`); the expression builder drops such a query.
- Being on the same node is not transitive: it is, through an address, exactly when the address has one distinct
  segment (`TransitiveThroughIff`, `SharedAddressExample`). So the folder lookup depends on the order of the map
  exactly for peer addresses with several segments (`OrderIndependentIff`, `MapOrderExample`); names, ports and folders
  stay apart all the same.
- Unpadding takes back a padding exactly when the pad length fits one octet (`UnpadPadIff`), so for all data exactly
  when the block length is below 256, as RFC 5652 says (`WellDefinedIffBelow256`, `LongBlockExample`).

## Model

| member | source | states |
|---|---|---|
| BlockIO.ReadMax | common/crypto/materials.go:679-690 | whatever the pattern of short reads, the result is the next `max` bytes of the stream or all that is left; a short result reports the end of the stream, and an end is reported only when nothing is left |
| BlockIO.EncryptedBlockHeaderOption.SetIsTheLast | common/crypto/materials.go:81-87 | sets or clears the last-option bit of the id and changes no other bit of it |
| BlockIO.EncryptedBlockHeaderOption.Write | common/crypto/materials.go:140-169 | appends the option's encoding, id then length then value, and returns its size; an option without a value keeps the no-value bit in its id |
| BlockIO.EncryptedBlockHeaderOption.Read | common/crypto/materials.go:110-138 | reads what the option decoder says of the front of the stream, errors included |
| BlockIO.OptionsRecord.GetHeaderOptions | common/crypto/materials.go:179-219 | the written options in order: key, position, part id, user, negative numbers and empty users left out |
| BlockIO.OptionsRecord.Write | common/crypto/materials.go:254-268 | appends the options' encoding, the last one marked as such, and returns its size |
| BlockIO.OptionsRecord.Read | common/crypto/materials.go:221-252 | decodes options until the last-option bit, and fails where the decoder fails |
| BlockIO.EncryptedBlockHeader.Write | common/crypto/materials.go:277-308 | appends the nonce, the length with its options flag and the options, and returns the size |
| BlockIO.EncryptedBlockHeader.Read | common/crypto/materials.go:310-339 | the decoded header and its size; a stream without a header is left with an end-of-stream error |
| BlockIO.EncryptedBlock.SetPayload | common/crypto/materials.go:380-394 | accepts exactly the payloads whose 32-bit length is below 2^31, and then sets payload and length |
| BlockIO.EncryptedBlock.Write | common/crypto/materials.go:400-422 | appends header and payload, returns the byte count, remembers the header size |
| BlockIO.EncryptedBlock.Read | common/crypto/materials.go:424-447 | the decoded block with its size, or the error with the count the code returns in each failure |
| BlockFormat.OptionRoundTrip | common/crypto/materials.go:110-169 | an option with a short value is read back with id and value, whatever follows |
| BlockFormat.OptionBytes | common/crypto/materials.go:179-219 | the exact bytes of any options: key, position, part id and user in this order, each left out when absent, and the top bit of the id of the last one written flagged |
| BlockFormat.OptionListRoundTrip | common/crypto/materials.go:221-268 | a terminated list of options is read back option by option, and nothing after it is touched |
| BlockFormat.OptionsRoundTrip | common/crypto/materials.go:179-268 | options that write something are read back, negative numbers as 0 |
| BlockFormat.HeaderReadBack | common/crypto/materials.go:277-339 | a header with options or without is read back with its length and exactly its own bytes |
| BlockFormat.BlockBytes | common/crypto/materials.go:277-422 | the exact bytes of any block: nonce, four-byte length with the options bit on top, options, payload |
| BlockFormat.StreamOptionBytes | common/crypto/materials.go:577-580 | the option bytes that each block of a stream has, with an owner and without |
| BlockFormat.BlockRoundTrip | common/crypto/materials.go:400-447 | an encodable block followed by anything decodes to itself, normalised, and takes exactly the bytes written |
| BlockFormat.OptionListCutShort | common/crypto/materials.go:221-252 | a terminated option list cut anywhere is refused |
| BlockFormat.HeaderCutShort | common/crypto/materials.go:310-339 | a header with options cut anywhere is refused |
| BlockFormat.BlockCutShort | common/crypto/materials.go:424-447 | an encodable block with options, as the encryptor writes them, is refused when cut anywhere |
| BlockFormat.CutShortIsRefusedIff | common/crypto/materials.go:310-447 | what is left of an encodable block cut short is refused if and only if the block has options, or the cut is not inside the length, or the payload is too long for the bytes left of its length to be zeros; otherwise it reads as an empty block |
| BlockFormat.PlainBlockCutShortExample | common/crypto/materials.go:318-326 | a block without options cut inside its length reads as an empty block, since the missing bytes are taken for zeros |
| BlockFormat.RoundTripIffEncodable | common/crypto/materials.go:257-291 | a block decodes back before every tail if and only if it is encodable |
| BlockFormat.SilentOptionsExample | common/crypto/materials.go:286-291 | a block whose options write nothing cannot be decoded |
| BlockFormat.DecodedValuesAreShort | common/crypto/materials.go:221-252 | no stream decodes to a key or user of more than 255 bytes |
| BlockFormat.ConcatenationIsInjective | common/crypto/materials.go:400-447 | two lists of encodable blocks with the same concatenated bytes are the same list |
| BlockIO.WriteThenRead | common/crypto/materials.go:400-447 | the Write and Read methods together: what was written is read, the rest of the stream is left, and both return the same count; only when nothing follows the payload may the reader meet the end of the stream and count the header alone |
| BlockStream.LawfulCipherExists | common/crypto/crypto.go:88-112 | the two laws asked of a cipher can be met |
| BlockStream.FullPiecesAreTheCut | common/crypto/materials.go:540-614 | full pieces with a possibly short last one are the fixed-size cut of their concatenation |
| BlockStream.SealedBlockSize | common/crypto/materials.go:494-513 | every sealed block has the same header size, and is 16 bytes longer than its piece |
| BlockStream.StreamHeaderSizeIs | common/crypto/materials.go:494-505 | the header of each block takes 18 bytes, or with an owner 20 and the owner |
| BlockStream.OutputSizeIsExact | common/crypto/materials.go:494-513 | the announced output size is the size of the sealed stream of every plaintext |
| BlockStream.OutputSizeIs | common/crypto/materials.go:494-513 | the announced size in numbers: the plaintext, and for each block begun 16 bytes and a header |
| BlockStream.WindowIsTheRange | common/crypto/materials.go:485-492 | the fields SetPlainRange sets denote the requested range, cut at the end of the plaintext; without a range, everything |
| BlockStream.NegativeOffsetIffHarmless | common/crypto/materials.go:485-492 | an open-ended range with a negative offset serves everything if and only if the offset is -1 or the plaintext is no longer than -1 minus it |
| BlockStream.NegativeOffsetExample | common/crypto/materials.go:485-492 | from offset -3 on, two of ten bytes are served |
| BlockStream.KeptExtendsWindow | common/crypto/materials.go:663-674 | skipping into the next piece extends what may be served by exactly the part of the piece inside the range |
| Materials.EncryptMaterials.SealPiece | common/crypto/materials.go:568-602 | one more piece is sealed, announced and buffered: the announcement holds the length of the payload, the size of the header before it and the nonce; everything read so far is accounted for |
| Materials.EncryptMaterials.PrepareBlock | common/crypto/materials.go:558-612 | reads the next piece, full unless the plaintext ends, and seals it |
| Materials.EncryptMaterials.EncryptRead | common/crypto/materials.go:540-614 | in any state, serves the next bytes of the sealed stream, fills the buffer unless the stream ends, and reports the end only when everything is served |
| Materials.DecryptMaterials.SetPlainRange | common/crypto/materials.go:485-492 | sets offset and limit, and keeps a reader sound that has not started |
| Materials.DecryptMaterials.ServedSoFar | common/crypto/materials.go:616-677 | in every sound state what is served is a prefix of the range, and the whole range once the limit flag is set |
| Materials.DecryptMaterials.FeedBlock | common/crypto/materials.go:648-675 | decodes, opens and buffers the next block, and never fails on a sealed stream |
| Materials.DecryptMaterials.DecryptRead | common/crypto/materials.go:616-677 | over a sealed stream, serves the next bytes of the range, at least one for a non-empty buffer until the range is served; then only the end of the stream, for ever |
| Materials.NextBlockReadsBack | common/crypto/materials.go:648-661 | the next sealed block decodes and opens to its piece, whatever follows it |
| StreamRuns.AnnouncedBlocksTile | common/crypto/materials.go:590-602 | the announcements tile the stream, and at the i-th of them a header of the announced size decodes to the announced length and nonce, and the announced number of bytes after it opens to the i-th piece |
| StreamRuns.PairUpRestoresChunks | common/crypto/materials.go:590-602 | the announcements and the cut of the plaintext together determine every sealed piece |
| StreamRuns.CalculateOutputSize | common/crypto/materials.go:494-513 | the result in numbers, with 18 bytes of header or 20 and the owner for each block begun; it is the exact output size, and -1 stays -1 |
| StreamRuns.EncryptAll | common/crypto/materials.go:540-614 | with any schedule of read sizes, empty reads included, what is read is a prefix of the sealing so far; once the end is reported it is the encoding of the cut plaintext, of the announced size; more non-empty reads than that size always reach the end; and each announcement of the block handler reads off the stream as in `AnnouncedBlocksTile` |
| StreamRuns.DecryptAll | common/crypto/materials.go:616-677 | any schedule of buffer sizes, empty buffers included, serves a prefix of the range; enough non-empty reads reach the end, and later ones serve nothing |
| StreamRuns.EncryptThenDecrypt | common/crypto/materials.go:485-677 | end to end: for every plaintext, range, encrypting sizes and decrypting sizes, empty reads included on both sides, the bytes served are a prefix of plain[offset..offset+length], all of it when the end is reported, and enough non-empty reads on both sides reach it |
| StreamRuns.EncryptThenDecryptAll | common/crypto/materials.go:540-677 | the same without a range, for the whole plaintext |
| LegacyReader.RangeIsInsideFile | common/crypto/materials.go:758-792 | the encrypted range of a valid plain range starts on a block boundary and stays, not empty, inside the computed file size, which is the real one by `EncryptedSizeIsExact` |
| LegacyReader.CoveredIffBelowEnd | common/crypto/materials.go:758-792 | an encrypted block is inside the range exactly when its index is from the first block on and below the computed end |
| LegacyReader.RangeCoversIffFits | common/crypto/materials.go:758-781 | every block that holds a requested byte is in the range if and only if offset mod P plus length fits P times the block count of the length |
| LegacyReader.AlignedOffsetsFit | common/crypto/materials.go:758-781 | block-aligned offsets always fit |
| LegacyReader.RangeAcrossBorderExample | common/crypto/materials.go:758-781 | two bytes across a block border: one of the two blocks is missing |
| LegacyReader.LegacyReadMaterials.CalculateEncryptedRange | common/crypto/materials.go:758-781 | returns the start and length that the range lemmas speak of, and sets the block counts |
| LegacyReader.EncryptedSizeIsExact | common/crypto/materials.go:783-792 | the computed size is the length of every encrypted file cut into blocks of this size, short last block included |
| LegacyReader.BlockEndIsExact | common/crypto/materials.go:758-792 | each block of the file ends where the arithmetic says |
| LegacyReader.PieceOfByte | common/crypto/materials.go:758-766 | byte x of the plaintext is in block x / P |
| LegacyReader.RangeEndsAfterPieces | common/crypto/materials.go:758-781 | the range starts and ends where blocks of the file start and end |
| LegacyReader.RangeFetchesPieces | common/crypto/materials.go:758-781 | the bytes of the file inside the range are whole blocks, from that of the first requested byte on, and lie inside the file |
| LegacyReader.FetchedIsEnoughIff | common/crypto/materials.go:758-781 | the block of the last requested byte is among those fetched if and only if offset mod P plus length fits P times the block count of the length |
| LegacyReader.LegacyReadMaterials.OpenPart | common/crypto/materials.go:862-891 | opens the gathered block with the next 12-byte nonce; over a legacy file it cannot fail, and buffered and pending plaintext still add up |
| LegacyReader.LegacyReadMaterials.DecryptRead | common/crypto/materials.go:808-894 | over a legacy file, fills the buffer with the next bytes of the plaintext for every pattern of short reads, and reports the end only when all of it is served |
| LegacyReader.PartIsFirstPiece | common/crypto/materials.go:860-874 | a full gathered block, or the rest at the end of the file, is exactly the next sealed piece |
| LegacyReader.DecryptLegacy | common/crypto/materials.go:808-894 | every schedule of buffer sizes serves a prefix of the plaintext, and more non-empty reads than bytes serve all of it |
| LegacyReader.DecryptLegacyFile | common/crypto/materials.go:795-894 | a file sealed piece by piece with a list of nonces is served back, the i-th nonce for the i-th block |
| Bytes.DecodeEncode | broker/activity/bolt.go:493-504 | decoding a big-endian key gives the number back, up to truncation to its width |
| Bytes.EncodeDecode | broker/activity/bolt.go:493-504 | encoding the number of a key gives the key back |
| Bytes.KeyDecodes | broker/mailer/boltQueue.go:172-176 | the eight-byte key of a 64-bit number reads back as that number, for activities and for mails |
| Bytes.KeyOrderIsNumericOrder | broker/activity/bolt.go:493-504 | on keys of equal length the byte order of the store is the order of the numbers |
| Decimal.ParsePrinted | broker/activity/bolt.go:326-330 | a printed 64-bit number parses back |
| Decimal.NoLeadingZero | broker/activity/bolt.go:152-158 | printed numbers have no leading zero |
| Decimal.ParseFromIs | broker/activity/bolt.go:326-330 | what parsing gives, from the digits at the front of a text: the number, the bound when they exceed it, 0 when anything else follows |
| Bolt.PutKeepsSorted | broker/activity/bolt.go:144-172 | a put keeps keys in strict order, and stores exactly the new value under its key |
| Bolt.KeyLessIsLexicographic | broker/activity/bolt.go:341-363 | the order of keys is that of dictionaries |
| Bolt.GetFinds | broker/activity/bolt.go:306-321 | in a sorted bucket a get finds a value exactly when the entry of its key holds it |
| Bolt.GetPut | broker/activity/bolt.go:144-172 | a get finds what was put, and everything else as it was |
| Bolt.GetRemove | broker/activity/bolt.go:183-186 | in a sorted bucket a removal takes out the entry of its key and nothing else |
| Bolt.CopyValuesOrBucket | common/boltdb/dao.go:138-152 | the copy equals the bucket, nested buckets and their sequences included |
| Bolt.Compact | common/boltdb/dao.go:92-102 | the copy equals the store but for the sequences of its top-level buckets |
| ActivityBoxes.IdRoundTrip | broker/activity/bolt.go:152-158 | the number in a posted activity's id is the number of its key |
| ActivityBoxes.KeyOrder | broker/activity/bolt.go:341-363 | on eight-byte keys the cursor order is the numeric order |
| ActivityBoxes.PostAppends | broker/activity/bolt.go:144-172 | a new record is appended after all others and its key was free |
| ActivityBoxes.PostKeepsConsistent | broker/activity/bolt.go:144-172 | a post keeps every box sound and every mark at or below its inbox sequence |
| ActivityBoxes.PostIsNewAndUnread | broker/activity/bolt.go:144-172 | a posted activity overwrites nothing and raises the unread count of its inbox by one |
| ActivityBoxes.PostLeavesOtherCounts | broker/activity/bolt.go:144-172 | the unread count of every other user stays |
| ActivityBoxes.MarkKeepsConsistentIff | broker/activity/bolt.go:324-339 | storing a mark keeps the store consistent if and only if a read mark is not above the inbox sequence |
| ActivityBoxes.NextPostIsUnreadIff | broker/activity/bolt.go:324-363 | after marking an id as read the next post is unread if and only if the id's number is not above the inbox sequence |
| ActivityBoxes.UnissuedMarkExample | broker/activity/bolt.go:324-363 | an id that was never issued hides the next post |
| ActivityLists.PurgeStep | broker/activity/bolt.go:432-452 | how one older record changes what a purge leaves: kept while protected, dropped when stale, unparseable or over the maximum |
| ActivityLists.PurgeMeaning | broker/activity/bolt.go:425-470 | a purge keeps the newest minCount records as they are; of the older ones it keeps only activities not older than the limit of age, every one of them without a positive maximum, and with one as many as fit, those dropped being older than all survivors |
| ActivityLists.PurgeIsIdempotent | broker/activity/bolt.go:425-470 | purging again with the same arguments changes nothing |
| ActivityLists.PurgeBounds | broker/activity/bolt.go:425-470 | the newest minCount records survive, and a positive maximum bounds the rest: no more than that many in all unless only protected ones are left |
| ActivityLists.PurgeKeepsOrder | broker/activity/bolt.go:425-470 | survivors are entries of the old log, unchanged and in order |
| ActivityLists.RunHeadsAreOnePerRun | broker/activity/bolt.go:274-291 | the list splits into maximal runs of similar records, and a feed shows exactly the first of each |
| ActivityLists.AdjacentHeadsDiffer | broker/activity/bolt.go:274-291 | no two adjacent records of a feed are similar |
| ActivityLists.LimitedIsPrefix | broker/activity/bolt.go:247-293 | a limited feed is a prefix of the unlimited one |
| ActivityLists.FeedShowsParsed | broker/activity/bolt.go:274-287 | whatever is broken in a log, every record a feed shows is one that parses |
| ActivityLists.FeedMeaning | broker/activity/bolt.go:259-292 | a feed shows, of the entries above the reference and after those skipped, the first of each run of records with the same kind, actor and target, read until something does not parse, up to the limit |
| ActivityLists.AboveIsFilter | broker/activity/bolt.go:263-266 | the records above a reference are the newest ones, all with greater keys, and none with a greater key is missed |
| ActivityRuns.PurgedFrame | broker/activity/bolt.go:425-483 | a purge touches only the named boxes, and each of them as the filter says |
| ActivityRuns.DeletedFrame | broker/activity/bolt.go:367-421 | which boxes a deletion removes, which two it changes, and that it leaves every other box as it was |
| ActivityRuns.WithoutActorIsFilter | broker/activity/bolt.go:398-406 | an entry survives exactly when it was there and is not a parseable record of this user |
| ActivityRuns.DeleteTakesExactly | broker/activity/bolt.go:367-421 | deleting a user leaves none of the user's boxes, takes out of each node's outbox exactly the records the user caused, in order, and ends exactly the user's subscriptions to nodes |
| ActivityRuns.DeleteKeepsConsistent | broker/activity/bolt.go:367-421 | deleting an owner, mark included, keeps the store consistent |
| ActivityRuns.SubscriptionReadsBack | broker/activity/bolt.go:174-192 | after an update this user follows this object for exactly the given events, not at all for an empty list, and every other subscription is as it was |
| ActivityRuns.ReadKeepsConsistent | broker/activity/bolt.go:295-300 | an inbox read never marks more than what is stored |
| ActivityRuns.CompactKeepsBoxes | common/boltdb/dao.go:92-102 | compaction changes no box, sequences included |
| ActivityRuns.StepKeepsConsistent | broker/activity/bolt.go:113-483 | every operation keeps the store consistent |
| ActivityRuns.EveryRunIsConsistent | broker/activity/bolt.go:113-483 | every state that posts, batches, reads, marks, purges, deletions, subscriptions and compactions reach is consistent: keys at most the sequence, ids matching keys, marks at most the inbox sequence |
| ActivityRuns.AfterAnyRunPostsAreNew | broker/activity/bolt.go:113-172 | after any such run a new inbox activity overwrites nothing and is unread |
| ActivityRuns.ReadClearsUnread | broker/activity/bolt.go:295-300 | reading an inbox from the start leaves nothing unread |
| ActivityMeaning.PostMeaning | broker/activity/bolt.go:144-172 | a post adds one entry after all others: the next number as its key and in its id, every other field as posted; every other box is as it was |
| ActivityMeaning.PostIsReadFirst | broker/activity/bolt.go:144-304 | the next reading of the box begins with the posted activity |
| ActivityMeaning.NewestIsShownFirst | broker/activity/bolt.go:259-292 | a feed from the start begins with the newest record, if that parses |
| ActivityMeaning.BatchMeaning | broker/activity/bolt.go:113-142 | a batch does what its posts do one after the other |
| ActivityMeaning.UnreadCountIs | broker/activity/bolt.go:341-363 | the unread count is the number of inbox entries whose number is above the mark |
| ActivityMeaning.IdsAreNumbers | broker/activity/bolt.go:324-330 | a printed number is read back with the prefix of activity ids and without |
| ActivityMeaning.MarkMeaning | broker/activity/bolt.go:324-339 | storing an id as a mark stores the eight bytes of its number under the key "last" and changes no other box |
| ActivityMeaning.MarkIsStored | broker/activity/bolt.go:324-339 | the same for a key given as bytes |
| ActivityMeaning.ReadMeaning | broker/activity/bolt.go:234-304 | reading an inbox, from the start or from the last-read mark, stores the number of its newest entry as the mark when any was above the reference; every other read, from the last-sent mark included, leaves the store as it was |
| ActivityMeaning.PurgeOpMeaning | broker/activity/bolt.go:425-483 | a purge leaves in the box of the owner, or of every owner for "*", exactly the records of `PurgeMeaning`, and every other box as it was |
| ActivityMeaning.DeleteUserMeaning | broker/activity/bolt.go:367-421 | after the deletion of a user: no box of the user, in each outbox of a node exactly the entries whose actor is not the user, no subscription of the user, every other one and every other box as it was |
| ActivityMeaning.DeleteNodeMeaning | broker/activity/bolt.go:367-421 | deleting a node takes its boxes and changes no other |
| ActivityMeaning.CompactMeaning | common/boltdb/dao.go:92-102 | compaction changes no box |
| ActivityMeaning.SubscribeMeaning | broker/activity/bolt.go:174-192 | a subscription reads back as the given events, none for an empty list, and every other one and every other box stay |
| ActivityDAO.BoltDAO.PostActivity | broker/activity/bolt.go:144-172 | the store becomes the one with the record posted |
| ActivityDAO.BoltDAO.BatchPost | broker/activity/bolt.go:113-142 | a batch leaves what posting its activities in order leaves |
| ActivityDAO.BoltDAO.ReadLastUserInbox | broker/activity/bolt.go:306-321 | the stored mark, 0 when there is none |
| ActivityDAO.BoltDAO.StoreLastUserInbox | broker/activity/bolt.go:324-339 | the mark is the given key, or the key of the number in the activity id |
| ActivityDAO.BoltDAO.CountUnreadForUser | broker/activity/bolt.go:341-363 | the loop stops early and still returns the number of all inbox keys above the mark |
| ActivityDAO.BoltDAO.ActivitiesFor | broker/activity/bolt.go:234-304 | the feed above the mark asked for, 20 records for limit 0 without a mark; an inbox read not from the last-sent mark moves the mark to the newest record, every other read changes nothing |
| ActivityDAO.ReadNewest | broker/activity/bolt.go:259-292 | the cursor loop equals the feed: skip, filter, first of each run, limit; similarity is asked before whether a record parses |
| ActivityDAO.BoltDAO.Purge | broker/activity/bolt.go:425-483 | the box of one owner, or of all of them, becomes its purge (`PurgeOpMeaning` says which records that leaves) |
| ActivityDAO.PurgeBucket | broker/activity/bolt.go:427-453 | the cursor loop that deletes in place leaves exactly the records of `PurgeMeaning`, compared by age, count and parseability |
| ActivityDAO.BoltDAO.Delete | broker/activity/bolt.go:367-421 | the store without the owner, and for a user without what the user left in node boxes (`DeleteTakesExactly` says which entries) |
| ActivityDAO.ClearOutbox | broker/activity/bolt.go:398-406 | the walk that deletes by key what a user caused leaves the filter of the outbox |
| ActivityDAO.ClearSubscriptions | broker/activity/bolt.go:407-414 | the walk over all keys removes exactly the entry of the user |
| ActivityDAO.BoltDAO.UpdateSubscription | broker/activity/bolt.go:174-192 | reading the subscription back gives the events, or none for an empty list; every other subscription and every box other than subscriptions is as it was |
| ActivityDAO.BoltDAO.CompactStore | common/boltdb/dao.go:77-102 | the store becomes its compacted copy |
| ActivityDAO.Cache.PostActivity | broker/activity/cache.go:69-73 | a post joins the pending ones; with 499 pending it flushes all 500 in order and leaves none |
| ActivityDAO.Cache.FlushBatch | broker/activity/cache.go:87-93 | all pending posts are posted in order and none is left |
| ActivityDAO.Cache.StartBatching | broker/activity/cache.go:66-81 | the loop leaves the state of the step function for any interleaving of posts and timers, and flushes at the end |
| ActivityDAO.BatchingRefinesPosting | broker/activity/cache.go:66-93 | whatever the interleaving of posts and timers, after every step fewer than 500 posts wait, they are the newest ones in order, and the store is the one direct posting of all others leaves; after the final flush it is that of all |
| Migrations.MigrateUp | common/service/service-version.go:158-171 | the loop runs the versions with an Up function above the current one and up to the target, in order, all of them or those before the first that fails, and returns the last success |
| Migrations.MigrateDown | common/service/service-version.go:174-187 | the loop runs the versions with a Down function above the target and up to the current one, last first, all of them or those before the first that fails, and returns the last success |
| Migrations.ApplyMigrations | common/service/service-version.go:122-190 | the version to store, the failure and the list of what ran, for every pair of versions and every pattern of failures |
| Migrations.Service.UpdateServiceVersion | common/service/service-version.go:100-117 | the stored version after one start, kept when there is nothing to write, and what ran in it |
| Migrations.UpListMembers | common/service/service-version.go:160-163 | the due Ups ascend and lie in the half-open interval |
| Migrations.UpListIs | common/service/service-version.go:158-171 | a version is due for an upgrade exactly when a migration of that version has an Up function and it is above the current version and up to the target |
| Migrations.DownListIs | common/service/service-version.go:174-187 | the same for Down functions, above the target and up to the current version |
| Migrations.OneStartUpgrades | common/service/service-version.go:122-171 | one start of an upgrade, in terms of the migrations: what ran ascends, has Up functions and lies in the interval; without a failure it is all of them and the target is written; with one it stops before the version that fails, and the last success is written, if any |
| Migrations.OneStartDowngrades | common/service/service-version.go:122-187 | one start of a downgrade in the same terms, descending |
| Migrations.OtherStarts | common/service/service-version.go:100-156 | a start at the target writes nothing, one without migrations writes the target, and the first run initialises only |
| Migrations.UpListSplits | common/service/service-version.go:160-163 | the due list splits at every version in between |
| Migrations.UpgradeRunsEachOnce | common/service/service-version.go:100-171 | for any failures over any restarts, what ran so far is exactly the due list up to the stored version, and the version never goes down |
| Migrations.ChangingTargetsRunEachOnce | common/service/service-version.go:100-171 | the same over starts whose targets change, none below the stored version; a start without failure stores its own target |
| Migrations.ReachedTargetMeansAllRan | common/service/service-version.go:100-171 | whatever failed on the way, once the target is stored the versions that ran are exactly those with an Up function between start and target, each once and in ascending order |
| Migrations.CleanRestartFinishes | common/service/service-version.go:100-171 | a restart without failures reaches the target |
| Migrations.UpgradesCompose | common/service/service-version.go:158-171 | without failures, upgrading in two steps runs what one step runs |
| Migrations.DownIsReversedUp | common/service/service-version.go:174-187 | with both directions present, the Downs are the reverse of the Ups |
| Migrations.DowngradeUndoesUpgrade | common/service/service-version.go:174-187 | a clean downgrade runs the reverse list and stores the target |
| Migrations.FailedDowngradeRepeatsLastDown | common/service/service-version.go:174-187 | a downgrade whose first due Down succeeds and another fails stops at the failure and stores the version just undone; the next clean start repeats exactly the last completed Down and then runs the ones left |
| Migrations.DowngradeRepeatsNothingIff | common/service/service-version.go:100-187 | two starts of a downgrade run no Down twice if and only if nothing was due, or the first due Down failed, or none did, or the Down of the stored version fails in the second start |
| Migrations.CleanRetryRepeatsNothingIff | common/service/service-version.go:100-187 | with a clean second start, no Down runs twice if and only if nothing was due, or the first due Down failed, or none did |
| Migrations.RepeatedDownExample | common/service/service-version.go:100-187 | two Downs of which the second fails once: the first runs twice |
| Migrations.DowngradeRunsAll | common/service/service-version.go:174-187 | whatever fails, Downs run in descending order with repetitions only, and all of them once the target is stored |
| Migrations.DowngradedMeansAllRan | common/service/service-version.go:100-187 | once the target of a downgrade is stored, the versions that ran are exactly those with a Down function between target and start |
| QueryText.String | common/sql/query.go:61-101 | the printer with its local list prints the assembled text of the tree |
| QueryText.QueryBuilder.Expression | common/sql/query-builder.go:40-73 | appends the parts of the tree to what earlier calls left, and combines all of them |
| QueryText.BuiltMeans | common/sql/query-builder.go:40-73 | the built expression holds exactly when the tree does; none is built exactly for a tree without conditions |
| QueryText.RepeatedExpressionMeansTheSame | common/sql/query-builder.go:40-73 | a second call on the same builder doubles the conditions and keeps the meaning |
| QueryText.PrintedReads | common/sql/query.go:61-101 | a printed subtree reads as one expression with the value of the tree, before an end or a closing parenthesis |
| QueryText.PrintsNothingIffSilent | common/sql/query.go:61-101 | a printable tree, one with no query without conditions beside something else, prints nothing exactly when it has no conditions |
| QueryText.TextAndExpressionAgree | common/sql/query.go:61-101 | printed text read by a parser with precedence, built expression and tree have one value in every environment, single children without parentheses included |
| QueryText.PrintedForm | common/sql/query.go:61-101 | the exact text for no child, one and two: a single one stands without parentheses, two have their own with the operation between |
| QueryText.GapIsNotParsed | common/sql/query.go:88-98 | a text with an operator or parenthesis beside nothing is not an expression |
| QueryText.PrintedTextIsSqlIffPrintable | common/sql/query.go:61-101 | the printed text is empty or one SQL expression if and only if, at every depth, no query without conditions is nested beside something else |
| QueryText.EmptySubqueryExample | common/sql/query.go:61-101 | an empty subquery beside a condition: the builder drops it, the text does not parse |
| MailQueue.BoltQueue.Push | broker/mailer/boltQueue.go:91-110 | the mail is stored under the next sequence number |
| MailQueue.BoltQueue.Consume | broker/mailer/boltQueue.go:114-169 | the cursor loop leaves the queue and the log of one pass; each mail it reaches is delivered exactly when its send answered no error, stored again with one more retry and that error when it failed before its seventh time, and given up otherwise |
| MailQueue.PutReplaces | broker/mailer/boltQueue.go:139-146 | storing a retried mail under its key replaces it in place |
| MailQueue.PassConserves | broker/mailer/boltQueue.go:114-169 | one pass loses no key and invents none, counted with multiplicity |
| MailQueue.PassKeepsOrder | broker/mailer/boltQueue.go:114-169 | what is left is in its old order |
| MailQueue.PassCounts | broker/mailer/boltQueue.go:136-150 | one pass counts each failed send once, and gives a mail up at its seventh |
| MailQueue.PassFollowsAnswers | broker/mailer/boltQueue.go:126-161 | each entry a pass reaches is treated as the sender answers for it; what it does not reach stays as it was, and it stops early only at 102 removals |
| MailQueue.EventsAreAnswers | broker/mailer/boltQueue.go:126-150 | in every run each event was answered so by the sender of one of its passes |
| MailQueue.MailLeavesOnlyAnswered | broker/mailer/boltQueue.go:91-169 | in every run a parseable mail leaves the queue only when a send of it answered no error, or after exactly seven sends that answered one |
| MailQueue.PassIsFaithful | broker/mailer/boltQueue.go:126-150 | a pass sends each mail as it is stored and stores a retried one, with its new error, under its own key |
| MailQueue.EveryRunIsConsistent | broker/mailer/boltQueue.go:91-169 | in every reachable state issued keys are conserved, the queue is in order of issue, retry counters are the failed sends so far, every mail given up had exactly seven, and what is queued or was sent under a key is the mail pushed under it, with one error for each retry |
| MailQueue.EachMailIsInOnePlace | broker/mailer/boltQueue.go:91-169 | every issued mail is queued, delivered, given up or dropped as unreadable, exactly once |
| MailQueue.SentMailsArePushedMails | broker/mailer/boltQueue.go:91-169 | every mail a sender was given, in any run, is the one pushed under its key |
| MailQueue.PassRemovesAtMost102 | broker/mailer/boltQueue.go:152-161 | one pass removes at most 102 mails after a send |
| MailQueue.PassLowersWeight | broker/mailer/boltQueue.go:114-169 | each pass over a non-empty queue strictly lowers the sum of 7 minus the retries, unreadable entries counting one |
| MailQueue.PassesDrain | broker/mailer/boltQueue.go:114-169 | without pushes, as many passes as that sum empty the queue, whatever the senders answer |
| EnvExpansion.UncutCut | cmd/install-ni.go:305-341 | the template of an input puts the input back together |
| EnvExpansion.CutUncut | cmd/install-ni.go:305-341 | every well-formed template is the template of its text: there is one reading of an input |
| EnvExpansion.ReplaceEnvVars | cmd/install-ni.go:305-341 | the splicing loop terminates and renders the template of the original input |
| EnvExpansion.ValuesAreNotRescanned | cmd/install-ni.go:329-338 | a substituted value stands in the output as it is, whatever openings it holds |
| EnvExpansion.SpansForThemselvesChangeNothing | cmd/install-ni.go:305-341 | when each variable stands for its own span the input comes back |
| EnvExpansion.SpanlessStays | cmd/install-ni.go:308-316 | from an unclosed opening on, as without any opening, the text is returned as it is |
| EnvExpansion.UnclosedInputIsKept | cmd/install-ni.go:308-316 | an input without an opening or without a closing is returned as it is |
| EnvExpansion.SpanIsReplaced | cmd/install-ni.go:305-341 | the first span is replaced by the value of its name, an empty one is kept, what is before it stays, and the rest is treated the same way |
| EnvExpansion.UnclosedIsKept | cmd/install-ni.go:308-316 | a text in which nothing closes an opening is returned as it is |
| PeerAddresses.SplitIsCut | common/utils/net/ips.go:159-160 | the segments of a text put it back together and hold no separator; for addresses the separator is a bar, for folders a slash |
| PeerAddresses.PrefixOfSegments | common/config/datasources.go:373-385 | a text continues another after a separator exactly when its segments continue the other's |
| PeerAddresses.PeerAddressesAreSameNode | common/utils/net/ips.go:154-174 | true exactly when the addresses share a segment |
| PeerAddresses.SameNodeIsReflexive | common/utils/net/ips.go:154-174 | an address is on its own node |
| PeerAddresses.SameNodeIsSymmetric | common/utils/net/ips.go:154-174 | the comparison does not depend on the order of its arguments |
| PeerAddresses.TransitiveThroughIff | common/utils/net/ips.go:154-174 | it is transitive through an address if and only if that address has one distinct segment |
| PeerAddresses.SharedAddressExample | common/utils/net/ips.go:154-174 | "a" and "b" are each on the node of an address that names both and not on one another's |
| Datasources.LabelsAreKeys | common/config/datasources.go:309-325 | taken labels are no more than the configurations, so the name probe ends |
| Datasources.CreateConfigName | common/config/datasources.go:309-325 | the probe ends at the least index from 1 for which "local" or "gateway" with that index is no key of the configurations |
| Datasources.CreateConfigPort | common/config/datasources.go:328-345 | the probe ends at a 32-bit port that no configuration uses, from the given port or else 9001 on, with all ports counted over before it in use; the count wraps round in 32 bits |
| Datasources.TakenPortsAreFew | common/config/datasources.go:328-345 | the port probe takes no more steps than there are configurations |
| Datasources.FewConfigsLeaveAFreePort | common/config/datasources.go:328-345 | with fewer than 2^32 configurations the port probe ends |
| Datasources.FilterMiniosWithBaseFolder | common/config/datasources.go:373-385 | for every order of the map, the first configuration on the node with the same or a nested folder decides |
| Datasources.TrimRightIs | common/config/datasources.go:379 | trimming takes the slashes at the end and nothing else |
| Datasources.SplitPathIs | common/config/datasources.go:273-301 | a folder splits into a directory, empty or ending in a slash, and a bucket without a slash |
| Datasources.FolderParts | common/config/datasources.go:273-275 | a folder is its base, slashes and its bucket, and the base ends in no slash |
| Datasources.UnderIs | common/config/datasources.go:379 | one folder is under another exactly when its path components continue those of the other |
| Datasources.LookupMeaning | common/config/datasources.go:373-385 | in terms of fields and path components: nothing is found exactly when no local configuration that shares a segment of the address has the same or a nested folder; what is found has one, and is reused exactly when it is the same |
| Datasources.ValidMeans | common/config/datasources.go:271-345 | what the invariant says of the fields of two configurations: own names, different ports, and on one node folders neither equal nor nested |
| Datasources.ScanMeaning | common/config/datasources.go:373-385 | nothing found means no overlap on the node; a hit is on the node, is reused exactly when its folder is the same, and overlaps otherwise |
| Datasources.MinioServers.FactorizeMinioServers | common/config/datasources.go:271-304 | the local branch: conflict, shared configuration, in-place update, nil dereference or new configuration, with service name and bucket set exactly on success |
| Datasources.AnswerMeaning | common/config/datasources.go:271-345 | every answer in terms of fields: a conflict with a local configuration above or below the folder on a shared segment, the one with the same folder, or without either the updated one at its new place, a nil dereference when there is none, or a new one with the least free name and the first free port |
| Datasources.MinioServers.PutDataSource | discovery/config/rest/api-datasources.go:127-133 | one request with its result stored under its name gives the answer of `AnswerMeaning` and keeps the invariant |
| Datasources.StepKeepsValid | common/config/datasources.go:271-304 | for every order of the lookup, a request keeps names and ports distinct and local folders of one node neither equal nor nested |
| Datasources.EveryRunKeepsValid | common/config/datasources.go:271-345 | the same over every run, and no configuration ever loses its name or port |
| Datasources.AnswersAreUnique | common/config/datasources.go:271-304 | a request has one answer for each order of the lookup |
| Datasources.AnswersAgree | common/config/datasources.go:373-385 | under the invariant and for a single-segment address, any two orders give the same answer |
| Datasources.OrderIndependentIff | common/config/datasources.go:373-385 | over all reachable maps and all folders, the lookup does not depend on the order if and only if the address has one distinct segment |
| Datasources.TwoServicesAreReached | common/config/datasources.go:271-304 | two requests from an empty map lead to the map on which the order matters |
| Datasources.MapOrderExample | common/config/datasources.go:373-385 | two services, reached by two requests, between which the order of the map decides |
| Padding.PadLengthIs | common/crypto/crypto.go:200-204 | the pad length is the only number from 1 to the block length that completes a block |
| Padding.Pkcs7Pad | common/crypto/crypto.go:200-208 | the search ends within the block length, and the result is the padding of section 6.3 of RFC 5652 with its octet truncated to eight bits |
| Padding.Pkcs7Unpad | common/crypto/crypto.go:210-227 | no index is out of bounds; the result is the data before the announced octets, or an error when they disagree |
| Padding.UnpaddedIs | common/crypto/crypto.go:210-227 | accepted are exactly the non-empty whole blocks whose last octet is from 1 to the block length and is the value of that many octets at the end; the result is the data before them |
| Padding.UnpadPadIff | common/crypto/crypto.go:200-227 | unpadding takes back a padding if and only if its length fits one octet |
| Padding.PadUnpad | common/crypto/crypto.go:200-227 | whatever is accepted is the padding of what is returned |
| Padding.AcceptedIffPadding | common/crypto/crypto.go:210-227 | exactly the paddings whose length fits one octet are accepted |
| Padding.WellDefinedIffBelow256 | common/crypto/crypto.go:200-227 | every datum comes back if and only if the block length is below 256 |
| Padding.LongBlockExample | common/crypto/crypto.go:200-227 | with blocks of 256 bytes the padding of no data is refused |

## Left out

- BlockIO.Source.ReadField: header fields are read without short reads; the code does not retry one, so a reader that splits a header is not modelled.
- Materials.EncryptMaterials.EncryptRead: read errors of the plain stream and errors of the block handler end the call at once in the code and are not modelled, nor is the Close of the handler, which the code misses when the plaintext is a multiple of the block size.
- Materials.DecryptMaterials.DecryptRead: says little on streams that were not sealed by the encryptor; owners longer than 255 bytes are excluded, since their blocks cannot be read (see `RoundTripIffEncodable`).
- StreamRuns.EncryptThenDecrypt: one encryption and one decryption; setting a reader up again, which keeps the flag of a reached limit, is not modelled.
- LegacyReader.LegacyReadMaterials.DecryptRead: only without a range; the code shadows the variable that would limit a ranged read, so no claim is made for it.
- LegacyReader.RangeCoversIffFits: integers are unbounded; the 64-bit overflow of sizes near 2^63 is not modelled, here and in OutputSizeIsExact.
- BlockStream.LawfulCipherExists: real cryptography, key derivation and nonce generation are library calls; a cipher is any pair of functions with the two laws, and nonces are arbitrary.
- ActivityDAO.BoltDAO.ActivitiesFor: the code stores the last-read mark in a goroutine, which a deletion may overtake; the model stores it in the same step.
- ActivityRuns.EveryRunIsConsistent: runs leave a sequence below 2^64 room for the next post and mark only issued ids; `MarkKeepsConsistentIff` says what happens otherwise.
- ActivityDAO.BoltDAO.Purge: every parseable record has a time (the code dereferences nil for one without, when a limit of age is given); the rule of the store on changing a bucket while a cursor walks over it is not modelled, here and in Delete, nor is the sequence of top-level buckets after Compact.
- ActivityDAO.BatchingRefinesPosting: the batch channel is a list of events, and BatchPost succeeds.
- Migrations.ApplyMigrations: versions are numbers in their order; the `-dev` branch, a first migration without an Up function (the code would dereference nil, the model fails), and the difference between an empty and an absent list are not modelled.
- Migrations.Service.UpdateServiceVersion: a version file that cannot be read or written is not modelled.
- Migrations.UpgradeRunsEachOnce: starts above 0.0.0, as the first run only initialises.
- QueryText.String: spaces between pieces are not modelled, converters are applied before, and each condition they return is one atom.
- QueryText.QueryBuilder.Expression: the SQL that the expression library prints, its negation and its limits are not modelled.
- MailQueue.BoltQueue.Consume: the error text that collects what failed is not modelled, nor is the rule of the store on deleting and putting while a cursor walks: the model's cursor goes on to the next key.
- MailQueue.EveryRunIsConsistent: runs with fewer pushes than there are sequence numbers; pushed mails start with no retries.
- EnvExpansion.ReplaceEnvVars: the caller's slice, which the code overwrites while splicing, is not modelled; the environment, expansion of values included, is a function.
- Datasources.MinioServers.FactorizeMinioServers: configurations are values in a map, so that several holders of one configuration see an in-place update only through the map; credentials and the S3, Azure and GCS branches are left out, and paths are those of Unix.
- Padding.Pkcs7Pad: block lengths are positive; the code divides by zero at 0, and negative ones are not modelled.
- Decimal.ParsePrinted: parsing of ids covers base 10 without sign or underscore, as the library does for base 10.
- File renames, backups, reopening and sizes around Compact: file system.
- JSON, timestamps as text, event publishing, logging, and Bolt transactions that fail: records are values with a parseable flag, and an operation succeeds as a whole.
- Subscription lists and their cache: the cached and the direct list differ for several ids at once, and neither is modelled.
- Remaining command-line, service, registry and REST code: calls into libraries and other services.
