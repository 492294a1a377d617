# Verification of the portable core of jacdac-c

A Dafny model of the hardware-independent algorithms of jacdac-c, with proofs of what they
promise. `dafny verify dfyconfig.toml` checks all of it. Each part mirrors the form of its C
code: objects whose fields are updated in place are classes, buffers are arrays, loops are loops,
and each method is proved against a specification about which the main lemmas are stated.

- **Flash store** (`FlashImage`, `FlashCuts`, `LiveWeight`, `FStore`, `FStoreBlobs`, `FStoreRuns`): the
  log-structured settings store with two banks, copying garbage collection and an allocator for
  large blobs. Flash is a byte array; a page is erased at once, bytes are programmed one by one and
  only when erased. The store records every intermediate image, which is what a power cut leaves
  behind. A run of the store from blank flash, with power cuts inside collections, behaves as two
  maps, one of settings and one of blobs (`FStoreRuns.Replay`).
- **Reliable pipes** (`PipeSpec`, `PipeRun`, `Pipes`, `PipeLimits`, `PipePadding`, `PipeCalls`): one
  sender and one receiver over a bus that keeps order and may lose any frame or ACK. Frames are bytes:
  the sender's buffer keeps what earlier frames left in it, and the receiver handles what its walk finds.
  `PipeRun.DeliversPrefix` and `PipeRun.FinishedMeansDelivered` hold in every state of every run in
  which frames have fewer than 32 packets, a CRC that differs from that of the frame before, and no
  left-over 0xff as the first pad byte. `PipeLimits` and `PipePadding` show that each of the three is
  needed; with non-empty payloads of whole words only the CRCs remain (`PipeRun.WholeWordsAreSafe`).
  `PipeCalls` is about what callers see: the code of each call, when frames are sent again and when a
  pipe is dropped, and, end to end, that what is heard is what successful calls said
  (`PipeCalls.HeardIsSaid`).
- **Frames** (`FrameWalk`): packing packets into a used buffer and the iterator that overwrites the
  frame it walks. **Queues** (`FrameQueue`, `ByteQueue`): the ring buffer of frames with a moving wrap
  point, and that of bytes.
- **USB bridge** (`UsbCode`, `UsbBridge`) with **CRC-16** (`Crc16`): the resumable byte-stuffing
  encoder over the ring buffer of frames and the decoder, end to end, and the rejection of damaged
  frames. **CRC-32** (`Crc32`): the table-driven loop against bitwise division.
- **Roles and devices** (`RoleBinding`, `RoleManager`), **events** (`Events`): binding of roles to
  services while devices come and go by their age, and the 7-bit event window.
- **LED strips** (`LedRotate`, `PowerLimit`), **device configuration** (`Dcfg`, `DcfgCollision`),
  **registers** (`Registers`).

Where the code does not do what one would expect, the exact condition is proved: power cuts inside
`jd_settings_set_bin` (`FlashCuts.CutAnywhereIff`, `FlashCuts.CutInRow`), pages of a replaced blob that
stay marked (`FStore.Store.PrepLarge`), formatting next to a bank with a valid header
(`FlashCuts.FoundAfterFormat`), wrap-around of the generation
(`FlashImage.NewBankWinsIff`), frames of 32 packets or more (`PipeLimits.EmptyPayloadsIff`), equal
CRCs (`PipeLimits.LosesIff`, `PipeLimits.CollisionLosesData`), ACKs that come after a pipe was dropped
(`PipeCalls.DroppedMeansTried`, `PipeCalls.LateAckAfterDrop`), left-over padding
(`PipePadding.PaddingLosesIff`, `FrameWalk.LeftOverIff`), clearing a wrapped queue
(`FrameQueue.Queue.Clear`, `FrameQueue.Queue.ClearFails`), oversized USB frames
(`UsbCode.OversizedIsLost`), setting a role to a service that is taken (`RoleBinding.SetKeepsIff`),
stale events (`Events.StaleAcceptedIff`), division by zero and an intensity that does not fit in the
power limiter (`PowerLimit.FaultIff`, `PowerLimit.FallbackFitsIff`), keys that extend one another
(`Dcfg.ExactIff`, `DcfgCollision.WrongEntry`) and bytes fields after bits (`Registers.ApartIff`).

In two places the code differs from what its comments or names suggest; the model follows the code.
An event that is ahead is put off when up to 4 events were missed, where the comment says 5
(`client/routing.c:374-376`). A device collection steps over the neighbour of each device it
removes (`client/routing.c:206-212`), so that an expired device may stay until the next collection;
`RoleBinding.CollectedIff` says which.

## Model

| member | source | states |
|---|---|---|
| `FlashImage.AlignIsRounding` | source/jd_fstor.c:68-76 | reserving value bytes is rounding up to 8 with at least 8, as the mask does |
| `FlashImage.PageOfAddr` | source/jd_fstor.c:119 | the address of a data page gives its number back |
| `FlashImage.ReadOfWritten` | source/jd_fstor.c:325-331 | an entry that was programmed reads back as itself: key, offset and size |
| `FlashImage.HeaderPrefix` | source/jd_fstor.c:191-195 | a header written byte by byte is valid exactly from its 20th byte on, and then carries its generation |
| `FlashImage.HeaderInBytes` | source/jd_fstor.c:191-195 | exactly which bytes make a valid header; the generation and the reserved word do not matter |
| `FlashImage.HeaderTellsGeometry` | source/jd_fstor.c:191-195 | a header that was written for one layout of the flash is valid for exactly that layout |
| `FlashImage.NewBankWinsIff` | source/jd_fstor.c:217-223 | the collected bank outranks the old one exactly while the old generation is not the largest 32-bit number |
| `FlashImage.MountOfTable` | source/jd_fstor.c:148-176 | mounting a bank that holds a table of entries finds that table |
| `FlashImage.MountIff` | source/jd_fstor.c:148-166 | exactly which image bytes make a mount find n rows and values from address d on, for images of any content |
| `FlashImage.RecoveredTable` | source/jd_fstor.c:197-235 | what a mount recovers from a winning bank is the map of latest entries of its table |
| `FlashImage.PlacedAt` | source/jd_fstor.c:312-337 | every value of a table lies right below the earlier ones in its bank, large ones behind both banks |
| `FlashImage.LatestIsLast` | source/jd_fstor.c:272-278 | the entry that counts for a key is the last one with it |
| `FlashImage.LatestSnoc` | source/jd_fstor.c:330-331 | a new entry replaces the older one of its key and no other |
| `FlashImage.ViewFrame` | source/jd_fstor.c:280-288 | bytes outside the data part of a bank do not affect the settings it holds |
| `FlashImage.AppendRow` | source/jd_fstor.c:312-331 | value first, then row: the table grows by exactly that entry |
| `FlashImage.AppendView` | source/jd_fstor.c:312-331 | and the settings change by exactly that entry |
| `FlashImage.AddedStore` | source/jd_fstor.c:312-334 | adding a setting to a store gives a store with that setting added, in the same generation |
| `FlashCuts.CutBeforeRow` | source/jd_fstor.c:312-331 | power cut while a value is being programmed: the next mount finds the old table if its bytes so far are all 0xff, and otherwise formats |
| `FlashCuts.CutInRow` | source/jd_fstor.c:330-331 | power cut after the value and any number of row bytes: exactly which table the next mount finds, or that it formats |
| `FlashCuts.CutInSize` | source/jd_fstor.c:330-331 | from the 20th row byte on the new entry is found, with a wrong size until the last byte; after exactly 20 the size is 0xffffffff |
| `FlashCuts.CutSafeIff` | source/jd_fstor.c:312-331 | a cut within the row leaves the old or the new table exactly if all bytes programmed so far, or all still to be programmed, are 0xff |
| `FlashCuts.CutAnywhereIff` | source/jd_fstor.c:312-331 | the same for a cut after any byte of value and row, by the bytes of both |
| `FlashCuts.FoundAfterFormat` | source/jd_fstor.c:197-235 | what was written after a format is found by the next mount exactly if bank 1 has no valid header, or generation 0; otherwise the mount goes back to bank 1 |
| `FlashCuts.FormatsForever` | source/jd_fstor.c:197-235 | when bank 1 broke, every later mount formats, whatever settings were written to bank 0 |
| `FlashImage.MountBroken` | source/jd_fstor.c:163-166 | one programmed byte between rows and values makes the mount fail |
| `FlashImage.OldBankSurvives` | source/jd_fstor.c:240-262 | while the other bank has no valid header, whatever is in it, a mount finds the old settings |
| `FlashImage.CopyingFits` | source/jd_fstor.c:250-261 | a live entry always fits the bank being filled, so a collection cannot run out of space |
| `FlashImage.CopyingOne` | source/jd_fstor.c:253-260 | copying one live entry, its value relocated, extends the new table and keeps every value already copied |
| `FlashImage.MovedAll` | source/jd_fstor.c:250-261 | after the whole pass the new table stands for the same settings as the old one |
| `FlashImage.SurvivesMount` | source/jd_fstor.c:210-226 | an image that holds a store of some settings is mounted as these settings |
| `FlashImage.HeaderStep` | source/jd_fstor.c:263-265 | after any number of bytes of the new header the image holds a store of the same settings and untouched data pages |
| `FlashImage.CommitSteps` | source/jd_fstor.c:263-265 | the same for every image of the header write |
| `FlashImage.HeldRecovers` | source/jd_fstor.c:245-261 | every image before the header write holds the old store |
| `FlashImage.StoreFrame` | source/jd_fstor.c:403-411 | writing data pages leaves the settings store as it is |
| `LiveWeight.SmallWeightAny` | source/jd_fstor.c:127-132 | the room that settings need does not depend on the order in which they are counted |
| `LiveWeight.NeededOfTable` | source/jd_fstor.c:127-132 | a table takes no less room than what it stands for needs, and exactly that much without duplicates |
| `FStore.Store.Resume` | source/jd_fstor.c:197-226 | any flash that holds a store is a store that is still to be mounted, with the same settings and generation |
| `FStore.Store.SelectBank` | source/jd_fstor.c:211-223 | the bank that the headers select |
| `FStore.Store.Mount` | source/jd_fstor.c:210-238 | mounts the table found, without writing; flash in which none is found, broken banks included, is formatted, which gives a sound store exactly if bank 1 has no valid header, or generation 0 |
| `FStore.Store.RoomLeft` | source/jd_fstor.c:127-132 | reported free space is there; after a collection, what is not reported is not there for any arrangement |
| `FStore.Store.constructor` | source/jd_fstor.c:50-61 | any flash without a valid header is a store that is still to be formatted |
| `FStore.Store.FlashErase` | source/jd_fstor.c:63-66 | erasing sets exactly one page to 0xff |
| `FStore.Store.FlashProgram` | source/jd_fstor.c:187 | programming demands erased target bytes, changes exactly them, and passes through one image per byte |
| `FStore.Store.LaterCopy` | source/jd_fstor.c:139-146 | tells exactly whether a later row has the same key |
| `FStore.Store.FindRow` | source/jd_fstor.c:272-278 | finds the last row with the key, or none if there is none |
| `FStore.Store.MarkLarge` | source/jd_fstor.c:117-124 | marks or clears exactly the pages of one blob |
| `FStore.Store.ScanTable` | source/jd_fstor.c:148-166 | rebuilds the cached positions that the table implies, or leaves the store unmounted |
| `FStore.Store.RecomputeCache` | source/jd_fstor.c:148-176 | afterwards a page is marked exactly when a latest large entry occupies it; a broken bank leaves the store unmounted |
| `FStore.Store.Format` | source/jd_fstor.c:228-235 | an empty table of the first generation in bank 0, all else as it was; exactly when that is a sound store |
| `FStore.Store.Init` | source/jd_fstor.c:197-238 | mounting keeps the settings, and is the identity on a mounted store |
| `FStore.Store.Remount` | source/jd_fstor.c:434-437 | forgetting all cached positions and mounting again keeps the settings |
| `FStore.Store.EraseOther` | source/jd_fstor.c:242-245 | erasing the other bank passes only through images from which the old settings recover |
| `FStore.Store.CopyOne` | source/jd_fstor.c:253-260 | one step of a collection programs erased bytes only and keeps the old bank |
| `FStore.Store.CopyLive` | source/jd_fstor.c:250-261 | the pass over the table copies exactly the live entries, in order, once each |
| `FStore.Store.CommitHeader` | source/jd_fstor.c:263-265 | the header write switches banks without a moment at which the settings are lost |
| `FStore.Store.Gc` | source/jd_fstor.c:240-270 | a collection keeps the settings, raises the generation by one, never loses free space, leaves no duplicates, and every image on the way holds a store of the same settings |
| `FStore.Store.FindEntry` | source/jd_fstor.c:272-278 | mounts if needed and finds the row that counts for a key |
| `FStore.Store.GetBin` | source/jd_fstor.c:280-289 | the codes -1 and -2 exactly for a bad and a missing key; otherwise the size, and the value if there is room for it |
| `FStore.Store.AlreadyStored` | source/jd_fstor.c:299-301 | true exactly if the key already has this value |
| `FStore.Store.AddSmall` | source/jd_fstor.c:312-334 | value and row are programmed into erased bytes; a terminator row stays free and rows never meet values; for each image on the way, whether a power cut there is harmless |
| `FStore.Store.PutSmall` | source/jd_fstor.c:312-334 | the setting is added, and each byte programmed leaves an image from which the old or the new table is found exactly if a cut there is harmless |
| `FStore.Store.StoreSmall` | source/jd_fstor.c:303-336 | stores the value, or reports -3 exactly if what the store holds leaves no room for it; collects only when it must, and otherwise programs exactly value and row |
| `FStore.Store.SetBin` | source/jd_fstor.c:291-337 | success changes the map at exactly that key; -1, -2 and -3 each exactly when due, -3 by the room that the held settings need; a value that the key already has is success, and then a mounted flash is not touched |
| `FStore.SetCodeMeans` | source/jd_fstor.c:291-310 | exactly when a write is refused, and by which code, in bytes: the key, the size, and the room that the held settings leave for a value that is not there already |
| `FStore.Store.FindFreeData` | source/jd_fstor.c:351-367 | first free run among the starts it tries, none only if none of them is free, the assertion exactly for more pages than exist; it ends |
| `FStore.Store.Search` | source/jd_fstor.c:373-387 | finds a run exactly if one that is tried is free of the pages of other keys; the old pages of the key may be reused, and are marked again if nothing is found |
| `FStore.Store.MakeRoom` | source/jd_fstor.c:389-396 | makes room exactly if what the store holds leaves it; nothing is collected while there is room, and after a collection the marks are exactly those of the blobs |
| `FStore.Store.Claim` | source/jd_fstor.c:388-405 | a free run becomes the blob of the key, all others untouched; refused exactly if there is no room for its row; which pages are marked then |
| `FStore.Store.PrepLarge` | source/jd_fstor.c:369-406 | reserves the first run that is free; refused exactly for a bad key, if no run that is tried is free, or without room for the row; the old pages of the key stay marked exactly if a collection was needed |
| `FStore.CanPlaceIff` | source/jd_fstor.c:351-396 | a blob can be placed exactly if its row fits and some run of pages, not the last one of the flash, is free or the key's own |
| `FStore.OwnPagesServe` | source/jd_fstor.c:373-384 | a blob that is no larger than the one it replaces always finds pages, unless those it needs of them reach the end of the flash |
| `FStore.Store.GetLarge` | source/jd_fstor.c:340-349 | the place and size of the latest blob of a key |
| `FStore.Store.WriteLarge` | source/jd_fstor.c:408-411 | filling reserved pages changes no setting and no place of a blob |
| `FStore.LiveIsLatest` | source/jd_fstor.c:171-174 | an entry without a later copy is the latest of its key |
| `FStore.UsedByAll` | source/jd_fstor.c:168-175 | the marks after the scan are those of the latest large entries |
| `FStore.FreeRunIsApart` | source/jd_fstor.c:351-367 | a run of unmarked pages is apart from every live blob |
| `FStore.OtherBlobKept` | source/jd_fstor.c:398-405 | reserving pages for one blob keeps the bytes of every blob apart from it |
| `FStoreBlobs.PagesAreEnough` | source/jd_fstor.c:105-107 | the pages counted for a blob have room for it and no fewer would; the count is 0 exactly for sizes within a page of 2^32 |
| `FStoreBlobs.BlobBounds` | source/jd_fstor.c:117-124 | a blob lies within its pages, behind both banks and within the flash |
| `FStoreBlobs.OtherKept` | source/jd_fstor.c:398-411 | reserving and filling the pages of one blob keeps the bytes of every other |
| `FStoreBlobs.ContentsPut` | source/jd_fstor.c:398-411 | storing a blob changes the contents at its key only |
| `FStoreBlobs.PutLarge` | source/jd_fstor.c:369-411 | stores exactly these bytes under the key, or changes nothing, exactly when no run or no row can be had; settings stay the same |
| `FStoreBlobs.ReadLarge` | source/jd_fstor.c:340-349 | reads exactly the bytes last stored under the key |
| `FStoreRuns.Fetch` | source/jd_fstor.c:280-289 | asking for the size and then for the value returns exactly the stored value |
| `FStoreRuns.Write` | source/jd_fstor.c:291-337 | writing a setting gives the code that the held settings imply and keeps all blobs |
| `FStoreRuns.Clean` | source/jd_fstor.c:240-270 | a collection keeps all settings and blobs |
| `FStoreRuns.Restart` | source/jd_fstor.c:434-437 | a clean remount keeps all settings and blobs |
| `FStoreRuns.PowerUp` | source/jd_fstor.c:197-226 | a restart from what a power cut left behind finds the same settings and blobs |
| `FStoreRuns.CutCollection` | source/jd_fstor.c:240-270 | a collection cut after any number of erase and program steps, and a restart, keep all settings and blobs |
| `FStoreRuns.Perform` | source/jd_fstor.c:280-411 | each operation gives exactly the reply of two maps, refusals included, changes them as it says, and marks no page but those of a blob it stores |
| `FStoreRuns.MarksBelow` | source/jd_fstor.c:369-405 | a page is marked after an operation only if it was before, or belongs to the blob just stored |
| `FStoreRuns.RefusedIff` | source/jd_fstor.c:369-405 | right after a restart, a collection or a power cut a blob is refused exactly if the blobs and settings held leave no place for it |
| `FStoreRuns.ReadsLastWrite` | source/jd_fstor.c:280-337 | in any run a read returns what the last successful write of the key wrote |
| `FStoreRuns.RewriteSucceeds` | source/jd_fstor.c:299-301 | in any run, writing again what was last written succeeds, however full the store is, and changes nothing |
| `FStoreRuns.ReadsNothing` | source/jd_fstor.c:280-285 | a key that was never written is reported as not found, and there is no blob |
| `FStoreRuns.ReadsLastBlob` | source/jd_fstor.c:340-411 | in any run a blob reads as it was last stored, whatever was written, collected or remounted since |
| `FStoreRuns.Replay` | source/jd_fstor.c:197-411 | any sequence of writes, reads, collections, remounts and power cuts inside collections behaves as two maps from keys to bytes, from blank flash on; the marks are exactly those of the blobs after a mount or a collection, and otherwise only grow by the blob just stored |
| `PipeRun.StartOk` | source/jd_opipe.c:37-55 | a freshly opened pair satisfies the protocol invariant |
| `PipeRun.FewPackets` | source/jd_opipe.c:127 | a frame that fits, without empty payloads but perhaps a closing one, has fewer than 32 packets |
| `PipeRun.IgnoresOld` | source/jd_ipipe.c:65 | a receiver past a frame by less than a turn of the counter ignores a repeated copy entirely |
| `PipeRun.TakesNew` | source/jd_ipipe.c:63-80 | a receiver waiting for the first packet of a frame takes all its packets in order, and ends at the closing one |
| `PipeRun.WriteStep` | source/jd_opipe.c:134-146 | a write of any payload keeps the invariant while the frame has fewer than 32 packets |
| `PipeRun.FlushStep` | source/jd_opipe.c:148-152 | a flush keeps the invariant |
| `PipeRun.SendCloseStep` | source/jd_opipe.c:162-173 | writing the closing packet, at once or after the pending frame, keeps the invariant |
| `PipeRun.CloseStep` | source/jd_opipe.c:175-191 | closing keeps the invariant in every status |
| `PipeRun.TimerStep` | source/jd_opipe.c:89-110 | a pass of the retry timer keeps the invariant, when the frame it sends is not empty and has a good first pad byte |
| `PipeRun.LoseFrameStep` | source/jd_opipe.c:89-110 | losing any frame on the bus keeps the invariant |
| `PipeRun.LoseAckStep` | source/jd_opipe.c:70-87 | losing any ACK keeps the invariant |
| `PipeSpec.OffOnWire` | source/jd_ipipe.c:60-73 | the port, counter and flags packed into a command word are got back, whatever they are |
| `PipeSpec.AppendFills` | source/jd_util.c:118-138 | writing a packet into a frame buffer that was used before adds it to the packets there |
| `PipeSpec.ReceivedWhole` | source/jd_util.c:75-109 | the bytes of a frame with a good first pad byte are received as its packets, whatever is behind them in memory |
| `PipeRun.FirstFrame` | source/jd_services.c:152-167 | the packets the walk finds in the bytes of the first frame on the bus are all taken if it is the one expected, and all ignored if it is an old one |
| `PipeRun.DeliverStep` | source/jd_services.c:152-167 | answering a frame with its CRC and walking its bytes keeps the invariant |
| `PipeRun.AcceptedAck` | source/jd_opipe.c:75-76 | an ACK the sender accepts names the frame it is sending, which has been delivered |
| `PipeRun.AckStep` | source/jd_opipe.c:70-87 | handling an ACK keeps the invariant, the pending close included |
| `PipeRun.StepOk` | source/jd_opipe.c:70-191 | every action that is not a panic keeps the invariant, while frames have fewer than 32 packets, differing CRCs and a good first pad byte; the assertions of the sender hold |
| `PipeRun.RunOk` | source/jd_opipe.c:70-191 | the invariant holds at every point of every run that meets these three conditions |
| `PipeRun.DeliversPrefix` | source/jd_ipipe.c:56-81 | at every point of every such run, over a lossy bus of bytes, the handlers have seen a prefix of what was written: in order, no gap, no duplicate |
| `PipeRun.FinishedMeansDelivered` | source/jd_opipe.c:78-80 | once the ACK of the closing frame frees the sender, everything was delivered and EOF was signalled exactly once, last |
| `PipeRun.FewSends` | source/jd_opipe.c:93-106 | no frame is sent more than four times, and no packet joins a frame that is on its way |
| `PipeRun.WriteIsLogged` | source/jd_opipe.c:134-146 | the history of written packets grows by exactly the packets of successful writes |
| `PipeRun.NonEmptyIsFew` | source/jd_opipe.c:127 | in a run without empty payloads no frame ever has 32 packets |
| `PipeRun.WholeWordsAreSafe` | source/jd_util.c:83-93 | non-empty payloads of whole words leave nothing to be assumed but differing CRCs |
| `PipeRun.NeverPanics` | source/jd_queue.c:28-29 | while every payload fits into a frame no empty frame is sent, which would be a panic |
| `PipeCalls.WriteCodes` | source/jd_opipe.c:119-146 | in every sound state, which code a write returns: dropped, closed, success exactly if the frame is not on its way and has room, and try again, after which the frame is on its way |
| `PipeCalls.FlushCodes` | source/jd_opipe.c:148-152 | the same for a flush, which succeeds exactly if nothing is waiting for an ACK |
| `PipeCalls.CloseCodes` | source/jd_opipe.c:175-191 | a close succeeds exactly for a pipe that is free or dropped, and frees it; otherwise the pipe is closing, at once if it can |
| `PipeCalls.PutOffCloseFollows` | source/jd_opipe.c:78-83 | the ACK for the frame before a close that was put off writes and sends the closing packet |
| `PipeCalls.OnlyTheNext` | source/jd_ipipe.c:56-81 | exactly which packet an open pipe takes, by the bits of its command, and what the handlers then hear |
| `PipeCalls.QuietPass` | source/jd_opipe.c:89-101 | in every run: a timer pass before its time, without a frame, or whose send is refused before the fourth send, changes nothing at all |
| `PipeCalls.SendsOnceMore` | source/jd_opipe.c:93-97 | in every run: any other pass before the fourth send puts the same frame on the bus once more |
| `PipeCalls.DropsAfterGrace` | source/jd_opipe.c:93-106 | in every run: after the fourth send one pass changes nothing to be seen, and the next drops the pipe |
| `PipeCalls.DroppedByTimer` | source/jd_opipe.c:102-106 | in every run: a pipe becomes dropped only by a pass of the timer, after four sends of the frame and an earlier pass after the fourth |
| `PipeCalls.DroppedMeansTried` | source/jd_opipe.c:70-110 | in every state of every run: a dropped pipe had sent its frame four times when it was dropped, and has still counted four unless an ACK was accepted since |
| `PipeCalls.LateAckAfterDrop` | source/jd_opipe.c:70-84 | that does happen: a late ACK is accepted by a dropped pipe, which stays dropped although all was delivered |
| `PipeCalls.WrittenIsSaid` | source/jd_opipe.c:134-173 | in every run the packets in the history stand for what writes that reported success and the close have said |
| `PipeCalls.HeardIsSaid` | source/jd_ipipe.c:56-81 | end to end, over a lossy bus: the handlers have heard a prefix of what was said by writes that reported success and by the close, and all of it once the sender is done |
| `PipeLimits.ReplayIgnoredIff` | source/jd_ipipe.c:65 | a repeated frame is ignored exactly while it has fewer than 32 packets, and otherwise some of it is handled again |
| `PipeLimits.StatesRun` | source/jd_opipe.c:70-191 | every list of actions whose payloads fit into a frame has a run |
| `PipeLimits.EmptyPayloadsIff` | source/jd_ipipe.c:63-80 | a run from the start that sends m empty payloads in one frame twice, without a loss, delivers a prefix exactly if m is less than 32 |
| `PipeLimits.LosesIff` | source/jd_opipe.c:75-77 | in every sound state an accepted ACK drops undelivered packets exactly if nothing of the frame was delivered; it is then one for the frame before, of the same CRC |
| `PipeLimits.CollisionLosesData` | source/jd_opipe.c:75-77 | in a run from the start with a late ACK the second frame is dropped unsent exactly if its CRC is that of the first |
| `PipePadding.PadIff` | source/jd_util.c:83-93 | exactly which payloads leave the second frame a good first pad byte, by the bytes left over from the first |
| `PipePadding.PaddingLosesIff` | source/jd_services.c:156-166 | in a run from the start without a loss, in which the last ACK frees the sender, the last payload and the end arrive exactly if that pad byte is good |
| `PipePadding.NobodyWrote` | source/jd_util.c:83-107 | with a bad one the walk can go to the inside of a payload and deliver a packet that nobody wrote |
| `Pipes.OPipe.CheckSpace` | source/jd_opipe.c:119-132 | the descriptor after a space check and the code returned |
| `Pipes.OPipe.WriteEx` | source/jd_opipe.c:134-146 | a packet for which space was reported is always accepted into the frame; the counter wraps at 32 |
| `Pipes.OPipe.Flush` | source/jd_opipe.c:148-152 | the descriptor after a flush |
| `Pipes.OPipe.SendClose` | source/jd_opipe.c:162-173 | the descriptor after an attempt to write the closing packet |
| `Pipes.OPipe.Close` | source/jd_opipe.c:175-191 | the descriptor after a close, for each status |
| `Pipes.OPipe.HandleAck` | source/jd_opipe.c:70-87 | the descriptor after an ACK, relevant or not |
| `Pipes.OPipe.Process` | source/jd_opipe.c:89-110 | the descriptor after a pass of the retry timer |
| `Pipes.IPipe.HandlePacket` | source/jd_ipipe.c:56-81 | the descriptor and the handler calls after a packet, of this pipe or not |
| `Pipes.IPipe.ProcessFrame` | source/jd_services.c:152-167 | answers when asked to, and then handles exactly the packets that the walk over the original bytes finds, in order |
| `FrameWalk.Frame.Reserve` | source/jd_util.c:118-138 | refuses exactly when the packet does not fit; otherwise writes the header and nothing else |
| `FrameWalk.Frame.Push` | source/jd_util.c:118-138 | header and payload go behind the earlier packets; every other byte, padding included, is left as it was |
| `FrameWalk.Frame.WordMove` | source/jd_util.c:320-326 | the overlapping move to the front copies every word from its old value |
| `FrameWalk.Frame.Cursor` | source/jd_util.c:76-95 | finds the next packet, hidden cursor or not; stops at the end and at cursors that would go back |
| `FrameWalk.Frame.Shift` | source/jd_util.c:75-109 | moves on exactly when there is a next packet; otherwise leaves the data alone; the request for an ACK is dropped exactly if there is a cursor to follow |
| `FrameWalk.Frame.Walk` | source/jd_util.c:75-109 | ends for every frame of up to 240 bytes, well formed or not, and visits exactly the packets found in its original bytes, although it overwrites them |
| `FrameWalk.WalkedPacked` | source/jd_util.c:75-95 | in a packed frame with a good first pad byte these are its packets, in order |
| `FrameWalk.WalkedStep` | source/jd_util.c:94-106 | a move to the front, from wherever the cursor pointed, never changes what is still to be visited |
| `FrameWalk.CursorGrows` | source/jd_util.c:88-106 | the cursor strictly increases |
| `FrameWalk.PushedIsPacked` | source/jd_util.c:118-138 | earlier packets stay in place when one is pushed |
| `FrameWalk.PackedSame` | source/jd_util.c:75-109 | what lies behind a frame in memory does not change the packets in it |
| `FrameWalk.FirstStepIff` | source/jd_util.c:83-93 | the first step reaches the second packet exactly when the pad byte after the first packet is not 0xff or the byte after it happens to be the right cursor |
| `FrameWalk.AlignedPadOk` | source/jd_util.c:79-93 | a first packet that needs no padding, or is the only one, is always followed properly |
| `FrameWalk.LeftOverIff` | source/jd_util.c:79-93 | for two packets pushed into a used buffer: when the first step reaches the second, by the bytes left over |
| `FrameWalk.BadPadding` | source/jd_util.c:83-93 | left-over bytes 0xff end the walk after the first of any two packets |
| `FrameQueue.Queue.Push` | source/jd_queue.c:27-61 | refuses a frame exactly if neither the end of the newest frame nor the start of the buffer has room for it apart from all frames held and short of the front; otherwise it is last in the queue; which code, and where it is put |
| `FrameQueue.Queue.WillFitIff` | source/jd_queue.c:14-25 | the comparison of positions tells exactly whether there is such a place |
| `FrameQueue.Queue.EmptyTakesHalf` | source/jd_queue.c:31-41 | an empty queue takes every frame of up to half its size, wherever the last one ended |
| `FrameQueue.Queue.PushAround` | source/jd_queue.c:39-41 | wrapping stores the frame at the start and moves the wrap point to the end of the others |
| `FrameQueue.Queue.Front` | source/jd_queue.c:63-72 | the oldest frame, stored in one piece, or none exactly when the queue is empty |
| `FrameQueue.Queue.Shift` | source/jd_queue.c:74-88 | removes exactly the oldest frame; the assertion on the wrap point holds |
| `FrameQueue.Queue.Clear` | source/jd_queue.c:90-94 | empties the queue, which is sound afterwards exactly if less than 16 bytes lie behind the wrap point |
| `FrameQueue.Queue.ClearThenFail` | source/jd_queue.c:90-94 | when a frame fits behind the wrap point, filling a cleared queue up to it and draining it makes the first frame, long gone, be taken for the last |
| `FrameQueue.Queue.ClearFails` | source/jd_queue.c:63-94 | frames for that always exist: after every clear that leaves 16 bytes or more behind the wrap point the queue can be made to return a wrong frame |
| `FrameQueue.RunKept` | source/jd_queue.c:51-52 | storing a frame outside a run of frames leaves the run intact |
| `FrameQueue.RunExtended` | source/jd_queue.c:37-38 | a frame stored right behind a run extends it |
| `ByteQueue.Queue.Push` | source/jd_bqueue.c:32-62 | appends all bytes or none, around the end of the ring if need be; the checks of the source hold |
| `ByteQueue.Queue.Advance` | source/jd_bqueue.c:80-86 | removes bytes that lie in one piece; the checks of the source hold |
| `ByteQueue.Queue.PopAtMost` | source/jd_bqueue.c:104-124 | returns exactly the first bytes, as many as there are up to the limit, also around the end of the ring |
| `ByteQueue.Queue.PopAtomic` | source/jd_bqueue.c:126-139 | returns exactly as many bytes as asked, or none if there are fewer; its assertion holds |
| `ByteQueue.Queue.PopByte` | source/jd_bqueue.c:141-153 | returns the first byte, or -1 exactly when the queue is empty |
| `ByteQueue.PushedAround` | source/jd_bqueue.c:46-55 | bytes split at the end of the ring are read back in one piece |
| `Crc16.MixedIsDivide` | source/jd_util.c:59-62 | the four shifts per byte are eight steps of long division by 0x1021 |
| `Crc16.Compute` | source/jd_util.c:55-65 | the checksum is the remainder of bit-by-bit division, starting from 0xffff, for inputs of every length |
| `Crc16.BitsTell` | source/jd_util.c:55-65 | the division can be undone: different remainders stay different |
| `Crc16.BitsAdd` | source/jd_util.c:55-65 | the division is linear |
| `Crc16.TwoBytesAreAWord` | source/jd_util.c:55-65 | taking in two bytes is taking in one 16-bit word |
| `Crc16.DetectsTwoBytes` | source/jd_util.c:55-65 | inputs of one length that differ only within two adjacent bytes have equal checksums exactly if they are equal |
| `UsbBridge.CrcOkIff` | source/jd_usb.c:176-180 | a frame is accepted exactly if its first two bytes, the lower one first, are the checksum of the rest |
| `Crc32.LookupIs` | storage/crc32.c:3-36 | each of the 256 constants is what eight steps of the reflected division make of its index |
| `Crc32.DivideByByte` | storage/crc32.c:43 | eight steps of a word are those of its low byte mixed with the upper bytes shifted down |
| `Crc32.LookupDivides` | storage/crc32.c:43 | one look into the table does eight steps |
| `Crc32.Compute` | storage/crc32.c:38-45 | the table-driven loop computes the bitwise reflected CRC-32 of inputs of every length |
| `Crc32.CheckValue` | storage/crc32.c:38-45 | the check value of CRC-32: the digits 1 to 9 give 0xcbf43926 |
| `UsbCode.ChunksDoNotMatter` | source/jd_usb.c:202-269 | the receiver does the same however the bytes are cut into chunks |
| `UsbCode.ReachableKept` | source/jd_usb.c:191-200 | outside a frame the receive buffer is empty, and it never overflows |
| `UsbCode.OpeningResyncs` | source/jd_usb.c:223-229 | the opening of a frame is recognised in every reachable state |
| `UsbCode.StuffStores` | source/jd_usb.c:218-220 | stuffed bytes inside a frame are stored as the original bytes |
| `UsbCode.FrameResyncs` | source/jd_usb.c:202-269 | from every reachable state one encoded frame of at most 252 bytes is received exactly |
| `UsbCode.OversizedIsLost` | source/jd_usb.c:258-262 | a longer frame is not received; its bytes but the one that overflowed become serial data |
| `UsbCode.IgnoredCodes` | source/jd_usb.c:232-240 | gap marks, the reserved code and an end without a frame are ignored, within a frame as well |
| `UsbCode.UnknownCode` | source/jd_usb.c:242-250 | an unknown code breaks off the frame and comes out as serial data with the frame's bytes |
| `UsbCode.DoubleMagic` | source/jd_usb.c:206-213 | two magic bytes are one literal magic byte outside a frame and break off a frame |
| `UsbCode.StreamDecodes` | source/jd_usb.c:31-113 | any stream of frames, log bytes and gap marks is received as what was sent, in order |
| `UsbCode.ProducedDecodes` | source/jd_usb.c:31-113 | also when the stream ends within a frame, and in any chunks |
| `UsbBridge.Sender.SendFrame` | source/jd_usb.c:271-286 | while forwarding is on a frame is refused exactly if the ring buffer has no place for it, which raises the gap mark, and otherwise is last in the queue; while off, frames are ignored |
| `UsbBridge.Sender.PutGap` | source/jd_usb.c:47-51 | a gap mark that is due is put exactly when no frame is under way and there is room for it |
| `UsbBridge.Sender.PutFrame` | source/jd_usb.c:67-81 | the bytes of a frame continue where the last pull stopped, and at least one follows the opening |
| `UsbBridge.Sender.PutFrames` | source/jd_usb.c:46-90 | puts frames until the queue is empty or fewer than 4 bytes are left; within a frame no room for log text is left |
| `UsbBridge.Sender.PutLog` | source/jd_usb.c:101-107 | log bytes are only put between frames, magic ones quoted |
| `UsbBridge.Sender.Pull` | source/jd_usb.c:31-113 | the bytes pulled, read out of the ring buffer, continue the stream of accepted frames and log bytes, and the buffer is filled while there are any |
| `UsbBridge.NothingIsLost` | source/jd_usb.c:31-113 | whatever the chunks, frames heard plus frames queued are the frames accepted, in order, and likewise for log bytes |
| `UsbBridge.Receiver.FrameError` | source/jd_usb.c:191-200 | a broken frame is passed on as serial data |
| `UsbBridge.Receiver.HandleFrame` | source/jd_usb.c:167-189 | by the bytes of this frame only, although the buffer holds older ones: too short, damaged, or exactly its declared bytes for the bridge or for the bus |
| `UsbBridge.Receiver.Push` | source/jd_usb.c:202-269 | the receiver refines the byte-wise decoder; of the frames heard, every intact one goes out with its declared bytes, to the bridge exactly if addressed to it |
| `UsbBridge.JudgedByBytes` | source/jd_usb.c:167-189 | by length, checksum, flag bits and identifier: which frames are short, which intact ones go to the bus, and which to the bridge |
| `UsbBridge.ReachesBus` | source/jd_usb.c:167-189 | end to end: each frame the sender accepted and is not still queuing was judged by its own bytes, and one that is intact and not for the bridge reached the bus unchanged |
| `UsbBridge.DamagedIsRefused` | source/jd_usb.c:176-180 | an intact frame damaged within two adjacent bytes behind its size is refused for its CRC |
| `RoleBinding.SetKeepsIff` | client/rolemgr.c:57-73 | rebinding keeps bindings injective and flags exact if and only if no other role has the service |
| `RoleBinding.HintLeadsTo` | client/rolemgr.c:75-103 | a hint leads to the service of its class that its offset counts out, of the first device with the identifier that its kind names |
| `RoleBinding.HintLeadsNowhere` | client/rolemgr.c:75-103 | and nowhere exactly without a hint, an identifier, the device, or enough services of the class |
| `RoleBinding.FirstFreeIsFirst` | client/rolemgr.c:117-127 | what a free role gets is really the first: all earlier services of the class are taken, control services aside |
| `RoleManager.EarlierFirst` | client/rolemgr.c:113-131 | of two free roles of one class the one that comes first in the order of names is served first |
| `RoleBinding.ConsistentWithout` | client/rolemgr.c:258-268 | once no role is bound to a device it can go without a dangling binding |
| `RoleBinding.LessIsOrder` | client/rolemgr.c:316-322 | byte order is a strict total order |
| `RoleBinding.LessIsLexicographic` | client/rolemgr.c:316-322 | it is the lexicographic order: a first difference, or a proper prefix |
| `RoleBinding.RoleInserted` | client/rolemgr.c:316-327 | a new role keeps the list strictly ordered by name |
| `RoleBinding.DeviceInserted` | client/routing.c:114-149 | a new device keeps the list ordered, this device first |
| `RoleBinding.SelfIsFirst` | client/routing.c:114-120 | in an ordered list this device comes first and the others in the order of their identifiers |
| `RoleBinding.CollectedKeeps` | client/routing.c:199-213 | a collection removes nothing live, adds nothing, and removes something exactly when something has expired |
| `RoleBinding.CollectedOrdered` | client/routing.c:199-213 | a collection keeps the list in order |
| `RoleBinding.CollectedIff` | client/routing.c:199-213 | exactly which devices stay: the live ones, and an expired one whose direct predecessor was removed and before which a live one comes |
| `RoleBinding.LivesTwoSeconds` | inc/jd_util.h:38-46 | modulo 2^32: a device announced at t counts as expired exactly from 2 seconds later on, for 2^31 microseconds |
| `RoleBinding.CollectedByAge` | client/routing.c:199-213 | by elapsed time: what was announced less than 2 seconds ago stays, what is older counts as expired and goes from the head of the list |
| `RoleManager.Manager.Set` | client/rolemgr.c:57-73 | the binding and the two flags after a set, free or not |
| `RoleManager.Manager.LookupDevice` | client/routing.c:215-223 | the first device with the identifier, none exactly if there is none |
| `RoleManager.Manager.UseHint` | client/rolemgr.c:75-103 | binds the role to the service its hint counts out, exactly when that is free; nothing else changes |
| `RoleManager.Manager.UseHints` | client/rolemgr.c:109-112 | each role without a binding gets the service its hint leads to, unless that was taken or an earlier role's hint led to it; no other binding changes |
| `RoleManager.Manager.FindFree` | client/rolemgr.c:117-127 | the first free service of the class with index at least 1 in the order of devices, none exactly if there is none |
| `RoleManager.Manager.AutobindRole` | client/rolemgr.c:113-131 | an eligible free role gets the first free service of its class; no other binding changes |
| `RoleManager.Manager.Autobind` | client/rolemgr.c:105-133 | first the hints, exactly, and then each role in order gets the first service of its class that is free by then; existing bindings and soundness are kept, and no eligible free role and free service of its class remain |
| `RoleManager.Manager.ClearAll` | client/rolemgr.c:223-226 | all roles unbound, all flags cleared |
| `RoleManager.Manager.DeviceDestroyed` | client/rolemgr.c:258-268 | unbinds exactly the roles bound to the device; the rest stays sound without it |
| `RoleManager.Manager.Lookup` | client/rolemgr.c:135-141 | finds a role by exactly its name, or there is none |
| `RoleManager.Manager.SetRole` | client/rolemgr.c:203-217 | when it does something, what it does, and that soundness survives exactly if the service was free or already this role's |
| `RoleManager.Manager.AllocRole` | client/rolemgr.c:286-331 | adds one unbound role in its place and keeps bindings and order |
| `RoleManager.Manager.FreeRole` | client/rolemgr.c:333-358 | unbinds and removes exactly this role; the order of names is kept |
| `RoleManager.Manager.FreeAllRoles` | client/rolemgr.c:360-379 | no roles and no flags are left |
| `RoleManager.Manager.RoleByService` | client/rolemgr.c:386-392 | a role is found exactly when the flag of the service is set, and it is the only one |
| `RoleManager.Manager.RemoveDevice` | client/routing.c:176-197 | removes one device and unbinds exactly its services; the order of devices is kept |
| `RoleManager.Manager.CollectDevices` | client/routing.c:199-213 | exactly the survivors of the walk stay, in order, by the time since each was announced; the bindings to devices that stay are kept, and only those to devices that go are cleared |
| `RoleManager.Manager.AllocDevice` | client/routing.c:122-154 | a new device with unbound services, in its place |
| `RoleManager.Manager.ReplaceDevice` | client/routing.c:346-353 | a restarted device is replaced, with the bindings to its old services cleared |
| `RoleManager.Manager.Recognize` | client/routing.c:339-356 | a record is created, replaced or kept exactly as the restart counter tells; the list and the bindings afterwards |
| `RoleManager.Manager.Announce` | client/routing.c:339-360 | the same for an announcement, which also sets the time at which the device expires, and no other's |
| `Events.Tracker.Handle` | client/routing.c:362-386 | accepts exactly the first event, the expected one, and those 5 to 68 ahead of it |
| `Events.AcceptedIff` | client/routing.c:362-386 | which arrivals are accepted, by their true distance from the expected one |
| `Events.AcceptedIncreases` | client/routing.c:369-376 | if no arrival is more than 59 behind, the true numbers accepted are strictly increasing over the whole run |
| `Events.StaleAcceptedIff` | client/routing.c:369-376 | exactly which stale arrivals break the order; all are at least 60 behind |
| `Events.SixtyBehind` | client/routing.c:369-376 | an arrival 60 behind is accepted again: the window is tight |
| `Events.NoShortGaps` | client/routing.c:373-376 | an accepted event follows the last one or skips at least 5 |
| `Events.AllInOrder` | client/routing.c:362-386 | events that arrive without loss are all accepted |
| `LedRotate.Strip.SetRange` | services/ledstrip.c:466-478 | the range is cut off at the end of the strip |
| `LedRotate.Strip.Rotate` | services/ledstrip.c:359-373 | the three-pointer exchange leaves exactly the left rotation, ends, and touches nothing outside |
| `LedRotate.Strip.Step` | services/ledstrip.c:364-373 | one exchange and the moves of the pointers keep what is still to be rotated right |
| `LedRotate.Strip.ProgRot` | services/ledstrip.c:355-374 | the range is rotated left by `shift` pixels, or left alone if `shift` is out of range |
| `LedRotate.Strip.Reduce` | services/ledstrip.c:449-450 | the repeated subtraction is the remainder |
| `LedRotate.Strip.Command` | services/ledstrip.c:443-457 | a rotate command for every number of pixels and every range |
| `LedRotate.PixelMoves` | services/ledstrip.c:443-457 | each pixel of the range comes from `k` places before it, or behind it, around the range |
| `LedRotate.ThereAndBack` | services/ledstrip.c:443-457 | forward by k and backward by k, in either order, is the identity |
| `PowerLimit.State.LimitIntensity` | services/led_internal.h:5-50 | the intensity stored, or the division by zero |
| `PowerLimit.WithinLimit` | services/led_internal.h:18-49 | whatever is stored, the estimated current is at most 255 microamps over the limit, and 0 if the limit is negative |
| `PowerLimit.NotDimmed` | services/led_internal.h:11-42 | a strip that is within its limit is not dimmed, but toward the intensity requested |
| `PowerLimit.Brightens` | services/led_internal.h:11-38 | while the requested intensity is within the limit each refresh raises the intensity by one and a 32nd, up to it |
| `PowerLimit.ReachesRequested` | services/led_internal.h:11-38 | so that it is reached after at most 255 refreshes, from any intensity |
| `PowerLimit.FaultIff` | services/led_internal.h:34-44 | the division is by zero exactly if both intensities draw too much and the channels sum to at most 5 |
| `PowerLimit.DarkStripFaults` | services/led_internal.h:30-44 | a dark strip with a negative limit does divide by zero |
| `PowerLimit.FallbackFits` | services/led_internal.h:44-49 | with enough light in the pixels the computed intensity fits a byte and is not above the one that drew too much |
| `PowerLimit.FallbackFitsIff` | services/led_internal.h:44-49 | the computed intensity fits a byte exactly if the limit is below 257 units, a unit being a 256th of the full current |
| `PowerLimit.FallbackCut` | services/led_internal.h:44-49 | with less light it may not: for one faintly lit pixel of four and 18 mA it is 279, stored as 23, where 222 would be within the limit |
| `Dcfg.Validate` | source/jd_dcfg.c:68-121 | accepts exactly the well-formed configurations at aligned addresses |
| `Dcfg.ValidateHeader` | source/jd_dcfg.c:72-85 | magic numbers, sizes and the entry after the last |
| `Dcfg.ValidateJumps` | source/jd_dcfg.c:87-92 | accepts exactly if each jump leads to the first entry of its span or later |
| `Dcfg.JumpCounts` | source/jd_dcfg.c:87-92 | each of the 32 jumps is the number of entries whose hashes are in earlier spans of 2048 |
| `Dcfg.ValidateText` | source/jd_dcfg.c:105-117 | accepts exactly numbers of size 0 and text that ends in the data area; which check failed is told by the code |
| `Dcfg.ValidateEntry` | source/jd_dcfg.c:100-117 | accepts exactly entries with a short key, its hash, in hash order, with text that ends in the data area |
| `Dcfg.HeaderInBytes` | inc/jd_dcfg.h:44-54 | exactly which bytes make an acceptable header, and where its numbers lie |
| `Dcfg.EntryInBytes` | inc/jd_dcfg.h:30-35 | where the key, the hash, the type and the value of an entry lie |
| `Dcfg.AcceptedText` | source/jd_dcfg.c:105-117 | the text of an accepted entry, and a NUL behind it, lie in the data area |
| `Dcfg.JumpSkipsMisses` | source/jd_dcfg.c:132-134 | the jump passes only entries with smaller hashes |
| `Dcfg.GetEntry` | source/jd_dcfg.c:123-141 | the jump and the sorted scan find the same entry as a scan of the whole table |
| `Dcfg.FirstMatchIsFirst` | source/jd_dcfg.c:136-140 | that is the first entry with the hash of the key whose key starts with it, if there is one |
| `Dcfg.PresentIsFound` | source/jd_dcfg.c:123-141 | every key in an accepted configuration is found |
| `Dcfg.ExactIff` | source/jd_dcfg.c:137 | the entry found is the one with this key unless a key of the same hash that extends it comes first |
| `DcfgCollision.Collision` | source/jd_dcfg.c:47-50 | there are such keys: "18" and "18kk" have the same hash |
| `DcfgCollision.WrongEntry` | source/jd_dcfg.c:123-141 | in every valid configuration with "18kk" before "18" a lookup of "18" does not find its entry |
| `Dcfg.GetAny` | source/jd_dcfg.c:143-151 | the user's entry goes before the manufacturer's, and each is the first match of its own table |
| `Dcfg.GetNext` | source/jd_dcfg.c:162-186 | the next entry with the prefix in the order of both tables |
| `Dcfg.VisitAll` | source/jd_dcfg.c:162-186 | asking until there is none visits all places with the prefix |
| `Dcfg.AllPlacesExact` | source/jd_dcfg.c:162-186 | which are exactly the matching entries, the user's first, in table order, once each |
| `Registers.ApartIff` | source/jd_services.c:82-147 | all registers lie apart exactly if no bytes field directly follows bits that do not fill their byte |
| `Registers.ParsesBack` | source/jd_services.c:82-88 | the walk over the descriptor of any registers finds exactly these registers |
| `Registers.Widths` | source/jd_services.c:24-26 | the width and the sign of each type of register |
| `Registers.NaturalAlignment` | source/jd_services.c:93-100 | a number starts at the first byte behind the cursor whose address its size divides, or that of a pointer if smaller |
| `Registers.Service.Find` | source/jd_services.c:82-147 | the walk over the descriptor answers for the first register with the code, at its place in the state |
| `Registers.Service.Handle` | source/jd_services.c:59-150 | the reply and the state after every request, unhandled ones and invalid descriptors included |
| `Registers.NotLookedUp` | source/jd_services.c:60-75 | which requests change nothing and are not handled: other kinds, empty writes, reserved codes, writes of read-only registers |
| `Registers.InvalidPanics` | source/jd_services.c:82-91 | a code that no register has is not handled, and an invalid type before the code is a panic |
| `Registers.Service.Get` | source/jd_services.c:106-115 | a read answers with the bit or the bytes, or not at all for a zero optional register |
| `Registers.Service.Put` | source/jd_services.c:116-134 | a write sets the bit or the bytes of the register and nothing else |
| `Registers.ReadWritten` | source/jd_services.c:116-134 | the register written reads as the payload cut off or extended |
| `Registers.SetThenGet` | source/jd_services.c:59-150 | a write is answered with the code, and the next read with the payload cut off or extended |
| `Registers.BitSetThenGet` | source/jd_services.c:117-122 | a bit reads as 1 exactly if the first byte of the last write was not 0 |
| `Registers.ReadsBytes` | source/jd_services.c:107-115 | a read returns the bytes of the register, and nothing exactly for an optional register that is all zero |
| `Registers.SetKeepsOthers` | source/jd_services.c:59-150 | a write leaves the answers of all other registers as they were |
| `Registers.OverlaidShares` | source/jd_services.c:82-105 | a bytes field directly after started bits does overwrite the last of them |
| `Registers.ExtendedKeepsValue` | source/jd_services.c:126-133 | extending a short payload keeps its value, signed or unsigned as the register is |
| `Registers.CutOffIsModulo` | source/jd_services.c:123-125 | cutting off a long payload is taking its value modulo the range of the register |
| `Registers.ExtendedIsModulo` | source/jd_services.c:123-125 | also for the bytes that a write stores |

## Left out

Parts of the repository:

- Drivers, most services, the physical layer, the pthread client, number formatting, printing and
  panic paths: hardware, timing or input and output.
- Of `storage/crc32.c` only `jd_crc32`; the two bit-by-bit checksums of SD cards are not modelled.
- `jacdac/dist/c/usbbridge.h` and the other generated headers of service constants are not part of
  this model: the quote bytes matter only by being distinct, the service class of the bridge is a
  parameter, and the restart counter is the low four bits of the announcement flags.
- Handlers, listeners and event callbacks do not call back; handler calls are recorded in logs.
  Interrupts are off: `target_disable_irq` has no counterpart.

Flash store:

- A page erase cut off half way is not modelled; a program operation can be cut at every byte.
- The result of reading flash beyond its end while mounting is taken to be a mount failure.
- FStore.Store.GetBin: the source copies as many bytes as the caller has space for; the copy here
  stops at the end of the flash, and only the bytes of the value are specified.
- FStore.Store.PrepLarge: sizes within one page of 2^32 are excluded, since the source's search
  does not end for them; sizes beyond all data pages end in the source's assertion, which the
  result shows.
- FStore.Store.FindFreeData: the same sizes near 2^32 are excluded.
- FStore.Store.SetBin: the generation must be below its 32-bit maximum; at the maximum a collected
  bank loses to the old one, as `FlashImage.NewBankWinsIff` states.
- FStore.Store.Gc: likewise below the maximal generation.
- FStore.Store.Mount: a bank that passes the scan without holding a table, as a cut between the last
  bytes of a row leaves it, is not mounted; `FlashCuts.CutInRow` says when this comes about, and which
  entry is then read.
- FStore.Store.RecomputeCache: excluded likewise.
- FStore.Store.Init: the flash holds a store or has no valid header; `FStore.Store.Mount` is the same
  without this.
- FStore.Store.Resume: the same flash; broken banks are the subject of `FStore.Store.Mount`.
- FStoreRuns.Replay: power cuts are those inside collections, the only ones that the source survives
  in general.
- FStoreBlobs.PutLarge: a blob is filled in one go after its pages are reserved; sizes are those for
  which `FStore.Store.PrepLarge` does not end in the assertion.
- The bitmap of used pages is an array of booleans. Copying an unaligned value to aligned memory
  before programming has no counterpart. The number of header pages is given by the geometry.

Pipes:

- One pipe is modelled at a time; the lists of descriptors, the choice of a random port and the
  reuse of ports are not. That unlinking clears the descriptor while a loop still walks the list
  is not modelled.
- PipeRun.DeliversPrefix: for runs whose frames have fewer than 32 packets, CRCs that differ from one to
  the next, and a first pad byte that is not a left-over 0xff; `PipeLimits` and `PipePadding` show that
  each is needed.
- PipeRun.FinishedMeansDelivered: for the same runs.
- PipeRun.TimerStep: a run ends where the source panics, when an empty frame is sent, which takes a
  payload that does not fit into any frame (`PipeRun.NeverPanics`).
- Times are replaced by steps that may happen at any point. Lengths of payloads do not wrap around at
  32 bits. Of the packets in a received frame only those for the stream service matter.

Frames and queue:

- FrameWalk.Frame.Shift: the frame size is at most 240, the data that a frame has room for; the
  receivers of the repository refuse larger ones. The up to 3 bytes behind the frame that a move from
  an unaligned cursor reads are part of the buffer.
- FrameWalk.Frame.Cursor: the same bound on the frame size.
- FrameWalk.Frame.Walk: the same bound; a first packet that claims to be longer than the buffer is
  read as far as the buffer goes.
- FrameQueue.Queue.Push: a frame is handed over together with its padding.

USB bridge:

- The panic mode and the reply to packets for the bridge are not modelled. The log is a stream of
  bytes, read in pieces of any size up to 64.
- UsbBridge.DamagedIsRefused: the size byte itself is not among the damaged ones.

Roles and devices:

- RoleManager.Manager.Lookup: names carry no NUL before their end; a packet with one in its role
  name would compare beyond the end of a stored name.
- Listing roles through a pipe, the change event, register queries and short names are not
  modelled. The service array behind a device, where the source goes from a service to its device
  by address, is a sequence that contains the service.
- RoleManager.Manager.Announce: an announcement of less than four bytes, for which the source
  reads beyond its services, is not modelled as such.

LED strips, configuration, registers:

- PowerLimit.State.LimitIntensity: the sums are unbounded; with at most 4096 pixels they do not
  reach the source's 32 bits.
- LED programs other than the rotate and range commands are not modelled.
- Dcfg.Validate: 128 KiB of memory can be read from the start of a configuration on.
- The typed getters of `source/jd_dcfg.c` and composed keys are not modelled; a previous entry is
  named by its table and index, where the source compares addresses.
- Registers.Service.Handle: descriptors are lists that reach their end mark, and the registers lie
  within the state.
