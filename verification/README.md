# Serval overlay, Rhizome and keyring: a verified model

Serval DNA builds a telephone and file network out of devices that meet each
other by chance.  This project models the parts of it in which two ends, or two
points in time, have to agree with each other, and proves that they do, or
exactly when they do.

- **Abbreviated addresses.**  Subscribers are known by 256-bit SIDs, kept in a
  tree by nibbles.  Packets carry the shortest prefix that is unambiguous for the
  sender, or codes for "the sender" and "the same as before".
- **Overlay packets.**  Frames are appended to a packet as long as they find
  room, and taken apart by the receive loop.
- **The event loop's alarms.**  Two linked lists of alarms and a table of watched
  descriptors.
- **Rhizome Direct.**  Two stores of bundles compare what they hold by sweeping
  one of them with a cursor and answering range by range from the other.
- **The keyring.**  An identity is packed into a page, rotated, authenticated and
  encrypted, and found again with the right pins.
- **Manifests.**  A bundle is described by variables that are printed, signed,
  sent, read and verified, the verification going through a cache.
- **The DNA helper.**  Requests are written to a helper process, one at a time,
  and the lines it answers with are matched to the request in hand.

Where the C code updates structures in place, the model has classes and methods
with loops, each proved against functions on values (`AlarmSpec`, `SyncCursor`,
`KeyringSpec`, `ManifestSpec`, `DnaSpec`, `PacketHearing`); what the
system promises is proved about those functions.  Each component ends with a
statement about both of its halves together: `OverlayPackets.Exchange`,
`AddressList.ListAll`, `FdQueue.AlarmQueue.Drive`, `SyncReply.Synchronise` with
`SyncReply.RepliesTellAll`, `Keyring.Reopen`, `Manifest.Travel`,
`DnaHelper.Helper.Drive`.

What comes from elsewhere is judged for all bytes, not only for those that the other
half has written: `WireFormat.AddressesAreTold` and `WireFormat.FramesAreTold` for
packets, `KeyringSpec.UnpackedIff` and `KeyringSpec.OpenedIff` for slots,
`ManifestErrors.ReadsWithoutErrorIff` and `ManifestSpec.VerifiesIff` for manifests,
`DnaSpec.ForwardedIff` for replies, `SyncMerge.SameBundleIff` and `SyncReply.TurnHints`
for BARs.

`dafny verify dfyconfig.toml` checks the project.

## Where the code does not do what it seems to promise

The model follows the code in each case.

- A frame that finds no room leaves the packet alone, but the address context has
  moved on.  A receiver that would otherwise understand everything gets all frames
  if and only if no next hop is then written as a repeat of an address that it has
  not seen (`PacketHearing.FollowedIffDelivered`, `PacketHearing.SafeIffFollows`,
  `PacketHearing.RejectedSourceMisleads`).
- The outcome of writing the length guess of a frame is ignored; payloads of more
  than 65428 octets go out malformed (`OverlayPackets.WrittenIsFrame`).
- A SID that begins with a byte below 0x10 looks like a code when it is sent whole
  (`AddressCodec.WholeIsHeardIff`); identities are not created with such SIDs.
- A frame whose addresses all repeat a broadcast address has no source, and the
  receive loop uses the source all the same (`FrameCodec.SourcelessIff`,
  `FrameCodec.SourcelessFrame`).  Frames that were written with a source can become
  such frames only if they go back to it (`PacketHearing.LostIff`,
  `PacketHearing.OutwardIsNotLost`, `PacketHearing.StrangerIsLost`).
- The list of elapsed alarms is ordered by alarm, not by deadline, so that a busy
  node can leave an entry waiting after its deadline
  (`AlarmSpec.PassedDeadlineWaits`, `AlarmSpec.BusyPollRunsIff`).
- A walk of the subscriber tree with equal bounds may visit a SID outside of them
  (`TreeWalk.PrefixWalkIsExactIff`, `TreeWalk.StrayIsVisited`).
- Rhizome Direct means to compare versions of a bundle that both sides have.  The
  compared bytes take in the version, so that two versions count as two bundles,
  one to be sent each way (`SyncMerge.VersionsAgree`, `SyncMerge.VersionsGoBothWays`).
- The comparison of two lists expects ids to ascend, and a turn that runs over several
  bins lists them bin by bin.  Its reply is exact if and only if the lists are aligned
  all the same, and overstated otherwise (`SyncReply.TurnIsExactIff`,
  `SyncReply.TwoBinsOverstate`).
- The byte that ends a received range is a shift.  A range that ends with 2^62
  overflows if and only if there is room left when it has been looked up
  (`SyncSweep.SizesFitIff`, `SyncSweep.LastShiftOverflowsIff`); none that a sweep
  sends does (`SyncReply.SyncTurn`).
- A bundle with the id of all ones, or a buffer without room for a BAR, keeps a
  synchronisation from ending (`SyncSweep.SweepStopsIff`).
- The range of a turn can hold more bundles than a response has room for; those
  behind the room are not offered in that turn (`SyncReply.FindsTheirsIff`,
  `SyncReply.EmptyMisses`).
- Of the 64 bytes of a name, 32 are packed into a keyring slot; the others come from
  whatever the page held before (`KeyringSpec.NamesReadBackIff`,
  `KeyringSpec.LongNameChanges`).
- A slot that decrypts to a page beginning with the end mark has no key pair, and the
  code makes the MAC of the first key pair all the same (`KeyringSpec.NoKeyPairIff`,
  `KeyringSpec.BlankSlots`); no identity that is written ends like that
  (`Keyring.Reopen`).
- A MAC that cannot be computed is not noticed when an identity is written, so that
  the identity is lost (`KeyringSpec.SlotReadsBack`, `Keyring.Reopen`).
- Manifest lines of more than 1023 bytes are read as several
  (`ManifestText.ReadsBackIffShort`).
- A DNA helper that is launched after another has died in the middle of a request is
  sent the rest of that request only (`DnaSpec.WholeIffCleanLaunches`,
  `DnaSpec.RestIsSentAlone`).

## Model

| member | source | states |
|---|---|---|
| TreeShape.DepthIsAbbreviation | overlay_address.c:65-122 | In every well-formed tree the depth of a record is the length of the shortest prefix, of at least one nibble, that no other known SID shares. |
| TreeShape.AbbreviationIsUnique | overlay_address.c:85 | That shortest prefix depends on the set of known SIDs only, not on the tree or on the order of arrival. |
| TreeShape.FreeMeansUnknown | overlay_address.c:77-93 | A free slot on the path of an abbreviation proves that no known SID starts with it. |
| TreeShape.HeldMeansAtMostOne | overlay_address.c:95-104 | A slot that holds a record leaves at most that record as the meaning of any abbreviation running through the slot. |
| TreeShape.NodeMeansSeveral | overlay_address.c:118-121 | An abbreviation that ends on an inner node is ambiguous. |
| TreeShape.PlaceKeepsStructure | overlay_address.c:77-93 | Putting a new record into a free slot keeps every record reachable by its own nibbles and keeps the recorded depths right. |
| TreeShape.SplitKeepsStructure | overlay_address.c:102-116 | Pushing a record one level down into a new node keeps the same, with the depth of the pushed record grown by one. |
| TreeStore.SubscriberTable.FindSubscriber | overlay_address.c:65-122 | A whole SID with create is found or added, once, and every other record keeps its SID; without create, or abbreviated, nothing changes and the answer is the one known SID with that prefix, or none when there is none or there are several. |
| TreeStore.SubscriberTable.Place | overlay_address.c:80-92 | The new record has the SID, its depth and the send-in-full mark, our own record is marked too, and the table stays valid. |
| TreeStore.SubscriberTable.PushDown | overlay_address.c:106-115 | The pushed record stays the only one under its new slot; the node before points at the new node; the table stays linked. |
| TreeStore.RecordAbbreviation | overlay_address.c:80-115 | In a valid table the stored abbreviate_len of every record is the length of its shortest prefix, of at least one nibble, that no other known SID shares. |
| TreeStore.CreateAll | overlay_address.c:65-122 | SIDs in any order, with repetitions, end up as one record each, none missing and none extra, each with the shortest abbreviation within the whole set. |
| TreeWalk.WalkTree | overlay_address.c:129-155 | A bounded walk with an early-stopping callback is the callback folded over one ascending list of SIDs determined by the tree and the bounds. |
| TreeWalk.EnumSubscribers | overlay_address.c:160-162 | Enumerating from a SID folds the callback over the walk from there, over all SIDs when there is no start. |
| TreeWalk.EnumFromKnown | overlay_address.c:129-162 | From a known SID exactly the known SIDs that are not below it are visited. |
| TreeWalk.BeforeIsOrder | overlay_address.c:56-61 | The order by nibbles in which the tree is walked is the order of SIDs as numbers. |
| TreeWalk.PrefixWalkFinds | overlay_address.c:129-155 | With equal bounds all SIDs with that prefix are visited, in ascending order, and nothing else is when there is any; when there is none, at most one SID is visited. |
| TreeWalk.StrayIsAlone | overlay_address.c:129-155 | A visited SID that lacks the prefix is the only one visited. |
| TreeWalk.VisitsMatchesAndStrays | overlay_address.c:129-155 | What is visited besides the matches: the SIDs whose slot lies on the way to the prefix, and no other. |
| TreeWalk.PrefixWalkIsExactIff | overlay_address.c:437-439 | The walk behind a "please explain" visits exactly the SIDs with the abbreviation if and only if no known SID has its slot on the way to it without sharing it. |
| TreeWalk.LoneStray | overlay_address.c:129-155 | In a table that knows one SID, every prefix that parts from it behind the first nibble visits it. |
| TreeWalk.StrayIsVisited | overlay_address.c:129-155 | Such an input: a SID that begins with 0x10, and the prefix 0x11 0x11 0x11. |
| AddressList.SearchFillsPage | overlay_mdp.c:928-953 | One enumeration through the search callback leaves exactly one page of the wanted SIDs and the count of all of them. |
| AddressList.ListingIsComplete | overlay_mdp.c:928-953 | The listing behind the pages holds, each once and ascending, the known SIDs that its mode asks for: those who can be reached directly, by unicast or through others, or our own, or everybody else, or everybody. |
| AddressList.List | overlay_mdp.c:955-983 | A reply holds up to 59 SIDs of the listing from the number asked for on, the total, and the number of the last SID modulo 2^32. |
| AddressList.ListAll | commandline.c:1371-1393 | Asking for page after page until one is short prints the whole listing: exactly the known SIDs of that mode, ascending, each once. |
| Rfs.DecodeEncoded | overlay_buffer.c:347-386 | Every length that can be written reads back, whatever follows, and the reader stops behind the field. |
| Rfs.FieldFindsBody | overlay_buffer.c:347-386 | A body written behind its own length is found again, whole. |
| WireFormat.LengthOctets | overlay_buffer.c:373-386 | For all octets, what length a field stands for and where it ends. |
| WireFormat.LengthIsShortest | overlay_buffer.c:347-371 | Lengths below 250 take one octet, below 1529 two, others three; no length could be written shorter, except for 1529. |
| OverlayBuffers.OverlayBuffer.LimitSize | overlay_buffer.c:118-127 | A limit is taken exactly when position, checkpoint and a borrowed allocation are within it; a refused one changes nothing. |
| OverlayBuffers.OverlayBuffer.MakeSpace | overlay_buffer.c:136-198 | Succeeds exactly when the octets fit the limit and the allocation is larger or can grow; it grows exactly when it is not larger, and keeps everything written. |
| OverlayBuffers.RoundsUp | overlay_buffer.c:154-162 | Allocations are the next multiple of 64, 1024 or 65536 octets, depending on what is needed. |
| OverlayBuffers.OverlayBuffer.AppendBytes | overlay_buffer.c:206-230 | All octets are appended, or none and nothing moves. |
| OverlayBuffers.OverlayBuffer.AppendUi16 | overlay_buffer.c:232-239 | Two octets, high one first, or nothing. |
| WireFormat.TwoOctets | overlay_buffer.c:232-239 | They spell the number. |
| OverlayBuffers.OverlayBuffer.AppendUi32 | overlay_buffer.c:241-250 | Four octets, high one first, or nothing. |
| WireFormat.FourOctets | overlay_buffer.c:242-251 | They spell the number. |
| OverlayBuffers.OverlayBuffer.AppendRfs | overlay_buffer.c:252-272 | Appends the length field exactly when the length can be written and fits, and remembers where it is. |
| OverlayBuffers.OverlayBuffer.IndelSpace | overlay_buffer.c:389-396 | Everything from the offset on moves, unchanged, and what is before it stays. |
| OverlayBuffers.OverlayBuffer.PatchRfs | overlay_buffer.c:399-437 | The length field is replaced by one of any other width with everything before and behind it intact, exactly when the length can be written, there is a body to move and room for it; otherwise the contents stay as they were. |
| AddressCodec.PrefixIsLongEnough | overlay_address.c:354-365 | The abbreviation a writer picks means one SID only to everybody who knows nobody but those whom the writer knows. |
| AddressCodec.PrefixResolvesOrNot | overlay_address.c:412-451 | A reader that knows the SID never takes its abbreviation for another SID. |
| AddressCodec.AddressRoundTrip | overlay_address.c:342-369 | A reader that agrees on the context, and knows the SID if it is abbreviated, takes an address for what it is or flags it; a reader that knows nobody else never flags it.  A SID sent whole needs no acquaintance. |
| AddressCodec.AddressIsHeard | overlay_address.c:454-529 | What the octets of an address mean to a reader in any state of knowledge and of context, and that they are all consumed. |
| AddressCodec.WholeIsHeardIff | overlay_address.c:454-529 | A SID that is sent whole is heard as itself if and only if its first byte is above 0x0f, whatever the reader knows. |
| AddressCodec.StrangerIsFlagged | overlay_address.c:412-451 | A reader that knows nobody else flags every abbreviation of a SID that it does not know. |
| AddressCodec.HearingLearns | overlay_address.c:412-451 | Whatever it is taken for, a SID becomes known exactly if it is sent whole, and the address before is the one that was heard. |
| AddressCodec.BroadcastIsHeard | overlay_address.c:461-473 | A broadcast address reads back with its id, in every context. |
| AddressCodec.RepeatMisleads | overlay_address.c:489-509 | Where the contexts differ in the address before, a repeat code is read as that other address, or flagged. |
| AddressCodec.RunRoundTrip | overlay_address.c:333-529 | Any run of addresses reads back in order up to the first one flagged, SIDs learnt on the way counting as known; a reader that knows nobody else flags nothing. |
| WireFormat.AddressOctets | overlay_address.c:342-369 | The octets of an address: 0x00 for the sender, 0x03 for a repeat, the whole SID, or 0x05, 0x06, 0x07 with the shortest of 3, 7 and 11 bytes that has a byte to spare. |
| WireFormat.AddressesAreTold | overlay_address.c:412-529 | For all octets and all readers: which are no address, which cannot be resolved, whom the others stand for, where the next address begins, and what the reader keeps. |
| OverlayAddress.PointerIsSid | overlay_address.c:344-347 | Comparing record pointers decides equality of SIDs. |
| OverlayAddress.AddressContext.Clear | overlay_address.c:606-610 | Both ends begin a packet with the same, empty context. |
| OverlayAddress.AddressContext.AppendAddress | overlay_address.c:342-369 | The context moves on as the format prescribes even when nothing could be appended; without room for all, the code octet of an abbreviation is left alone in the buffer if it fits, and nothing otherwise. |
| OverlayAddress.AddressContext.AppendBroadcast | overlay_address.c:333-339 | All nine octets, or a failure that leaves the context alone and at most the code octet in the buffer. |
| OverlayAddress.AddressContext.AppendSelf | overlay_address.c:371-390 | Our own SID goes out whole once in so many ticks, otherwise as any other address; it is refused exactly when there is none, and then nothing changes; without room nothing is left behind, or the code of an abbreviation. |
| OverlayAddress.AddressContext.FindInBuffer | overlay_address.c:412-451 | The reader's half for one whole or abbreviated SID, with whole ones becoming known. |
| OverlayAddress.AddressContext.ParseAddress | overlay_address.c:454-529 | The pointer-level reader finds what the wire format means, for every packet, position and context, and no record changes its SID. |
| FrameCodec.HeaderRoundTrip | overlay_packetformats.c:207-238 | Type, modifiers, time to live and length read back, and addresses and payload lie where the length says. |
| WireFormat.FrameOctets | overlay_payload.c:56-147 | The octets of a frame, in order: type and modifiers, time to live, length of the rest, next hop, destination, source and payload. |
| WireFormat.HeaderOctets | overlay_packetformats.c:204-238 | For all octets, the type, modifiers, time to live and length of a frame, with one and two octets more for types 0xe0 and 0xf0. |
| WireFormat.FramesAreTold | overlay_packetformats.c:204-339 | For all octets, a frame is handed on if and only if it has a length, three addresses that can be resolved, a source and no end beyond the packet, and is not our own announcement; which frames are skipped; and what is handed on. |
| FrameCodec.SourcelessIff | overlay_packetformats.c:253-297 | A round of the receive loop comes to a frame without a source if and only if its length is not 0 and its addresses are a broadcast address, or a repeat of one, and then two repeats, for every octet sequence and every receiver. |
| FrameCodec.SourcelessFrame | overlay_packetformats.c:253-297 | For every receiver, and anywhere in a packet, a frame from a broadcast address to a broadcast address is one. |
| FrameCodec.AllFitIsSafe | overlay_payload.c:56-147 | While every frame finds room, writer and reader contexts stay in step. |
| PacketHearing.AddressesAreHeard | overlay_packetformats.c:249-261 | What the three addresses of a frame mean to a receiver in any state, and that they never break off a packet. |
| PacketHearing.FrameIsHeard | overlay_packetformats.c:204-339 | What the octets of a frame mean to a receiver in any state, and that the next frame begins where they end. |
| PacketHearing.FrameRoundTrip | overlay_packetformats.c:204-339 | A receiver that agrees on the next hop and knows those who are abbreviated hands the frame on as it was put in, or skips it; a skipped frame whose source was understood leaves both contexts in step; a receiver that knows nobody else hands it on if and only if both conditions hold. |
| PacketHearing.FramesAreHeard | overlay_packetformats.c:204-339 | The receive loop makes of the octets of any run of frames, some of which found no room, exactly what is predicted frame by frame, whatever the receiver knows, and comes to a frame without a source exactly when that is predicted. |
| PacketHearing.TrackedArrives | overlay_packetformats.c:204-339 | As long as nothing is repeated that the receiver has missed, every frame that found room arrives as it was put in or is skipped, to the end of the packet, none is taken for another and none is without a source. |
| PacketHearing.LostIff | overlay_packetformats.c:253-297 | A frame that was written with a source is heard without one if and only if its source is its destination, its next hop and the address written before it, and the receiver has heard a broadcast address last. |
| PacketHearing.OutwardIsNotLost | overlay_packetformats.c:204-339 | No receiver whatever comes to a frame without a source in a run of frames none of which has its own source as its next hop. |
| PacketHearing.StrangerIsLost | overlay_packetformats.c:204-339 | A broadcast frame of a subscriber unknown to the receiver, and a frame of the same subscriber to itself by way of itself, end in one. |
| PacketHearing.FollowedIffDelivered | overlay_payload.c:56-147 | A receiver that knows nobody else gets every frame that found room, in order, if and only if it knows those who are abbreviated, be it from the packet itself, and no next hop repeats an address that went with a frame without room. |
| PacketHearing.SafeIffFollows | overlay_payload.c:56-147 | Among equal tables only the last condition remains. |
| PacketHearing.RejectedSourceMisleads | overlay_payload.c:56-147 | The two frames by which it fails: one without room, and one whose next hop is the source of the first; no receiver gets the second as it was put in. |
| PacketHearing.PacketIsHeard | overlay_packetformats.c:111-345 | The same prediction for a packet opened by a self-announcement, which makes its source the sender if it is understood. |
| PacketHearing.TrackedPacketArrives | overlay_packetformats.c:111-345 | Every frame of such a packet arrives or is skipped, even behind an announcement that was skipped, and none is without a source. |
| PacketHearing.PacketRoundTrip | overlay_packetformats.c:111-345 | A receiver that knows nobody else gets the whole packet if and only if it knows those who are abbreviated and nothing missed is repeated. |
| PacketHearing.PacketAmongEquals | overlay_packetformats.c:111-345 | Among equal tables, if and only if nothing missed is repeated. |
| OverlayPackets.WrittenIsFrame | overlay_payload.c:56-147 | What is written has the wire format's form if and only if the payload is at most 65428 octets long, since the length guess that goes before it is not checked. |
| OverlayPackets.AppendPayload | overlay_payload.c:24-147 | A frame is appended whole or not at all; the address context moves on in both cases. |
| OverlayPackets.FillPacket | overlay_payload.c:56-147 | Frames offered in turn give the octets of the ones that fit, in order, under one running context. |
| OverlayPackets.AddSelfAnnouncement | overlay_packetformats.c:347-431 | The announcement has the form of every other frame, with times, interface number and final length in place, and makes our SID the sender. |
| WireFormat.AnnouncementOctets | overlay_packetformats.c:347-431 | The octets of an announcement, in order: type 0x10, one hop, length, broadcast address, repeat code, our SID and the payload. |
| WireFormat.PresenceOctets | overlay_interface.c:1008-1024 | The octets of the announcement between ticks: type 0x10, one hop, length, our SID and two repeat codes. |
| WireFormat.AnnouncedTimes | overlay_packetformats.c:405-425 | Its payload spells the two times, most significant octet first, and the interface. |
| OverlayPackets.AddPresence | overlay_interface.c:1008-1024 | The dummy announcement between ticks is a frame of the same format, from us to us by way of us and without a body, and makes our SID the sender. |
| OverlayPackets.TakeFrame | overlay_packetformats.c:204-339 | The pointer-level round of the receive loop has the outcome of the wire format's reader, for every octet sequence, and comes to a frame without a source exactly when its addresses are a broadcast address, or a repeat of one, and two repeats. |
| OverlayPackets.TakePacket | overlay_packetformats.c:111-345 | The whole receive loop hands on, for every octet sequence, exactly the frames of the wire format's reader up to the end or to the first frame without a source, says which, and ends. |
| OverlayPackets.BuildPacket | overlay_interface.c:993-1025 | Clearing the context, announcing, on a tick or between ticks, and offering frames yields the packet of the wire format. |
| OverlayPackets.Exchange | overlay_packetformats.c:111-345 | End to end through both pointer-level halves: what arrives is exactly what is predicted, also of a frame without a source; every frame that found room arrives unchanged or is skipped as long as nothing missed is repeated; and to a receiver that knows nobody whom the sender does not know, all arrive if and only if it knows those who are abbreviated and nothing missed is repeated. |
| AlarmSpec.ScheduleKeeps | fdqueue.c:72-102 | Scheduling keeps both lists in order and apart and adds exactly that entry, its deadline not before its alarm. |
| AlarmSpec.UnscheduleKeeps | fdqueue.c:106-123 | Unscheduling takes off exactly that entry, and does nothing to the lists the second time. |
| AlarmSpec.MoveElapsedKeeps | fdqueue.c:189-194 | Moving elapsed alarms loses and duplicates none and leaves only later ones behind. |
| AlarmSpec.PollRunsEarliest | fdqueue.c:183-235 | A poll runs at most one alarm, never before its time, always an earliest one of both lists, and keeps all others. |
| AlarmSpec.BusyPollRunsIff | fdqueue.c:229-235 | While descriptors are ready, a poll runs an alarm if and only if alarm and deadline of the first entry in order have passed; no other entry has a say. |
| AlarmSpec.PassedDeadlineWaits | fdqueue.c:45-66 | Entries are kept in order of alarm, not of deadline, so that one whose deadline has passed is held up by an earlier one that can wait. |
| AlarmSpec.PassedDeadlineRuns | fdqueue.c:45-66 | Where later alarms have later deadlines, a passed deadline is never held up, however busy the descriptors are. |
| AlarmSpec.NeverOversleeps | fdqueue.c:196-206 | The timeout of poll is 0 when something is due, never reaches past an alarm, even where the difference exceeds an int, and is a minute when nothing is pending. |
| AlarmSpec.SleepsUntilNext | fdqueue.c:196-206 | When nothing is due, poll sleeps exactly until the next alarm if that is less than 2^31 ms away, and otherwise for the difference modulo 2^32, or not at all where that is negative as an int. |
| AlarmSpec.RunAccounts | fdqueue.c:45-235 | Over every run of schedule, unschedule and poll, what was scheduled is what is pending, what was run and what was taken back, each once, and each was due when the poll began that ran it. |
| AlarmSpec.IdlePollRuns | fdqueue.c:183-235 | A poll without ready descriptors runs one of the entries that were due. |
| AlarmSpec.IdlePollsRunAll | fdqueue.c:183-235 | As many such polls as entries are due run all of them, whatever else is pending: none waits behind later ones for ever. |
| FdQueue.AlarmQueue.Deadline | fdqueue.c:45-66 | The doubly linked deadline list becomes the ordered insertion into the list it was, behind equal alarms. |
| FdQueue.AlarmQueue.Schedule | fdqueue.c:72-102 | Same for schedule: refused without a function, straight to the deadlines when the time has passed. |
| FdQueue.AlarmQueue.Unschedule | fdqueue.c:106-123 | Takes the entry out of whichever list holds it by its own links alone, and leaves it unlinked. |
| FdQueue.AlarmQueue.MoveElapsed | fdqueue.c:189-194 | The pointer loop moves the same entries as the specification and keeps the set of nodes. |
| FdQueue.AlarmQueue.NextTimeout | fdqueue.c:196-206 | The timeout computed from the heads is the specified one, which `AlarmSpec.SleepsUntilNext` and `AlarmSpec.NeverOversleeps` say exactly. |
| FdQueue.AlarmQueue.Poll | fdqueue.c:183-235 | The alarm half of fd_poll on linked nodes refines the specification, and the entry to call is unlinked before it is called. |
| FdQueue.AlarmQueue.Drive | fdqueue.c:45-235 | Any run of schedule, unschedule and poll on the linked lists keeps their structure, calls exactly what its history says, and leaves every scheduled entry pending, run or taken back, exactly once. |
| FdQueue.SwapRemoveLosesOne | fdqueue.c:154-160 | Filling the gap with the last slot loses that one slot only. |
| FdQueue.SwapRemoveEntries | fdqueue.c:154-160 | The other watched entries all stay watched. |
| FdQueue.WatchTable.Watch | fdqueue.c:126-146 | An entry is added once, or its slot updated in place, unless it has no function or the table is full; slots and poll indices stay each other's inverse. |
| FdQueue.WatchTable.Unwatch | fdqueue.c:149-167 | The slot is filled with the last one whose index is corrected, so that one slot is lost and no other; an entry not watched, or watched under another descriptor, is refused without a change. |
| BigEndian.CompareIsOrder | rhizome_direct.c:319-324 | Byte-wise comparison of equally long strings is the order of the numbers they spell. |
| BigEndian.SuccAddsOne | rhizome_direct.c:726-734 | The next id is the number plus one, or zero behind the highest. |
| BigEndian.Increment | rhizome_direct.c:726-734 | The carry loop computes the next id and reports wrapping around. |
| SyncCursor.ListedAscends | rhizome_direct.c:767-854 | Rows listed in the order of their BARs are in the order of their ids, as long as no two share the id prefix of a BAR. |
| SyncCursor.SelectResumes | rhizome_direct.c:767-854 | A query that starts behind the k-th match returns the matches behind it, none twice and none skipped. |
| SyncCursor.FillTakesHead | rhizome_direct.c:661-742 | A fill of any size takes the first rows that lay ahead of the cursor, and exactly the others lie ahead of it afterwards. |
| SyncCursor.FillIsHead | rhizome_direct.c:661-742 | Whatever the ids, a fill takes the first rows ahead of it, as many as it has room for, or up to an id of all ones. |
| SyncSweep.RestIsAhead | rhizome_direct.c:661-742 | What lies ahead of a cursor are the rows of larger size bins, and of its own bin from its id on, up to its limit. |
| SyncSweep.RestInOrder | rhizome_direct.c:661-742 | They come in order of bin and id, hence none twice. |
| SyncSweep.FillProgress | rhizome_direct.c:661-742 | Every fill with room takes a row or reaches the end. |
| SyncSweep.StoppedIsDone | rhizome_direct.c:175-223 | The test by which a sync stops holds only when nothing is left. |
| SyncSweep.SweepIsComplete | rhizome_direct.c:175-223 | Fills repeated until the cursor stops take every bundle of at most 2^48 bytes once and no other, for every database and buffer size. |
| SyncSweep.UnpickledBounds | rhizome_direct.c:594-659 | Unpickling a pickled range restores the bins and widens the ids, which are cut to four bytes, outwards only. |
| SyncSweep.UnpickledTight | rhizome_direct.c:594-659 | They are widened by less than the 28 bytes that are cut off can count. |
| SyncSweep.RangeContainsFill | rhizome_direct.c:594-659 | The range sent with a fill contains all of what was ahead before it and is not still ahead after it. |
| SyncSweep.RangesLeaveNoGap | rhizome_direct.c:175-223 | Over a whole sweep every possible size and id falls into the range of some turn. |
| SyncSweep.NoRoomNoProgress | rhizome_direct.c:661-742 | Without room for one BAR the cursor stays where it is. |
| SyncSweep.FillWaits | rhizome_direct.c:725-735 | No fill gets the cursor past a bundle with the id of all ones: taking it wraps around to the start of the bin. |
| SyncSweep.SweepStopsIff | rhizome_direct.c:175-223 | Repeated fills end if and only if there is room for a BAR and no bundle of at most 2^48 bytes has the id of all ones. |
| SyncSweep.LogsFit | rhizome_direct.c:594-632 | The bin logarithms that are pickled into single bytes fit. |
| SyncSweep.SizesFitIff | rhizome_direct.c:634-724 | For a received range that begins and ends with at most 2^62, the sizes of a fill stay within long long unless the range ends with 2^62 and the fill gets to its end. |
| SyncSweep.FillFinishesIff | rhizome_direct.c:688-736 | A fill gets to the end of its range if and only if there is room left. |
| SyncSweep.LastShiftOverflowsIff | rhizome_direct.c:634-724 | A range that ends with 2^62 makes the size overflow if and only if fewer bundles are left in it than there is room for. |
| SyncMerge.SameBundleIff | rhizome_direct.c:307-396 | Between two BARs there is nothing to do if and only if their first 31 bytes agree, whatever the hop count behind them; otherwise one is asked for and the other offered. |
| SyncMerge.VersionsAgree | rhizome_direct.c:356-388 | BARs that compare equal have equal versions, so that the comparison of versions never adds a hint. |
| SyncMerge.VersionsGoBothWays | rhizome_direct.c:356-388 | Two versions of a bundle are asked for and offered both, whichever is newer. |
| MergeOrder.MeetsIffAligned | rhizome_direct.c:307-396 | For lists of distinct numbers in any order, the walk takes everything that is in both lists together if and only if what both have comes in the same order, and what one has alone is below the next of those. |
| MergeOrder.AscendingAligns | rhizome_direct.c:307-396 | Which ascending lists always are. |
| SyncMerge.NothingOmitted | rhizome_direct.c:307-396 | Whatever the order of the two lists, no BAR whose first 31 bytes the other side does not have is left out. |
| SyncMerge.HintsAreReal | rhizome_direct.c:307-396 | Only BARs of their list are offered as theirs, and of our list as ours. |
| SyncMerge.RecordsInOrder | rhizome_direct.c:332-391 | The reply holds a record of 16 bytes for each hint, in order: 0x01 to ask or 0x02 to offer, and the first 15 bytes of the BAR. |
| SyncMerge.MergeIsDifference | rhizome_direct.c:307-396 | For ascending lists the hints are exactly the symmetric difference, in order, in the right direction. |
| SyncMerge.MergeIsExactIff | rhizome_direct.c:307-396 | For lists in any order that hold no BAR twice, the hints are exactly the symmetric difference if and only if the lists are aligned in that sense. |
| SyncMerge.DisorderedIsOverstated | rhizome_direct.c:307-396 | Out of order, a BAR that both sides hold is asked for and offered as well. |
| RhizomeDirect.GetBars | rhizome_direct.c:767-854 | Returns the first matches of the size and id range, as many as asked for or all. |
| RhizomeDirect.PickleRange | rhizome_direct.c:594-632 | Byte by byte: the logarithm of the first bin, four bytes of the first id, the logarithm of the last bin, four bytes of the last id. |
| RhizomeDirect.BundleCursor.constructor | rhizome_direct.c:568-583 | A new cursor covers the ids from all zeroes to all ones and the sizes from 0 to 2^48, with 1024 as its first bin. |
| RhizomeDirect.BundleCursor.FillLoop | rhizome_direct.c:680-736 | The loop that refills the buffer in place takes the specified rows and writes their BARs one behind the other; sizes only grow, and stay within long long for cursors at up to 2^62 with a limit of up to 2^61. |
| RhizomeDirect.BundleCursor.FillBuffer | rhizome_direct.c:661-742 | The buffer holds the pickled range of the fill and behind it the BARs; the start of the range is the cursor before the fill. |
| RhizomeDirect.BundleCursor.UnpickleRange | rhizome_direct.c:634-659 | The cursor covers the range that the ten bytes spell, ids filled up with zeroes and ones, a bin of up to 1024 beginning at 0; any other number of bytes is refused without a change. |
| SyncReply.MergeTurn | rhizome_direct.c:313-396 | One turn of the loop adds the record of the next hint and leaves the rest of the merge to do. |
| SyncReply.Compared | rhizome_direct.c:307-396 | The loop over both buffers writes the records of the whole merge. |
| SyncReply.FillResponse | rhizome_direct.c:267-399 | The reply holds the hints against the first of our bundles in the range received, as many as the response allows; it is refused exactly for requests outside 10 to 65536 bytes or responses outside 10 to 1048576, and fits the buffer when the two lists together are at most twice that many. A range with a start of up to 2^62 and an end of up to 2^61 makes no size overflow. |
| SyncReply.HttpReplyFits | rhizome_direct_http.c:116-120 | For the HTTP server that is 4095 bundles, and the reply always fits. |
| SyncReply.LooksUpHead | rhizome_direct.c:281-305 | The responder compares the first rows of the range, as many as it has room for. |
| SyncReply.TheirsCovered | rhizome_direct.c:175-223 | Every row of the far end within the size limit is in the range of some turn of the sweep. |
| SyncReply.OffersLookedUp | rhizome_direct.c:267-399 | A turn offers a bundle that we lack if and only if it is among those that the responder has looked up. |
| SyncReply.TurnIsExactIff | rhizome_direct.c:267-399 | The verdict on a turn is exactly the difference of the two lists if and only if they are aligned, which lists over several bins need not be. |
| SyncReply.TurnHints | rhizome_direct.c:267-399 | In an aligned turn a row that is sent is asked for, and a row that is looked up is offered, if and only if no row of the other list agrees in the first 31 bytes of its BAR. |
| SyncReply.HeldIsOfferedIff | rhizome_direct.c:267-399 | A bundle that we hold as well is offered to us in every turn that looks it up without passing it, and in an aligned turn only then. |
| SyncReply.HeldAreOfferedIff | rhizome_direct.c:175-223 | Over a whole sweep of aligned turns a bundle that we hold as well is offered if and only if some turn looks it up without passing it. |
| SyncReply.TwoBinsOverstate | rhizome_direct.c:688-736 | A turn over two bins, the second of which has the smaller ids: what both sides hold is asked for and offered all the same. |
| SyncReply.FindsTheirsIff | rhizome_direct.c:175-223 | Over a whole sweep, a bundle that we lack is offered if and only if it is among the first rows of the range of some turn, as many as the responder has room for. |
| SyncReply.SyncFindsAll | rhizome_direct.c:175-223 | Sweeping one database and answering from the other finds every bundle of at most 2^48 bytes that the responder lacks, and every one that we lack if no range holds more than the responder has room for. |
| SyncReply.EmptySweep | rhizome_direct.c:175-223 | An empty database is swept in a single turn. |
| SyncReply.EmptyMisses | rhizome_direct.c:281-305 | So a node that has nothing misses some bundle of every far end that has more than fit its response. |
| SyncReply.SyncTurn | rhizome_direct.c:175-223 | One turn through the buffers: fill, pickle, unpickle, look up and compare give the verdict on that turn, and no size overflows on either side. |
| SyncReply.Synchronise | rhizome_direct.c:175-223 | A whole synchronisation, buffer by buffer, ends, and its replies spell the verdicts on the turns of the sweep, in order. |
| SyncReply.RepliesTellAll | rhizome_direct.c:175-223 | Hence the bytes of those replies record every difference that is found. |
| KeyringSpec.MungeUndoes | keyring.c:304-363 | Encrypting a slot twice with the same pins gives it back. |
| KeyringSpec.XorIsBitwise | keyring.c:348-352 | Every bit of the result is set exactly where the two bits differ. |
| KeyringSpec.MungedBytes | keyring.c:304-363 | Salt and MAC stay, and byte i of the rest is under byte i - 96 of the key stream, whose key is the hash of salt, pin, salt and keyring pin and whose nonce that of keyring pin, keyring salt, keyring pin and pin. |
| KeyringSpec.MungeSucceeds | keyring.c:304-363 | Encryption succeeds if and only if salts and pins fit the two work buffers. |
| KeyringSpec.EncodeSucceeds | keyring.c:391-464 | Key pairs can be packed if and only if their kinds are known and they fit the page. |
| KeyringSpec.RotatedAt | keyring.c:365 | Rotation puts every byte of the body at its place plus the rotation, around the end. |
| KeyringSpec.PackedHolds | keyring.c:366-498 | A packed page holds the salt, the hash of salt, first key pair and pin as MAC if they fit (or what was there), the rotation, and along the rotated body the packed key pairs and then the filler. |
| KeyringSpec.ParseEncoded | keyring.c:500-622 | Unpacking at any rotation gives back the key pairs that were packed, in order, up to the end mark. |
| KeyringSpec.UnpackedIff | keyring.c:500-622 | For every page: it unpacks to given key pairs if and only if these are up to 64 and its body, read from its rotation on, spells them one behind the other up to the end mark or the end of the page. |
| KeyringSpec.SlotRoundTrip | keyring.c:647-718 | A written slot decrypted with the same pins gives back the packed key pairs if and only if there was a MAC and the key pair it is made of came back. |
| KeyringSpec.SlotReadsBack | keyring.c:624-638 | With a key pair other than a name in front that is the case exactly when salt, key and pin fit the MAC's work buffer. |
| KeyringSpec.OpenedIff | keyring.c:647-718 | For every slot: it opens to given key pairs if and only if it decrypts to a page that unpacks to them and the hash of its salt, the first of them and the pin, within the work buffer, is its bytes 32 to 95. |
| KeyringSpec.TamperedIsRefused | keyring.c:680-691 | A slot that opened is refused with any change to the 64 bytes of its MAC. |
| KeyringSpec.NoKeyPairIff | keyring.c:500-638 | A slot is decrypted to a record without any key pair, of which there is no MAC, if and only if the body of the decrypted page, read from where its rotation says, begins with the end mark. |
| KeyringSpec.BlankSlots | keyring.c:624-638 | For all pins within the limits there are such slots, one for each page that begins with the end mark. |
| KeyringSpec.NamesReadBack | keyring.c:397-418 | All keys, and names of up to 31 characters, come back as they were. |
| KeyringSpec.LongNameChanges | keyring.c:397-418 | Every longer name comes back changed on some page. |
| KeyringSpec.NameKeptIff | keyring.c:397-418 | On a given page a name comes back if and only if it has at most 31 characters or the page happened to hold the rest of it. |
| KeyringSpec.NamesReadBackIff | keyring.c:397-418 | All key pairs of an identity come back as their user sees them if and only if that holds of each name. |
| Keyring.IdentityMac | keyring.c:624-638 | The MAC is the hash of salt, first key pair and pin, and there is none if they do not fit. |
| Keyring.MungeBlock | keyring.c:304-363 | The block is encrypted in place, and left alone on failure. |
| Keyring.PackIdentity | keyring.c:366-498 | The page written step by step is the specified one, byte for byte, and packing fails exactly when the specification does. |
| Keyring.UnpackIdentity | keyring.c:500-622 | Reading along the rotated body gives the specified key pairs or a failure, for every page. |
| Keyring.CommitIdentity | keyring.c:951-985 | Packing and encrypting one identity into its page. |
| Keyring.DecryptPkr | keyring.c:647-718 | For every page and all pins: it is opened to the key pairs it unpacks to if and only if there are any and the hash of salt, first key pair and pin is the MAC in the slot; a page without a key pair is told apart exactly. |
| Keyring.Reopen | keyring.c:925-989 | End to end through both halves: an identity written and read with the same pins comes back, in order, if and only if its kinds, its size and the pins are within limits known beforehand; with a name in front, if and only if what comes back of the name has the same MAC. It never comes back without a key pair. |
| SignatureCache.Cache.Lookup | rhizome_crypto.c:244-294 | Whatever was looked up before, the verdict is that of a direct verification, and tells when it came from the cache. |
| SignatureCache.LookupAll | rhizome_crypto.c:244-294 | Any run of lookups gives the verdicts of direct verification. |
| ManifestText.TextReadsBack | rhizome_bundle.c:86-293 | Sound variables, printed, read back in order and without an error, hexadecimal values in upper case, whatever follows the end mark. |
| ManifestText.ReadLinesShort | rhizome_bundle.c:120-131 | Whatever is read, no variable makes a line of more than 1023 bytes. |
| ManifestText.ReadsBackIffShort | rhizome_bundle.c:120-131 | Variables that are otherwise sound read back if and only if none makes a line of more than 1023 bytes. |
| ManifestText.PackIff | rhizome_bundle.c:545-566 | The text can be put together if and only if it has, with its end mark, at most 8192 bytes. |
| ManifestErrors.FirstLine | rhizome_bundle.c:120-135 | How all bytes are cut into lines: at a line feed, a carriage return or both, and after 1023 bytes, up to a zero byte. |
| ManifestErrors.TextEnds | rhizome_bundle.c:253-260 | The text ends behind the first zero byte, or with the last byte. |
| ManifestErrors.KeptAs | rhizome_bundle.c:154-240 | Ids, hashes, keys and persons are kept in upper case if they are good, and all other values as they are. |
| ManifestText.CaseOnly | rhizome_bundle.c:154-240 | Names agree if and only if they differ in the case of letters only, and values in upper case differ from what was read in nothing else. |
| ManifestErrors.NumberIff | rhizome_bundle.c:190-230 | Which values are taken for numbers: white space, a sign and digits, and a minus sign only before zero. |
| ManifestErrors.ReadsWithoutErrorIff | rhizome_bundle.c:86-293 | For all bytes: a manifest is read without an error if and only if every line is blank, a comment or an assignment, no name comes twice, there are up to 256, every known field has a good value, the five required fields are there, and a hash exactly if there is a file; and then it is read as those assignments. |
| ManifestSpec.HexReadsBack | dataformats.c:69-107 | Hexadecimal text reads back to the bytes. |
| ManifestSpec.FromHexIff | dataformats.c:69-107 | A text is read as given bytes if and only if it is their hexadecimal form, in upper or lower case. |
| ManifestSpec.NumberOfDecimal | rhizome_bundle.c:351-364 | Decimal text reads back to the number, and numbers beyond 63 bits to the largest. |
| ManifestSpec.SetIff | rhizome_bundle.c:400-419 | A variable is set if and only if there is one of that name or there are fewer than 256, and otherwise nothing changes. |
| ManifestSpec.FinalMembers | rhizome_bundle.c:631-684 | Finalising adds size, hash (exactly for a non-empty file) and version, and keeps all other variables. |
| ManifestSpec.FinalisedIsSound | rhizome_bundle.c:631-684 | Finalised variables can be printed and read without an error and give the file's size. |
| ManifestSpec.SignedFits | rhizome_bundle.c:571-590 | A manifest can be signed if and only if text, end mark and signature block fit. |
| ManifestSpec.OwnBlock | rhizome_crypto.c:296-369 | The block written by signing is accepted and names its public key. |
| ManifestSpec.VerifiesIff | rhizome_bundle.c:25-84 | For all bytes: a manifest is self-signed if and only if the block behind its text is of 97 bytes and opens with the hash of the text and the key that its id names; and it verifies if and only if in addition all other blocks open, there are no more than 256, and reading found no error. |
| ManifestSpec.SignedVerifies | rhizome_bundle.c:25-84 | A signed manifest verifies as signed by its own id. |
| ManifestSpec.ManifestRoundTrip | rhizome_bundle.c:86-293 | Prepared, finalised and signed, a manifest reads back to the same variables and verifies. |
| Manifest.Manifest.Get | rhizome_bundle.c:332-349 | The value of the first variable of that name, or none. |
| Manifest.Manifest.SetVariable | rhizome_bundle.c:400-419 | Replaces in place or appends; refused exactly when there is no room for another variable. |
| Manifest.Manifest.DelVariable | rhizome_bundle.c:380-398 | Closes the gap and keeps the order of the others. |
| Manifest.Manifest.PackVariables | rhizome_bundle.c:545-566 | The text of all variables and its end mark, or a failure when they do not fit. |
| Manifest.Manifest.SelfSign | rhizome_bundle.c:571-590 | Appends the signature block behind the end mark, or leaves the manifest as it was. |
| Manifest.Manifest.Finalise | rhizome_bundle.c:631-684 | The variables are the finalised ones, and the bytes the signed ones exactly when they fit. |
| Manifest.Manifest.ReadManifest | rhizome_bundle.c:86-293 | The line loop reads every byte sequence that is short enough as specified, errors counted. |
| Manifest.Manifest.ExtractSignature | rhizome_crypto.c:296-369 | A block is taken if and only if it is of 97 bytes and opens with the hash, and then its key is added; otherwise an error is counted. |
| Manifest.Manifest.ReadSignatures | rhizome_bundle.c:38-43 | All blocks up to the first bad one are judged, with the cache in any state. |
| Manifest.Manifest.VerifyManifest | rhizome_bundle.c:25-84 | For all bytes and every state of the cache: self-signed if and only if the first block opens and names the id, and successful if and only if in addition every block opens and nothing else was wrong. |
| Manifest.Travel | rhizome_bundle.c:25-293 | End to end through both halves: a prepared manifest can be sent if and only if its text leaves room for the block, and then arrives with the same variables, no error, as signed by its id. |
| ReplyFramer.LinesMakeStream | dna_helper.c:452-491 | Lines and unfinished rest put together are the stream. |
| ReplyFramer.LinesAreLines | dna_helper.c:383-391 | Each line has one newline, at its end. |
| ReplyFramer.Framer.Receive | dna_helper.c:452-491 | After every read, what has been handed on are exactly the complete lines of the stream so far that fit the buffer. |
| ReplyFramer.Framer.Empty | dna_helper.c:255-256 | For a new helper the buffer is empty and nothing is being thrown away, whatever was left of the old one's output. |
| ReplyFramer.FrameAll | dna_helper.c:452-491 | However the stream is cut into reads, exactly its complete lines that fit are handed on. |
| DnaSpec.ReplyParses | dna_helper.c:49-78 | Every reply whose fields fit parses to itself. |
| DnaSpec.ParsedIsReply | dna_helper.c:49-78 | Whatever parses is such a reply. |
| DnaSpec.StepKeepsSound | dna_helper.c:148-622 | Every event, in any state, keeps the pointer into the request within it, at most one request in hand, the timeout pending exactly while a reply is awaited, only open pipes watched, and the pipe watched as long as there is something to send to a helper that has started. |
| DnaSpec.HelperChanges | dna_helper.c:148-622 | Exactly which events open and close each pipe and make a helper count as started. |
| DnaSpec.ProcessChanges | dna_helper.c:148-622 | Exactly which events change the process id, and to what. |
| DnaSpec.WaitChanges | dna_helper.c:326-450 | A reply is awaited from the last byte of a request until the end mark, a line before the greeting, a closed pipe, a death, the timeout or a shutdown, and not otherwise. |
| DnaSpec.RequestChanges | dna_helper.c:566-622 | The request in hand is replaced exactly by a new one while nothing of it has been sent and no reply is awaited; what becomes of one whose number is too long; and how far it has been sent. |
| DnaSpec.WatchChanges | dna_helper.c:326-622 | Exactly when the request pipe is watched. |
| DnaSpec.RequestGoesOut | dna_helper.c:340-372 | In every run, a request in hand of a helper that has started is watched, so that it can go out, after which its reply is awaited. |
| DnaSpec.InFlightIsFrozen | dna_helper.c:566-622 | Nothing that happens while a request is in flight changes its text or its requester. |
| DnaSpec.RunIsFaithful | dna_helper.c:148-622 | Over every interleaving of requests, writes, replies, timeouts, deaths and restarts, the state is that of the request in hand, and the bytes sent to each helper are those of its requests from first to last, except for what was sent of the first one to the helper before. |
| DnaSpec.WholeIffCleanLaunches | dna_helper.c:148-264 | Every helper of a run is sent whole requests, and the beginning of the one in hand, if and only if none was launched after a request had been sent in part. |
| DnaSpec.RestIsSentAlone | dna_helper.c:393-404 | Such a run: a helper that dies in the middle of any request is followed by one that is sent the rest of it only, and of which a reply is then awaited. |
| DnaSpec.ForwardAnswersRequest | dna_helper.c:393-450 | What is forwarded carries the SID and number of the request in hand and goes to its requester. |
| DnaSpec.ForwardedIff | dna_helper.c:393-450 | While a reply is awaited, a line is forwarded if and only if its text is the SID in hand, a valid URI of up to 511 characters, the number in hand and a name of up to 63, each with a bar behind it, and a line feed; and then exactly that is forwarded to the requester. |
| DnaSpec.SameRequestInFlight | dna_helper.c:566-622 | As long as something stays in flight it is the same request, and the bytes sent to the same helper only grow. |
| DnaHelper.ParseDnaReply | dna_helper.c:49-78 | The copying loops parse every line as specified. |
| DnaHelper.Helper.Enqueue | dna_helper.c:566-622 | A request is taken, ignored or refused as specified, also through a restart. |
| DnaHelper.Helper.Start | dna_helper.c:148-275 | Launching a helper does what the state machine does, and empties the line buffer exactly when there is a new helper. |
| DnaHelper.Helper.MonitorRequests | dna_helper.c:326-381 | Partial writes, hangups and broken pipes move the request on as specified. |
| DnaHelper.Helper.HandleReplyLine | dna_helper.c:393-450 | A reply line is forwarded or dropped, and ends the waiting, as in the state machine, of which `DnaSpec.ForwardedIff` says exactly which lines are forwarded. |
| DnaHelper.Helper.MonitorReplies | dna_helper.c:452-502 | What is read is cut into lines across reads and handled line by line, and the pipe is closed if the helper has closed it: a run of exactly those events, with the forwards of that run. |
| DnaHelper.Helper.Dispatch | dna_helper.c:148-622 | The handlers together do what the state machine does, for every event that the event loop can deliver. |
| DnaHelper.Helper.Drive | dna_helper.c:148-622 | Any run of events on the static state keeps what every run keeps, and forwards exactly the replies of its history, each to the requester of the request it answers. |

## Left out

- Linux and BSD specifics, sockets, files, SQL, configuration, logging, JNI and the telephony commands: input and output only.
- Routing (overlay_route.c), OLSR, queues and their timing, MDP ports and encryption of frames, unicast reachability: not modelled; whether a subscriber is reachable is a parameter of the listing, and the set of own SIDs one of the receive loop.
- What is done with a received frame behind the addresses (forwarding, filters for own, foreign and repeated frames, processing): `TakePacket` hands on every frame whose addresses were understood.
- "Please explain" packets: an ambiguous address is flagged, and the exchange that resolves it is not modelled.
- Frames with extended types of 12 and 20 bits are read, but only ordinary types are written.
- Tree nodes and subscriber records are numbered in order of allocation instead of addressed by pointers; sharing and update in place are kept, and the tree is never freed, as in the code.
- Positions in overlay buffers and tick counters are not bounded by the width of int.
- OverlayPackets.AddSelfAnnouncement: only with room for the longest announcement and a SID of our own, because its caller starts with an empty packet; the error returns in between are not modelled.
- AddressCodec.AddressIsHeard: for SIDs whose first byte is at least 0x10, the only ones that identities are created with (keyring.c:839); others look like a code when they are sent whole.
- AddressCodec.RunRoundTrip: for the same SIDs.
- OverlayPackets.AddPresence: with room for an announcement without payload.
- OverlayPackets.BuildPacket: with the room of AddSelfAnnouncement.
- OverlayPackets.TakePacket: decoding a length reads up to two octets beyond the packet, so three octets are there beyond its end; what they hold makes no difference to well-formed packets.
- OverlayPackets.TakeFrame: what the code does with a frame without a source, which it follows as a missing pointer, is not modelled beyond telling it apart; a frame whose addresses reach beyond its own length has an empty payload.
- OverlayPackets.Exchange: with the room of AddSelfAnnouncement; the 4 octets of magic and version are there already and are not looked at.
- TreeWalk.EnumSubscribers: walks over SIDs, with a callback that does not change the tree.
- AddressList.List: the reply starts zeroed, as in its only caller.
- FdQueue.AlarmQueue.Schedule: for entries that are in no list, as the code expects; result of poll() and clock are parameters, and what a called function does appears as later operations.
- FdQueue.WatchTable.Watch: for entries that are watched or have never been.
- FdQueue.WatchTable.Unwatch: for entries that are watched or have never been; a stale index, and the loop that calls functions of ready descriptors, are not modelled.
- RhizomeDirect.GetBars: the database is the list of its rows in the order of the query, with distinct id prefixes; rows whose BAR has another size, which are skipped, are not modelled.
- RhizomeDirect.BundleCursor.FillBuffer: only without a given maximum number of BARs, which is how it is used.
- RhizomeDirect.BundleCursor.UnpickleRange: shifts by 63 and more, which are undefined, are taken as powers of two, and sizes are unbounded numbers.
- SyncReply.FillResponse: for a range with an end above 2^61 or a start above 2^62 the reply is the one of unbounded sizes; the hints are a sequence instead of being written over the cursor's buffer; the ten bytes in front of them are not specified.
- SyncReply.SyncFindsAll: for databases that do not change during the sweep; sending and fetching the bundles themselves, and repeating a synchronisation until nothing is left to do, are not modelled.
- Keyring.PackIdentity: hash, key stream, public key and random bytes are parameters; a failing one leaves the page unspecified; identities without a key pair are not modelled.
- Keyring.DecryptPkr: what the code does with a record without key pairs, of which it reads the first all the same, is not modelled beyond telling it apart.
- Keyring.CommitIdentity: for identities with a key pair; the file, its allocation map and the registration of identities as subscribers are not modelled.
- SignatureCache.Cache.Lookup: for the only size of signature in use, 96 bytes.
- SignatureCache.LookupAll: likewise.
- Manifest.Manifest.ReadManifest: from a buffer, into a new manifest; reading beyond the end is taken to find zeroes.
- Manifest.Manifest.Finalise: size and hash of the file, the clock and the creation of the key pair are parameters; groups and encryption are not modelled.
- DnaHelper.Helper.Dispatch: fork, pipes, waitpid and partial writes are outcomes given to the model, as are the checks of SID, URI and number; the standard error of the helper is not modelled.
