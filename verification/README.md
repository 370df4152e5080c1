# Deus OS verification

Deus OS is a bare-metal system for the STM32F103: an authenticated bootloader with an anti-rollback floor, an A/B
configuration store with a transfer protocol in front of it, a small priority scheduler, framed and streamed protocols
spoken with a C# host, a serial link to a worker node, a display with a dirty-region cache, and a USB transmit ring.
This project models the parts in which state, faults or interleavings make the behaviour hard to see from one function,
and proves what they promise for every input, every sequence of requests and every pattern of faults.

How the parts fit together:

- `Bytes`, `Crc`, `FlashMemory` — little-endian fields; CRC-16 and CRC-32 as bit loops; NOR flash whose every operation
  takes its fate (works, is reported as failed, loses power; the last two with none, some or all of its effect) from a
  list, so that a statement about every list is a statement about every fault pattern. A failure can be reported after
  the cells changed, because the driver gives up when the controller stays busy too long. Erasing is atomic; lost power
  lasts until the next reset.
- `BootMetadata`, `Bootloader`, `BootPackets`, `FirmwareHost` — the meaning of the two metadata slots, the update
  requests, the boot decision and a device's life; the packets on the wire; the host's side of an update, byte for byte.
  The update logic treats hash and MAC as arbitrary functions.
- `Sha256`, `Sha256Check` — SHA-256 (FIPS 180-4) and HMAC (RFC 2104) as the bootloader streams them, and the known answer
  that ties the definitions to the standard.
- `ConfigRecord`, `ConfigStore`, `ConfigTransfer`, `ConfigHost` — which record a boot selects, the candidate written in any
  pieces, the commit marker; the session protocol with idempotent requests and an idle timeout; the host writing a layout.
- `NodeCodec`, `NodeStream`, `NodePeers`, `NodeSystem`, `NodeRuntime` — frames and their codec, the resynchronising
  stream, worker and controller as machines and as functions, both over two lossy FIFO links, and the node's runtime.
- `SchedulerModel`, `Scheduler` — selection, events and deadlines as functions; supervisor calls, preemption with
  interrupts arriving inside it, signals, ticks and the host loop as methods. The number of tasks is a parameter.
- `Frames`, `FrameMachines`, `RpcStream`, `RpcRequest` — one abstract decoder with the firmware's parser and the host's
  decoder refining it, both encoders, the output stream and its reassembly, request arguments.
- `MonoFb`, `Display`, `TextRenderer`, `Screen` — the framebuffer and its dirty spans, presenting over a failing bus,
  the two rendering paths, and any mix of drawing and presenting down to the dots on the panel.
- `UsbRing` — the transmit ring with the endpoint interrupt arriving between any two steps of the producer.

Conventions: a byte is an integer below 256, integer widths are written out wherever the code wraps, and clocks,
interrupts, bus outcomes, link losses and transport refusals are parameters. An event word and a column of eight pixels
are given as the set of their bits. A branch of the code that cannot be reached is kept with `assert false` in it.

## Model

| member | source | states |
|---|---|---|
| Bytes.BytesEqual | bootloader/bootloader.c:315-322 | the comparison without early exit answers equality |
| Bytes.Le16Inverse | bootloader/bootloader.c:299-306 | 16-bit fields survive storing and loading, in both directions |
| Bytes.Le32Inverse | bootloader/bootloader.c:295-313 | 32-bit fields survive storing and loading, in both directions |
| Bytes.LittleEndian | bootloader/bootloader.c:295-313 | byte i of a field has the weight 256^i |
| Crc.ComputeUpdate16 | src/kernel/binary_frame.c:22-41 | eight shifts of the loop are one step of the CRC-16 register |
| Crc.ComputeCrc16 | src/kernel/binary_frame.c:67-83 | the loop computes CRC-16/CCITT-FALSE of the data |
| Crc.Shift16Linear | src/kernel/binary_frame.c:22-41 | one shift distributes over XOR, on all pairs of registers |
| Crc.ShortBurstDetected | src/kernel/binary_frame.c:22-41 | data changed in one byte or two adjacent bytes, and nowhere else, never keeps its CRC-16 |
| Crc.Check16 | src/kernel/binary_frame.c:22-83 | the checksum of the ASCII digits 1 to 9 is 0x29B1, the check value of CRC-16/CCITT-FALSE |
| Crc.ComputeUpdate32 | src/kernel/asset_persistence.c:77-91 | the branch-free step equals the step with a test of the low bit |
| Crc.ComputeCrc32 | src/kernel/asset_persistence.c:93-108 | the loop computes CRC-32 of the data |
| Crc.Shift32Linear | shared/node_link/src/deus_node_link.c:29-38 | one shift of the CRC-32 register distributes over XOR, on all pairs of registers |
| Crc.Residue32 | shared/node_link/src/deus_node_link.c:29-38 | any data followed by its own CRC-32 leaves the register at 0xDEBB20E3 |
| Crc.Check32 | shared/node_link/src/deus_node_link.c:29-38 | the checksum of the ASCII digits 1 to 9 is 0xCBF43926, the check value of CRC-32 |
| FlashMemory.Flash.ErasePage | src/drivers/flash_persistence.c:167-198 | whatever the fate, only the page can change, and it is afterwards as before or blank; success means blank; an address outside is refused |
| FlashMemory.Flash.ProgramHalfword | src/drivers/flash_persistence.c:200-239 | whatever the fate, only the halfword can change; success means it was blank and now reads back as written |
| FlashMemory.Flash.ProgramBytes | bootloader/bootloader.c:614-619 | success means all bytes are stored in place of blanks; a failure touches nothing beyond the range |
| BootMetadata.SlotFrame | bootloader/bootloader.c:506-517 | whether a metadata slot is authentic depends on its own 82 bytes only |
| BootMetadata.RunnableFrame | bootloader/bootloader.c:499-504 | whether an image may run depends on the application area only |
| BootMetadata.BlankMetadataIsSettled | bootloader/bootloader.c:519-543 | never-written metadata has floor 0, boots nothing and is a valid start for every theorem below |
| BootMetadata.BootsTheFloorOrNothing | bootloader/bootloader.c:519-543 | in settled flash the bootable version is 0 or the floor, never an older one |
| BootMetadata.UnmarkedSlotKeepsFloor | bootloader/bootloader.c:506-543 | writes that leave a slot unmarked and the other slot alone keep flash settled, with the other slot's floor |
| BootMetadata.CommitStep | bootloader/bootloader.c:1114-1117 | whatever the marker program leaves behind, flash stays settled and the floor does not sink; if the slot became authentic, boot runs the new version |
| BootMetadata.MarkedIsGenuine | bootloader/bootloader.c:506-517 | header, tag and marker in place make a slot authentic |
| BootMetadata.ChunkStaysInPage | bootloader/bootloader.c:1059-1060 | a chunk that passes the shape tests lies in one page of the application area |
| BootMetadata.ChunkExtendsTransfer | bootloader/bootloader.c:1063-1084 | a chunk written at the stream's end keeps the transfer invariant: flash up to the offset is the stream, the rest of the page is blank |
| Bootloader.Updater.ScanMetadata | bootloader/bootloader.c:519-543 | the loop over both slots computes the floor and the bootable version |
| Bootloader.Updater.HandleBegin | bootloader/bootloader.c:1005-1018 | BEGIN stages exactly a structurally valid header, in the states that allow it, and touches no flash |
| Bootloader.WhatIsAuthorized | bootloader/bootloader.c:1020-1036 | a header is authorized exactly when it is staged, its tag is right, it is for this device, and it is newer than every version a slot vouches for, or as new while no slot boots |
| Bootloader.Updater.HandleAuthorize | bootloader/bootloader.c:1020-1047 | AUTHORIZE answers by length, state, tag, target and floor, in that order; on success the target slot is blank, the floor is unchanged and the transfer invariant starts at offset 0 |
| Bootloader.Updater.OpenTarget | bootloader/bootloader.c:1037-1046 | the slot that is erased is never the one that carries the floor |
| Bootloader.Updater.HandleData | bootloader/bootloader.c:1049-1086 | DATA keeps flash up to the offset equal to the streamed bytes; a repeated chunk is answered OK and changes nothing; the floor never moves |
| Bootloader.Updater.AcceptChunk | bootloader/bootloader.c:1063-1086 | the 16-bit offset advances by the chunk without wrapping |
| Bootloader.Updater.WriteChunk | bootloader/bootloader.c:1063-1077 | the page a chunk opens is erased first, and nothing outside it changes |
| Bootloader.Updater.HandleEnd | bootloader/bootloader.c:1088-1124 | END answers by length, state, offset, digest, vectors and flash; streamed and read-back digests agree; OK means a tokenless boot runs exactly this version, which is the floor |
| Bootloader.Updater.Install | bootloader/bootloader.c:1114-1123 | the metadata is committed and RAM knows the new floor and version, or the update is given up |
| Bootloader.Updater.WriteHeaderAndTag | bootloader/bootloader.c:1114-1116 | header and tag without the marker, failed anywhere, leave flash settled with the same floor |
| Bootloader.Updater.WriteMetadata | bootloader/bootloader.c:1114-1117 | header, tag and marker, interrupted anywhere, leave flash settled with a floor no lower |
| Bootloader.Updater.Handle | bootloader/bootloader.c:1150-1180 | each opcode has its own effect under its own flags: INFO reads the metadata again; BEGIN stages a valid header; AUTHORIZE gives the verdict and opens the stream; DATA appends its chunk or answers a repeated one; END installs a complete image with the announced digest and usable vectors; anything else moves nothing. Every request keeps the invariant and never lowers the floor; after a commit nothing changes flash any more |
| BootPackets.CheckPacket | bootloader/bootloader.c:1153-1159 | the checks accept exactly the wire forms of request frames |
| BootPackets.CarriedAlone | bootloader/bootloader.c:1153-1161 | what a packet carries is the only request with that wire form |
| BootPackets.BuildResponse | bootloader/bootloader.c:1126-1148 | the response is the wire form of a frame that reports status, state, offset, floor and committed version |
| BootPackets.ProcessPacket | bootloader/bootloader.c:1150-1184 | what is not a request is dropped without a trace; a request has the effect of its flags and opcode and is answered under its own id with the resulting state |
| Bootloader.Updater.Boot | bootloader/bootloader.c:1226-1234 | a reset hands off exactly without a token and with a bootable version, and that version is the floor |
| Bootloader.Experience | bootloader/bootloader.c:1150-1234 | a reset hands off exactly without a token and with a bootable version, and leaves flash alone; an install is recorded exactly when END committed it |
| Bootloader.Life | bootloader/bootloader.c:1005-1234 | over any requests, resets, faults and power losses, with every boot decision and every acknowledged END in the log: the versions never decrease, and an acknowledged END is what the next tokenless boot runs |
| FirmwareHost.EveryChunkFits | host/src/DeusOs.Control.Core/FirmwareUpdateClient.cs:202-239 | every chunk the host cuts passes the device's DATA checks |
| FirmwareHost.ParseResponse | host/src/DeusOs.Control.Core/FirmwareUpdateClient.cs:375-404 | a response is accepted exactly with right length, echo and reserved bytes, and its fields are read at their places |
| FirmwareHost.ReportFields | host/src/DeusOs.Control.Core/FirmwareUpdateClient.cs:375-404 | the places the host reads are the places the device writes |
| FirmwareHost.CodesAgree | host/src/DeusOs.Control.Core/FirmwareUpdateClient.cs:12-38 | the host reads every status and state byte as the device means it |
| FirmwareHost.Transact | host/src/DeusOs.Control.Core/FirmwareUpdateClient.cs:290-317 | a request through encoder, packet checks, handler, response and decoder has its effect, and the host is told status and state |
| FirmwareHost.SendChunk | host/src/DeusOs.Control.Core/FirmwareUpdateClient.cs:352-373 | sending a chunk again after a lost reply leaves the device where one delivery would |
| FirmwareHost.SendImage | host/src/DeusOs.Control.Core/FirmwareUpdateClient.cs:202-239 | after the loop the device has streamed exactly the image |
| FirmwareHost.Update | host/src/DeusOs.Control.Core/FirmwareUpdateClient.cs:170-253 | on healthy flash, packet by packet, a parsed package is refused exactly for the device's state, the verdict on tag, target and version, or the image's vectors, with that status; otherwise the flash holds the image, and its version is the floor, what boots, and what the last response reports |
| FirmwareHost.Finish | host/src/DeusOs.Control.Core/FirmwareUpdateClient.cs:241-247 | END after the whole image installs it exactly if its vectors are usable |
| FirmwareHost.VectorsOfImage | bootloader/bootloader.c:485-498 | with the image in flash the vector test is about the image: a stack pointer into the 20 KiB of RAM, aligned to 8, and a Thumb reset handler inside the image |
| Sha256.PaddedInBlocks | bootloader/bootloader.c:405-426 | what is appended, in one block or two, is the padding of section 5.1.1 of FIPS 180-4 |
| Sha256.Transform | bootloader/bootloader.c:334-378 | schedule and rounds in place compute the compression of section 6.2 of FIPS 180-4 |
| Sha256.ExpandSchedule | bootloader/bootloader.c:334-378 | the array holds the message schedule of section 6.2.2 |
| Sha256.Context.UpdateByte | bootloader/bootloader.c:393-403 | the context always holds the hash of the whole blocks so far and the rest in its buffer |
| Sha256.Context.Update | bootloader/bootloader.c:393-403 | feeding data appends it to the message |
| Sha256.Context.Final | bootloader/bootloader.c:405-426 | below 2^29 bytes the result is the SHA-256 digest of everything fed in |
| Sha256.DigestOfChunks | bootloader/bootloader.c:393-426 | every split of a message into update calls gives its digest |
| Sha256.HmacHeader | bootloader/bootloader.c:435-454 | the tag is the HMAC of section 2 of RFC 2104 over "DEUSHDR1", the load address and the header, with the pads 0x36 and 0x5C |
| Sha256.KeyBlockUndone | bootloader/bootloader.c:440-441 | the pad can be taken off a key block again |
| Sha256Check.ScheduleRecurs | bootloader/bootloader.c:334-378 | every word of a schedule is a word of the block or follows from four earlier ones as section 6.2.2 of FIPS 180-4 says |
| Sha256Check.KnownAnswer | bootloader/bootloader.c:324-426 | the digest of "abc" is the one FIPS 180-4 publishes |
| ConfigRecord.ChoiceFacts | src/kernel/asset_persistence.c:237-292 | the selected record is committed in its slot, within the generation limit, and newer than a committed other one |
| ConfigRecord.TargetWritesAreInvisible | src/kernel/asset_persistence.c:110-200 | whatever is written to the target slot, as long as it does not end up with the marker there, a boot selects the record in RAM |
| ConfigRecord.NextGenerationWins | src/kernel/asset_persistence.c:237-292 | a committed record of the next generation is what a boot selects, whether RAM knows it or not |
| ConfigRecord.ChoiceOfBacked | src/kernel/asset_persistence.c:237-292 | with the record of RAM in its slot, a boot selects that record or, if and only if the target slot holds a committed record of the next generation, that one |
| ConfigRecord.ChoiceIsBacked | src/kernel/asset_persistence.c:202-292 | what a boot selects becomes the record of RAM, with nothing ahead of it |
| ConfigRecord.CandidateValidates | src/kernel/asset_persistence.c:110-200 | a complete candidate validates exactly as its CRC and content deserve |
| ConfigRecord.BlankSlotsBootNothing | src/kernel/asset_persistence.c:237-292 | erased slots select nothing |
| ConfigRecord.ConsoleIsOnPanel | src/kernel/oled_ui_layout_config_v1.c:41-60 | a layout is valid exactly if its console has room for a character and every pixel of it is on the 128 by 32 panel, below the status bar |
| ConfigStore.Store.ValidateRecord | src/kernel/asset_persistence.c:110-200 | the checks, in their order, give the record's verdict |
| ConfigStore.Store.SelectBootRecord | src/kernel/asset_persistence.c:202-292 | the record in RAM becomes the one the flash content selects, and its payload is shown |
| ConfigStore.Store.StartChanged | src/kernel/asset_persistence.c:400-448 | opens the slot that is not active with the next generation, and refuses beyond the wear budget; the slot is left untouched or without the marker |
| ConfigStore.Store.OpenSlot | src/kernel/asset_persistence.c:365-448 | erase and header, failed or interrupted anywhere, with or without effect, leave the slot untouched or without the marker |
| ConfigStore.Store.Begin | src/kernel/asset_persistence.c:450-471 | opens a candidate; with the active CRC it only compares and performs no flash operation |
| ConfigStore.Store.ProgramPayload | src/kernel/asset_persistence.c:473-493 | one halfword extends the stored bytes, and a boot does not see it; a failure, whatever trace it leaves, keeps the bytes before |
| ConfigStore.Store.HalfwordTouched | src/kernel/asset_persistence.c:473-493 | any content of the halfword that comes next leaves the candidate as it was, and without the marker |
| ConfigStore.Store.PushPair | src/kernel/asset_persistence.c:501-536 | a pair is counted exactly when it was programmed; otherwise nothing in RAM moves |
| ConfigStore.Store.WritePayloadBytes | src/kernel/asset_persistence.c:495-548 | the slot ends up holding all bytes so far, the last odd one pending, however they were cut |
| ConfigStore.Store.FirstDifference | src/kernel/asset_persistence.c:565-576 | finds the first byte that leaves the active record |
| ConfigStore.Store.CopyPrefix | src/kernel/asset_persistence.c:577-621 | the shared prefix of the active payload is in the new slot |
| ConfigStore.Store.Diverge | src/kernel/asset_persistence.c:577-626 | leaving the active record keeps every byte accepted before |
| ConfigStore.Store.Write | src/kernel/asset_persistence.c:550-630 | the candidate's bytes grow by exactly the data; comparing goes on exactly while all bytes equal the active record; the active slot is never written |
| ConfigStore.Store.Commit | src/kernel/asset_persistence.c:655-751 | UNCHANGED exactly for a complete candidate that never left the active record, without flash operations; otherwise a boot selects the old record or the complete new one, nothing else, and RAM holds the new one exactly when the answer is OK |
| ConfigStore.Store.BegunIsVoid | src/kernel/asset_persistence.c:400-448 | while a candidate is open in its slot, a boot selects the record in RAM |
| ConfigStore.Store.CloseHeader | src/kernel/asset_persistence.c:680-693 | header CRC and verdict: OK leaves a valid slot that lacks only the marker; a wrong CRC and wrong content are answered only where they apply; a boot does not see it |
| ConfigStore.Store.PlaceMarker | src/kernel/asset_persistence.c:697-721 | the flash is ahead of RAM exactly when the marker is in the cells, whatever was reported; then a boot selects the new record, whole |
| ConfigStore.Store.MarkerDecides | src/kernel/asset_persistence.c:697-713 | whatever the marker program leaves behind: the marker means the new record, anything else the old one |
| ConfigStore.Life | src/kernel/asset_persistence.c:237-751 | from erased slots, over any operations, resets and all fates of flash operations: every record a boot would select is whole, valid and within generation 10000; it is the record of RAM if and only if it is not the case that a commit since the reset was answered with a storage error and the marker is in the cells; the booted generation grows only at a commit, by one, and drops only when, in that state, a BEGIN or a write opens the slot, back to the record of RAM; at most 10000 commits are answered OK |
| ConfigStore.MarkerReportedFailed | src/drivers/flash_persistence.c:63-154 | the run that shows it: a marker program that took effect is reported as failed, the commit answers with a storage error, RAM holds nothing, a boot would select generation 1, and after the next BEGIN nothing again |
| ConfigStore.Upload | src/kernel/asset_persistence.c:450-751 | the outcome and the record left behind depend on CRC and bytes only, not on the split; uploading the active record again costs no flash operation |
| ConfigStore.WriteAll | src/kernel/asset_persistence.c:550-630 | after any split the candidate holds the joined bytes |
| ConfigTransfer.Session.Poll | src/kernel/asset_transfer.c:98-107 | the session ends exactly when 30 s passed since its last activity, on a wrapping clock |
| ConfigTransfer.Session.HandleBegin | src/kernel/asset_transfer.c:255-342 | each malformed field has its status; a repeated BEGIN is OK and moves nothing; another one while active is BUSY; a fresh one opens session and candidate together at offset 0 and is refused only for wear or by the flash |
| ConfigTransfer.Session.Open | src/kernel/asset_transfer.c:311-326 | session and candidate start together at offset 0, or neither does |
| ConfigTransfer.Session.HandleWrite | src/kernel/asset_transfer.c:344-452 | a fresh chunk at the offset is appended, and refused only by the flash or where a worn-out store would leave its record; the last chunk again is OK and moves nothing; every other case has its status and moves nothing |
| ConfigTransfer.Session.Append | src/kernel/asset_transfer.c:414-436 | offset and accepted bytes advance together; a storage error ends session and candidate together |
| ConfigTransfer.Session.HandleCommit | src/kernel/asset_transfer.c:454-516 | OK means the committed record holds exactly the bytes sent, as the record that is active or as the next generation, and can be asked for again; otherwise CRC, content or flash refused it, each exactly where it applies |
| ConfigTransfer.Session.Finish | src/kernel/asset_transfer.c:486-499 | after a commit or its failure neither session nor candidate is open |
| ConfigTransfer.Session.HandleAbort | src/kernel/asset_transfer.c:518-556 | OK exactly without a session or with its own id, and then no session is left |
| ConfigTransfer.Session.HandleStatus | src/kernel/asset_transfer.c:558-624 | reports offset and committed record, and changes only the activity time |
| ConfigTransfer.Session.HandleRead | src/kernel/asset_transfer.c:626-694 | returns exactly the requested part of the committed payload of the expected generation |
| ConfigTransfer.Session.Handle | src/kernel/asset_transfer.c:696-833 | each opcode has its own effect under its own flags and length, and the answer reports the session and the committed generation; keeps session and candidate coupled; an answer OK leaves a state in which the same frame is granted; a granted frame moves nothing |
| ConfigTransfer.Session.HandleTwice | src/kernel/asset_transfer.c:696-833 | delivering any frame again right after an OK gives the identical answer, no flash operation, same record, same offset |
| ConfigTransfer.Serve | src/kernel/asset_transfer.c:76-107 | from erased flash, over any frames, timeouts, resets and all fates of flash operations: after every event session and candidate are active together, at the same offset |
| ConfigHost.WriteLayout | host/src/DeusOs.Control.Core/AssetTransferClient.cs:120-285 | on a healthy device without a session a valid layout is afterwards the committed one, already and without a flash operation or as the next generation; only an exhausted wear budget refuses it, and then nothing moves; no session is left |
| ConfigHost.SendChunk | host/src/DeusOs.Control.Core/AssetTransferClient.cs:171-198 | the layout as one chunk is refused exactly where a worn-out store would have to leave its record |
| ConfigHost.SendCommit | host/src/DeusOs.Control.Core/AssetTransferClient.cs:200-222 | the commit of a valid layout under its own CRC is granted |
| ConfigHost.Confirm | host/src/DeusOs.Control.Core/AssetTransferClient.cs:224-250 | what the host checks in status and readback always holds, and asking moves nothing |
| ConfigHost.BeginFields | host/src/DeusOs.Control.Core/AssetTransferProtocol.cs:111-140 | the device reads the fields of a BEGIN as the host wrote them |
| ConfigHost.WriteFields | host/src/DeusOs.Control.Core/AssetTransferProtocol.cs:142-168 | the device reads the fields of a WRITE_CHUNK as the host wrote them |
| ConfigHost.ReadFields | host/src/DeusOs.Control.Core/AssetTransferProtocol.cs:179-201 | the device reads the fields of a READ_CHUNK as the host wrote them |
| NodeCodec.Encode | shared/node_link/src/deus_node_link.c:47-63 | writes the wire form, or refuses by sequence, length and capacity |
| NodeCodec.Decode | shared/node_link/src/deus_node_link.c:64-80 | accepts exactly well-formed byte strings |
| NodeCodec.DecodeUndoesEncode | shared/node_link/src/deus_node_link.c:47-80 | every sendable frame survives encode then decode |
| NodeCodec.EncodeUndoesDecode | shared/node_link/src/deus_node_link.c:47-80 | every accepted byte string survives decode then encode |
| NodeStream.FirstStart | shared/node_link/src/deus_node_link.c:120-135 | the first position from which the buffer is, or may become, a frame |
| NodeStream.Stream.Shift | shared/node_link/src/deus_node_link.c:108-111 | drops the first byte in place |
| NodeStream.Stream.Look | shared/node_link/src/deus_node_link.c:120-134 | waits exactly for a prefix that may become a frame, and reports exactly a complete frame |
| NodeStream.Stream.Resync | shared/node_link/src/deus_node_link.c:120-135 | the loop ends at the first possible start, with fewer than 40 bytes left |
| NodeStream.Stream.Feed | shared/node_link/src/deus_node_link.c:112-136 | the buffer is always the last bytes of the input, under 40 of them; a reported frame occurs in the input, byte for byte |
| NodeStream.PrefixSettles | shared/node_link/src/deus_node_link.c:112-136 | the beginning of a frame is kept whole, and its last byte reports it |
| NodeStream.ReceiveAfterNoise | shared/node_link/src/deus_node_link.c:112-136 | into an empty or timed-out buffer, after any noise without 0xD5, a frame within 50 ms is reported once, on its last byte |
| NodeStream.DeadUpToTheFrame | shared/node_link/src/deus_node_link.c:120-135 | behind any kept bytes, a frame is what the resync loop stops at if and only if every kept position is refuted as a start by the bytes that follow it |
| NodeStream.ReceiveBehind | shared/node_link/src/deus_node_link.c:112-136 | a frame fed within the timeout behind any kept bytes, 0xD5 among them or not, is reported on its last byte if and only if all those starts are refuted; otherwise a report is of a frame that starts among the kept bytes, or the buffer still waits from there |
| NodePeers.Worker.Process | shared/node_link/src/deus_node_link.c:148-217 | the machine with its byte caches computes the worker function; comparing cached bytes is comparing frames; no room for the reply changes nothing |
| NodePeers.Worker.Greet | shared/node_link/src/deus_node_link.c:157-177 | a new challenge starts a session; the session's own challenge gets the cached reply and changes nothing |
| NodePeers.Worker.ServeFresh | shared/node_link/src/deus_node_link.c:192-216 | a fresh request gets its reply and both are remembered |
| NodePeers.WhyRefused | shared/node_link/src/deus_node_link.c:178-207 | the first byte of an error says exactly whether the number was not the next one, the payload malformed or the kind unknown, the second names the request, and nothing was run |
| NodePeers.ReplayStutters | shared/node_link/src/deus_node_link.c:179-184 | the request answered last gets the same reply, and nothing moves |
| NodePeers.ServedTwice | shared/node_link/src/deus_node_link.c:148-217 | after any request that moved the worker, the same request gets the same reply and moves nothing |
| NodePeers.Controller.Hello | shared/node_link/src/deus_node_link.c:228-242 | sends HELLO and leaves any earlier session |
| NodePeers.Controller.Request | shared/node_link/src/deus_node_link.c:243-264 | only a ready, idle controller sends, with the next sequence number, a valid request |
| NodePeers.Controller.Receive | shared/node_link/src/deus_node_link.c:265-289 | only a reply of the session, with the pending number and the pending request's kind plus 0x80, or an error about it, ends the pending request; only a HELLO makes ready |
| NodePeers.Controller.Timeout | shared/node_link/src/deus_node_link.c:290-302 | one byte-identical retry, never for a job, then not ready |
| NodePeers.RefusalArrives | shared/node_link/src/deus_node_link.c:273-282 | a refusal of the pending request arrives as a remote error and only ends the request |
| NodeSystem.Step | shared/node_link/src/deus_node_link.c:148-302 | every action of either end or of the links keeps the protocol invariant |
| NodeSystem.RunSafety | shared/node_link/src/deus_node_link.c:148-302 | after every run a ready controller and the worker share the session; with nothing pending they are at the same sequence number, otherwise at most one apart; every job issued is executed at most once |
| NodeSystem.AcceptedResult | shared/node_link/src/deus_node_link.c:197-200 | after every run a job result the controller accepts is length and CRC-32 of exactly the bytes it sent, and that job was executed |
| NodeSystem.MatchingReplyIsAccepted | shared/node_link/src/deus_node_link.c:265-289 | after every run a reply with the session and number the controller waits for is accepted: between these two no error, wrong kind or wrong echo occurs |
| NodeSystem.StatusCounts | shared/node_link/src/deus_node_link.c:201-215 | after every run the worker's counter is the number of jobs executed in its session, up to 65535 |
| NodeSystem.AcceptedStatus | shared/node_link/src/deus_node_link.c:201-203 | after every run a STATUS the controller accepts carries 2, 0 and the number of jobs executed in its session, up to 65535 |
| NodeSystem.Drive | shared/node_link/src/deus_node_link.c:148-302 | the byte-level machines over byte-level links stay in the states of the abstract run: accepted results and statuses are right and a ready controller agrees with the worker |
| NodeRuntime.Runtime.Feed | nodes/esp8266/firmware/main/node_runtime.c:11-33 | the worker serves exactly the frame that arrived, because encoding it again gives the same bytes; without a frame it is not touched; counters saturate |
| NodeRuntime.SkipNoise | nodes/esp8266/firmware/main/node_runtime.c:11-24 | noise without 0xD5 leaves an idle node idle and the worker untouched |
| NodeRuntime.ServeBehind | nodes/esp8266/firmware/main/node_runtime.c:11-33 | a request fed within the timeout behind any kept bytes, with any room for the reply: what the worker serves first is the request itself, on its last byte, if and only if every kept start is refuted by then; the reply is the worker's, or there was no room and nothing happened |
| NodeRuntime.ServeRequest | nodes/esp8266/firmware/main/node_runtime.c:11-33 | a request after noise is answered once, with the worker's reply, on its last byte |
| SchedulerModel.LiveIsReadyOrBlocked | src/kernel/scheduler.c:940-964 | the tasks a run still owes are the ready and the blocked ones |
| SchedulerModel.ChoiceIsUnique | src/kernel/scheduler.c:169-201 | least priority value, then first in rotation, leaves one choice |
| SchedulerModel.CloserToTurn | src/kernel/scheduler.c:169-201 | a dispatch that passes over a task no less urgent brings it strictly closer in the rotation |
| Scheduler.CloserStep | src/kernel/scheduler.c:728-1220 | beside a ready task every dispatch gives the processor to it or to a more urgent one, or brings it strictly closer in the rotation, and nothing else moves it away |
| Scheduler.RunsWithinTurns | src/kernel/scheduler.c:728-1220 | over any steps of a run a ready task runs within as many dispatches as there are tasks, unless a more urgent one is dispatched or a task makes an invalid call; the host, which restarts the rotation, does not intervene |
| SchedulerModel.ReadyIsAllOwed | src/kernel/scheduler.c:1132-1163 | the ready tasks counted at a start are all that the run will owe, if and only if no task is blocked by then |
| SchedulerModel.ConsumedByWaiters | src/kernel/scheduler.c:1333-1367 | a signalled bit is consumed exactly when some blocked task waits for it |
| SchedulerModel.WrapSafe | src/kernel/scheduler.c:250-255 | the signed comparison of wrapped times is the comparison of the times, within half the range |
| SchedulerModel.LateTickIsMissed | src/kernel/scheduler.c:250-255 | at exactly half the range behind a deadline the comparison takes it for one that lies ahead, so the bound is sharp |
| Scheduler.Kernel.Init | src/kernel/scheduler.c:468-507 | an inactive scheduler forgets everything but the clock; an active one refuses |
| Scheduler.Kernel.SetPriority | src/kernel/scheduler.c:514-529 | priorities change only while inactive and stay within range |
| Scheduler.Kernel.Select | src/kernel/scheduler.c:169-201 | the choice is ready and no task that was ready from the start is better, even with interrupts between the looks; none is found only if none was ready; undisturbed, it is the choice |
| Scheduler.Kernel.Deliver | src/kernel/scheduler.c:1331-1369 | every task blocked on a signalled bit gets it and becomes ready; no blocked task is left waiting for a pending bit |
| Scheduler.Kernel.SignalEvents | src/kernel/scheduler.c:1311-1387 | an inactive scheduler ignores signals; otherwise bits are delivered or latched, and a switch is requested exactly if a task was woken while one of a preemptive run has the processor |
| Scheduler.Kernel.TickTo | src/kernel/scheduler.c:1399-1451 | a timed block ends exactly at a tick whose unwrapped time has reached the deadline, ready, with no event and the answer 1 for a sleep and 0 for a timeout; every tick of a preemptive run requests a switch |
| Scheduler.Kernel.Interrupts | src/kernel/scheduler.c:1311-1465 | any interrupts in a row leave ready tasks alone and keep the invariant |
| Scheduler.Kernel.StartDispatch | src/kernel/scheduler.c:737-772 | the host's dispatch starts the best ready task |
| Scheduler.Kernel.SwitchAway | src/kernel/scheduler.c:940-979 | the next task, the end of the run when all are done, or waiting with some task blocked; the "nothing ready, nothing blocked" abort is not reached |
| Scheduler.Kernel.Svc | src/kernel/scheduler.c:774-979 | what each call does to every field of its caller, to the latched events, to the deadline and to the processor; other tasks and the clock are left alone; a wait returns exactly the pending bits asked for; an invalid call ends the run with all tasks as they were |
| Scheduler.Kernel.Await | src/kernel/scheduler.c:813-932 | pending bits asked for are taken at once, otherwise the caller blocks on exactly what it asked for, with its deadline start plus duration |
| Scheduler.Kernel.Decline | src/kernel/scheduler.c:898-923 | a poll that finds nothing and a timeout out of range return at once |
| Scheduler.Kernel.PendSv | src/kernel/scheduler.c:982-1043 | preemption with interrupts inside never aborts and never passes over a better task |
| Scheduler.Kernel.Start | src/kernel/scheduler.c:1118-1171 | a run starts exactly with some ready task, owing as many completions as there are ready tasks |
| Scheduler.Kernel.HostTurn | src/kernel/scheduler.c:1173-1220 | with something ready the host dispatches the best in rotation from the last task; otherwise it sleeps, and then some task is blocked; ready tasks are left alone, blocked ones whose events do not occur only obey the clock |
| Scheduler.Take | src/kernel/scheduler.c:728-1220 | one step of a run of any kind: ready tasks other than the caller stay as they are, a dispatch passes over no better task, blocked tasks whose events do not occur only obey the clock |
| Scheduler.WakesOnTime | src/kernel/scheduler.c:925-932 | over any steps of a run, calls and preemptions of other tasks included, in which its events do not occur, a timed block wakes with the first step that reaches start plus duration, never earlier, with 1 for a sleep and 0 for a timeout |
| Scheduler.SignalPreempts | src/kernel/scheduler.c:1371-1376 | in a preemptive run, after a signal and the preemption it asks for, the running task is no less urgent than any task the signal woke |
| Scheduler.NoLostWakeup | src/kernel/scheduler.c:1311-1369 | a signalled bit stays latched exactly when no task was blocked on it, and otherwise every such task gets exactly the signalled bits it asked for |
| Scheduler.Tally | src/kernel/scheduler.c:940-979 | in every reachable state completed plus ready plus blocked is the target, no blocked task waits for a latched event, and in a preemptive run nobody more urgent than the running task is ready without a switch being requested |
| Scheduler.RunSteps | src/kernel/scheduler.c:728-1229 | the same over any steps from any valid state of a run |
| Scheduler.WhichStepsCount | src/kernel/scheduler.c:250-255 | the runs above exclude nothing but ticks more than 2^31 ms apart |
| Scheduler.RunTasks | src/kernel/scheduler.c:728-1229 | over any steps of a run after initialisation, all of this holds after each of them, and the run is never aborted unless a task makes an invalid call |
| Frames.WireLayout | src/kernel/binary_frame.c:231-265 | bytes are the wire form of a frame exactly if magic, header fields, length, payload and checksum are at their places |
| Frames.FeedAppend | src/kernel/binary_frame.c:85-229 | decoding a stream does not depend on where it is cut |
| Frames.RoundTrip | src/kernel/binary_frame.c:85-305 | from every hunting state an encoded frame decodes to itself, on its last byte and not before |
| Frames.AlterationIsReported | src/kernel/binary_frame.c:85-229 | a frame altered in one byte or two adjacent covered bytes other than the length is reported as a CRC error |
| FrameMachines.Parser.Feed | src/kernel/binary_frame.c:85-229 | the firmware's parser is the abstract decoder, byte by byte |
| FrameMachines.Decoder.Feed | host/src/DeusOs.Control.Core/BinaryFrameDecoder.cs:41-52 | the host's decoder is the abstract decoder, read by read |
| FrameMachines.Decoder.FeedByte | host/src/DeusOs.Control.Core/BinaryFrameDecoder.cs:54-155 | one byte makes one step of the abstract decoder |
| FrameMachines.Decoder.CompleteFrame | host/src/DeusOs.Control.Core/BinaryFrameDecoder.cs:157-200 | the last byte decides between frame and CRC error |
| FrameMachines.DecodersAgree | host/src/DeusOs.Control.Core/BinaryFrameDecoder.cs:41-200 | on every stream and every split into reads both ends report the same frames and the same errors |
| FrameMachines.FirmwareEncode | src/kernel/binary_frame.c:267-305 | writes the wire form, or nothing |
| FrameMachines.FinalizeInPlace | src/kernel/binary_frame.c:231-265 | header and checksum around a payload already in place give the wire form |
| FrameMachines.HostEncode | host/src/DeusOs.Control.Core/BinaryFrameCodec.cs:7-40 | refuses what the firmware refuses and writes what the firmware writes |
| RpcStream.Output.SendWorkspaceFrame | src/kernel/binary_rpc.c:53-90 | the frame is sent whole or the failure is remembered |
| RpcStream.Output.FlushData | src/kernel/binary_rpc.c:111-140 | the pending bytes become the next DATA frame, or stay pending |
| RpcStream.Output.WriteByte | src/kernel/binary_rpc.c:142-173 | a byte accepted is in order behind all earlier ones; after a failure nothing is accepted |
| RpcStream.Output.SendEnd | src/kernel/binary_rpc.c:175-208 | END carries the counts of the frames actually sent |
| RpcStream.Respond | src/kernel/binary_rpc.c:454-492 | wherever sending starts to fail, the DATA frames carry a prefix of the output in sequence, and status OK means all of it |
| RpcStream.Reassemble | host/src/DeusOs.Control.Core/DeusRpcClient.cs:73-198 | the receive loop collects what the frames say |
| RpcStream.RebuildsChunks | host/src/DeusOs.Control.Core/DeusRpcClient.cs:73-198 | the host rebuilds the output exactly when it is at most 65536 bytes |
| RpcStream.OnlyWholeStreams | host/src/DeusOs.Control.Core/DeusRpcClient.cs:77-196 | of all frames that may arrive, the host takes only DATA frames of this request in sequence and then its END with right counts for complete, and the output is what they carried, within the bound |
| RpcStream.WholeStreamsComplete | host/src/DeusOs.Control.Core/DeusRpcClient.cs:77-196 | and it takes all of these, with empty chunks or not |
| RpcStream.NeverCompletes | host/src/DeusOs.Control.Core/DeusRpcClient.cs:73-198 | without END no stream is taken for complete |
| RpcStream.Exchange | src/kernel/binary_rpc.c:111-208 | device and host together: a complete answer is a prefix of the output, an OK one is all of it, and over a link that takes everything it arrives if and only if it is at most 65536 bytes |
| RpcRequest.EncodePayload | host/src/DeusOs.Control.Core/RpcRequestEncoder.cs:8-66 | encodes exactly proper arguments, within the frame's payload |
| RpcRequest.DecodeRequest | src/kernel/binary_rpc.c:260-356 | one pass gives the payload its meaning, broken framing before bad arguments |
| RpcRequest.InverseCodecs | src/kernel/binary_rpc.c:260-356 | arguments survive host encode then device decode, and the device accepts nothing else |
| RpcRequest.FramedIsJudged | src/kernel/binary_rpc.c:260-356 | a payload of as many length-prefixed strings as it announces is judged by them alone: at most 4, of at most 31 bytes, without NUL |
| RpcRequest.UnframedIsMalformed | src/kernel/binary_rpc.c:260-356 | any other payload is malformed, and no other |
| MonoFb.PixelPutLights | src/gfx/mono_fb.c:267-317 | setting a pixel changes that pixel and no other |
| MonoFb.PutAgrees | src/gfx/mono_fb.c:202-238 | a masked write keeps every difference from the panel inside a dirty span |
| MonoFb.FrameBuffer.MarkPageX | src/gfx/mono_fb.c:38-73 | the page's span stretches to the column |
| MonoFb.FrameBuffer.WriteMaskedByte | src/gfx/mono_fb.c:202-238 | only a change is stored and marked, and it is reported |
| MonoFb.FrameBuffer.SetPixel | src/gfx/mono_fb.c:267-317 | a pixel on screen is written, one off screen is ignored |
| MonoFb.FrameBuffer.Rectangle | src/gfx/mono_fb.c:359-376 | exactly the rectangle's edge pixels on screen take the value |
| MonoFb.FrameBuffer.Clear | src/gfx/mono_fb.c:240-265 | everything is dark and the spans still cover all differences |
| MonoFb.FrameBuffer.MarkAllDirty | src/gfx/mono_fb.c:99-136 | every byte is inside a dirty span |
| MonoFb.FrameBuffer.ClearDirty | src/gfx/mono_fb.c:182-200 | one page becomes clean, the others keep their spans |
| Display.SendSpan | src/drivers/ssd1306.c:242-281 | a page's span arrives whole, or the spans still cover what differs |
| Display.Present | src/drivers/ssd1306.c:191-294 | success makes the panel equal to the framebuffer with nothing dirty; a failure at any bus write leaves every difference inside a dirty span; a healthy bus always succeeds |
| TextRenderer.GenericLights | src/gfx/text_renderer.c:33-68 | the generic path shows the glyph's bits inside cell, clip and screen and changes nothing else |
| TextRenderer.AlignedLights | src/gfx/text_renderer.c:136-188 | the byte path shows the glyph's bits inside cell, clip and screen and changes nothing else |
| TextRenderer.PutMerges | src/gfx/mono_fb.c:202-238 | one more row of a byte is one wider mask: same byte, same dirty mark |
| TextRenderer.FastPathIsGeneric | src/gfx/text_renderer.c:106-188 | for every framebuffer, clip, x and page-aligned y both paths leave the same bytes, dirty pages and spans, if and only if no visible glyph bit is in row 7 |
| TextRenderer.DrawCellGeneric | src/gfx/text_renderer.c:33-68 | the loops draw the generic cell |
| TextRenderer.DrawCellAligned | src/gfx/text_renderer.c:136-188 | the loops draw the byte-wise cell |
| TextRenderer.DrawCell | src/gfx/text_renderer.c:190-237 | whichever path is taken, the result is the generic one |
| Screen.Draw | src/gfx/mono_fb.c:182-317 | each drawing operation changes exactly the pixels it is about, and keeps the dirty spans covering every difference |
| Screen.Session | src/drivers/ssd1306.c:191-294 | over any drawing and presenting, with any bus failures: after every successful present the panel shows, dot for dot, the picture drawn so far; a failed one leaves something dirty to retry |
| UsbRing.SlotIsHome | src/drivers/usb_device.c:725-740 | a wrapping 32-bit index finds the slot of its stream position |
| UsbRing.Endpoint.Conservation | src/drivers/usb_device.c:1526-1571 | bytes sent followed by bytes queued are the accepted spans in order, with at most 1024 queued |
| UsbRing.Endpoint.HandleIn | src/drivers/usb_device.c:821-837 | a taken packet leaves the ring, and the next one is on its way if bytes wait |
| UsbRing.Endpoint.FillPacket | src/drivers/usb_device.c:721-749 | packet memory holds the next bytes of the stream |
| UsbRing.Endpoint.Kick | src/drivers/usb_device.c:701-753 | with interrupts after every step, afterwards waiting bytes mean a packet on its way |
| UsbRing.Endpoint.CopySpan | src/drivers/usb_device.c:1555-1559 | writing the span disturbs nothing that is queued while the interrupt drains it |
| UsbRing.Endpoint.Publish | src/drivers/usb_device.c:1561-1562 | one store makes the whole span visible |
| UsbRing.Endpoint.WriteSpan | src/drivers/usb_device.c:1526-1571 | a span is taken whole or not at all, and always if it fits at the call; afterwards waiting bytes mean a packet on its way |
| UsbRing.Endpoint.DrainAll | src/drivers/usb_device.c:821-837 | the host gets everything that was accepted |
| UsbRing.Traffic | src/drivers/usb_device.c:701-753 | between two resets, any spans and interrupts: the host gets the accepted spans, each whole, in order |

## Left out

- Register-level drivers: clock, watchdog, I2C, USART, GPIO, USB enumeration and endpoint toggling are replaced by the contracts above.
- Assembly context switch, stack frames, stack painting and canaries: a task's saved frame is taken to be valid and only its result register is modelled.
- Flash erasure torn in the middle: erasing is atomic; programming may be torn.
- Cryptographic strength of SHA-256 and HMAC, and CRC collisions beyond one or two adjacent bytes.
- Statistics and diagnostic counters other than those the protocols themselves report.
- BootPackets.ProcessPacket: the USB endpoint around it; the reset that follows the response to a committing END is a separate event.
- Bootloader.Life: any fault may leave any trace except that erasing is all or nothing; nothing is promised about a flash chip that changes cells on its own.
- FirmwareHost.Update: only a healthy flash is promised success; failures are covered by Bootloader.Life.
- Sha256.Context.Final: nothing is promised from 2^29 bytes on, where the 32-bit bit count of the code wraps.
- ConfigStore.Life: that the booted generation never drops is false of the code; the row above gives the exact step, and ConfigStore.MarkerReportedFailed the run. The same state lets the old record be uploaded again and answered OK, and still boots the newer one after a reset.
- ConfigStore.Store.Begin: after a refusal for wear the candidate stays open, and after a failed commit too, as in the code; the callers in the transfer layer always abort.
- ConfigStore.Life: starts from erased slots; two valid records of equal generation and different content never arise from there.
- ConfigTransfer.Session.Handle: the byte layout of responses is not modelled; a response is a record of its fields.
- NodeStream.Stream.Feed: bytes behind a complete frame that were already buffered while a false start was pending are discarded with it, as in the code; NodeStream.ReceiveBehind says exactly which frame that loses.
- NodeSystem.RunSafety: a restart of the worker or of the controller is not an action; links lose frames but do not corrupt, duplicate or reorder them; challenges are not reused.
- Scheduler.Kernel.Svc: a supervisor call is one atomic step, since nothing lowers its priority below the interrupts.
- Scheduler.Kernel.TickTo: two ticks are at most 2^31 ms apart; beyond that the code can miss a deadline, as SchedulerModel.LateTickIsMissed shows.
- Scheduler.Kernel.Start: the first run after initialisation and runs after completed runs; a run started with tasks left blocked by an aborted one does not owe them, by SchedulerModel.ReadyIsAllOwed, and is not covered.
- Scheduler.Kernel.Prepare: binding a stack and building the initial frame are not modelled.
- RpcRequest.EncodePayload: arguments are byte strings; UTF-8 encoding of the host's strings is not modelled.
- RpcStream.Exchange: request timeouts and cancellation on the host are not modelled.
- TextRenderer.DrawCell: the font's bytes are a parameter with row 7 dark; coordinates do not overflow 32 bits.
- UsbRing.Endpoint.WriteSpan: no bus reset arrives inside a producer call; the receive ring is not modelled.
- Display.Present: console demos that write the panel behind the framebuffer's back.
- C# discovery, native transports, desktop user interface and command line; application_runtime.c, oled_console.c and the text parsers: easier than the rest.
