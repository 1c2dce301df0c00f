# DC-1 boot, install and release logic: a verified model

This project models the parts of the DC-1 Linux port in which a wrong byte, a wrong order or a lost
step makes the tablet unbootable or a release unusable, and proves what those parts promise. It is
written for Dafny 4.11; `dafny verify dfyconfig.toml` verifies it.

| module | part of the system |
|---|---|
| `Fdt`, `FdtEdit`, `FdtFind`, `DtbSwap` | the boot stub: property search in a flattened devicetree, the in-place copy of the bootloader's run-time values, the choice of the tree |
| `Streams`, `Wire`, `ImageWrite`, `Install` | the install session: socket, buffered reader, header, crash-ordered image writer |
| `Crc32`, `SlotCtl` | A/B slot control: the sealed 32-byte block and the guarded commands on it |
| `BootImage`, `Payload` | boot image packer, `verify`, the three readers of one image, the kernel-only rewrite |
| `ApkVersion`, `ApkCompare` | the apk version tokenizer, comparator and index scan |
| `I2c` | the bit-banged I2C master against a protocol slave and a bus monitor |
| `Touch` | the multitouch observer against the device it cannot see |
| `Lease` | the watchdog petter, the rescue path and lease renewals, interleaved |
| `Publish` | release publication over a remote, cut off after any change |
| `Bytes`, `Outcomes` | byte layouts shared by the above; `Option` and `Result` |

How the main results are stated:

* The devicetree search is a cursor loop over an `array` of bytes. Its specification is lookup on an
  abstract tree (`Fdt.Lookup`), connected by two intermediate forms: a flat token automaton (`Scan`)
  and a recursion over the tree (`Search`). In-place copies are byte patches proved equal to tree
  replacements, and encodings are proved uniquely decodable, so "the blob holds this tree" has one
  meaning.
* The writer's target is an object on which every operation may fail and a failed write may have
  landed any first part of its bytes. Its ghost `history` holds the contents after every single byte
  that landed, so a statement over the history is a statement about a crash at any moment; its ghost
  `ops` holds every write and sync with what was reported, so "the opening scrub" and "a closing scrub
  that failed" are facts about the device.
* Slot control, lease and publication are state machines; their invariants are proved for every step
  and then for every run. The publisher's remote keeps a ghost history in the same way.
* The comparator, the tokenizer, the I2C master and the touch tracker are loops or classes proved
  against functions that do not mention them, and the laws are proved about those functions.

Where a promise fails in a corner, the code is modelled as it is, an input that shows the failure is
given, and the exact condition is proved:

| promise | fails | holds exactly when |
|---|---|---|
| the room test of the boot stub admits a command line only if it fits | `DtbSwap.GuardCanFail`: a well-formed 4 GiB tree | `DtbSwap.RoomyExact` |
| `mkboot verify` passes only images that start with a packed image | `BootImage.VerifyAcceptsCutPadding` | `BootImage.VerifyExact` |
| a rewritten payload is accepted again | `Payload.RewriteCanFail`: a one-byte devicetree | `Payload.RewriteAcceptedIff` |
| a board whose lease is renewed in time stays alive | `Lease.RenewalCanBeLost`: parked 1 ns after a renewal | `Lease.KeptAliveExactly` |
| no pet comes later than 1800 s after the latest renewal | `Lease.LateSeenPets`, `Lease.LateUnseenPets` | `Lease.PetsInTimeExactly` |
| a register read ends on an idle bus | `I2c.Master.RegRead` with no byte asked for | the same contract |
| a later run repairs `latest` after a run that was cut off | `Publish.Run`, `Publish.Series`: a jammed `latest` is never changed again | `Publish.Rolling`: exactly which cuts jam it |

The windows of the last row: from the creation of `latest` until its manifest is in, between the deletion
and the upload of `PROVENANCE`, and between the deletion and the upload of `SHA256SUMS`.

Code and comment disagree in one place: the comment of `parse_hex` says that surrounding whitespace is
ignored, while the loop ignores it anywhere. The model follows the loop (`SlotCtl.BlanksIgnored`).

## Model

| member | source | states |
|---|---|---|
| `Fdt.First` | boot/dtbswap/main.c:126-130 | the index returned selects an entry and none before it does; the length of the list exactly when none does |
| `Fdt.EncodeIsFlat` | boot/dtbswap/main.c:140-171 | the recursive encoding of any tree, at any depth and with NOPs anywhere, is the concatenation of its tokens |
| `Fdt.ScanItems` | boot/dtbswap/main.c:138-171 | the depth/inside automaton stops where the recursive search of the tree stops, and otherwise leaves a subtree with both variables as they were |
| `Fdt.SearchIsFirst` | boot/dtbswap/main.c:149-165 | the recursive search finds exactly the first entry of the property list that is called `prop` and sits directly in a top-level `node` or `node@...` |
| `Fdt.ScanIsLookup` | boot/dtbswap/main.c:131-173 | the automaton over a whole tree is declarative lookup |
| `Fdt.ExampleBlock` | boot/dtbswap/main.c:140-170 | the tokens byte for byte, on the smallest tree with a property |
| `FdtEdit.ReplaceProperties` | boot/dtbswap/main.c:190 | replacing one value by one of the same length changes that entry of the property list and nothing else, offsets included |
| `FdtEdit.ReplaceEncode` | boot/dtbswap/main.c:190 | overwriting the data bytes of a property in the encoding gives the encoding of the tree with that value replaced |
| `FdtEdit.DecodeUnique` | boot/dtbswap/main.c:140-171 | no two trees share an encoding, whatever end marker follows |
| `FdtEdit.BlockUnique` | boot/dtbswap/main.c:135-136 | a structure block determines its tree |
| `FdtFind.StrEq` | boot/dtbswap/main.c:120-124 | true exactly when the C string in memory is the given name |
| `FdtFind.StrLen` | boot/dtbswap/main.c:144-146 | the length of the node name at the cursor |
| `FdtFind.MatchNode` | boot/dtbswap/main.c:149-154 | true exactly when the name is `node` or starts with `node@` |
| `FdtFind.Find` | boot/dtbswap/main.c:131-173 | for every well-formed blob: the address and length of the property that lookup on the abstract tree finds, and null exactly when there is none |
| `DtbSwap.SetFirstLookup` | boot/dtbswap/main.c:182-192 | after setting one property it reads as the new value, every property of another name is found as before, and one entry of the list changed |
| `DtbSwap.PatchBlob` | boot/dtbswap/main.c:190 | a blob whose property data is overwritten is again a well-formed blob, holding the changed tree |
| `DtbSwap.PatchView` | boot/dtbswap/main.c:190 | the same for a blob inside memory |
| `DtbSwap.MemCpy` | boot/dtbswap/main.c:114-118 | the destination range becomes the old source range and no other byte changes |
| `DtbSwap.CopyExact` | boot/dtbswap/main.c:182-192 | succeeds exactly when both trees have the property with one length; then our property has the bootloader's value, and otherwise memory is unchanged |
| `DtbSwap.CopyBootargs` | boot/dtbswap/main.c:240-258 | for every pair of trees on which the room test decides rightly: succeeds exactly when the command line, the extra flags and a NUL fit; then the property holds them zero-filled, and otherwise memory is unchanged |
| `DtbSwap.FillBootargs` | boot/dtbswap/main.c:253-256 | the three writes together replace the property data by command line, flags and zeros |
| `DtbSwap.FilledReads` | boot/dtbswap/main.c:253-256 | read as a C string the new property is the bootloader's command line followed by the flags: nothing truncated, nothing running on |
| `DtbSwap.GuardExact` | boot/dtbswap/main.c:250-251 | for all 32-bit lengths the room test decides as the true sum would if and only if the sum does not wrap or the test refuses anyway |
| `DtbSwap.RoomyExact` | boot/dtbswap/main.c:243-252 | for any two trees, a command line is admitted exactly when it fits if and only if `Roomy` holds, the condition the copies ask for |
| `DtbSwap.BlobOfIsBlob` | boot/dtbswap/main.c:131-137 | every tree with its names that fits into 4 GiB has a well-formed blob |
| `DtbSwap.GuardCanFail` | boot/dtbswap/main.c:250-252 | a well-formed bootloader tree whose command line is admitted into every property there is and fits into none |
| `DtbSwap.SetInKeeps` | boot/dtbswap/main.c:284-302 | one copy keeps the blob well-formed in place, keeps what every other query selects, and changes one value of the list |
| `DtbSwap.SwapChangesFour` | boot/dtbswap/main.c:284-302 | the swapped tree has the bootloader's four values, no later copy disturbed an earlier one, and every other entry is as it was, in order and offset |
| `DtbSwap.BootargsSpelled` | boot/dtbswap/main.c:243-244 | the command line is the property bootargs of chosen, by their characters (likewise `DtbSwap.InitrdStartSpelled`, `DtbSwap.InitrdEndSpelled`, `DtbSwap.MemorySpelled`) |
| `DtbSwap.Stub.Swap` | boot/dtbswap/main.c:284-306 | all four copies succeed exactly when all values exist and fit; only our blob changes; the number of bars is that of the first copy that cannot be made, or eight |
| `DtbSwap.Stub.Boot` | boot/dtbswap/main.c:260-307 | on every path the kernel is relocated intact, the bootloader's blob is byte-identical and nothing else is written; our tree is returned exactly when the swap can be done and then holds the swapped tree; every failure returns the bootloader's pointer and shows its own number of bars |
| `Streams.BufReader.Fill` | installer/gotools/internal/installd/installd.go:139-142 | refilling moves bytes from the socket to the buffer and loses none |
| `Streams.BufReader.ReadLine` | installer/gotools/internal/wire/wire.go:58 | a line through the first newline, or what was left; line and remaining stream are the old stream |
| `Streams.BufReader.Read` | installer/gotools/internal/imagewrite/imagewrite.go:75-85 | any split of the socket gives a prefix of the remaining stream and leaves the rest |
| `Wire.ParseIntDecimal` | installer/gotools/internal/wire/wire.go:72-76 | the decimal spelling of every non-negative 64-bit size parses to it |
| `Wire.ParseIntSigned` | installer/gotools/internal/wire/wire.go:72-76 | a sign is read, and exactly the values that fit a signed 64-bit number are accepted |
| `Wire.LineApplied` | installer/gotools/internal/wire/wire.go:57-93 | one header line is applied and reading goes on right behind it |
| `Wire.HeaderRoundTrip` | installer/gotools/internal/wire/wire.go:46-112 | a spelled header followed by any body reads back as that header with exactly the body left |
| `Wire.HeaderSound` | installer/gotools/internal/wire/wire.go:70-111 | every accepted header has a size of at least 8 MiB that fits 64 bits, a digest of 64 lower-case hex digits, and answers exactly when it is not unprovisioned; the body follows a newline of the stream |
| `Wire.ApplyExactly` | installer/gotools/internal/wire/wire.go:66-92 | a line is applied exactly when it has a `=`, one of the four keys and a value that key can have; it sets the field of its key and no other |
| `Wire.HeaderExactly` | installer/gotools/internal/wire/wire.go:46-112 | the header of a stream, both ways: magic line, only good lines up to a blank one, and the last value of each key; an unknown key, a line without `=`, a bad value, a missing or small size, a missing digest or missing answers is refused |
| `Wire.CrLfTolerated` | installer/gotools/internal/wire/wire.go:62 | a carriage return before the newline makes no difference |
| `Wire.ParseHeader` | installer/gotools/internal/wire/wire.go:46-112 | for every split of the stream the result is the header the text spells and the reader stands at the first byte of the body; on a socket that does not fail it is accepted exactly when the text spells one; on every path what is unread is the rest of the stream |
| `ImageWrite.Device.WriteAt` | installer/gotools/internal/imagewrite/imagewrite.go:42-46 | what a fallible write may do: every state on the way differs from the old contents only in a first part of the bytes given |
| `ImageWrite.Device.ReadAt` | installer/gotools/internal/imagewrite/imagewrite.go:42-46 | what a fallible read may return: device bytes from the offset, short only with an error |
| `ImageWrite.Hashed.ReadFull` | installer/gotools/internal/imagewrite/imagewrite.go:75-85 | exactly the bytes asked for or an error; the bytes hashed are the bytes taken, never beyond the limit |
| `ImageWrite.Scrub` | installer/gotools/internal/imagewrite/imagewrite.go:154-160 | success leaves the window zero; a window that is zero stays zero at every step even when the scrub fails |
| `ImageWrite.CopyAt` | installer/gotools/internal/imagewrite/imagewrite.go:163-186 | the bytes taken from the source are the bytes written at the offset, and at no step does anything outside the range change |
| `ImageWrite.ReadBack` | installer/gotools/internal/imagewrite/imagewrite.go:188-210 | a result is the digest of the first `size` bytes of the device |
| `ImageWrite.Receive` | installer/gotools/internal/imagewrite/imagewrite.go:79-104 | until the transfer check a zero window stays zero at every step; success means the whole image was received with the declared digest and its rest is on the device |
| `ImageWrite.Commit` | installer/gotools/internal/imagewrite/imagewrite.go:106-137 | only the window changes; success means superblock written and synced last and the device reading back with the digest; a failure leaves the window zero unless the last operation is a failed zeroing |
| `ImageWrite.Transfer` | installer/gotools/internal/imagewrite/imagewrite.go:75-139 | from a zero window on, every moment has a zero window, or a good transfer with the rest of the image in place |
| `ImageWrite.Write` | installer/gotools/internal/imagewrite/imagewrite.go:61-140 | success: exactly `size` bytes consumed, their digest equal to the declared one and to the device's, the device holding them, superblock put in and synced last. Always: the first operation is the opening scrub, and if it is not reported to work nothing follows; from the moment it worked the window is zero after every byte that lands, unless the transfer is good and the rest of the image is there; an error leaves the window zero, unless the opening scrub failed, or the transfer was good and the last operation is a failed closing scrub; nothing past `size` changes. Without faults success is decided by the transfer alone |
| `Install.Serve` | installer/gotools/internal/installd/installd.go:139-189 | header and body through one reader on the connection: the image written is the part of the stream behind the header, and what the reader has left is the stream behind the image; the device is untouched, or left as crash- and error-safe as `Write` promises for the parsed header; without faults a session succeeds exactly when the header parses, the image fits and the transfer is good |
| `Install.InstallSession` | installer/gotools/internal/installd/installd.go:139-189 | for every split of header, image and rest, the image ends at offset 0 byte for byte, the partition behind it is untouched, and the rest is what the reader has left |
| `Crc32.Compute` | pmaports/device/testing/device-daylight-jagar/dc1-slotctl.c:77-90 | the nested loops compute the CRC-32 of section 8 of RFC 1952 |
| `Crc32.CheckValue` | pmaports/device/testing/device-daylight-jagar/dc1-slotctl.c:74-90 | the digits 123456789 give the published check value cbf43926, which fixes polynomial, bit order, initial value and complement |
| `Crc32.BitStepLinear` | pmaports/device/testing/device-daylight-jagar/dc1-slotctl.c:86-87 | one bit step distributes over XOR |
| `Crc32.BitStepInjective` | pmaports/device/testing/device-daylight-jagar/dc1-slotctl.c:86-87 | one bit step loses nothing |
| `Crc32.StepsLinear` | pmaports/device/testing/device-daylight-jagar/dc1-slotctl.c:85-87 | any number of bit steps distributes over XOR |
| `Crc32.StepsInjective` | pmaports/device/testing/device-daylight-jagar/dc1-slotctl.c:85-87 | any number of bit steps loses nothing |
| `Crc32.FeedWord` | pmaports/device/testing/device-daylight-jagar/dc1-slotctl.c:83-88 | four bytes fed one by one are one 32-step move of the register with the whole word mixed in |
| `Crc32.BurstDetected` | pmaports/device/testing/device-daylight-jagar/dc1-slotctl.c:77-90 | messages of any length that differ only inside four consecutive bytes have different checksums |
| `SlotCtl.SetSlotIn` | pmaports/device/testing/device-daylight-jagar/dc1-slotctl.c:190-193 | exactly one byte of the buffer changes, to the packed slot |
| `SlotCtl.ResealIn` | pmaports/device/testing/device-daylight-jagar/dc1-slotctl.c:210-213 | the last four bytes of the buffer become the checksum of the others |
| `SlotCtl.CheckBlock` | pmaports/device/testing/device-daylight-jagar/dc1-slotctl.c:133-165 | accepts exactly the blocks with magic, suffix, version, slot count and checksum right |
| `SlotCtl.Mutate` | pmaports/device/testing/device-daylight-jagar/dc1-slotctl.c:461-521 | guard, edit, survivability check and seal in one buffer accept and produce exactly what `SlotCtl.AcceptedExactly` and `SlotCtl.WrittenExactly` state |
| `SlotCtl.SlotByte` | pmaports/device/testing/device-daylight-jagar/dc1-slotctl.c:167-176 | a slot byte is priority in the low four bits, tries in the next three, the proven flag on top |
| `SlotCtl.SealMakesValid` | pmaports/device/testing/device-daylight-jagar/dc1-slotctl.c:133-165 | a sealed block is valid exactly when its suffix, magic, version and slot count are right, whatever else it holds |
| `SlotCtl.AcceptedExactly` | pmaports/device/testing/device-daylight-jagar/dc1-slotctl.c:464-515 | for every valid block, when each command is accepted, on the two slot bytes: `arm` exactly when the other slot is selected and proven, whatever the armed slot holds; ties select slot a |
| `SlotCtl.WrittenExactly` | pmaports/device/testing/device-daylight-jagar/dc1-slotctl.c:476-514 | the two slot bytes after each accepted command, as numbers |
| `SlotCtl.EditedSlots` | pmaports/device/testing/device-daylight-jagar/dc1-slotctl.c:464-515 | both slots after each command, field by field, through packing and unpacking |
| `SlotCtl.ExecKeepsValid` | pmaports/device/testing/device-daylight-jagar/dc1-slotctl.c:464-521 | every accepted command maps a valid block to a valid block and changes at most bytes 12, 14 and 28 to 31 |
| `SlotCtl.SurvivabilityExact` | pmaports/device/testing/device-daylight-jagar/dc1-slotctl.c:195-208 | the check never fires for a guarded `prefer` or `arm`, and for `mark-successful` exactly when both priorities are zero |
| `SlotCtl.RunKeepsValid` | pmaports/device/testing/device-daylight-jagar/dc1-slotctl.c:464-521 | a valid block stays valid over every sequence of commands and boot attempts |
| `SlotCtl.RunKeepsProven` | pmaports/device/testing/device-daylight-jagar/dc1-slotctl.c:464-521 | a block with a proven slot keeps one over every such sequence |
| `SlotCtl.ArmStartsTrial` | pmaports/device/testing/device-daylight-jagar/dc1-slotctl.c:478-500 | an accepted `arm` leaves its slot selected and unproven with the other proven behind it |
| `SlotCtl.TrialStep` | pmaports/device/testing/device-daylight-jagar/dc1-slotctl.c:484-498 | during a trial no slot can be armed, and only `mark-successful` of it or `prefer` of the other ends it |
| `SlotCtl.ArmRefusedDuringTrial` | pmaports/device/testing/device-daylight-jagar/dc1-slotctl.c:484-498 | the same over every sequence: each further `arm` of either slot is refused |
| `SlotCtl.ArmThenMark` | pmaports/device/testing/device-daylight-jagar/dc1-slotctl.c:478-515 | `arm s` then `mark-successful s` is accepted and ends with both slots proven |
| `SlotCtl.CycleContinues` | pmaports/device/testing/device-daylight-jagar/dc1-slotctl.c:478-515 | after `arm s` and `mark-successful s`, arming the other slot is accepted |
| `SlotCtl.SealDetectsBurst` | pmaports/device/testing/device-daylight-jagar/dc1-slotctl.c:157-163 | of two blocks with one stored checksum that differ only in four consecutive sealed bytes, at most one is valid |
| `SlotCtl.TornWriteDetected` | pmaports/device/testing/device-daylight-jagar/dc1-slotctl.c:271-312 | a block write cut off anywhere leaves the old block, the new block, or one that does not validate |
| `SlotCtl.Misc.Pwrite` | pmaports/device/testing/device-daylight-jagar/dc1-slotctl.c:287-291 | what a partition write may do: any number of the 32 bytes land, all of them on a reliable partition, and nothing else changes |
| `SlotCtl.Misc.RunCommand` | pmaports/device/testing/device-daylight-jagar/dc1-slotctl.c:454-532 | exit code 0 only when the block on the partition is what the command computes, and always for an accepted command on a dry run or when the write lands; refusals and dry runs write nothing; a failed write leaves a torn block and nothing else |
| `SlotCtl.ParseHex` | pmaports/device/testing/device-daylight-jagar/dc1-slotctl.c:316-355 | the loop accepts exactly 64 hex digits among blanks and yields the 32 bytes they spell |
| `SlotCtl.BlanksIgnored` | pmaports/device/testing/device-daylight-jagar/dc1-slotctl.c:325-326 | a blank anywhere in the text makes no difference |
| `SlotCtl.HexAcceptedExactly` | pmaports/device/testing/device-daylight-jagar/dc1-slotctl.c:325-354 | a text is accepted exactly when it holds hex digits of either case and blanks only, 64 digits in all |
| `SlotCtl.CaseIgnored` | pmaports/device/testing/device-daylight-jagar/dc1-slotctl.c:327-332 | the case of a digit makes no difference |
| `SlotCtl.HexRoundTrip` | pmaports/device/testing/device-daylight-jagar/dc1-slotctl.c:316-355 | the hex spelling of any block reads back as the block |
| `BootImage.Pad` | boot/mkboot/main.go:72-77 | less than a page, and completes the length to a multiple of it |
| `BootImage.CStr` | boot/mkboot/main.go:79-84 | the longest NUL-free beginning |
| `BootImage.PackBoot` | boot/mkboot/main.go:183-253 | packs exactly the accepted options, into header, pages and sections in order |
| `BootImage.Sections` | boot/mkboot/main.go:131-162 | the moving offset takes the same sections as the offsets computed from the header, or fails with them |
| `BootImage.HeaderRead` | boot/mkboot/main.go:86-128 | any data that starts with a packed header parses to the fields packed |
| `BootImage.SizesTruncate` | boot/mkboot/main.go:199-208 | the size fields of every packed header are the lengths modulo 2^32 |
| `BootImage.LegacyCopy` | boot/mkboot/main.go:233-238 | asked for, the command line is also at offset 64 when it fits the header, and no other byte of the image differs; when it does not fit, nothing does |
| `BootImage.RoundTrip` | boot/mkboot/main.go:131-253 | any data that starts with a packed image is read back to exactly the kernel, ramdisk, signature, command line and header it was packed from |
| `BootImage.ImageUnique` | boot/mkboot/main.go:183-253 | no packed image is a beginning of another, so decoding is unique |
| `BootImage.Verify` | boot/mkboot/main.go:345-383 | passes exactly when the rebuild agrees with the file as far as both reach |
| `BootImage.VerifyExact` | boot/mkboot/main.go:345-383 | a file at least as long as its rebuild passes if and only if it starts with some packed image, and that image is its rebuild |
| `BootImage.VerifyAcceptsCutPadding` | boot/mkboot/main.go:372-375 | a file cut off inside its last padding passes although it starts with no packed image |
| `Payload.SectionsSelect` | scripts/kernel-local-install.py:50-71 | what `unpack` accepts `mkboot` parses as version 4, selecting the same payload, ramdisk and signature bytes |
| `Payload.InnerSelects` | scripts/verify-kernel-artifacts.py:41-58 | what `unpack` accepts the artifact verifier accepts, selecting the same kernel bytes |
| `Payload.ReadersAgree` | scripts/kernel-local-install.py:50-71 | every image the updater accepts (`Payload.UnpackExactly`) is accepted by all three readers, and they select the same bytes |
| `Payload.UnpackExactly` | scripts/kernel-local-install.py:50-71 | the updater accepts an image if and only if the fields and sections `mkboot` reads are those it asks for (version 4, this OS version, sizes, signature page, magics, payload table), and takes exactly these sections |
| `Payload.PackedIsAccepted` | scripts/kernel-local-install.py:50-71 | every packed image with such parts, with anything behind it, is accepted with exactly its parts; with any other OS version it is refused |
| `Payload.InnerExactly` | scripts/verify-kernel-artifacts.py:41-58 | the artifact verifier finds a kernel if and only if the first section holds a payload that carries it behind a devicetree |
| `Payload.Rewrite` | scripts/kernel-local-install.py:390-394 | the in-place patches give the old payload up to the kernel, the new kernel, and both length fields; a kernel too long for its field is an error |
| `Payload.RewriteKeeps` | scripts/kernel-local-install.py:390-394 | the rewritten payload keeps the devicetree bytes, their offset and every byte before the kernel but the two length fields, which then read right, and holds exactly the new kernel |
| `Payload.RewriteAcceptedIff` | scripts/kernel-local-install.py:63-67 | it is accepted again if and only if the kernel is not empty and supplies the magic bytes that overhang into it; with a devicetree of four bytes or more none do |
| `Payload.RewriteCanFail` | scripts/kernel-local-install.py:63-67 | an accepted payload whose rewrite with a kernel that carries the arm64 magic is refused |
| `ApkVersion.SpanEnd` | scripts/apk_version_compare.py:91-95 | the end of the longest run of characters of one class |
| `ApkVersion.ParseNumbers` | scripts/apk_version_compare.py:97-114 | the front loop either refuses a text the grammar refuses or stands where the rest of the text decides the result |
| `ApkVersion.ParseSuffixes` | scripts/apk_version_compare.py:119-131 | the same for the suffix loop, with nothing left that it should have taken |
| `ApkVersion.ParseEnd` | scripts/apk_version_compare.py:142-153 | the revision and the end decide as the grammar does |
| `ApkVersion.ParseVersion` | scripts/apk_version_compare.py:78-153 | the phase loops compute the token-by-token parse |
| `ApkVersion.PrintUndoesParse` | scripts/apk_version_compare.py:78-153 | printing the tokens of an accepted string gives it back, and they obey the grammar |
| `ApkVersion.ParseUndoesPrint` | scripts/apk_version_compare.py:78-153 | every stream of the grammar prints to a string that parses to it |
| `ApkVersion.ParseExact` | scripts/apk_version_compare.py:78-153 | accepted strings are exactly the prints of the grammar, and no two share a token stream |
| `ApkVersion.GrammarIsRegular` | scripts/apk_version_compare.py:97-153 | the grammar is: a number, dotted numbers, at most one letter, suffixes each with a number or without, at most one hash, at most one revision |
| `ApkVersion.SuffixOrder` | scripts/apk_version_compare.py:42-55 | the nine suffixes in order, the pre-release ones below the bare version and the others above, and no others |
| `ApkVersion.DecListed` | scripts/apk_version_compare.py:70-71 | the decimal digits, one by one (likewise `ApkVersion.HexListed`) |
| `ApkCompare.LexLaws` | scripts/apk_version_compare.py:156-164 | lexicographic order on keys flips its sign with its arguments and is zero only on equals |
| `ApkCompare.LexTransitive` | scripts/apk_version_compare.py:156-164 | it is transitive, strictly when one step is |
| `ApkCompare.LexKeysLaws` | scripts/apk_version_compare.py:187-220 | the same sign law for sequences of keys |
| `ApkCompare.LexKeysTransitive` | scripts/apk_version_compare.py:187-220 | the same transitivity for sequences of keys |
| `ApkCompare.DottedKey` | scripts/apk_version_compare.py:156-164 | the mixed rule for dotted numbers (bytes when either side has a leading zero, else the value modulo 2^64) is an order on one key |
| `ApkCompare.TokenCmpIsKeys` | scripts/apk_version_compare.py:167-184 | comparing two tokens of a kind is comparing their keys |
| `ApkCompare.CompareTokens` | scripts/apk_version_compare.py:194-220 | the walk with its divergence rules is lexicographic order on keys, with pre-suffix < end < revision < hash < suffix number < post-suffix < letter < dotted number |
| `ApkCompare.Compare` | scripts/apk_version_compare.py:187-220 | fails exactly when a string is not a version, and otherwise gives their order, whose meaning the following rows state |
| `ApkCompare.NumberOfSpelling` | scripts/apk_version_compare.py:163 | the digits of every number, spelled by division, read as that number |
| `ApkCompare.DigitsDecide` | scripts/apk_version_compare.py:160-164 | of two numbers without leading zero the one with more digits is greater, of equally many the one whose text is |
| `ApkCompare.KindDecides` | scripts/apk_version_compare.py:206-220 | where two versions first differ in kind, the higher kind is newer: pre-suffix, revision, hash, suffix number, post-suffix, letter, dotted number |
| `ApkCompare.DottedDecides` | scripts/apk_version_compare.py:174-175 | where they first differ in dotted numbers below 2^64 without leading zero, the one with more digits is newer, of equally many the greater text |
| `ApkCompare.ZeroDecides` | scripts/apk_version_compare.py:160-162 | with a leading zero on either side, the greater text is newer |
| `ApkCompare.ValueDecides` | scripts/apk_version_compare.py:172-173 | initial numbers, suffix numbers and revisions decide by value modulo 2^64 |
| `ApkCompare.WrapsAround` | scripts/apk_version_compare.py:163-164 | in these places n and n + 2^64 make no difference |
| `ApkCompare.TextDecides` | scripts/apk_version_compare.py:176-183 | letters decide as letters, suffixes by rank, hashes as texts |
| `ApkCompare.NumbersOrderVersions` | scripts/apk_version_compare.py:187-220 | for all positive n and m below 2^64, `1.n` and `1.m` are ordered as n and m: 1.9 is older than 1.10 |
| `ApkCompare.OrderIsTotalPreorder` | scripts/apk_version_compare.py:187-220 | on all versions the comparison is total, antisymmetric in sign and transitive, and equality is equality of keys |
| `ApkCompare.KeysPrefix` | scripts/apk_version_compare.py:206-220 | a stream is below each of its continuations, unless that starts with a pre-release suffix |
| `ApkCompare.LongerIsNewer` | scripts/apk_version_compare.py:209-220 | a version whose tokens continue another's is newer, and older exactly when the next token is a pre-release suffix |
| `ApkCompare.IndexMax` | scripts/apk_version_compare.py:227-243 | the first of the greatest versions recorded for the package, nothing when none is, an error exactly when one does not parse |
| `ApkCompare.RecordedExactly` | scripts/apk_version_compare.py:233-239 | a version is recorded for a package exactly when a version line has it and the nearest package line above names the package |
| `I2c.ByteRoundTrip` | tools/i2cbb/i2cbb.c:116-138 | the eight bits of a byte assemble to the byte |
| `I2c.MsbFirst` | tools/i2cbb/i2cbb.c:116-117 | the first bit on the wire is the most significant one, the last the least |
| `I2c.SetSdaLow` | tools/i2cbb/i2cbb.c:39-57 | driving or releasing SDA under a low clock is no event for the monitor and nothing for the slave |
| `I2c.StartEdge` | tools/i2cbb/i2cbb.c:96-98 | pulling SDA low under a high clock is a START for the monitor and for the slave |
| `I2c.StopEdge` | tools/i2cbb/i2cbb.c:107-108 | releasing SDA under a high clock is a STOP, unless the slave holds the line; then it is nothing |
| `I2c.Master.SclHigh` | tools/i2cbb/i2cbb.c:81-90 | the clock has risen on return exactly when the slave stretched it for at most 1001 polls |
| `I2c.RiseBit` | tools/i2cbb/i2cbb.c:81-90 | a rising clock is one bit for the monitor and one sample for the slave, and leaves SDA alone |
| `I2c.FallQuiet` | tools/i2cbb/i2cbb.c:92 | a falling clock is no event for the monitor, however the slave then moves SDA |
| `I2c.Master.BbStart` | tools/i2cbb/i2cbb.c:94-101 | the monitor sees one START more, from an idle bus or repeated, and the slave waits for its address |
| `I2c.Master.BbStop` | tools/i2cbb/i2cbb.c:103-110 | the bus is idle after it, and the monitor sees a STOP, exactly when the slave lets SDA go |
| `I2c.Master.BbWriteByte` | tools/i2cbb/i2cbb.c:112-127 | the monitor decodes exactly the byte and the slave's answer, which is what is returned; a listening slave heard that byte |
| `I2c.Master.BbReadByte` | tools/i2cbb/i2cbb.c:129-146 | the value returned is the byte the slave drove, and the monitor decodes it with the master's answer |
| `I2c.Master.Probe` | tools/i2cbb/i2cbb.c:148-156 | the trace decodes to START, the address byte, STOP and nothing else, on an idle bus; the result is the acknowledge |
| `I2c.Master.RegWrite` | tools/i2cbb/i2cbb.c:180-188 | the trace decodes to START, the bytes up to the first refusal, STOP; the slave heard exactly those; success exactly when all three were acknowledged |
| `I2c.Master.ReadBytes` | tools/i2cbb/i2cbb.c:171-172 | the bytes the slave drove, all acknowledged but the last |
| `I2c.Master.RegRead` | tools/i2cbb/i2cbb.c:159-178 | the bytes the slave drove, or -1 exactly on a refusal; the whole trace decodes to the read transaction; the bus ends idle except exactly when no byte is asked for and the slave holds its first bit low |
| `Touch.TouchTracker.SharesId` | tools/hwtest/input.go:668-675 | true exactly when two slots share a tracking ID |
| `Touch.TouchTracker.Observe` | tools/hwtest/input.go:646-707 | every field after an event, whose meaning over whole sequences `Touch.FlaggedExactly` states |
| `Touch.SoundStep` | tools/hwtest/input.go:646-707 | every event keeps the tracked contacts a part of the device's, the slot right when known, and the peak within bounds |
| `Touch.NeverOverCounts` | tools/hwtest/input.go:631-707 | for every unknown initial device state and every event sequence, an unflagged tracker has only real contacts and a peak no larger than the largest count at a frame |
| `Touch.ExactWhenNothingMissed` | tools/hwtest/input.go:631-707 | on an honest device with no tracking ID missed the tracker is exact, and none was missed when it counted no unknown ID |
| `Touch.FlaggedExactly` | tools/hwtest/input.go:646-707 | for every unknown start and every sequence, on the events alone: the tracker is flagged if and only if there was a touch value other than 0 and 1, a slot out of range or an ID below -1 once synchronized, or a touched frame with an ID in two slots; its synchronization, touch state, contacts and count of unplaced IDs are what the events say |
| `Touch.ExactOnProperDevice` | tools/hwtest/input.go:631-707 | on a device that keeps to the protocol the tracker is never flagged, and exact while no ID was unplaced |
| `Lease.LeaseFresh` | installer/gotools/internal/systeminit/decide.go:55-66 | holds exactly when there is a lease and no usable clock shows it more than 1800 s old |
| `Lease.RunKeeps` | installer/gotools/internal/systeminit/systeminit.go:331-381 | every interleaving keeps the lease, the deadman, the petter's knowledge and its log consistent |
| `Lease.StopsOnlyWhenExpired` | installer/gotools/internal/systeminit/systeminit.go:347-367 | in every run the petter stops only on a reading of the lease expired by more than 1800 s; it arms fastboot directly before, and does nothing afterwards |
| `Lease.PetsOnlyWhileFresh` | installer/gotools/internal/systeminit/systeminit.go:348-374 | in every run, a pet after a seen deadman comes no later than 1800 s after the latest renewal plus the time since the petter read the clock |
| `Lease.DeadmanImpliesLease` | installer/gotools/internal/systeminit/systeminit.go:424-434 | in every run the deadman is armed only when a lease exists |
| `Lease.TurnIsExact` | installer/gotools/internal/systeminit/decide.go:55-66 | without interference the petter pets exactly when at most 1800 s have passed since the latest renewal, and goes on to stop otherwise |
| `Lease.RenewalCanBeLost` | installer/gotools/internal/systeminit/systeminit.go:378-381 | whenever lease age and reading gap together exceed 1800 s, a run within both in which the board is parked, one nanosecond after a renewal in time |
| `Lease.KeptAliveExactly` | installer/gotools/internal/systeminit/systeminit.go:347-381 | with a lease never older than `age` while the deadman is armed and at most `gap` between reading the lease and reading the clock, no run stops if and only if `age + gap` is at most 1800 s (or no time passes at all) |
| `Lease.LateSeenPets` | installer/gotools/internal/systeminit/systeminit.go:348-374 | a run with turns of at most `d` and a pet 1800 s and `d` after the latest renewal, the deadman seen |
| `Lease.LateUnseenPets` | installer/gotools/internal/systeminit/systeminit.go:348-374 | the same with a deadman armed between the look and the pet |
| `Lease.PetsInTimeExactly` | installer/gotools/internal/systeminit/systeminit.go:347-375 | with turns of at most `d`, every pet under an armed deadman, seen or not, comes within `b` of the latest renewal in every run if and only if `b` is at least 1800 s and `d` |
| `Lease.PetsApart` | installer/gotools/internal/systeminit/systeminit.go:374 | in every run, pets are at least ten seconds apart |
| `Lease.PetsAgain` | installer/gotools/internal/systeminit/systeminit.go:347-375 | however the others' steps fall in between, a petter due to wake on a board that is kept alive has petted again after five turns of its own |
| `Lease.NextPetOnTime` | installer/gotools/internal/systeminit/systeminit.go:368-374 | undisturbed and without deadman, the next pet comes exactly ten seconds after the last |
| `Publish.GitHub.Commit` | scripts/publish-release.py:51-56 | one change of the remote, or none when the run is cut off; a safe history stays safe |
| `Publish.DraftSafe` | scripts/publish-release.py:98-109 | any change of a draft is safe, and publishing it is when it is complete |
| `Publish.LatestSafe` | scripts/publish-release.py:131-140 | which changes of `latest` are safe: losing files, provenance of a build no lower than any before, a manifest that completes the set |
| `Publish.Upload` | scripts/publish-release.py:76-79 | a replaced asset is deleted and put in two changes, each of them safe; nothing but that asset changes; cut off between the two it is missing |
| `Publish.UploadData` | scripts/publish-release.py:131-133 | every file but the manifest is on the release afterwards, whatever else it held, after exactly the changes that takes; cut off, the provenance file is missing exactly right after its deletion |
| `Publish.Prune` | scripts/publish-release.py:81-84 | the assets left are exactly the old ones with a name of this run |
| `Publish.Fill` | scripts/publish-release.py:103-104 | the draft holds exactly the run's files, after exactly the changes that takes |
| `Publish.Finish` | scripts/publish-release.py:105-109 | the release is out from this commit with exactly the run's files, its tag pointing at the commit |
| `Publish.Renew` | scripts/publish-release.py:103-109 | a draft of this run ends up out with exactly the run's files, or the run was cut off |
| `Publish.Retained` | scripts/publish-release.py:86-109 | success means the retained release is out; a release that is out, a foreign draft or a foreign tag is never changed; every other release is untouched; a release that can be resumed is published exactly when the run has enough changes left, and can be resumed again otherwise |
| `Publish.Refill` | scripts/publish-release.py:130-135 | the manifest of `latest` goes in when all other files of the run are there and no foreign one is; cut off, it leaves a readable `latest` unreadable at exactly two counts of changes, and an empty one until the manifest is in |
| `Publish.Rolling` | scripts/publish-release.py:111-140 | success means `latest` is this run's build, all of it, or unchanged because it is newer; a jammed `latest` (no manifest, no provenance, or no readable number) is never changed; any other, if it passes the version check, is advanced exactly when the run has enough changes left; a cut jams it exactly at the counts of changes in `Jams`, known before the run |
| `Publish.PublishedForever` | scripts/publish-release.py:92-97 | in every history a retained release once published is the same ever after |
| `Publish.PublishedComplete` | scripts/publish-release.py:103-109 | a release published along the way holds exactly the files of its manifest, with its digests |
| `Publish.BuildNeverDrops` | scripts/publish-release.py:113-119 | the build number of `latest` never decreases between two readings, whatever crashed in between |
| `Publish.ManifestArrived` | scripts/publish-release.py:130-135 | a manifest at `latest` was there from the start or arrived in one change, when exactly the files it lists were there, and stayed |
| `Publish.Run` | scripts/publish-release.py:143-153 | a run comes to its end if and only if its files pass the checks, its retained release is out or can be finished, `latest`, if asked for and not newer, is readable and passes the version check, and it is not cut off before the changes it takes, counted in advance; then the retained release is out and `latest`, if asked for and not newer, is this build; without that request only its own tag changes |
| `Publish.AdvanceDecides` | scripts/publish-release.py:113-129 | for a `latest` that shows build n, or none: a greater n preserves it, otherwise the version check on its manifest decides |
| `Publish.FirstRunSucceeds` | scripts/publish-release.py:98-122 | the first run on an empty remote succeeds with as many changes as two uploads of its files and six more |
| `Publish.SignedIsAccepted` | scripts/publish-release.py:29-49 | files with a manifest of exactly their digests and a provenance file with the build number pass the first check |
| `Publish.TamperedIsRefused` | scripts/publish-release.py:34-46 | one file changed, missing or added, and they do not |
| `Publish.Series` | scripts/publish-release.py:143-153 | any series of runs, each cut off anywhere: published releases unchanged, new ones complete, the build number of `latest` not lower, a jammed `latest` the same at the end; each run succeeded exactly when it had to, from the state the one before it left; after a last run that succeeded its release is out and `latest`, if asked for, is its build or a newer one |

## Left out

- DtbSwap.CopyBootargs: asks for trees on which the 32-bit room test decides rightly, the exact condition of `DtbSwap.RoomyExact`; where it does not, the original overwrites memory behind the property, which is not modelled. `DtbSwap.Stub.Swap` and `DtbSwap.Stub.Boot` ask for the same.
- FdtFind.Find: malformed blobs are not covered (the C code has no bounds checks), padding bytes are taken to be zero, and the signed `depth` counter does not overflow.
- DtbSwap.Stub.Boot: pixels and the trace words are reduced to the bar count and the step; the assembly entry, caches and MMU are not modelled; memory regions are disjoint as far as the stub writes.
- Lease.StopsOnlyWhenExpired: speaks of the petter's own reading; what an operator can rely on is `Lease.KeptAliveExactly`.
- Lease.PetsOnlyWhileFresh: speaks of pets after a seen deadman; all pets are in `Lease.PetsInTimeExactly`.
- Install.Serve: answers validation, partition lookup and the install lock are one refusing parameter; finalization and replies to the host are not modelled; the partition size is the length of the device.
- ImageWrite.Write: the page cache, the global sync and progress reports; SHA-256 is a parameter, window and chunk size are parameters.
- Wire.ParseHeader: base64 is a parameter; error texts are not modelled.
- SlotCtl.RunKeepsProven: the only bootloader step is an explicit assumption, one attempt that decrements the tries of the selected unproven slot.
- SlotCtl.Misc.RunCommand: option parsing, `status` output, locating the partition, fsync and open failures other than a partition that is too short.
- BootImage.PackBoot: command line handling, arm64 image inspection, the MediaTek partition header and the AVB tail report of the same tool.
- Payload.ReadersAgree: gzip is a parameter; package checks, kernel banners and the repack script are not modelled.
- ApkCompare.IndexMax: the index arrives as a sequence of lines; line splitting is not modelled.
- ApkVersion.ParseVersion: `isalpha` is ASCII here; a suffix name with any other letter is refused in both, by the table in the original and by the leftover check here.
- I2c.Master.RegRead: the transaction level assumes a slave that stretches no clock beyond 1001 polls (`I2c.Master.SclHigh` covers the rest); ioctls and real time are not modelled.
- Touch.TouchTracker.Observe: axis coverage (`x`, `y`) is not modelled.
- Publish.Run: the exact patterns of tag, commit and file names are reduced to "the tag is not `latest`"; network errors are cut-offs; the version check script is a parameter; nobody else changes the remote.
- Publish.Finish: that taking a draft out of draft creates a missing tag at the draft's target is an assumption about GitHub.
- The petter's opening of the watchdog device, its test-only exit and the C init.
- The GTK manager, the on-screen keyboard, hardware tests other than the touch tracker, performance tools and shell scripts.
