# Verified model of the TF-M boot stages, manifest tool, log formatter and C runtime copies

This project models five parts of Trusted Firmware-M in Dafny and proves what they are for:

1. **BL1_2** – the immutable second boot stage. It decrypts and signature-checks a BL2 image on the first boot, binds
   it to the device (a MAC tag, or CCM re-encryption streamed back into flash through a sector read-modify-write
   writer), and on later boots checks the tag, decrypting in place. The main results: the stream writer refines a slice
   overwrite; a bound image is accepted and restored by the next boot; over any run of boots with arbitrary flash
   contents in between, nothing is started whose protected values were not checked in this or an earlier boot or whose
   counter is below an NV counter seen so far; without faults the outcome is decided by what flash holds; an image built
   by the host tool boots.
2. **The BL2 flash map layer** – unaligned reads and writes on an aligned driver refine slice and overwrite.
3. **The manifest tool** – cycle check, dependency scores and load order, stateless handles, partition IDs, signals,
   client ID ranges.
4. **The log formatter** – a 32-byte flushing buffer refines a pure rendering.
5. **`memcpy` and `memset`** – word-wise forms refine byte loops.

## How the model is built

- Storage is a sequence of bytes. `Bytes.Patch(s, at, p)` is `s` with a slice overwritten, and most contracts say what
  memory is *after* in terms of `Patch` of what it was *before*.
- `FlashDevice.Flash` is a CMSIS flash driver. Reading returns a slice; erasing sets a sector to the erased value;
  programming combines old and new cells by a cell rule about which only two things are known: an erased cell takes the
  data, and programming a cell with its own value keeps it. A negative return leaves the addressed range arbitrary.
  `countsItems` says whether a success returns the item count or 0, since callers in `bl1/bl1_2/lib/image.c` disagree.
- Faults are nondeterministic. Every contract states safety for all outcomes; a `reliable` flag marks devices without
  faults and is used for the converse, that an operation *does* succeed. What else a boot needs for that, in build
  options and sizes, is listed in `BootMachine.Device.SuitableMeans`. `Bytes.SameOutside` bounds what a failure may
  change: all bytes before and behind a range are kept (`Bytes.OutsideKept`).
- A predicate that several contracts share has a lemma beside it that says what it means in constants and in bytes
  (`...Means`, `...Cases`, `...Bytes`), so that the contracts can be read without the definitions.
- Cryptography is a value holding functions: a lawful CCM (lengths kept, `open` undoes `seal`, prefixes kept), a CTR
  block function, a signature check, a hash and a CMAC. Forgery is never assumed away: safety reads "checked, or a tag
  verifies that was never issued".
- `BootMachine.History` records what happened on a device: the images whose signatures were accepted, the tags issued
  and the images started. Every contract states exactly how it grows, and `Device.Valid` says that it is safe.
- `bl1_2_image_t` is an `ImageLayout.Layout`: offsets of IV, tag, signatures and protected values, for all four
  combinations of encryption and binding.

## What the proofs found

- `flash_area_write` passes `src` instead of `src + src_written_idx` to the middle program call. `FlashWrite.Effective`
  is what it really programs; `FlashWrite.FaithfulIff` shows it programs the source for every content if and only if the
  offset is unit-aligned or less than one unit is left after the head.
- The stream writer expects a byte count from partial sectors but `ARM_DRIVER_OK` from whole sectors, so one driver
  convention fails: `BindStream.Storable` is the exact condition, proved both ways.
- `copy_image` drops the return value of the flash read; RAM is then whatever it was, and safety rests on the later checks.
- The memory-mapped `copy_image` copies `BL2_CODE_SIZE + BL2_HEADER_SIZE` bytes, and `BL2_HEADER_SIZE` is not the size of
  the image's own header. RAM becomes the image exactly if that length reaches the image's end (`BootImage.CopyWholeIff`);
  with the default sizes, and `BL2_CODE_SIZE` equal to the size of the image's data, it never does
  (`BootImage.DefaultCopyIsShort`). Claims that an image *is* accepted carry this guard.
- If every signer is MIGHT_SIGN an image without a valid signature is accepted (`SignaturePolicy.UnsignedPassesIff`).
- A CCM tag that happens to be all zero reads as "not bound", so the next boot decrypts ciphertext again. `TwoBoots` says
  exactly when the next boot succeeds, `BootMachine.BootsOnlyOnce` is a device on which it does not. The MAC variant has
  no such exception.
- The dependency score is one plus the sum over dependencies; the tool's own description omits the one. The 0xFF mask
  is harmless for every graph of n partitions if and only if n is at most 8 (`LoadOrder.MaskHarmlessIff`).
- The cycle check and the score use different owners when two partitions offer the same service name: the check can pass
  on a graph where the score never terminates. The same happens when two partitions have the same name, as the later one
  takes over the row of the earlier. The check guards the score, for all dependency lists, exactly if no service name is
  offered twice and no partition that offers a service has a namesake further down (`Dependencies.CheckGuardsIff`).
- A `flash_area_erase` that passed the range check can erase beyond its area (`FlashWrite.EraseStaysInsideIff`).
- Automatic partition IDs enter the reserved range below 256 exactly when there is a manual ID and the highest one is
  below 255 (`PidSignals.AutomaticAvoidsReservedIff`).
- Client ID `-0` is accepted as 0, which is not negative, and the lowest ID has no minus spelling
  (`ClientId.EdgeSpellings`).
- The formatter's result counts the last partial chunk twice (`LogFormatter.Vprintf`).
- `memset` with a value outside 0..255 is a byte fill exactly when no word is stored or the upper bytes add no bits to
  the low byte (`CrtMem.SetIsFillIff`).

## Model

| member | source | states |
|---|---|---|
| `FlashDevice.Flash.ReadData` | bl2/src/flash_map.c:190-233 | an accepted read is exactly a slice; a failed one changes nothing outside the destination |
| `FlashDevice.Flash.ProgramData` | bl1/bl1_2/lib/image.c:103-112 | an accepted call combines data into the addressed cells only |
| `FlashDevice.Flash.EraseSector` | bl1/bl1_2/lib/image.c:184-188 | one aligned sector becomes erased and nothing else changes |
| `BindWriter.ProgramUnits` | bl1/bl1_2/lib/image.c:103-112 | success means the whole buffer was programmed and every step returned the wanted code; failure stays inside the range |
| `BindWriter.ProgramBufferAligned` | bl1/bl1_2/lib/image.c:93-112 | success only for aligned start and length and a counting driver, then the buffer is programmed; succeeds on erased cells |
| `BindWriter.RewriteTagSector` | bl1/bl1_2/lib/image.c:171-196 | rewriting the sector changes only the tag bytes inside it |
| `BindWriter.StoreBindingTag` | bl1/bl1_2/lib/image.c:114-213 | through all three paths, success leaves flash equal to the old flash with only the 16 tag bytes replaced; with the same tag already there neither flash nor RAM changes; sectors above 4096 bytes are rejected with nothing changed |
| `BindWriter.UpdatePatchSectorRam` | bl1/bl1_2/lib/image.c:221-268 | success overwrites exactly the patch; failure stays inside the sector |
| `BindStream.BindContext.Begin` | bl1/bl1_2/lib/image.c:270-295 | rejected exactly when the sector buffer is too small, else the cursor is at the region base and nothing is written |
| `BindStream.SliceBounds` | bl1/bl1_2/lib/image.c:311-347 | every pass takes at least one and at most the remaining bytes and ends at a sector boundary or at the end: the loop terminates |
| `BindStream.StorableMeans` | bl1/bl1_2/lib/image.c:311-368 | what the writer can store at all: with a driver that counts items, nothing that holds a whole sector; with the other kind, whole sectors only |
| `BindStream.UnstorableSector` | bl1/bl1_2/lib/image.c:311-368 | what a counting driver cannot store holds a whole sector |
| `BindStream.BindContext.WriteSlice` | bl1/bl1_2/lib/image.c:311-368 | one pass overwrites exactly the next slice and moves the cursor by its length; the zero-sector fallback is unreachable |
| `BindStream.BindContext.WriteSlices` | bl1/bl1_2/lib/image.c:310-370 | the loop overwrites exactly the buffer; it succeeds without faults if and only if the convention condition holds |
| `BindStream.BindContext.Write` | bl1/bl1_2/lib/image.c:297-371 | after any calls flash is the original with the region up to the cursor replaced by all bytes written; a write past the region end changes nothing |
| `Aead.AeadOp.Update` | bl1/bl1_2/bl1_2_image_binding.c:246-260 | cumulative output never exceeds input and is a prefix of the one-shot result |
| `Aead.AeadOp.Finish` | bl1/bl1_2/bl1_2_image_binding.c:264-270 | emits the rest and the tag of the whole plaintext |
| `Aead.AeadOp.Verify` | bl1/bl1_2/bl1_2_image_binding.c:386-392 | accepts exactly the tag of the decrypted text and emits the rest |
| `ImageBinding.UnreadIntact` | bl1/bl1_2/bl1_2_image_binding.c:318-384 | in-place decryption never overwrites ciphertext not yet read |
| `ImageBinding.DecryptStream` | bl1/bl1_2/bl1_2_image_binding.c:359-384 | all ciphertext is consumed and everything emitted is in place, or a prefix is wiped; the overflow check is unreachable |
| `ImageBinding.ValidateCcm` | bl1/bl1_2/bl1_2_image_binding.c:307-415 | success exactly for a valid tag and a payload below 2^24 bytes, then RAM is the one-shot plaintext and nothing else changed; on failure every byte is 0 or its ciphertext byte |
| `ImageBinding.EncryptStream` | bl1/bl1_2/bl1_2_image_binding.c:239-262 | the whole plaintext is consumed and written as far as emitted |
| `ImageBinding.EncryptToFlash` | bl1/bl1_2/bl1_2_image_binding.c:198-286 | success replaces exactly the region by the sealed text and returns its tag; failure stays inside the region's sectors |
| `ImageBinding.DoBindingCcm` | bl1/bl1_2/bl1_2_image_binding.c:177-305 | success changes only protected values and tag field in flash, to ciphertext and tag, header and payload sharing a sector included; failures stay in the sectors of the slot |
| `ImageBinding.PayloadLimit` | bl1/bl1_2/bl1_2_image_binding.c:198-199 | the payload limit is 256 to the power of 15 less the nonce length |
| `ImageBinding.BoundImageOpens` | bl1/bl1_2/bl1_2_image_binding.c:177-415 | what binding leaves in flash passes validation and opens to the original protected values; nothing else in flash changed |
| `ImageBinding.BindThenReboot` | bl1/bl1_2/bl1_2_image_binding.c:177-415 | bind, copy from flash, validate: protected values come back, and without faults on suitable geometry both steps succeed |
| `ImageBinding.CopyToSram` | bl1/bl1_2/lib/image.c:59-73 | success copies the image slice, and nothing outside the destination changes |
| `ImageBinding.ComputeBindingTag` | bl1/bl1_2/bl1_2_image_binding.c:69-119 | a tag comes out only if every step works and it has 16 bytes, without faults exactly then, and it is the CMAC of the hash |
| `ImageBinding.StoreTag` | bl1/bl1_2/bl1_2_image_binding.c:52-67 | the tag is in the RAM header; on success it is in flash and nothing else changed; failures stay in the sectors of the slot |
| `ImageBinding.DoBindingMac` | bl1/bl1_2/bl1_2_image_binding.c:121-139 | success stores the tag of the protected values in flash and RAM header and nothing else; without a 16-byte tag flash is untouched; failures stay in the sectors of the slot |
| `ImageBinding.ValidateMac` | bl1/bl1_2/bl1_2_image_binding.c:141-160 | accepts exactly the right tag |
| `ImageLayout.FieldsInOrder` | bl1/bl1_2/lib/interface/image_layout_bl1_2.h:45-71 | at which byte each field starts, in each of the four variants |
| `ImageDecrypt.CtrInvolution` | tools/modules/encrypt_data.py:21-31 | CTR encryption is its own inverse |
| `ImageDecrypt.AlignedPlusTail` | bl1/bl1_2/main.c:436-466 | aligned part plus the padded last block, cut off, is the one-shot result for every length and any padding bytes |
| `ImageDecrypt.DecryptData` | bl1/bl1_2/main.c:424-466 | the encrypted range becomes its one-shot decryption, in place or from mapped flash |
| `ImageDecrypt.FetchImage` | bl1/bl1_2/main.c:353-376 | both flash layouts leave the same plain part in RAM |
| `ImageDecrypt.DecryptFetched` | bl1/bl1_2/main.c:378-487 | succeeds exactly for a counter below 1024 and a right magic, and yields the decrypted image |
| `ImageDecrypt.CopyAndDecrypt` | bl1/bl1_2/main.c:335-488 | RAM holds the one-shot CTR decryption of the flash image, for every size and both layouts |
| `ImageDecrypt.DecryptableMeans` | bl1/bl1_2/main.c:378-487 | which images decrypt, byte by byte: a little-endian counter below 1024, and EF BE AD DE at the front of the plaintext |
| `ImageDecrypt.DecryptedByte` | bl1/bl1_2/main.c:398-466 | which byte of which key-stream block, under which key and initial value, each byte is combined with |
| `SignaturePolicy.IsSignatureValid` | bl1/bl1_2/main.c:256-307 | accepted only if every signer verifies, except those that are MIGHT_SIGN in a build with policies, and every policy can be read; without faults exactly then |
| `SignaturePolicy.PolicyMeans` | bl1/bl1_2/main.c:278-303 | the policy that all statements about boots speak of: without policies all signers, with them all that are not MIGHT_SIGN |
| `SignaturePolicy.SigBlockBytes` | bl1/bl1_2/main.c:288-293 | the bytes of the image in which the signature of signer i lies |
| `SignaturePolicy.UnsignedPassesIff` | bl1/bl1_2/main.c:278-299 | an image that carries no valid signature passes if and only if there is no signer, or policies are built in and all signers are MIGHT_SIGN |
| `BootImage.CopyWholeIff` | bl1/bl1_2/main.c:492-505 | the copy puts the image into RAM, whatever RAM held, if and only if its length reaches the end of the image |
| `BootImage.DefaultCopyIsShort` | bl1/bl1_2/main.c:499-499 | with the default signature size, either default of BL2_HEADER_SIZE and BL2_CODE_SIZE the data size, the mapped copy always ends before the image does |
| `BootImage.BoundSlotReopens` | bl1/bl1_2/main.c:645-704 | the slot a first boot leaves behind passes the tag check of the next and opens to the same protected values |
| `BootImage.Platform.SecondVerdict` | bl1/bl1_2/main.c:645-704 | a slot that was just bound boots again if and only if its tag is not all zero or it happens to be acceptable as unbound |
| `BootImage.Platform.BootsMeans` | bl1/bl1_2/main.c:510-704 | what decides a fault-free boot, for each variant, with and without a tag |
| `BootImage.Platform.LastingMeans` | bl1/bl1_2/main.c:645-704 | a slot boots again and again if and only if it boots and some byte of its tag, or of the tag it is about to get, is not 0 |
| `BootImage.ZeroTagStopsSecondBoot` | bl1/bl1_2/main.c:658-686 | an image that boots once, is bound with a tag of zeros, and is rejected from then on |
| `BootMachine.BootsOnlyOnce` | bl1/bl1_2/main.c:645-704 | a whole device without faults on which that happens, so the guards of the claims about sound devices can be met |
| `BootMachine.Device.IsCounterValid` | bl1/bl1_2/main.c:93-111 | accepts only counters not below the NV counter, and without faults all of them |
| `BootMachine.Device.ValidateAtAddr` | bl1/bl1_2/main.c:312-329 | acceptance adds exactly the RAM image to the checked ones, having passed the policy and the counter check; without faults accepted exactly then |
| `BootMachine.Device.CopyImage` | bl1/bl1_2/main.c:492-505 | mapped: exactly the configured length is copied; otherwise a failing read goes unnoticed; RAM is the flash image when the length reaches its end |
| `BootMachine.Device.ValidateUnbound` | bl1/bl1_2/main.c:510-558 | accepted images are trusted; without faults accepted exactly if the flash image is acceptable |
| `BootMachine.Device.ValidateBound` | bl1/bl1_2/main.c:561-616 | trusted by signature or tag; with a tag byte that is not 0, flash is untouched and acceptance is decided by the tag or else the signatures; with 16 zeros, by the signatures and whether a 16-byte tag comes out; always the counter; flash gets the MAC on a first boot |
| `BootMachine.Device.PlainTwoBoots` | bl1/bl1_2/main.c:561-616 | an acceptable unbound image that can be bound boots twice, the second time on its tag, and flash stays as the first boot left it |
| `BootMachine.Device.BindPlain` | bl1/bl1_2/main.c:606-612 | a tag is issued, exactly one, only for protected values that were just checked; the exact flash contents |
| `BootMachine.Device.BindEncrypted` | bl1/bl1_2/main.c:693-700 | the same for the CCM variant |
| `BootMachine.Device.FirstBootEncrypted` | bl1/bl1_2/main.c:680-701 | accepted only if the flash image is acceptable, without faults exactly then; flash is the bound image and RAM the checked plaintext |
| `BootMachine.Device.LaterBootEncrypted` | bl1/bl1_2/main.c:659-679 | without faults accepted exactly on a right tag and counter; no fallback to signatures |
| `BootMachine.Device.ValidateBoundEncrypted` | bl1/bl1_2/main.c:645-704 | with a tag byte that is not 0, flash is untouched whatever happens and without faults the tag and the counter alone decide; with 16 zeros the image has to be acceptable as an unbound one; nothing outside the sectors of the slot ever changes |
| `BootMachine.Device.TwoBoots` | bl1/bl1_2/main.c:645-704 | an acceptable unbound image boots; the next boot succeeds if some byte of the tag it was bound with is not 0, and otherwise if and only if the bound slot is acceptable as unbound; with a tag it starts the same protected values and leaves the bound slot alone |
| `BootMachine.Device.ManyBoots` | bl1/bl1_2/main.c:708-780 | any number of fault-free boots of a slot that boots and is not about to get a tag of zeros all start the same protected values, and flash stays what the first made of it |
| `BootMachine.Device.ValidateImage` | bl1/bl1_2/main.c:508-706 | all four variants: accepted implies trusted; without faults accepted exactly if the slot boots, RAM and flash then being what booting it makes of them, and flash untouched otherwise; at most one image checked and one tag issued |
| `BootMachine.Device.RunPass` | bl1/bl1_2/main.c:731-766 | one pass starts a slot, goes on or stops exactly as the bootable slots say; a bootable rollback slot in other sectors is started whatever the selected one did |
| `BootMachine.Device.RunPasses` | bl1/bl1_2/main.c:731-767 | the loop ends as the verdict on its passes, with the protected values of the slot found in RAM and flash as booting it leaves it |
| `BootMachine.StartedIff` | bl1/bl1_2/main.c:731-767 | the loop starts an image if and only if a pass that finds a bootable slot is reached |
| `BootMachine.VerdictCases` | bl1/bl1_2/main.c:732-769 | the loop case by case: what stops it, which slot it starts, and that a successful recovery goes on with the next pass |
| `BootMachine.EndsCases` | bl1/bl1_2/main.c:715-778 | a failed start-up or post-load panics, and only a started image that passes post-load is jumped to |
| `BootMachine.Device.PowerOn` | bl1/bl1_2/main.c:708-780 | the history gains exactly one start for a jump and none otherwise; without faults the outcome, RAM and flash are the verdict on what flash held |
| `BootMachine.StartedWasChecked` | bl1/bl1_2/main.c:561-616 | every start without a forged tag has the protected values of an image checked before it, for which every signer verified that is not MIGHT_SIGN under a policy, and a counter not below any NV counter up to then |
| `BootMachine.Device.EntryMeans` | bl1/bl1_2/main.c:773-775 | what a start is recorded with, and that only a right tag that was never issued counts as forged |
| `BootImage.Platform.BootsOn` | bl1/bl1_2/main.c:561-704 | a slot that boots still does after it was booted, starts the same again and is not written any more |
| `BootMachine.RunBoots` | bl1/bl1_2/main.c:708-780 | over any power cycles with flash and RAM replaced in between, the history holds one start per jump, in order, and stays safe; without faults every outcome is the verdict on what flash held |
| `ImageTool.ImageObject.SetPlain` | bl1/bl1_2/scripts/create_bl2_img.py:56-78 | accepted exactly when every field value fits, then the object serialises to the bytes to be signed |
| `ImageTool.ImageObject.Sign` | bl1/bl1_2/scripts/create_bl2_img.py:105-135 | accepted exactly if every present signer uses the configured hash; then its signature of the protected values is in its field, and zeros in the others |
| `ImageTool.ImageObject.Encrypt` | bl1/bl1_2/scripts/create_bl2_img.py:137-148 | accepted exactly for an IV of 8 to 16 bytes; encrypted data replaces magic and code only |
| `ImageTool.ImageObject.Create` | bl1/bl1_2/scripts/create_bl2_img.py:85-160 | an image comes out exactly for acceptable requests, and it is the specified byte string |
| `ImageTool.BuiltFields` | bl1/bl1_2/scripts/create_bl2_img.py:85-160 | IV, zero tag, signatures and protected values lie where the boot stage looks for them |
| `ImageTool.VersionBytes` | bl1/bl1_2/scripts/create_bl2_img.py:66-70 | which bytes hold major, minor, revision and build number |
| `ImageTool.SignedBytes` | bl1/bl1_2/scripts/create_bl2_img.py:57-83 | the signed bytes one by one: version, counter, magic, binary, zeros |
| `ImageTool.IvBytes` | tools/modules/encrypt_data.py:25-28 | a short initial value is filled up with zeros behind it |
| `ImageTool.BuiltDecrypts` | tools/modules/encrypt_data.py:58-84 | boot-side decryption of a built image gives exactly the signed bytes behind the same header |
| `ImageTool.BuiltPolicyHolds` | bl1/bl1_2/scripts/create_bl2_img.py:105-126 | with matching keys the signature policy holds for a built image |
| `ImageTool.BuiltImageBoots` | bl1/bl1_2/scripts/create_bl2_img.py:85-160 | any tool-built image with allowed counter and matching keys boots in every variant and starts the signed bytes, and counts as not bound yet |
| `FlashMap.Read` | bl2/src/flash_map.c:114-233 | succeeds without faults exactly if offset and length end inside the area and in 32 bits, for every offset, length and width; then exactly the flash slice; no byte beyond `len` is touched; only width-aligned reads inside the area |
| `FlashWrite.Geometry` | bl2/src/flash_map.c:275-389 | head, middle and tail are cut at unit boundaries, so the consistency checks of lines 321, 327, 368 and 378 never fire |
| `FlashWrite.FaithfulIff` | bl2/src/flash_map.c:344-357 | the bytes programmed are the source for every content if and only if the offset is unit-aligned or less than a unit follows the head |
| `FlashWrite.EffectiveBytes` | bl2/src/flash_map.c:331-357 | which source byte is programmed at each position, whatever offset, length and unit |
| `FlashWrite.Write` | bl2/src/flash_map.c:238-392 | success only for a range inside the area; every byte outside [off, off+len) is kept; inside, exactly `Effective` is programmed; failures stay in the padded range; erased targets in the area succeed |
| `FlashWrite.Erase` | bl2/src/flash_map.c:394-425 | whole sectors from an aligned start are erased; whatever happens nothing else changes; a non-uniform layout reports success and does nothing |
| `FlashWrite.EraseStaysInsideIff` | bl2/src/flash_map.c:402-417 | an erase that passed the range check stays inside the area, whatever flash holds, if and only if its last sector does |
| `FlashWrite.WholeSectorAreaErase` | bl2/src/flash_map.c:402-417 | in an area of whole sectors an erase from a sector boundary stays inside |
| `FlashWrite.WriteRead` | bl2/src/flash_map.c:114-392 | write then read returns the bytes |
| `FlashWrite.EraseWriteRead` | bl2/src/flash_map.c:114-425 | erase, guarded write, read: the bytes come back, sectors outside are unchanged, and without faults it succeeds |
| `FlashSectors.GetSectors` | bl2/ext/mcuboot/flash_map_legacy.c:38-82 | success exactly for a divisible area or an exhausted maximum; entries tile the area without gaps and cover it unless the maximum was hit; later entries untouched |
| `FlashSectors.GetSector` | bl2/ext/mcuboot/flash_map_extended.c:85-95 | the sector of the driver's size that contains the offset |
| `FlashSectors.SectorViewsAgree` | bl2/ext/mcuboot/flash_map_extended.c:85-95 | entry off/S of the tiling is the sector of off |
| `PartitionGraph.AcyclicTopological` | tools/tfm_parse_manifest_list.py:218-242 | a graph without a cycle can be listed dependencies first |
| `PartitionGraph.TopologicalAcyclic` | tools/tfm_parse_manifest_list.py:218-242 | a graph whose nodes are all validated in dependency order has no cycle |
| `PartitionGraph.ShortCycles` | tools/tfm_parse_manifest_list.py:218-242 | a partition that depends on itself, and two that depend on each other, are cycles |
| `PartitionGraph.DependencyTable.Validate` | tools/tfm_parse_manifest_list.py:218-242 | although the chain is never popped, its unvalidated entries are exactly the search stack; validated partitions reach no cycle; an exit means a cycle |
| `PartitionGraph.DependencyTable.Check` | tools/tfm_parse_manifest_list.py:215-216 | the tool exits if and only if the graph has a cycle |
| `Dependencies.EdgesAgree` | tools/tfm_parse_manifest_list.py:201-213 | with unique names the graph of the check and the graph of the scores are the same |
| `Dependencies.ServiceMapOwners` | tools/tfm_parse_manifest_list.py:536-537 | when no service is offered twice, the service map names its one owner |
| `Dependencies.CheckedIsScorable` | tools/tfm_parse_manifest_list.py:215-300 | if no service is shared and no partition that offers one has a later namesake, a passed check makes the score recursion terminate |
| `Dependencies.AcyclicIsScorable` | tools/tfm_parse_manifest_list.py:244-300 | the score recursion terminates on every list whose score graph has no cycle |
| `Dependencies.CycleIsSeen` | tools/tfm_parse_manifest_list.py:191-300 | under that condition a cycle of the score graph is one the check sees |
| `Dependencies.OrderPartitions` | tools/tfm_parse_manifest_list.py:597-603 | check then score, for every list on which the tool comes to an end: rejected exactly for a cycle, otherwise every load order is the specified value, and up to eight partitions load after their dependencies |
| `Dependencies.CheckGuardsIff` | tools/tfm_parse_manifest_list.py:191-300 | a passed check makes the score recursion terminate, for all dependency lists, if and only if no service is offered by two partitions and none that offers a service has a namesake further down |
| `Dependencies.DuplicateServiceEscapesCheck` | tools/tfm_parse_manifest_list.py:209-285 | with a service offered twice the check passes while the score graph has a self-loop |
| `Dependencies.DuplicateNameEscapesCheck` | tools/tfm_parse_manifest_list.py:208-285 | the same with a partition name used twice and no service shared |
| `LoadOrder.ScoreList.DependencyIndices` | tools/tfm_parse_manifest_list.py:279-293 | the distinct owner indices of the dependencies, unknown services skipped |
| `LoadOrder.DepsMembers` | tools/tfm_parse_manifest_list.py:279-293 | a dependency is the first partition that offers a service asked for |
| `LoadOrder.ScoreList.Calc` | tools/tfm_parse_manifest_list.py:244-300 | the memoised recursion returns one plus the sum over distinct dependencies |
| `LoadOrder.ScoreAddsUp` | tools/tfm_parse_manifest_list.py:294-300 | a partition without dependencies scores 1, one with dependencies 1 plus their scores |
| `LoadOrder.DependencyScoresLess` | tools/tfm_parse_manifest_list.py:294-300 | a dependency scores strictly less than its dependent |
| `LoadOrder.ScoreUnique` | tools/tfm_parse_manifest_list.py:244-300 | the score does not depend on the visiting order |
| `LoadOrder.ScoreAtMost` | tools/tfm_parse_manifest_list.py:244-300 | a score is at most 2^(n-1) for n partitions |
| `LoadOrder.OrderIsLexicographic` | tools/tfm_parse_manifest_list.py:320-335 | HIGHEST loads before HIGH before NORMAL before LOW before LOWEST whatever the scores, and within one priority the smaller masked score first |
| `LoadOrder.CalcLoadOrder` | tools/tfm_parse_manifest_list.py:302-339 | every partition gets 0, 0xF, 0x1F, 0x7F or 0xFF as high byte, by priority, and the low byte of its score below; so a higher priority always loads first |
| `LoadOrder.SmallScoresLoadInOrder` | tools/tfm_parse_manifest_list.py:333-335 | with scores below 256 every dependency of equal priority is loaded strictly earlier |
| `LoadOrder.MaskHarmlessIff` | tools/tfm_parse_manifest_list.py:333-335 | dependencies load first in every acyclic graph of n partitions if and only if n is at most 8 |
| `StatelessHandles.CollectedMembers` | tools/tfm_parse_manifest_list.py:749-759 | exactly the connectionless services of framework 1.1 partitions are collected |
| `StatelessHandles.CollectedInOrder` | tools/tfm_parse_manifest_list.py:749-759 | in the order of the partitions |
| `StatelessHandles.Collect` | tools/tfm_parse_manifest_list.py:749-759 | the loops collect these services |
| `StatelessHandles.PlaceExplicit` | tools/tfm_parse_manifest_list.py:772-796 | fails exactly for a bad or duplicated handle; explicit handle h at index h-1, the others wait in order |
| `StatelessHandles.AssignHandles` | tools/tfm_parse_manifest_list.py:805-827 | waiting services take the free slots from the lowest; index and value are written to each |
| `StatelessHandles.Process` | tools/tfm_parse_manifest_list.py:731-827 | accepted exactly for at most 32 services with legal settings; each service in exactly one slot, explicit ones at h-1, none lost, automatic ones in order, values pairwise distinct |
| `StatelessHandles.HandleDecodes` | tools/tfm_parse_manifest_list.py:798-823 | a value decodes to its index, the low eight version bits and the indicator bit |
| `PidSignals.AssignPids` | tools/tfm_parse_manifest_list.py:605-610 | manual PIDs kept, the k-th automatic one is the highest manual PID (or 255) plus k |
| `PidSignals.NumberedMeans` | tools/tfm_parse_manifest_list.py:499-510 | only enabled partitions without a PID are numbered, by one more than the highest manual PID, or than 255, plus the number of such partitions before |
| `PidSignals.DistinctMeans` | tools/tfm_parse_manifest_list.py:505-510 | the rejected lists are those in which two enabled partitions have the same manual PID |
| `PidSignals.NumberedDistinct` | tools/tfm_parse_manifest_list.py:605-610 | all enabled partitions have pairwise distinct PIDs, automatic ones above all manual ones |
| `PidSignals.AutomaticConsecutive` | tools/tfm_parse_manifest_list.py:605-610 | automatic PIDs are exactly the numbers following the highest manual one |
| `PidSignals.AutomaticAvoidsReservedIff` | tools/tfm_parse_manifest_list.py:605-610 | automatic PIDs stay out of the reserved range if and only if there is no manual PID or one is at least 255 |
| `PidSignals.AssignSignals` | tools/tfm_parse_manifest_list.py:536-567 | accepted exactly for at most 28 services and interrupts; then no bit is shared, all lie in a 32-bit word and IPC partitions avoid the four reserved bits |
| `PidSignals.FirstSignals` | tools/tfm_parse_manifest_list.py:540-561 | the values of the first signals |
| `PidSignals.LimitIsExact` | tools/tfm_parse_manifest_list.py:565-567 | for IPC partitions the signals are sound if and only if there are at most 28 |
| `ClientId.ValidateMeaning` | tools/manifest_helpers/manifest_client_id_validate.py:15-45 | exactly which strings are accepted, and that the result is the 32-bit value read as signed, negative unless it is a minus-zero |
| `ClientId.SameIdIffSameWord` | tools/manifest_helpers/manifest_client_id_validate.py:40-45 | two accepted spellings give one ID if and only if they name one 32-bit word |
| `ClientId.SpellingsAgree` | tools/manifest_helpers/manifest_client_id_validate.py:28-45 | unsigned and minus spellings of a value in any radix normalise to the same integer |
| `ClientId.EdgeSpellings` | tools/manifest_helpers/manifest_client_id_validate.py:23-45 | the lowest ID only unsigned, zero only with a minus |
| `ClientId.SpelledParses` | tools/manifest_helpers/manifest_client_id_validate.py:17-18 | literals in all four radices parse back to the number |
| `ClientId.Prefixed` | tools/manifest_helpers/manifest_client_id_validate.py:17-18 | the prefix of each radix, in either case |
| `ClientId.Unprefixed` | tools/manifest_helpers/manifest_client_id_validate.py:17-18 | without one a literal is decimal, and a leading zero is an error unless it is zero |
| `ClientId.Underscores` | tools/manifest_helpers/manifest_client_id_validate.py:17-18 | a single underscore may stand between two digits and nowhere else |
| `ClientId.Decorated` | tools/manifest_helpers/manifest_client_id_validate.py:17-18 | white space around a literal and a plus sign do not matter |
| `ClientId.Registry.Register` | tools/manifest_helpers/manifest_client_id_validate.py:47-80 | accepted exactly for a legal range that meets no recorded one; recorded ranges stay well formed and pairwise disjoint |
| `ClientId.AdmissibleMeans` | tools/manifest_helpers/manifest_client_id_validate.py:56-77 | accepted means both ends validate in that order and the range lies below or above every recorded one |
| `ClientId.Registry.RegisterAll` | tools/manifest_helpers/manifest_client_id_validate.py:47-80 | a list of agents is accepted exactly when all ranges are legal and pairwise disjoint, whatever their order |
| `ClientId.Registry.CheckIrq` | tools/manifest_helpers/manifest_client_id_validate.py:82-116 | accepted exactly for a legal range inside the last agent of that name; it then meets no other agent's range |
| `ClientId.InsideLastMeans` | tools/manifest_helpers/manifest_client_id_validate.py:97-116 | inside the last agent of that name means both ends validate and lie between the two of that agent, in order |
| `ClientId.UpperSameIff` | tools/manifest_helpers/manifest_client_id_validate.py:99-104 | names match if and only if they differ in nothing but the case of letters |
| `ClientId.MeetsIsSharing` | tools/manifest_helpers/manifest_client_id_validate.py:69-73 | the overlap test is sharing an ID |
| `Digits.ShowReadsBack` | tfmmakeproject/tfm_log_raw.c:64-72 | digits read back as the number, with no superfluous leading zero |
| `Digits.ValueMeans` | tfmmakeproject/tfm_log_raw.c:64-72 | what a numeral stands for, digit by digit |
| `LogFormatter.DecimalReadsBack` | tfmmakeproject/tfm_log_raw.c:50-75 | decimal output reads back as the number, the least int32 included |
| `LogFormatter.HexReadsBack` | tfmmakeproject/tfm_log_raw.c:77-95 | hexadecimal output reads back as the word |
| `LogFormatter.DecimalTags` | tfmmakeproject/tfm_log_raw.c:107-111 | what %d and %i print reads back as the signed number |
| `LogFormatter.UnsignedTag` | tfmmakeproject/tfm_log_raw.c:112-115 | what %u prints is the unsigned number in decimal |
| `LogFormatter.HexTags` | tfmmakeproject/tfm_log_raw.c:116-123 | what %x and %X print is the number in hexadecimal, without capital and without small letters |
| `LogFormatter.PointerTag` | tfmmakeproject/tfm_log_raw.c:124-128 | %p prints 0x and what %x prints |
| `LogFormatter.TextTags` | tfmmakeproject/tfm_log_raw.c:129-136 | %c prints the character of the low byte, %s the string up to its terminator |
| `LogFormatter.OtherTags` | tfmmakeproject/tfm_log_raw.c:137-144 | any other tag prints the marker and then its own character; a percent sign at the end prints the marker |
| `LogFormatter.FillDigits` | tfmmakeproject/tfm_log_raw.c:64-67 | the digit loop stores the numeral backwards and stays inside the 12-byte buffer |
| `LogFormatter.Buffer.PutDecimal` | tfmmakeproject/tfm_log_raw.c:50-75 | the text grows by the decimal numeral, and its length is returned |
| `LogFormatter.Buffer.PutHex` | tfmmakeproject/tfm_log_raw.c:77-95 | the text grows by the hexadecimal numeral |
| `LogFormatter.Vprintf` | tfmmakeproject/tfm_log_raw.c:97-158 | the concatenated chunks are the rendering of format and arguments; all chunks but the last have 32 characters; the result is the length plus the length of the partial chunk |
| `LogFormatter.RenderSplits` | tfmmakeproject/tfm_log_raw.c:104-150 | a format made of two complete ones prints what the first prints with its arguments and the second with those behind |
| `LogFormatter.EscapedPrintsItself` | tfmmakeproject/tfm_log_raw.c:137-140 | doubling percent signs prints any text unchanged |
| `LogFormatter.ExtraArgumentsIgnored` | tfmmakeproject/tfm_log_raw.c:104-150 | arguments are used front to back and extra ones do not matter |
| `CrtMem.Memcpy` | secure_fw/shared/crt_memcpy.c:11-39 | the byte copy of section 7.24.2.1 of C11 for every pair of alignments; the number of word accesses, zero unless the alignments agree |
| `CrtMem.Memset` | secure_fw/shared/crt_memset.c:10-34 | for every value, alignment and length, exactly which byte ends up where; a byte fill if and only if no word is stored or the value adds no bits above its low byte |
| `CrtMem.PatternBytes` | secure_fw/shared/crt_memset.c:16-27 | what each byte of a stored word is |
| `CrtMem.HeadAndWords` | secure_fw/shared/crt_memset.c:16-27 | where the words begin and how many there are |
| `CrtMem.SetIsFillIff` | secure_fw/shared/crt_memset.c:16-31 | the same condition on memories |
| `CrtMem.ByteValuesFill` | secure_fw/shared/crt_memset.c:10-34 | the byte fill of section 7.24.6.1 of C11 for every value in 0..255 |
| `CrtMem.WideValueDoesNotFill` | secure_fw/shared/crt_memset.c:16-27 | setting four bytes to 0x100 does not fill them with zero |

## Left out

- Internals of hash, MAC, AEAD, signature and key derivation: only their correctness laws are used.
- Fault-injection hardening (FIH encodings, delays, double checks), logging and panics.
- The DMA branch of `flash_area_read` and the platform hooks around boot, which are parameters.
- Boot measurements and embedded ROTPKs: signature verification of one signer is a single function of protected values and signature block.
- `BootMachine.Device.PowerOn`: the retry loop runs over a finite list of passes; endless recovery is not modelled.
- `BootMachine.Device.CopyImage`: a copy through the flash driver takes `BL2_CODE_SIZE` to be `IMAGE_BL2_CODE_SIZE`, the size of the data field; the mapped copy does not.
- `ImageDecrypt.FetchImage`: the same for the driver copy before decryption.
- 32-bit address wrap-around in BL1_2; the flash map layer keeps the 32-bit range check and needs areas of at most 2^32 minus one program unit.
- Alignment masks are modelled as rounding, which is the same for the power-of-two sizes they are used with; sector sizes are multiples of the program unit.
- `BindWriter.StoreBindingTag`: needs the tag offset in its sector plus 16 to fit the static sector buffer, which the code does not check.
- BL1_2 needs a byte-wide flash driver; other data widths are modelled for the BL2 flash map layer only.
- `ImageTool.ImageObject.Create`: structure padding and clang parsing are replaced by the layout; random IVs and signatures are inputs, a signature field with its length being one block; signatures longer than their field and ciphertext computed beforehand are not modelled.
- `Dependencies.OrderPartitions`: lists on which the score recursion does not terminate are left out, as the tool has no result for them; `Dependencies.CheckGuardsIff` says which can occur.
- `StatelessHandles.Process`: the collected services are distinct objects; the hexadecimal text of a value is not modelled.
- `ClientId.ValidateMeaning`: Python's `int(s, 0)` is modelled for ASCII strings; non-ASCII digits and spaces and `upper()` beyond ASCII are not.
- `LogFormatter.Vprintf`: arguments match the format, as C demands; negating the least int32 wraps; the UART reports every byte as sent.
- `CrtMem.Memcpy`: source and destination do not overlap, as C demands.
- MCUboot glue and shared data: they rest on code outside the repository.
- Provisioning and `psa_call` wrappers: constant tables and calls without state of their own.
- `c_macro.py`, `c_struct.py`, YAML, templates and command lines: text processing that rests on libclang and Python packages; the image layout stands in for them.
