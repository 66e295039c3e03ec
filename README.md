# Boot-slot record, secure-boot close gate and SPL helpers, in Dafny

This project models three pieces of a U-Boot tree and proves properties
about them:

- **`bootslot`** (ZynqMP, `arch/arm/mach-zynqmp/cmd_bootslot.c`). This is the
  A/B boot-slot selector. The persistent register is a packed 32-byte record
  (`struct sys_boot_img_info`) stored on SPI flash. Its checksum is
  `0xFFFFFFFF` minus the mod-2^32 sum of every 32-bit word except word 3.
  Validation checks the `ABUM` magic and the checksum, and on a matching
  magic it overwrites the checksum field in memory. An update sets the
  three slot fields, recomputes the checksum, erases the sector and then
  writes the record. The state is exported to four `zynqmp.*` environment
  variables. The command gates all of this on its argument count and
  argument values.
- **`fiohab_close`** (i.MX, `arch/arm/mach-imx/fiohab.c`). This is the gate
  in front of the irreversible closing of secure boot.
  - If the device is already closed, nothing is done.
  - HABv4 or AHAB events block the close. On the MX6Q/DL/QDL the known RNG
    self-test event is tolerated.
  - Then every SRK fuse is compared, in order, with its `srk_<i>`
    environment value.
  - Only if all of them match is exactly one closing step issued:
    `fuse_prog` of the security fuse, or `ahab_close`.
- **SPL helpers** (i.MX, `arch/arm/mach-imx/spl.c`):
  - the translation of the ROM boot device into the SPL's numbering;
  - the choice of MMC boot mode;
  - the `ALIGN` arithmetic that sizes and places a signed FIT image;
  - the relocation of a FIT carrying an IVT;
  - the primary/secondary choice of raw sector and eMMC boot partition.

How each part is modelled:

- `bootslot` and `fiohab_close` are imperative.
  - The static record, the flash window and the environment are fields of
    the class `BootSlot.BootSlotCommand`. Its methods update them in place.
  - The loops of `calculate_checksum`, `is_known_rng_fail_event`, both
    `hab_status` routines and the SRK check are `while` loops with
    invariants.
  - Each method is proved against a specification function, such as
    `ChecksumOf`, `Validated`, `Updated`, `Export`, `HabOutcome` or
    `CloseOutcome`/`CloseCalls`. The lemmas state what the source promises
    about that function.
- The SPL helpers are pure functions with lemmas.
- Fixed-width arithmetic is explicit:
  - `u32` sums wrap modulo 2^32;
  - bytes are taken by truncation (`% 0x100`) of wider values;
  - `unsigned long` arithmetic wraps modulo 2^32 or 2^64, depending on the
    target's `Width`;
  - the wrap of the AHAB routine's u8 event index is modelled as
    non-termination (`Hangs`).
- The C preprocessor's SoC selection becomes a datatype parameter:
  `FioHab.SoC` and `Spl.SplSoc`.
- Hardware, ROM and firmware answers are inputs:
  - flash read, erase and write results, and the SPI probe result;
  - erased NOR flash reads as 0xFF (`ErasedRegion`);
  - the closed bit;
  - the HAB and SECO answers;
  - the fuse shadow registers (`fuse_read`);
  - the outcome of the closing step.
- Every access the close gate makes is returned in order in a `Call` log.
  This is how "performed exactly once", "no fuse is read" and "nothing is
  programmed" are stated.

Two details of the boot-slot code that the model follows exactly:

- `calculate_checksum` returns `0xFFFFFFFF` minus the wrapping sum of the
  covered words, not the sum itself (`cmd_bootslot.c:57`).
- All four environment variables, `requested_boot` included, are exported
  as `"0"`/`"1"` (`cmd_bootslot.c:141-179`).

Modules: `MachineInts` (machineints.dfy), `Arith` (arith.dfy), `BootImgInfo`
(bootimginfo.dfy), `BootSlot` (bootslot.dfy), `FioHab` (fiohab.dfy) and `Spl`
(spl.dfy).

## Model

| member | source | states |
|---|---|---|
| BootImgInfo.Encode | arch/arm/mach-zynqmp/cmd_bootslot.c:199-200 | The record as the 32 packed little-endian bytes the flash write stores. Its properties are in DecodeEncode, EncodeDecode and WordsAreLittleEndianView. |
| BootImgInfo.Decode | arch/arm/mach-zynqmp/cmd_bootslot.c:125-126 | The static record that a 32-byte flash read fills. Its properties are in DecodeEncode and EncodeDecode (no ensures of its own). |
| BootImgInfo.DecodeEncode | arch/arm/mach-zynqmp/cmd_bootslot.c:19-35 | Decoding the 32 packed bytes of a record gives the record back. |
| BootImgInfo.EncodeDecode | arch/arm/mach-zynqmp/cmd_bootslot.c:19-35 | Encoding the record read from any 32 bytes gives those bytes back. |
| BootImgInfo.WordsAreLittleEndianView | arch/arm/mach-zynqmp/cmd_bootslot.c:26-35 | Word i of the checksum's word view is the little-endian reading of bytes 4i..4i+3 of the record on flash. |
| BootImgInfo.Words | arch/arm/mach-zynqmp/cmd_bootslot.c:48-49 | The record seen as eight words, word 3 being the checksum field. |
| BootImgInfo.SumAppend | arch/arm/mach-zynqmp/cmd_bootslot.c:51-55 | The wrapping 32-bit sum of two word sequences is the wrapping sum of their sums. |
| BootImgInfo.SumAroundChecksum | arch/arm/mach-zynqmp/cmd_bootslot.c:51-55 | The sum of all eight words is the covered sum (words 0-2 and 4-7) plus the checksum word. |
| BootImgInfo.ChecksumIgnoresChecksumField | arch/arm/mach-zynqmp/cmd_bootslot.c:44-58 | Changing the checksum field never changes the computed checksum. |
| BootImgInfo.ChecksumMatchesIffWordsSumToAllOnes | arch/arm/mach-zynqmp/cmd_bootslot.c:44-58 | The stored checksum matches exactly when all eight words sum to 0xFFFFFFFF modulo 2^32. |
| BootImgInfo.SumDiffersAt | arch/arm/mach-zynqmp/cmd_bootslot.c:51-55 | Two word sequences that differ at exactly one position have different wrapping sums. |
| BootImgInfo.SingleWordChangeChangesCoveredSum | arch/arm/mach-zynqmp/cmd_bootslot.c:51-55 | For two 8-word sequences that differ only in one word other than word 3, the covered sums differ. |
| BootImgInfo.SingleWordChangeChangesChecksum | arch/arm/mach-zynqmp/cmd_bootslot.c:44-58 | For two records whose word views differ only in one word other than the checksum word, ChecksumOf differs. So every change confined to one covered word is detected. |
| BootImgInfo.Validated | arch/arm/mach-zynqmp/cmd_bootslot.c:60-75 | With the magic, the record comes back with its checksum replaced by the recomputed one and nothing else changed. Without the magic it comes back untouched. Afterwards it is valid exactly when the magic matched. |
| BootImgInfo.ValidatedIdempotent | arch/arm/mach-zynqmp/cmd_bootslot.c:60-75 | Validating twice is validating once, and a valid record is left unchanged. |
| BootImgInfo.ErasedRegionIsCorrupt | arch/arm/mach-zynqmp/cmd_bootslot.c:192-204 | A record read back after an erase with no write (a power loss between the two) fails validation, and validation leaves it unaltered. |
| BootImgInfo.Updated | arch/arm/mach-zynqmp/cmd_bootslot.c:187-190 | An update sets img_a_bootable, img_b_bootable and requested_boot_img to the low bytes of the arguments and recomputes the checksum. The magic, ver, len, last_booted_img and the three image offsets are unchanged. |
| BootImgInfo.UpdateThenReadRoundTrip | arch/arm/mach-zynqmp/cmd_bootslot.c:187-204 | For a record with the magic and arguments in {0,1}, the bytes written by an update read back as a record that passes validation, unchanged by it, with the three slot fields equal to the arguments and last_booted_img kept. |
| BootSlot.Flag | arch/arm/mach-zynqmp/cmd_bootslot.c:144-179 | The exported value is "0" exactly when the state byte is 0, and "1" otherwise. |
| BootSlot.Export | arch/arm/mach-zynqmp/cmd_bootslot.c:141-180 | Exporting adds exactly the four zynqmp.* keys, with the four flag values, and leaves every other variable as it was. |
| BootSlot.ExportIdempotent | arch/arm/mach-zynqmp/cmd_bootslot.c:141-180 | Exporting twice gives the same environment as exporting once. |
| BootSlot.ExportDependsOnZeroness | arch/arm/mach-zynqmp/cmd_bootslot.c:141-180 | The exported environment depends on each state byte only through whether it is zero. |
| BootSlot.BootSlotCommand.CalculateChecksum | arch/arm/mach-zynqmp/cmd_bootslot.c:44-58 | The two index loops compute ChecksumOf of the static record: 0xFFFFFFFF minus the wrapping sum of words 0-2 and 4-7. |
| BootSlot.BootSlotCommand.ValidateBootImgInfo | arch/arm/mach-zynqmp/cmd_bootslot.c:60-75 | Returns 0 iff the magic is ABUM and the stored checksum equals the recomputed one, else -1. The static record becomes Validated of the old one. |
| BootSlot.BootSlotCommand.ReadPersistentInfo | arch/arm/mach-zynqmp/cmd_bootslot.c:121-139 | A failed read returns its error and leaves the record as it was. Otherwise the record becomes the validated decoding of the flash bytes, and the result is 0 iff those bytes are a valid record. |
| BootSlot.BootSlotCommand.PrintPersistentInfo | arch/arm/mach-zynqmp/cmd_bootslot.c:141-180 | The environment becomes Export of the old environment and the record's state. |
| BootSlot.BootSlotCommand.EraseRegion | arch/arm/mach-zynqmp/cmd_bootslot.c:192-197 | Logs one erase and returns its result. On success the region is erased. |
| BootSlot.BootSlotCommand.WriteRegion | arch/arm/mach-zynqmp/cmd_bootslot.c:199-204 | Logs one write of the given bytes and returns its result. On success the region holds those bytes. |
| BootSlot.BootSlotCommand.UpdatePersistentInfo | arch/arm/mach-zynqmp/cmd_bootslot.c:182-205 | The record becomes Updated. The erase comes first, and a failed erase returns its error with no write issued. Otherwise exactly one write of the encoded record follows and its result is returned. |
| BootSlot.BootSlotCommand.DoBootslot | arch/arm/mach-zynqmp/cmd_bootslot.c:207-261 | A wrong argc gives usage with the record, flash, environment and flash log unchanged. A failed probe or read, or a corrupted record, fails with the flash unchanged and no erase, write or export. argc 1 never erases or writes, and exports the record read. An argument outside {0,1} gives usage with the flash unchanged and no erase or write. Valid arguments erase then write the updated record, succeed iff both did, and export only on success. |
| BootSlot.UpdateThenQuery | arch/arm/mach-zynqmp/cmd_bootslot.c:207-261 | On a valid record with arguments in {0,1}, a successful update followed by a query succeeds. The query reads back the three arguments with last_booted_img kept, and the environment is a single export of that state. |
| FioHab.SrkFuseList | arch/arm/mach-imx/fiohab.c:26-52 | The SRK fuse locators per SoC, in order: 16 on the MX7ULP and i.MX8QM, 8 on the MX6 and i.MX8M. |
| FioHab.SecureCloseAction | arch/arm/mach-imx/fiohab.c:30-44 | The closing step per SoC: fuse_prog of SECURE_FUSE_BANK/WORD/VALUE, or ahab_close. ClosingStepFollowsBootFlow states its properties (no ensures of its own). |
| FioHab.IgnoresKnownHabEvents | arch/arm/mach-imx/fiohab.c:6-8 | CONFIG_CAAM_IGNORE_KNOWN_HAB_EVENTS on the MX6Q, MX6DL and MX6QDL. ClosingStepFollowsBootFlow states its properties (no ensures of its own). |
| FioHab.ClosingStepFollowsBootFlow | arch/arm/mach-imx/fiohab.c:201-205 | The closing step is ahab_close exactly on the AHAB part and fuse_prog on every other part. The known-event allow-list applies only to an MX6 part, never the AHAB one. |
| FioHab.IsKnownRngFailEvent | arch/arm/mach-imx/fiohab.c:92-104 | The loop over the allow-list returns true iff the first min(len, 36) bytes equal the same prefix of an allow-listed pattern. |
| FioHab.PrefixOfKnownPatternIsKnown | arch/arm/mach-imx/fiohab.c:92-104 | Any prefix of the known pattern, and the empty event, counts as known. |
| FioHab.KnownEventIgnoresTail | arch/arm/mach-imx/fiohab.c:97-98 | Bytes past the 36th never affect whether an event is known. |
| FioHab.FirstByteMismatchIsUnknown | arch/arm/mach-imx/fiohab.c:84-104 | A non-empty event whose first byte is not 0xdb is not known. |
| FioHab.FirstUnknown | arch/arm/mach-imx/fiohab.c:125-132 | The index of the first event that is not known: every event before it is known, and the event at it is not. |
| FioHab.Habv4Status | arch/arm/mach-imx/fiohab.c:109-144 | Returns 0 iff report_status succeeds, or (when known events are ignored) every event reported before report_event fails is known. Otherwise it returns 1, at the first unknown event. The exact sequence of report calls is given. |
| FioHab.AhabStatus | arch/arm/mach-imx/fiohab.c:55-78 | -EIO when the lifecycle query fails. 0 iff the first sc_seco_get_event fails. 1 for 1 to 255 events. With 256 or more pending events the u8 index wraps and it never returns. |
| FioHab.HabStatus | arch/arm/mach-imx/fiohab.c:54-145 | Dispatches to the AHAB or HABv4 routine for the SoC, with the outcome HabOutcome and the calls HabCalls. |
| FioHab.FirstFailing | arch/arm/mach-imx/fiohab.c:177-200 | The index of the first SRK locator that fails to read, has a zero or missing srk_<i>, or mismatches: every locator before it passes, and it does not. |
| FioHab.CheckSrkFuses | arch/arm/mach-imx/fiohab.c:177-200 | The loop succeeds iff every locator passes. In list order, it reads each fuse and then, if the read succeeded, srk_<i>, stopping after the first failure. |
| FioHab.CheckAndProgram | arch/arm/mach-imx/fiohab.c:177-211 | After a clean status: the SRK check, then the closing step only if every locator passed, returning 0 iff that step succeeded. |
| FioHab.CloseOpenDevice | arch/arm/mach-imx/fiohab.c:173-211 | On an open device: a non-zero hab_status returns 1, or never returns, before any fuse access. Otherwise the SRK check and closing step decide. |
| FioHab.FiohabClose | arch/arm/mach-imx/fiohab.c:151-212 | argc other than 1 returns 1 with no access. A closed device returns 0 after only the closed-bit query. Otherwise it ends as CloseOutcome, with the accesses CloseCalls. |
| FioHab.NotTouchedAppend | arch/arm/mach-imx/fiohab.c:151-212 | A concatenated trace touches fuses, the environment, or the closing step iff one of its parts does. |
| FioHab.HabCallsTouchNothing | arch/arm/mach-imx/fiohab.c:55-144 | Neither hab_status routine reads a fuse or the environment, and neither programs anything. |
| FioHab.CheckCallsNeverProgram | arch/arm/mach-imx/fiohab.c:177-200 | The SRK loop never issues the closing step. |
| FioHab.TailProgramsIff | arch/arm/mach-imx/fiohab.c:177-211 | After the SRK check, the closing step is issued iff every locator passed. It is then the last access, and it occurs once. |
| FioHab.OpenProgramsIff | arch/arm/mach-imx/fiohab.c:173-211 | On an open device, the closing step is issued iff hab_status is 0 and every locator passed. It is then the last access, and it occurs once. |
| FioHab.QueryClosedKeepsProgramLast | arch/arm/mach-imx/fiohab.c:167-211 | Putting the closed-bit query before a trace keeps whether it programs, and keeps the closing step as the single, last access. |
| FioHab.CloseProgramsIff | arch/arm/mach-imx/fiohab.c:151-212 | The closing step is issued iff argc is 1, the device is open, hab_status is 0 and every SRK fuse matches. It is then performed exactly once, as the last access. |
| FioHab.ClosedDeviceIsLeftAlone | arch/arm/mach-imx/fiohab.c:167-171 | A closed device returns 0, and the only access made is the closed-bit query: no hab_status, fuse read, environment read or programming. |
| FioHab.HabEventBlocksFuseAccess | arch/arm/mach-imx/fiohab.c:173-175 | On an open device, a non-zero hab_status makes close return exactly 1, or never return when hab_status does not. There is no fuse read, environment read or closing step. |
| FioHab.MissingSrkValueBlocksClose | arch/arm/mach-imx/fiohab.c:188-193 | A missing or zero srk_<i>, for any i in the list, means no closing step and no success on an open device. |
| FioHab.CloseSucceedsIff | arch/arm/mach-imx/fiohab.c:151-212 | Close returns 0 iff argc is 1 and either the device was closed, or the closing step was issued and succeeded. |
| FioHab.KnownRngEventIsTolerated | arch/arm/mach-imx/fiohab.c:115-135 | On an MX6Q whose only pending event is the known RNG failure, hab_status is 0. |
| FioHab.OtherEventsBlock | arch/arm/mach-imx/fiohab.c:115-140 | An event not starting with 0xdb makes hab_status 1 on the MX6Q. A part without the allow-list gets 1 even for the known event. |
| Spl.Align | arch/arm/mach-imx/spl.c:330 | ALIGN in an m-wide type gives a multiple of the alignment below m. |
| Spl.AlignRoundsUp | arch/arm/mach-imx/spl.c:330 | Without wrap-around, ALIGN gives the least multiple of a that is at least x. |
| Spl.AlignWrapsToZero | arch/arm/mach-imx/spl.c:330 | When x + a - 1 overflows the type, ALIGN gives 0. |
| Spl.BoardBootDevice | arch/arm/mach-imx/spl.c:27-70 | The translation never produces a device outside the ones it names. |
| Spl.CommonCasesOnEveryVariant | arch/arm/mach-imx/spl.c:59-66 | On every SoC, NAND_BOOT maps to NAND, SPI_NOR_BOOT to SPI, QSPI_BOOT to NOR and USB_BOOT to BOARD. |
| Spl.UnlistedIffNone | arch/arm/mach-imx/spl.c:27-70 | A ROM device maps to BOOT_DEVICE_NONE iff the SoC's translation does not name it. |
| Spl.MmcOnlyFromSdOrMmc | arch/arm/mach-imx/spl.c:30-57 | Only an SD or MMC ROM device becomes an MMC SPL device. |
| Spl.MmcBootMode | arch/arm/mach-imx/spl.c:215-257 | spl_mmc_boot_mode as the per-SoC choice from the SPL or ROM boot device. Its properties are in MmcBootModeChoice and TranslatedMmcDeviceHasMode (no ensures of its own). |
| Spl.MmcBootModeChoice | arch/arm/mach-imx/spl.c:215-257 | Hangs iff the device is unsupported. FAT support always gives FS. On the SoCs that choose by ROM device (i.MX7, i.MX8M, i.MX8), an SD ROM device never gives EMMCBOOT. EMMCBOOT is chosen iff the device is supported, FAT is off and eMMC boot is on, and (on those SoCs) the ROM device is MMC. |
| Spl.TranslatedMmcDeviceHasMode | arch/arm/mach-imx/spl.c:215-257 | Whenever the translation picks an MMC device, the boot-mode choice for the same boot does not hang. |
| Spl.FitSizeAlign | arch/arm/mach-imx/spl.c:323-334 | The result is a value of the `ulong` type. |
| Spl.FitSizeAlignBounds | arch/arm/mach-imx/spl.c:323-334 | Without wrap-around, the result less CONFIG_CSF_SIZE is a multiple of 0x1000, at least `size` and below `size + 0x1000`. |
| Spl.EffectiveBlockLength | arch/arm/mach-imx/spl.c:348-349 | bl_len below 512 becomes 512, and larger values are kept. |
| Spl.FitBufferAddr | arch/arm/mach-imx/spl.c:339-358 | The buffer address is a `uintptr_t` value and a multiple of ARCH_DMA_MINALIGN. |
| Spl.ShortBlockLengthIs512 | arch/arm/mach-imx/spl.c:348-349 | Any bl_len below 512 gives the same address as 512. |
| Spl.FitBufferFitsBelowBase | arch/arm/mach-imx/spl.c:341-357 | Without underflow, address + fit_size + effective bl_len is at most the base, and the address lies within two alignment units of that limit. |
| Spl.AlignTotal | arch/arm/mach-imx/spl.c:385-386 | ALIGN of the 32-bit fdt_totalsize is a 32-bit multiple of the alignment. |
| Spl.FixLoad | arch/arm/mach-imx/spl.c:377-402 | The returned address is an address of the target. |
| Spl.FixLoadWithoutIvtKeepsFit | arch/arm/mach-imx/spl.c:390-393 | Without the IVT magic at fit + ALIGN(totalsize, 0x1000), fit is returned unchanged and nothing is copied. With the magic, a copy is made. |
| Spl.FixLoadPutsIvtAtSelf | arch/arm/mach-imx/spl.c:396-401 | With the IVT magic, the FIT is copied to the returned address ivt->self - offset, which puts the IVT exactly at ivt->self. |
| Spl.FixLoadCopyLength | arch/arm/mach-imx/spl.c:385-399 | Without wrap-around, the copy length is the IVT offset plus CONFIG_CSF_SIZE: rounding to 4 and then to 0x1000 equals rounding to 0x1000. |
| Spl.FixLoadCopiesFitSize | arch/arm/mach-imx/spl.c:385-399 | With the IVT magic, a copy is made, and its length is board_spl_fit_size_align(ALIGN(totalsize, 4)). |
| Spl.PaddedSizeIsIvtOffsetPlusCsf | arch/arm/mach-imx/spl.c:385-387 | Without wrap-around, rounding totalsize to 4 and then to 0x1000, plus CONFIG_CSF_SIZE, is ALIGN(totalsize, 0x1000) plus CONFIG_CSF_SIZE. |
| Spl.EmmcBootPartition | arch/arm/mach-imx/spl.c:522-525 | The eMMC boot partition is 1 or 2, and it is 2 exactly when booting from the secondary path. |
| Spl.UbootRawSectorAsWritten | arch/arm/mach-imx/spl.c:499-519 | The raw sector as the code is compiled: a value of the `ulong` type, chosen by the boot path alone. |
| Spl.UbootRawSector | arch/arm/mach-imx/spl.c:499-519 | The raw sector as intended, with the i.MX8MN MMC2 adjustment: a value of the `ulong` type. |
| Spl.RawSectorFollowsBootPath | arch/arm/mach-imx/spl.c:502-518 | The raw sector is the base sector (0x40 lower on the i.MX8MN from MMC2), plus CONFIG_SECONDARY_BOOT_SECTOR_OFFSET iff the eMMC boot partition is 2, i.e. iff booting secondary. |
| Spl.RawSectorAgreesOffMmc2 | arch/arm/mach-imx/spl.c:499-519 | Except on the i.MX8MN booting from MMC2, the intended and the compiled routine agree. |
| Spl.RawSectorAsWrittenMissesMmc2Adjustment | arch/arm/mach-imx/spl.c:504-508 | On the i.MX8MN from MMC2 on the primary path with base 0x300, the compiled routine gives 0x300 where 0x2C0 is intended. |
| MachineInts.Add32Cancel | arch/arm/mach-zynqmp/cmd_bootslot.c:52-55 | Wrapping 32-bit addition is injective in each argument. |
| MachineInts.Sub32IffAdd32 | arch/arm/mach-zynqmp/cmd_bootslot.c:57 | x is a - c modulo 2^32 exactly when c + x is a modulo 2^32. |

## Left out

- The SPI flash driver glue (`init_spi_flash`, `spi_flash_probe*`, `spi_flash_free`, `device_remove`, cmd_bootslot.c:77-119) is not modelled. The probe's outcome is an input. In the non-driver-model build, `init_spi_flash` returns an uninitialised `ret` (cmd_bootslot.c:85, 115, 118), so the probe outcome there is unspecified. The model takes it as given.
- The flash is modelled as the 32 bytes of the persistent register plus a log of erases and writes. The sector size and the rest of the PERSISTENT_REG_SIZE window are not modelled. A failed erase or write leaves the 32 bytes arbitrary.
- BootSlot.BootSlotCommand.ReadPersistentInfo: does not model a failed `spi_flash_read` partly filling the record. It is modelled as leaving the record unchanged, because the driver does not say what a failed read writes.
- Power loss between erase and write cannot be expressed in a sequential model. ErasedRegionIsCorrupt states what a read then sees.
- `simple_strtoul` and `env_get_hex` string parsing are not modelled. The arguments arrive as u32 values and `srk_<i>` as a parsed map, missing meaning 0. The `(uint32_t)` truncation of `env_get_hex` is assumed already applied.
- The ROM and firmware trust-root calls are inputs, not models: the HAB RVT entry points, `sc_seco_chip_info`, `sc_seco_get_event`, `fuse_read`, `fuse_prog`, `ahab_close` and `boot_mode_is_closed`. Their cryptography is out of reach.
- FioHab.Habv4Status: ignores the `bytes` in-out size of `report_event` (fiohab.c:122-125). Each event's length is taken to be the length of the event the oracle returns, because that size is defined by the driver.
- FioHab.UsesAhab: the AHAB `hab_status` is selected by CONFIG_AHAB_BOOT (fiohab.c:54) and the `ahab_close` step by CONFIG_IMX8QM (fiohab.c:201). The model assumes the i.MX8QM is exactly the AHAB build.
- The MX6/MX7 `spl_boot_device` register decoding (`readl`, `is_usbotg_phy_active`, `is_boot_from_usb`, `get_boot_device`) is left out. The IMX6_BMODE_* constants are not part of this model. `get_boot_device()` is an input of MmcBootMode.
- `jump_to_image_no_args`, `board_spl_fit_post_load` authentication, `board_handle_rdc_config`, `dram_init_banksize`, the USB gadget fixups and the trusty hooks are left out. They are foreign calls or raw memory writes.
- Spl.FixLoad: the `memcpy` to the new address is returned as a described copy, not performed. The IVT header is read through an oracle, and its layout in asm/mach-imx/hab.h is not part of this model. IVT_HEADER_MAGIC is taken as 0xD1, the IVT tag of the i.MX boot image format.
- Spl.FitSizeAlign: is only modelled for a build with CONFIG_SPL_IMX_HAB on (spl.c:260) and CONFIG_SPL_FIT_SIGNATURE off (spl.c:322), the two guards around it. Spl.FixLoad, Spl.FixLoadCopyLength, Spl.FixLoadCopiesFitSize and Spl.PaddedSizeIsIvtOffsetPlusCsf use it for the copy size (spl.c:387), so they also describe only that build.
- Spl.Align: models `& ~(a - 1)` as rounding down to a multiple of a. This is the same for the power-of-two alignments the code uses (0x1000, 4, ARCH_DMA_MINALIGN). Bit-level operations are not modelled.
- common/bootfirmware_info.c is not part of this model.
- `printf`/`puts` diagnostics and the `debug` output are not modelled.
- BootSlot.BootSlotCommand.PrintPersistentInfo: treats every `env_set` as succeeding. The source ignores its return value (cmd_bootslot.c:144-179), so a failed `env_set` leaves a variable unset there and the model does not capture that.

## Findings

| source | as written | input that shows it | evidently intended | confidence | as-written member | corrected member |
|---|---|---|---|---|---|---|
| arch/arm/mach-imx/spl.c:504-508 | The i.MX8MN MMC2 adjustment is guarded by `#if defined(CONFIG_iMX8MN)`. The option is spelled `CONFIG_IMX8MN` elsewhere in the same file (lines 404, 468), so the adjustment is never compiled in. | An i.MX8MN booting U-Boot from MMC2 on the primary path, with base sector 0x300: the routine returns 0x300. | Return 0x300 - 0x40 = 0x2C0 for that boot, and the same as now everywhere else. | medium; not executed | Spl.UbootRawSectorAsWritten, Spl.RawSectorAsWrittenMissesMmc2Adjustment | Spl.UbootRawSector, Spl.RawSectorFollowsBootPath |
