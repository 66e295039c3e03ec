/**
 * Pure helpers of the i.MX secondary program loader: the boot-device
 * translation, the MMC boot-mode choice, the alignment arithmetic that
 * places a signed FIT image, the relocation of an image carrying an IVT,
 * and the primary/secondary choice of raw sector and eMMC partition.
 *
 * The C preprocessor selection of the SoC and of the configuration
 * options becomes parameters. Address arithmetic on `unsigned long` is
 * carried out modulo 2^32 or 2^64, as the target's word width says.
 */
module Spl {
  import opened MachineInts
  import opened Arith

  // ---------------------------------------------------------------------
  // Machine words and ALIGN

  /** The width of `unsigned long` / `uintptr_t` on the target. */
  datatype Width = Bits32 | Bits64

  function Modulus(w: Width): (m: nat)
    ensures m == 0x1_0000_0000 || m == 0x1_0000_0000_0000_0000
  {
    match w
    case Bits32 => 0x1_0000_0000
    case Bits64 => 0x1_0000_0000_0000_0000
  }

  predicate IsPowerOfTwo(a: nat)
    decreases a
  {
    a == 1 || (a >= 2 && a % 2 == 0 && IsPowerOfTwo(a / 2))
  }

  /**
   * ALIGN(x, a) evaluated in an m-wide unsigned type: (x + a - 1) wraps,
   * then `& ~(a - 1)` clears the low bits, which for a power of two a is
   * rounding down to a multiple of a.
   */
  function Align(x: int, a: nat, m: nat): (r: int)
    requires 0 <= x < m && 0 < a <= m
    ensures 0 <= r < m && r % a == 0
  {
    var v := (x + a - 1) % m;
    RoundDown(v, a);
    v / a * a
  }

  /** Without wrap-around, ALIGN rounds up to the least multiple of a that is at least x. */
  lemma AlignRoundsUp(x: int, a: nat, m: nat)
    requires 0 <= x < m && 0 < a <= m
    requires x + a - 1 < m
    ensures x <= Align(x, a, m) < x + a
    ensures Align(x, a, m) % a == 0
  {
    var v := x + a - 1;
    ModSmall(v, m);
    RoundDown(v, a);
  }

  /** Near the top of the type the rounding wraps around to zero. */
  lemma AlignWrapsToZero(x: int, a: nat, m: nat)
    requires 0 <= x < m && 0 < a <= m
    requires x + a - 1 >= m
    ensures Align(x, a, m) == 0
  {
    var v := x + a - 1;
    ModShift(v - m, 1, m);
    ModSmall(v - m, m);
    ModSmall(v - m, a);
  }

  // ---------------------------------------------------------------------
  // spl_board_boot_device

  /** The boot device the ROM reports (enum boot_device). */
  datatype RomBootDevice =
    | Sd1Boot | Sd2Boot | Sd3Boot
    | Mmc1Boot | Mmc2Boot | Mmc3Boot
    | NandBoot | SpiNorBoot | QspiBoot | FlexSpiBoot | UsbBoot
    | OtherRomBoot  // every device the translation does not name

  /** The SPL's own boot-device numbering (BOOT_DEVICE_*). */
  datatype SplBootDevice =
    | Mmc1 | Mmc2 | Mmc2_2 | Nand | Spi | Nor | Board | NoDevice
    | OtherSplDevice  // RAM, SATA, I2C and the rest, which only other boot paths produce

  /** The SoC family the SPL is built for: it selects the MMC cases of the translation. */
  datatype SplSoc = Mx7 | Mx7Ulp | Imx8 | Imx8M | OtherSoc

  /** spl_board_boot_device: the SoC-specific MMC cases, then the cases every SoC shares. */
  function BoardBootDevice(soc: SplSoc, dev: RomBootDevice): (d: SplBootDevice)
    ensures d != OtherSplDevice
  {
    match (soc, dev)
    case (Mx7, Sd1Boot) => Mmc1
    case (Mx7, Mmc1Boot) => Mmc1
    case (Mx7, Sd2Boot) => Mmc1
    case (Mx7, Mmc2Boot) => Mmc1
    case (Mx7, Sd3Boot) => Mmc1
    case (Mx7, Mmc3Boot) => Mmc1
    case (Mx7Ulp, Sd1Boot) => Mmc1
    case (Mx7Ulp, Mmc1Boot) => Mmc1
    case (Imx8, Mmc1Boot) => Mmc1
    case (Imx8, Sd2Boot) => Mmc2_2
    case (Imx8, Sd3Boot) => Mmc1
    case (Imx8, FlexSpiBoot) => Spi
    case (Imx8M, Sd1Boot) => Mmc1
    case (Imx8M, Mmc1Boot) => Mmc1
    case (Imx8M, Sd2Boot) => Mmc2
    case (Imx8M, Mmc2Boot) => Mmc2
    case (_, NandBoot) => Nand
    case (_, SpiNorBoot) => Spi
    case (_, QspiBoot) => Nor
    case (_, UsbBoot) => Board
    case _ => NoDevice
  }

  /** The ROM devices each SoC's translation names. */
  function ListedDevices(soc: SplSoc): set<RomBootDevice>
  {
    var common := {NandBoot, SpiNorBoot, QspiBoot, UsbBoot};
    match soc
    case Mx7 => common + {Sd1Boot, Sd2Boot, Sd3Boot, Mmc1Boot, Mmc2Boot, Mmc3Boot}
    case Mx7Ulp => common + {Sd1Boot, Mmc1Boot}
    case Imx8 => common + {Mmc1Boot, Sd2Boot, Sd3Boot, FlexSpiBoot}
    case Imx8M => common + {Sd1Boot, Mmc1Boot, Sd2Boot, Mmc2Boot}
    case OtherSoc => common
  }

  predicate IsMmcDevice(d: SplBootDevice)
  {
    d == Mmc1 || d == Mmc2 || d == Mmc2_2
  }

  predicate IsSdOrMmcRom(dev: RomBootDevice)
  {
    dev.Sd1Boot? || dev.Sd2Boot? || dev.Sd3Boot? || dev.Mmc1Boot? || dev.Mmc2Boot? || dev.Mmc3Boot?
  }

  /** The shared cases hold on every SoC. */
  lemma CommonCasesOnEveryVariant(soc: SplSoc)
    ensures BoardBootDevice(soc, NandBoot) == Nand
    ensures BoardBootDevice(soc, SpiNorBoot) == Spi
    ensures BoardBootDevice(soc, QspiBoot) == Nor
    ensures BoardBootDevice(soc, UsbBoot) == Board
  {
  }

  /** A device maps to BOOT_DEVICE_NONE exactly when the SoC's translation does not name it. */
  lemma UnlistedIffNone(soc: SplSoc, dev: RomBootDevice)
    ensures BoardBootDevice(soc, dev) == NoDevice <==> dev !in ListedDevices(soc)
  {
  }

  /** Only an SD or MMC ROM device becomes an MMC SPL device. */
  lemma MmcOnlyFromSdOrMmc(soc: SplSoc, dev: RomBootDevice)
    ensures IsMmcDevice(BoardBootDevice(soc, dev)) ==> IsSdOrMmcRom(dev)
  {
  }

  // ---------------------------------------------------------------------
  // spl_mmc_boot_mode

  /** MMCSD_MODE_RAW, MMCSD_MODE_FS, MMCSD_MODE_EMMCBOOT. */
  datatype MmcMode = Raw | Fs | EmmcBootMode

  /** The mode chosen, or a hang after "unsupported device". */
  datatype ModeOutcome = Mode(mode: MmcMode) | Hang

  /** CONFIG_SPL_FS_FAT and CONFIG_SUPPORT_EMMC_BOOT. */
  datatype MmcConfig = MmcConfig(fsFat: bool, emmcBoot: bool)

  /** The MX7, i.MX8M and i.MX8 decide from the ROM device, not from the SPL device handed in. */
  predicate ModeFromRomDevice(soc: SplSoc)
  {
    soc == Mx7 || soc == Imx8M || soc == Imx8
  }

  function SdMode(cfg: MmcConfig): MmcMode
  {
    if cfg.fsFat then Fs else Raw
  }

  function EmmcMode(cfg: MmcConfig): MmcMode
  {
    if cfg.fsFat then Fs else if cfg.emmcBoot then EmmcBootMode else Raw
  }

  /** spl_mmc_boot_mode(boot_device), where romDevice is what get_boot_device() answers. */
  function MmcBootMode(soc: SplSoc, cfg: MmcConfig, bootDevice: SplBootDevice, romDevice: RomBootDevice): ModeOutcome
  {
    if ModeFromRomDevice(soc) then
      match romDevice
      case Sd1Boot => Mode(SdMode(cfg))
      case Sd2Boot => Mode(SdMode(cfg))
      case Sd3Boot => Mode(SdMode(cfg))
      case Mmc1Boot => Mode(EmmcMode(cfg))
      case Mmc2Boot => Mode(EmmcMode(cfg))
      case Mmc3Boot => Mode(EmmcMode(cfg))
      case _ => Hang
    else
      match bootDevice
      case Mmc1 => Mode(EmmcMode(cfg))
      case Mmc2 => Mode(EmmcMode(cfg))
      case Mmc2_2 => Mode(EmmcMode(cfg))
      case _ => Hang
  }

  /** The device the choice is made from is supported: an SD/MMC ROM device, or an MMC SPL device. */
  predicate ModeDeviceSupported(soc: SplSoc, bootDevice: SplBootDevice, romDevice: RomBootDevice)
  {
    if ModeFromRomDevice(soc) then IsSdOrMmcRom(romDevice) else IsMmcDevice(bootDevice)
  }

  /**
   * FAT support always wins; an SD card never boots from an eMMC boot
   * partition; the eMMC boot mode is chosen exactly for an (e)MMC device
   * when FAT is off and eMMC boot is on; and the routine hangs exactly for
   * unsupported devices.
   */
  lemma MmcBootModeChoice(soc: SplSoc, cfg: MmcConfig, bootDevice: SplBootDevice, romDevice: RomBootDevice)
    ensures var o := MmcBootMode(soc, cfg, bootDevice, romDevice);
      && (o == Hang <==> !ModeDeviceSupported(soc, bootDevice, romDevice))
      && (cfg.fsFat && o != Hang ==> o == Mode(Fs))
      && (ModeFromRomDevice(soc) && (romDevice.Sd1Boot? || romDevice.Sd2Boot? || romDevice.Sd3Boot?)
          ==> o != Mode(EmmcBootMode))
      && (o == Mode(EmmcBootMode) <==>
            ModeDeviceSupported(soc, bootDevice, romDevice) && !cfg.fsFat && cfg.emmcBoot
            && (ModeFromRomDevice(soc) ==> romDevice.Mmc1Boot? || romDevice.Mmc2Boot? || romDevice.Mmc3Boot?))
  {
  }

  /**
   * Whenever the translation picks an MMC device, the boot-mode choice for
   * that same boot does not hang, on every SoC.
   */
  lemma TranslatedMmcDeviceHasMode(soc: SplSoc, cfg: MmcConfig, dev: RomBootDevice)
    requires IsMmcDevice(BoardBootDevice(soc, dev))
    ensures MmcBootMode(soc, cfg, BoardBootDevice(soc, dev), dev) != Hang
  {
    MmcOnlyFromSdOrMmc(soc, dev);
  }

  // ---------------------------------------------------------------------
  // board_spl_fit_size_align

  const IvtAlign: nat := 0x1000

  /** board_spl_fit_size_align: round up to the IVT alignment, then add CONFIG_CSF_SIZE, in `ulong`. */
  function FitSizeAlign(w: Width, csfSize: nat, size: int): (r: int)
    requires 0 <= size < Modulus(w)
    ensures 0 <= r < Modulus(w)
  {
    var m := Modulus(w);
    (Align(size, IvtAlign, m) + csfSize) % m
  }

  /**
   * Without wrap-around, the rounded part is the least multiple of 0x1000
   * that is at least size, and the result is that plus the CSF size.
   */
  lemma FitSizeAlignBounds(w: Width, csfSize: nat, size: int)
    requires 0 <= size && size + IvtAlign + csfSize <= Modulus(w)
    ensures var rounded := FitSizeAlign(w, csfSize, size) - csfSize;
      && size <= rounded < size + IvtAlign
      && rounded % IvtAlign == 0
  {
    var m := Modulus(w);
    AlignRoundsUp(size, IvtAlign, m);
    assert Align(size, IvtAlign, m) + csfSize < m;
  }

  // ---------------------------------------------------------------------
  // board_spl_fit_buffer_addr

  /** The configuration board_spl_fit_buffer_addr reads. */
  datatype BufferConfig = BufferConfig(
    w: Width,
    dmaMinAlign: nat,   // ARCH_DMA_MINALIGN
    textBase: int)      // CONFIG_SYS_TEXT_BASE

  predicate ValidBufferConfig(cfg: BufferConfig)
  {
    IsPowerOfTwo(cfg.dmaMinAlign) && 0 < cfg.dmaMinAlign <= Modulus(cfg.w)
    && 0 <= cfg.textBase < Modulus(cfg.w)
  }

  /** bl_len below 512 (the block length of SDP, NOR, NAND and SPI) counts as 512. */
  function EffectiveBlockLength(blLen: int): (n: int)
    ensures n >= 512 && (blLen >= 512 ==> n == blLen)
    ensures blLen < 512 ==> n == 512
  {
    if blLen < 512 then 512 else blLen
  }

  /** 0x83000000 on the i.MX8QM, i.MX8QXP and i.MX8DXL, else CONFIG_SYS_TEXT_BASE. */
  function BufferBase(cfg: BufferConfig, isImx8qxx: bool): int
  {
    if isImx8qxx then 0x8300_0000 else cfg.textBase
  }

  /**
   * board_spl_fit_buffer_addr(fit_size, sectors, bl_len): the base, less the
   * FIT size, the block length and ARCH_DMA_MINALIGN - 1, wrapped in
   * `uintptr_t`, rounded down to ARCH_DMA_MINALIGN. `sectors` is unused.
   */
  function FitBufferAddr(cfg: BufferConfig, isImx8qxx: bool, fitSize: int, sectors: int, blLen: int): (r: int)
    requires ValidBufferConfig(cfg)
    requires 0 <= fitSize < Modulus(cfg.w)
    requires blLen < Modulus(cfg.w)
    ensures 0 <= r < Modulus(cfg.w)
    ensures r % cfg.dmaMinAlign == 0
  {
    var m := Modulus(cfg.w);
    var a := cfg.dmaMinAlign;
    var v := (BufferBase(cfg, isImx8qxx) - fitSize - EffectiveBlockLength(blLen) - (a - 1)) % m;
    RoundDown(v, a);
    v / a * a
  }

  /** Short block lengths are treated as 512. */
  lemma ShortBlockLengthIs512(cfg: BufferConfig, isImx8qxx: bool, fitSize: int, sectors: int, blLen: int)
    requires ValidBufferConfig(cfg)
    requires 0 <= fitSize < Modulus(cfg.w)
    requires blLen < 512
    ensures FitBufferAddr(cfg, isImx8qxx, fitSize, sectors, blLen)
         == FitBufferAddr(cfg, isImx8qxx, fitSize, sectors, 512)
  {
  }

  /**
   * Without underflow, the buffer and one block after it end at or below
   * the base, and the buffer sits within one ARCH_DMA_MINALIGN of the
   * highest such place.
   */
  lemma FitBufferFitsBelowBase(cfg: BufferConfig, isImx8qxx: bool, fitSize: int, sectors: int, blLen: int)
    requires ValidBufferConfig(cfg)
    requires 0 <= fitSize < Modulus(cfg.w)
    requires blLen < Modulus(cfg.w)
    requires fitSize + EffectiveBlockLength(blLen) + cfg.dmaMinAlign - 1 <= BufferBase(cfg, isImx8qxx)
    ensures var r := FitBufferAddr(cfg, isImx8qxx, fitSize, sectors, blLen);
      var top := BufferBase(cfg, isImx8qxx) - fitSize - EffectiveBlockLength(blLen);
      top - 2 * cfg.dmaMinAlign < r && r + fitSize + EffectiveBlockLength(blLen) <= BufferBase(cfg, isImx8qxx)
  {
    var m := Modulus(cfg.w);
    var a := cfg.dmaMinAlign;
    var base := BufferBase(cfg, isImx8qxx);
    assert base < m;
    var v := base - fitSize - EffectiveBlockLength(blLen) - (a - 1);
    ModSmall(v, m);
    RoundDown(v, a);
  }

  // ---------------------------------------------------------------------
  // spl_load_simple_fit_fix_load

  /**
   * IVT_HEADER_MAGIC, the tag of an image vector table header (0xD1 in the
   * i.MX boot image format; asm/mach-imx/hab.h is not part of this model).
   */
  const IvtHeaderMagic: byte := 0xD1

  /** The two fields of the IVT header the relocation reads. */
  datatype Ivt = Ivt(magic: byte, self: u32)

  /** The memcpy the relocation performs. */
  datatype Copy = Copy(dst: int, src: int, len: int)

  datatype FixLoadResult = FixLoadResult(image: int, copy: Option<Copy>)

  datatype Option<T> = None | Some(value: T)

  /** ALIGN(fdt_totalsize(fit), a): fdt_totalsize is a 32-bit value, so the rounding wraps at 2^32. */
  function AlignTotal(totalSize: u32, a: nat): (r: int)
    requires 0 < a <= 0x1_0000_0000
    ensures 0 <= r < 0x1_0000_0000 && r % a == 0
  {
    Align(totalSize as int, a, 0x1_0000_0000)
  }

  /**
   * spl_load_simple_fit_fix_load(fit): the IVT sits at fit + ALIGN(totalsize,
   * 0x1000). Without its magic the FIT stays where it is; otherwise the image
   * moves so that its IVT lands at ivt->self, and the copy covers the padded
   * FIT and the CSF.
   */
  function FixLoad(w: Width, csfSize: nat, fit: int, totalSize: u32, ivtAt: int -> Ivt): (r: FixLoadResult)
    requires 0 <= fit < Modulus(w)
    ensures 0 <= r.image < Modulus(w)
  {
    var m := Modulus(w);
    var offset := AlignTotal(totalSize, IvtAlign);
    var size := FitSizeAlign(w, csfSize, AlignTotal(totalSize, 4));
    var ivt := ivtAt((fit + offset) % m);
    if ivt.magic != IvtHeaderMagic then FixLoadResult(fit, None)
    else
      var target := (ivt.self as int - offset) % m;
      FixLoadResult(target, Some(Copy(target, fit, size)))
  }

  /** Without an IVT the FIT is returned unchanged and nothing is copied; with one, the copy is made. */
  lemma FixLoadWithoutIvtKeepsFit(w: Width, csfSize: nat, fit: int, totalSize: u32, ivtAt: int -> Ivt)
    requires 0 <= fit < Modulus(w)
    ensures var ivt := ivtAt((fit + AlignTotal(totalSize, IvtAlign)) % Modulus(w));
      var r := FixLoad(w, csfSize, fit, totalSize, ivtAt);
      (ivt.magic != IvtHeaderMagic <==> r.copy == None)
      && (ivt.magic != IvtHeaderMagic ==> r.image == fit)
  {
  }

  /** With an IVT, the header's new place (image + offset, in `ulong`) is exactly ivt->self. */
  lemma FixLoadPutsIvtAtSelf(w: Width, csfSize: nat, fit: int, totalSize: u32, ivtAt: int -> Ivt)
    requires 0 <= fit < Modulus(w)
    requires ivtAt((fit + AlignTotal(totalSize, IvtAlign)) % Modulus(w)).magic == IvtHeaderMagic
    ensures var r := FixLoad(w, csfSize, fit, totalSize, ivtAt);
      var ivt := ivtAt((fit + AlignTotal(totalSize, IvtAlign)) % Modulus(w));
      && r.copy.Some? && r.copy.value.dst == r.image && r.copy.value.src == fit
      && (r.image + AlignTotal(totalSize, IvtAlign)) % Modulus(w) == ivt.self as int
  {
    var m := Modulus(w);
    var offset := AlignTotal(totalSize, IvtAlign);
    var s := FixLoad(w, csfSize, fit, totalSize, ivtAt).image;
    var self := ivtAt((fit + offset) % m).self as int;
    assert s == (self - offset) % m;
    ModAddBack(self, offset, m);
  }

  /** Subtracting and adding back y, both reduced modulo m, returns x. */
  lemma ModAddBack(x: int, y: int, m: int)
    requires 0 <= x < m
    ensures ((x - y) % m + y) % m == x
  {
    ModAddMod(x - y, y, m);
    ModSmall(x, m);
  }

  /**
   * Rounding the total size to 4 and then to 0x1000 is rounding it to 0x1000
   * at once, so when the size does not wrap the copy is the IVT offset plus
   * the CSF size: the FIT up to its IVT, and the CSF after it.
   */
  lemma FixLoadCopyLength(w: Width, csfSize: nat, fit: int, totalSize: u32, ivtAt: int -> Ivt)
    requires 0 <= fit < Modulus(w)
    requires totalSize as int + IvtAlign <= 0x1_0000_0000
    requires AlignTotal(totalSize, IvtAlign) + csfSize < Modulus(w)
    requires ivtAt((fit + AlignTotal(totalSize, IvtAlign)) % Modulus(w)).magic == IvtHeaderMagic
    ensures FixLoad(w, csfSize, fit, totalSize, ivtAt).copy.value.len == AlignTotal(totalSize, IvtAlign) + csfSize
  {
    FixLoadCopiesFitSize(w, csfSize, fit, totalSize, ivtAt);
    PaddedSizeIsIvtOffsetPlusCsf(w, csfSize, totalSize);
  }

  /** With an IVT, the copy covers board_spl_fit_size_align(ALIGN(totalsize, 4)). */
  lemma FixLoadCopiesFitSize(w: Width, csfSize: nat, fit: int, totalSize: u32, ivtAt: int -> Ivt)
    requires 0 <= fit < Modulus(w)
    requires ivtAt((fit + AlignTotal(totalSize, IvtAlign)) % Modulus(w)).magic == IvtHeaderMagic
    ensures FixLoad(w, csfSize, fit, totalSize, ivtAt).copy.Some?
    ensures FixLoad(w, csfSize, fit, totalSize, ivtAt).copy.value.len == FitSizeAlign(w, csfSize, AlignTotal(totalSize, 4))
  {
  }

  /** Without wrap-around, rounding to 4 and then to 0x1000, plus the CSF, is the IVT offset plus the CSF. */
  lemma PaddedSizeIsIvtOffsetPlusCsf(w: Width, csfSize: nat, totalSize: u32)
    requires totalSize as int + IvtAlign <= 0x1_0000_0000
    requires AlignTotal(totalSize, IvtAlign) + csfSize < Modulus(w)
    ensures FitSizeAlign(w, csfSize, AlignTotal(totalSize, 4)) == AlignTotal(totalSize, IvtAlign) + csfSize
  {
    var m := Modulus(w);
    var t := totalSize as int;
    var t4 := AlignTotal(totalSize, 4);
    var offset := AlignTotal(totalSize, IvtAlign);
    AlignRoundsUp(t, 4, 0x1_0000_0000);
    AlignRoundsUp(t, IvtAlign, 0x1_0000_0000);
    AlignRoundsUp(t4, IvtAlign, m);
    var rounded := Align(t4, IvtAlign, m);
    AlignTwice(t, t4, rounded, offset);
    ModSmall(rounded + csfSize, m);
  }

  /** Two multiples of 0x1000 at or above the 4-aligned t4 and within 0x1000 of t, t4 < t + 4, are the same. */
  lemma AlignTwice(t: int, t4: int, a: int, b: int)
    requires t <= t4 < t + 4 && t4 % 4 == 0
    requires t4 <= a < t4 + IvtAlign && a % IvtAlign == 0
    requires t <= b < t + IvtAlign && b % IvtAlign == 0
    ensures a == b
  {
    // With the quotients named, what is left is linear: a == b + 0x1000 * (qa - qb)
    // with |a - b| < 0x1000 + 4, and a - b a multiple of 4.
    var k4, qa, qb := t4 / 4, a / IvtAlign, b / IvtAlign;
    assert t4 == 4 * k4 && a == IvtAlign * qa && b == IvtAlign * qb;
  }

  // ---------------------------------------------------------------------
  // The raw sector and the eMMC boot partition

  /** CONFIG_SYS_MMCSD_RAW_MODE_U_BOOT_SECTOR and CONFIG_SECONDARY_BOOT_SECTOR_OFFSET. */
  datatype RawSectorConfig = RawSectorConfig(w: Width, baseSector: int, secondaryOffset: int)

  predicate ValidRawSectorConfig(cfg: RawSectorConfig)
  {
    0 <= cfg.baseSector < Modulus(cfg.w) && 0 <= cfg.secondaryOffset < Modulus(cfg.w)
  }

  /** boot_mode_getprisec() answers non-zero on the secondary boot path. */
  predicate Secondary(prisec: int)
  {
    prisec != 0
  }

  /** spl_mmc_emmc_boot_partition: boot partition 2 on the secondary path, 1 on the primary. */
  function EmmcBootPartition(prisec: int): (p: int)
    ensures p == 1 || p == 2
    ensures p == 2 <==> Secondary(prisec)
  {
    if Secondary(prisec) then 2 else 1
  }

  const Mmc2RawSectorOffset: int := 0x40

  /**
   * spl_mmc_get_uboot_raw_sector as written: the i.MX8MN adjustment sits
   * under `CONFIG_iMX8MN`, which is not the spelling of the i.MX8MN option
   * (`CONFIG_IMX8MN`, as elsewhere in the same file), so it is never compiled
   * in and the result depends only on the boot path. The raw_sect argument
   * is ignored.
   */
  function UbootRawSectorAsWritten(cfg: RawSectorConfig, rawSect: int, prisec: int): (r: int)
    requires ValidRawSectorConfig(cfg)
    ensures 0 <= r < Modulus(cfg.w)
  {
    var offset := cfg.baseSector;
    if Secondary(prisec) then (offset + cfg.secondaryOffset) % Modulus(cfg.w) else offset
  }

  /**
   * spl_mmc_get_uboot_raw_sector as evidently intended: on the i.MX8MN,
   * booting from MMC2 moves the base sector down by 0x40 first.
   */
  function UbootRawSector(cfg: RawSectorConfig, isImx8mn: bool, bootDevice: SplBootDevice, rawSect: int, prisec: int): (r: int)
    requires ValidRawSectorConfig(cfg)
    ensures 0 <= r < Modulus(cfg.w)
  {
    var m := Modulus(cfg.w);
    var offset := if isImx8mn && bootDevice == Mmc2 then (cfg.baseSector - Mmc2RawSectorOffset) % m else cfg.baseSector;
    if Secondary(prisec) then (offset + cfg.secondaryOffset) % m else offset
  }

  /**
   * The secondary offset is added exactly on the path that boots from eMMC
   * boot partition 2, and the i.MX8MN on MMC2 starts 0x40 sectors lower.
   */
  lemma RawSectorFollowsBootPath(cfg: RawSectorConfig, isImx8mn: bool, bootDevice: SplBootDevice, rawSect: int, prisec: int)
    requires ValidRawSectorConfig(cfg)
    ensures var m := Modulus(cfg.w);
      var base := if isImx8mn && bootDevice == Mmc2 then cfg.baseSector - Mmc2RawSectorOffset else cfg.baseSector;
      UbootRawSector(cfg, isImx8mn, bootDevice, rawSect, prisec)
        == (base + (if EmmcBootPartition(prisec) == 2 then cfg.secondaryOffset else 0)) % m
  {
    var m := Modulus(cfg.w);
    var b := cfg.baseSector - Mmc2RawSectorOffset;
    var o := cfg.secondaryOffset;
    if isImx8mn && bootDevice == Mmc2 {
      ModAddMod(b, o, m);
      ModSmall(b % m, m);
    } else {
      ModSmall(cfg.baseSector, m);
    }
  }

  /** Elsewhere the corrected and the written routine agree. */
  lemma RawSectorAgreesOffMmc2(cfg: RawSectorConfig, isImx8mn: bool, bootDevice: SplBootDevice, rawSect: int, prisec: int)
    requires ValidRawSectorConfig(cfg)
    requires !isImx8mn || bootDevice != Mmc2
    ensures UbootRawSector(cfg, isImx8mn, bootDevice, rawSect, prisec) == UbootRawSectorAsWritten(cfg, rawSect, prisec)
  {
  }

  /** The i.MX8MN booting U-Boot from MMC2 on the primary path: the written routine misses the 0x40 adjustment. */
  lemma RawSectorAsWrittenMissesMmc2Adjustment()
    ensures var cfg := RawSectorConfig(Bits64, 0x300, 0x1000);
      && UbootRawSectorAsWritten(cfg, 0, 0) == 0x300
      && UbootRawSector(cfg, true, Mmc2, 0, 0) == 0x2C0
  {
  }
}
