/**
 * The `bootslot` command of the ZynqMP image selector: the static
 * in-memory record, the persistent register window on SPI flash, the
 * environment the record is exported to, and the command's control flow.
 *
 * The SPI flash is abstract: the 32 bytes of the persistent register at
 * its fixed offset, plus a log of the erase and write operations issued.
 * The outcome of each flash operation (0 or an error code) is an input.
 */
module BootSlot {
  import opened MachineInts
  import opened BootImgInfo

  /** The four exported variables, each under the prefix "zynqmp." (ENV_VAR_PREFIX). */
  const EnvImageABootable: string := "zynqmp.image_a_bootable"
  const EnvImageBBootable: string := "zynqmp.image_b_bootable"
  const EnvRequestedBoot: string := "zynqmp.requested_boot"
  const EnvLastBooted: string := "zynqmp.last_booted"

  function ExportKeys(): set<string>
  {
    {EnvImageABootable, EnvImageBBootable, EnvRequestedBoot, EnvLastBooted}
  }

  /** The value exported for a state byte: "0" for 0 (image A / not bootable), "1" otherwise. */
  function Flag(b: byte): (v: string)
    ensures v == "0" <==> b == 0
    ensures v == "0" || v == "1"
  {
    if b == 0 then "0" else "1"
  }

  /** The environment after print_persistent_info has exported the state. */
  function Export(env: map<string, string>, s: PersistentState): (env': map<string, string>)
    ensures env'.Keys == env.Keys + ExportKeys()
    ensures env'[EnvImageABootable] == Flag(s.imgABootable)
    ensures env'[EnvImageBBootable] == Flag(s.imgBBootable)
    ensures env'[EnvRequestedBoot] == Flag(s.requestedBootImg)
    ensures env'[EnvLastBooted] == Flag(s.lastBootedImg)
    ensures forall k :: k in env && k !in ExportKeys() ==> env'[k] == env[k]
  {
    env[EnvImageABootable := Flag(s.imgABootable)]
       [EnvImageBBootable := Flag(s.imgBBootable)]
       [EnvRequestedBoot := Flag(s.requestedBootImg)]
       [EnvLastBooted := Flag(s.lastBootedImg)]
  }

  /** Exporting twice publishes the same values as exporting once. */
  lemma ExportIdempotent(env: map<string, string>, s: PersistentState)
    ensures Export(Export(env, s), s) == Export(env, s)
  {
    var e1, e2 := Export(env, s), Export(Export(env, s), s);
    assert e1.Keys == e2.Keys;
    forall k | k in e1 ensures e1[k] == e2[k] {
    }
  }

  /** The exported values depend on the state bytes only through "zero or not". */
  lemma ExportDependsOnZeroness(env: map<string, string>, s: PersistentState, t: PersistentState)
    requires (s.imgABootable == 0) == (t.imgABootable == 0)
    requires (s.imgBBootable == 0) == (t.imgBBootable == 0)
    requires (s.requestedBootImg == 0) == (t.requestedBootImg == 0)
    requires (s.lastBootedImg == 0) == (t.lastBootedImg == 0)
    ensures Export(env, s) == Export(env, t)
  {
    var e1, e2 := Export(env, s), Export(env, t);
    assert Flag(s.imgABootable) == Flag(t.imgABootable);
    assert Flag(s.imgBBootable) == Flag(t.imgBBootable);
    assert Flag(s.requestedBootImg) == Flag(t.requestedBootImg);
    assert Flag(s.lastBootedImg) == Flag(t.lastBootedImg);
    assert e1.Keys == e2.Keys;
    forall k | k in e1 ensures e1[k] == e2[k] {
    }
  }

  /** Command return codes (CMD_RET_SUCCESS, CMD_RET_FAILURE, CMD_RET_USAGE). */
  datatype CmdRet = CmdSuccess | CmdFailure | CmdUsage

  /** Operations issued to the SPI flash. */
  datatype FlashOp = EraseOp | WriteOp(data: seq<byte>)

  /** The static record before any read: zero-initialised storage. */
  function ZeroInfo(): Info
  {
    Info([0, 0, 0, 0], 0, 0, 0, PersistentState(0, 0, 0, 0), 0, 0, 0)
  }

  class BootSlotCommand {
    /** The static boot_img_info. */
    var bootImgInfo: Info
    /** The persistent register window on flash (CONFIG_ZYNQMP_IMGSEL_PERSISTENT_REGISTER). */
    var flash: seq<byte>
    /** The U-Boot environment. */
    var env: map<string, string>
    /** Every erase and write issued, in order. */
    ghost var flashOps: seq<FlashOp>

    ghost predicate Valid()
      reads this
    {
      |flash| == RecordBytes
    }

    constructor (region: seq<byte>, env0: map<string, string>)
      requires |region| == RecordBytes
      ensures Valid()
      ensures bootImgInfo == ZeroInfo() && flash == region && env == env0 && flashOps == []
    {
      bootImgInfo := ZeroInfo();
      flash := region;
      env := env0;
      flashOps := [];
    }

    /** calculate_checksum: two index loops over the word view, skipping the checksum word. */
    method CalculateChecksum() returns (checksum: u32)
      ensures checksum == ChecksumOf(bootImgInfo)
    {
      var data := Words(bootImgInfo);
      var sum: u32 := 0;
      var idx := 0;
      while idx < ChecksumIndex
        invariant 0 <= idx <= ChecksumIndex
        invariant sum == Sum(data[..idx])
      {
        assert data[..idx + 1][..idx] == data[..idx];
        sum := Add32(sum, data[idx]);
        idx := idx + 1;
      }
      var head := sum;
      idx := ChecksumIndex + 1;
      while idx < RecordWords
        invariant ChecksumIndex + 1 <= idx <= RecordWords
        invariant sum == Add32(head, Sum(data[ChecksumIndex + 1..idx]))
      {
        assert data[ChecksumIndex + 1..idx + 1][..idx - ChecksumIndex - 1] == data[ChecksumIndex + 1..idx];
        Add32Assoc(head, Sum(data[ChecksumIndex + 1..idx]), data[idx]);
        sum := Add32(sum, data[idx]);
        idx := idx + 1;
      }
      assert data[ChecksumIndex + 1..RecordWords] == data[ChecksumIndex + 1..];
      checksum := Sub32(0xFFFF_FFFF, sum);
    }

    /**
     * validate_boot_img_info: 0 iff the magic and the stored checksum match.
     * When the magic matches, the checksum field is overwritten with the
     * recomputed one, even if the comparison then fails.
     */
    method ValidateBootImgInfo() returns (ret: int)
      modifies this`bootImgInfo
      ensures ret == (if IsValid(old(bootImgInfo)) then 0 else -1)
      ensures bootImgInfo == Validated(old(bootImgInfo))
    {
      ret := -1;
      var checksum := bootImgInfo.checksum;
      if bootImgInfo.idstr[0] == Magic[0] && bootImgInfo.idstr[1] == Magic[1]
        && bootImgInfo.idstr[2] == Magic[2] && bootImgInfo.idstr[3] == Magic[3]
      {
        assert bootImgInfo.idstr == Magic;
        var c := CalculateChecksum();
        bootImgInfo := bootImgInfo.(checksum := c);
        if checksum == bootImgInfo.checksum {
          ret := 0;
        }
      } else {
        assert !HasMagic(bootImgInfo);
      }
    }

    /**
     * read_persistent_info: a failed flash read returns its error and leaves
     * the static record as it was; otherwise the record is filled from the
     * flash bytes and validated.
     */
    method ReadPersistentInfo(readErr: int) returns (ret: int)
      requires Valid()
      modifies this`bootImgInfo
      ensures readErr != 0 ==> ret == readErr && bootImgInfo == old(bootImgInfo)
      ensures readErr == 0 ==> bootImgInfo == Validated(Decode(flash))
      ensures readErr == 0 ==> (ret == 0 <==> IsValid(Decode(flash)))
    {
      ret := readErr;
      if ret != 0 {
        return;
      }
      bootImgInfo := Decode(flash);
      ret := ValidateBootImgInfo();
    }

    /** print_persistent_info: sets the four zynqmp.* variables one after the other. */
    method PrintPersistentInfo()
      modifies this`env
      ensures env == Export(old(env), bootImgInfo.state)
    {
      var s := bootImgInfo.state;
      var env0 := env;
      if s.imgABootable == 0 {
        env := env[EnvImageABootable := "0"];
      } else {
        env := env[EnvImageABootable := "1"];
      }
      assert env == env0[EnvImageABootable := Flag(s.imgABootable)];
      if s.imgBBootable == 0 {
        env := env[EnvImageBBootable := "0"];
      } else {
        env := env[EnvImageBBootable := "1"];
      }
      assert env == env0[EnvImageABootable := Flag(s.imgABootable)][EnvImageBBootable := Flag(s.imgBBootable)];
      if s.requestedBootImg == ImageA {
        env := env[EnvRequestedBoot := "0"];
      } else {
        env := env[EnvRequestedBoot := "1"];
      }
      assert env == env0[EnvImageABootable := Flag(s.imgABootable)][EnvImageBBootable := Flag(s.imgBBootable)]
                        [EnvRequestedBoot := Flag(s.requestedBootImg)];
      if s.lastBootedImg == ImageA {
        env := env[EnvLastBooted := "0"];
      } else {
        env := env[EnvLastBooted := "1"];
      }
      assert env == env0[EnvImageABootable := Flag(s.imgABootable)][EnvImageBBootable := Flag(s.imgBBootable)]
                        [EnvRequestedBoot := Flag(s.requestedBootImg)][EnvLastBooted := Flag(s.lastBootedImg)];
    }

    /** spi_flash_erase of the sector holding the register; a failed erase leaves the region undetermined. */
    method EraseRegion(eraseErr: int) returns (ret: int)
      requires Valid()
      modifies this`flash, this`flashOps
      ensures Valid()
      ensures ret == eraseErr
      ensures flashOps == old(flashOps) + [EraseOp]
      ensures eraseErr == 0 ==> flash == ErasedRegion()
    {
      flashOps := flashOps + [EraseOp];
      if eraseErr == 0 {
        flash := ErasedRegion();
      } else {
        var residue: seq<byte> :| |residue| == RecordBytes;
        flash := residue;
      }
      ret := eraseErr;
    }

    /** spi_flash_write of the record; a failed write leaves the region undetermined. */
    method WriteRegion(data: seq<byte>, writeErr: int) returns (ret: int)
      requires Valid() && |data| == RecordBytes
      modifies this`flash, this`flashOps
      ensures Valid()
      ensures ret == writeErr
      ensures flashOps == old(flashOps) + [WriteOp(data)]
      ensures writeErr == 0 ==> flash == data
    {
      flashOps := flashOps + [WriteOp(data)];
      if writeErr == 0 {
        flash := data;
      } else {
        var residue: seq<byte> :| |residue| == RecordBytes;
        flash := residue;
      }
      ret := writeErr;
    }

    /**
     * update_persistent_info: set the slot fields, recompute the checksum,
     * erase, and write only if the erase succeeded. The result is the erase
     * error, or else the write's.
     */
    method UpdatePersistentInfo(slotA: u32, slotB: u32, requestedSlot: u32, eraseErr: int, writeErr: int)
      returns (ret: int)
      requires Valid()
      modifies this`bootImgInfo, this`flash, this`flashOps
      ensures Valid()
      ensures bootImgInfo == Updated(old(bootImgInfo), slotA, slotB, requestedSlot)
      ensures eraseErr != 0 ==> ret == eraseErr && flashOps == old(flashOps) + [EraseOp]
      ensures eraseErr == 0 ==> ret == writeErr
      ensures eraseErr == 0 ==> flashOps == old(flashOps) + [EraseOp, WriteOp(Encode(bootImgInfo))]
      ensures ret == 0 ==> flash == Encode(bootImgInfo)
    {
      var s := bootImgInfo.state;
      s := s.(imgABootable := LowByte(slotA));
      s := s.(imgBBootable := LowByte(slotB));
      s := s.(requestedBootImg := LowByte(requestedSlot));
      bootImgInfo := bootImgInfo.(state := s);
      var c := CalculateChecksum();
      bootImgInfo := bootImgInfo.(checksum := c);

      ret := EraseRegion(eraseErr);
      if ret != 0 {
        return;
      }
      ret := WriteRegion(Encode(bootImgInfo), writeErr);
    }

    /**
     * do_bootslot. `args` are argv[1..] already converted to u32, so argc is
     * |args| + 1. `probeOk` is the outcome of init_spi_flash; `readErr`,
     * `eraseErr` and `writeErr` are those of the flash read, erase and write.
     */
    method DoBootslot(args: seq<u32>, probeOk: bool, readErr: int, eraseErr: int, writeErr: int)
      returns (ret: CmdRet)
      requires Valid()
      modifies this
      ensures Valid()
      // Wrong argument count: usage, before the flash is touched.
      ensures |args| != 0 && |args| != 3 ==>
        ret == CmdUsage && bootImgInfo == old(bootImgInfo) && env == old(env)
        && flashOps == old(flashOps) && flash == old(flash)
      // Probe failure: failure, nothing read or written.
      ensures (|args| == 0 || |args| == 3) && !probeOk ==>
        ret == CmdFailure && bootImgInfo == old(bootImgInfo) && env == old(env)
        && flashOps == old(flashOps) && flash == old(flash)
      // A failed read or a corrupted record: failure, no update, no export.
      ensures (|args| == 0 || |args| == 3) && probeOk && (readErr != 0 || !IsValid(Decode(old(flash)))) ==>
        ret == CmdFailure && env == old(env) && flashOps == old(flashOps) && flash == old(flash)
      // Query form: never erases or writes; exports the record read from flash.
      ensures |args| == 0 ==> flashOps == old(flashOps) && flash == old(flash)
      ensures |args| == 0 && probeOk && readErr == 0 && IsValid(Decode(old(flash))) ==>
        ret == CmdSuccess && bootImgInfo == Decode(old(flash))
        && env == Export(old(env), Decode(old(flash)).state)
      // Update form with an argument outside {0, 1}: usage, no erase or write.
      ensures (&& |args| == 3 && probeOk && readErr == 0 && IsValid(Decode(old(flash)))
               && !(args[0] <= 1 && args[1] <= 1 && args[2] <= 1)) ==>
        ret == CmdUsage && env == old(env) && flashOps == old(flashOps) && flash == old(flash)
      // Update form with valid arguments: the updated record is erased-then-written.
      ensures (&& |args| == 3 && probeOk && readErr == 0 && IsValid(Decode(old(flash)))
               && args[0] <= 1 && args[1] <= 1 && args[2] <= 1) ==>
        && bootImgInfo == Updated(Decode(old(flash)), args[0], args[1], args[2])
        && (eraseErr != 0 ==> flashOps == old(flashOps) + [EraseOp])
        && (eraseErr == 0 ==> flashOps == old(flashOps) + [EraseOp, WriteOp(Encode(bootImgInfo))])
        && (ret == CmdSuccess <==> eraseErr == 0 && writeErr == 0)
        && (ret != CmdSuccess ==> ret == CmdFailure && env == old(env))
        && (ret == CmdSuccess ==> flash == Encode(bootImgInfo) && env == Export(old(env), bootImgInfo.state))
    {
      if |args| + 1 != 4 && |args| + 1 != 1 {
        return CmdUsage;
      }
      if !probeOk {
        return CmdFailure;
      }
      var r := ReadPersistentInfo(readErr);
      if r != 0 {
        return CmdFailure;
      }
      assert IsValid(Decode(flash)) && bootImgInfo == Decode(flash) by {
        ValidatedIdempotent(Decode(flash));
      }
      if |args| + 1 == 1 {
        PrintPersistentInfo();
        return CmdSuccess;
      }
      var slotA, slotB, requestedSlot := args[0], args[1], args[2];
      if (slotA != 0 && slotA != 1) || (slotB != 0 && slotB != 1)
        || (requestedSlot != 0 && requestedSlot != 1)
      {
        return CmdUsage;
      }
      r := UpdatePersistentInfo(slotA, slotB, requestedSlot, eraseErr, writeErr);
      if r != 0 {
        return CmdFailure;
      }
      PrintPersistentInfo();
      ret := CmdSuccess;
    }
  }

  /**
   * Two invocations in a row: a successful update followed by a query
   * observes the values passed to the update, and exports them.
   */
  method UpdateThenQuery(cmd: BootSlotCommand, a: u32, b: u32, req: u32) returns (r1: CmdRet, r2: CmdRet)
    requires cmd.Valid() && IsValid(Decode(cmd.flash))
    requires a <= 1 && b <= 1 && req <= 1
    modifies cmd
    ensures r1 == CmdSuccess && r2 == CmdSuccess
    ensures cmd.bootImgInfo.state.imgABootable as u32 == a
    ensures cmd.bootImgInfo.state.imgBBootable as u32 == b
    ensures cmd.bootImgInfo.state.requestedBootImg as u32 == req
    ensures cmd.bootImgInfo.state.lastBootedImg == Decode(old(cmd.flash)).state.lastBootedImg
    ensures cmd.env == Export(old(cmd.env), cmd.bootImgInfo.state)
    ensures cmd.env[EnvRequestedBoot] == (if req == 0 then "0" else "1")
  {
    ghost var r0, env0 := Decode(cmd.flash), cmd.env;
    r1 := cmd.DoBootslot([a, b, req], true, 0, 0, 0);
    ghost var u := Updated(r0, a, b, req);
    assert cmd.bootImgInfo == u && cmd.flash == Encode(u);
    assert cmd.env == Export(env0, u.state);
    UpdateThenReadRoundTrip(r0, a, b, req);
    DecodeEncode(u);
    ghost var env1 := cmd.env;
    r2 := cmd.DoBootslot([], true, 0, 0, 0);
    assert cmd.bootImgInfo == u;
    assert cmd.env == Export(env1, u.state);
    ExportIdempotent(env0, u.state);
  }
}
