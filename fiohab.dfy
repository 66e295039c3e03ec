/**
 * The `fiohab_close` command for i.MX boards: a pre-flight gate that
 * closes secure boot (programs the security-configuration fuse, or asks
 * the SECO firmware to close) only if the device is still open, the
 * authentication subsystem reports no blocking event, and every SRK fuse
 * holds the value the environment expects.
 *
 * Everything the gate consults is an input: the closed bit, the answers
 * of the HAB ROM and the SECO firmware, the fuse shadow registers, the
 * parsed srk_<i> environment values, and the outcome of the final
 * programming step. Every access the gate makes is recorded, in order,
 * in the returned call log.
 */
module FioHab {
  import opened MachineInts

  // ---------------------------------------------------------------------
  // Hardware variants

  /** MX6 parts: the quad, dual and quad-dual parts tolerate the known RNG self-test event. */
  datatype Mx6Part = MX6Q | MX6DL | MX6QDL | OtherMX6

  /** The SoC the command is built for (the C preprocessor selection). */
  datatype SoC = MX7ULP | MX6(part: Mx6Part) | IMX8M | IMX8QM

  datatype FuseLocator = FuseLocator(bank: u32, word: u32)

  /** SRK_FUSE_LIST: the fuses holding the SRK hash, in the order they are checked. */
  function SrkFuseList(soc: SoC): (l: seq<FuseLocator>)
    ensures |l| == (if soc.MX7ULP? || soc.IMX8QM? then 16 else 8)
  {
    match soc
    case MX7ULP =>
      [FuseLocator(5, 0), FuseLocator(5, 1), FuseLocator(5, 2), FuseLocator(5, 3),
       FuseLocator(5, 4), FuseLocator(5, 5), FuseLocator(5, 6), FuseLocator(5, 7),
       FuseLocator(6, 0), FuseLocator(6, 1), FuseLocator(6, 2), FuseLocator(6, 3),
       FuseLocator(6, 4), FuseLocator(6, 5), FuseLocator(6, 6), FuseLocator(6, 7)]
    case MX6(_) =>
      [FuseLocator(3, 0), FuseLocator(3, 1), FuseLocator(3, 2), FuseLocator(3, 3),
       FuseLocator(3, 4), FuseLocator(3, 5), FuseLocator(3, 6), FuseLocator(3, 7)]
    case IMX8M =>
      [FuseLocator(6, 0), FuseLocator(6, 1), FuseLocator(6, 2), FuseLocator(6, 3),
       FuseLocator(7, 0), FuseLocator(7, 1), FuseLocator(7, 2), FuseLocator(7, 3)]
    case IMX8QM =>
      [FuseLocator(0, 722), FuseLocator(0, 723), FuseLocator(0, 724), FuseLocator(0, 725),
       FuseLocator(0, 726), FuseLocator(0, 727), FuseLocator(0, 728), FuseLocator(0, 729),
       FuseLocator(0, 730), FuseLocator(0, 731), FuseLocator(0, 732), FuseLocator(0, 733),
       FuseLocator(0, 734), FuseLocator(0, 735), FuseLocator(0, 736), FuseLocator(0, 737)]
  }

  /** The one irreversible closing step. */
  datatype CloseAction = FuseProg(bank: u32, word: u32, value: u32) | AhabClose

  /** SECURE_FUSE_BANK, SECURE_FUSE_WORD and SECURE_FUSE_VALUE, or ahab_close on the i.MX8QM. */
  function SecureCloseAction(soc: SoC): CloseAction
  {
    match soc
    case MX7ULP => FuseProg(29, 6, 0x8000_0000)
    case MX6(_) => FuseProg(0, 6, 0x0000_0002)
    case IMX8M => FuseProg(1, 3, 0x0200_0000)
    case IMX8QM => AhabClose
  }

  /** The i.MX8QM boots through AHAB (SECO firmware); the others through HABv4. */
  predicate UsesAhab(soc: SoC)
  {
    soc.IMX8QM?
  }

  /** CONFIG_CAAM_IGNORE_KNOWN_HAB_EVENTS: set for the MX6Q, MX6DL and MX6QDL. */
  predicate IgnoresKnownHabEvents(soc: SoC)
  {
    soc.MX6? && soc.part != OtherMX6
  }

  /**
   * The closing step is ahab_close exactly on the AHAB part, and fuse_prog
   * everywhere else; the known-event allow-list only ever applies to a
   * HABv4 part of the MX6 family.
   */
  lemma ClosingStepFollowsBootFlow(soc: SoC)
    ensures SecureCloseAction(soc) == AhabClose <==> UsesAhab(soc)
    ensures !UsesAhab(soc) ==> SecureCloseAction(soc).FuseProg?
    ensures IgnoresKnownHabEvents(soc) ==> soc.MX6? && !UsesAhab(soc)
  {
  }

  // ---------------------------------------------------------------------
  // Inputs, call log and outcome

  /** What the hardware and firmware answer. */
  datatype Hardware = Hardware(
    closed: bool,                 // boot_mode_is_closed()
    habReportOk: bool,            // HAB report_status returned HAB_SUCCESS
    habEvents: seq<seq<byte>>,    // the events HAB report_event returns for index 0, 1, ...; it fails after them
    lifecycleOk: bool,            // sc_seco_chip_info returned SC_ERR_NONE
    secoEventCount: nat,          // sc_seco_get_event succeeds for exactly the indices below this
    fuses: map<FuseLocator, u32>, // fuse_read; a locator absent from the map fails to read
    closeOk: bool)                // the closing action (fuse_prog or ahab_close) succeeded

  /** Every effect or query the command issues. */
  datatype Call =
    | QueryClosed
    | HabReportStatus
    | HabReportEvent(index: nat)
    | SecoChipInfo
    | SecoGetEvent(idx: byte)
    | ReadFuse(loc: FuseLocator)
    | ReadSrkEnv(i: nat)
    | Program(action: CloseAction)

  /** How a routine ends: with a return code, or not at all. */
  datatype Exit = Returns(code: int) | Hangs

  const EIO: int := 5

  // ---------------------------------------------------------------------
  // The known RNG self-test failure event (HABv4 on MX6Q/DL/QDL)

  const RngFailEventSize: nat := 36

  /** habv4_known_rng_fail_events */
  const KnownRngFailEvents: seq<seq<byte>> := [
    [0xdb, 0x00, 0x24, 0x42, 0x69, 0x30, 0xe1, 0x1d,
     0x00, 0x04, 0x00, 0x02, 0x40, 0x00, 0x36, 0x06,
     0x55, 0x55, 0x00, 0x03, 0x00, 0x00, 0x00, 0x00,
     0x00, 0x00, 0x00, 0x00, 0x00, 0x00, 0x00, 0x00,
     0x00, 0x00, 0x00, 0x01]
  ]

  lemma KnownPatternsHaveEventSize()
    ensures forall j :: 0 <= j < |KnownRngFailEvents| ==> |KnownRngFailEvents[j]| == RngFailEventSize
  {
  }

  function Min(a: nat, b: nat): nat
  {
    if a < b then a else b
  }

  /** The event's first min(len, 36) bytes equal those of some allow-listed pattern. */
  ghost predicate IsKnownEvent(data: seq<byte>, len: nat)
    requires Min(len, RngFailEventSize) <= |data|
  {
    var n := Min(len, RngFailEventSize);
    exists j :: 0 <= j < |KnownRngFailEvents| && data[..n] == KnownRngFailEvents[j][..n]
  }

  /** is_known_rng_fail_event: memcmp of min(len, 36) bytes against each pattern. */
  method IsKnownRngFailEvent(data: seq<byte>, len: nat) returns (known: bool)
    requires Min(len, RngFailEventSize) <= |data|
    ensures known <==> IsKnownEvent(data, len)
  {
    KnownPatternsHaveEventSize();
    var n := Min(len, RngFailEventSize);
    var i := 0;
    while i < |KnownRngFailEvents|
      invariant 0 <= i <= |KnownRngFailEvents|
      invariant forall j :: 0 <= j < i ==> data[..n] != KnownRngFailEvents[j][..n]
    {
      if data[..n] == KnownRngFailEvents[i][..n] {
        return true;
      }
      i := i + 1;
    }
    return false;
  }

  /** An empty event, and any prefix of the pattern, counts as known. */
  lemma PrefixOfKnownPatternIsKnown(k: nat)
    requires k <= RngFailEventSize
    ensures IsKnownEvent(KnownRngFailEvents[0][..k], k)
    ensures IsKnownEvent([], 0)
  {
    var p := KnownRngFailEvents[0];
    assert p[..k][..k] == p[..k];
    var empty: seq<byte> := [];
    assert empty[..0] == p[..0];
  }

  /** Bytes past the 36th never matter. */
  lemma KnownEventIgnoresTail(data: seq<byte>, len: nat)
    requires RngFailEventSize <= len && RngFailEventSize <= |data|
    ensures IsKnownEvent(data, len) <==> IsKnownEvent(data[..RngFailEventSize], RngFailEventSize)
  {
    assert data[..RngFailEventSize][..RngFailEventSize] == data[..RngFailEventSize];
  }

  /** An event whose first byte differs from every pattern's is not known. */
  lemma FirstByteMismatchIsUnknown(data: seq<byte>, len: nat)
    requires 1 <= len && Min(len, RngFailEventSize) <= |data|
    requires data[0] != 0xdb
    ensures !IsKnownEvent(data, len)
  {
    var n := Min(len, RngFailEventSize);
    assert |KnownRngFailEvents| == 1 && KnownRngFailEvents[0][0] == 0xdb;
    assert data[..n][0] != KnownRngFailEvents[0][..n][0];
  }

  // ---------------------------------------------------------------------
  // hab_status, HABv4 variant

  ghost predicate Known(e: seq<byte>)
  {
    IsKnownEvent(e, |e|)
  }

  /** Index of the first event that is not known, or |events| if all are. */
  ghost function FirstUnknown(events: seq<seq<byte>>, from: nat): (k: nat)
    requires from <= |events|
    ensures from <= k <= |events|
    ensures forall j :: from <= j < k ==> Known(events[j])
    ensures k < |events| ==> !Known(events[k])
    decreases |events| - from
  {
    if from == |events| then from
    else if !Known(events[from]) then from
    else FirstUnknown(events, from + 1)
  }

  function HabEventQueries(n: nat): (q: seq<Call>)
    ensures |q| == n && forall i :: 0 <= i < n ==> q[i] == HabReportEvent(i)
  {
    seq(n, i requires 0 <= i < n => HabReportEvent(i))
  }

  /**
   * hab_status on HABv4: 0 when report_status succeeds; otherwise, when
   * known events are tolerated, 1 at the first unknown event and 0 once
   * report_event fails; otherwise 1.
   */
  method Habv4Status(ignoreKnown: bool, reportOk: bool, events: seq<seq<byte>>)
    returns (ret: int, calls: seq<Call>)
    ensures ret == 0 || ret == 1
    ensures ret == 0 <==> reportOk || (ignoreKnown && forall j :: 0 <= j < |events| ==> Known(events[j]))
    ensures calls == [HabReportStatus]
      + (if !reportOk && ignoreKnown then HabEventQueries(FirstUnknown(events, 0) + 1) else [])
    ensures !reportOk && ignoreKnown && ret == 1 ==> !Known(events[FirstUnknown(events, 0)])
  {
    calls := [HabReportStatus];
    if reportOk {
      return 0, calls;
    }
    if !ignoreKnown {
      return 1, calls;
    }
    var index: nat := 0;
    while true
      invariant index <= |events|
      invariant forall j :: 0 <= j < index ==> Known(events[j])
      invariant calls == [HabReportStatus] + HabEventQueries(index)
      decreases |events| - index
    {
      calls := calls + [HabReportEvent(index)];
      assert calls == [HabReportStatus] + HabEventQueries(index + 1);
      if index >= |events| {
        // report_event failed: every event seen was known
        assert FirstUnknown(events, 0) == |events|;
        return 0, calls;
      }
      var e := events[index];
      var known := IsKnownRngFailEvent(e, |e|);
      if !known {
        assert FirstUnknown(events, 0) == index;
        return 1, calls;
      }
      index := index + 1;
    }
  }

  // ---------------------------------------------------------------------
  // hab_status, AHAB variant

  function SecoEventQueries(n: nat): (q: seq<Call>)
    requires n <= 256
    ensures |q| == n && forall i :: 0 <= i < n ==> q[i] == SecoGetEvent(i as byte)
  {
    seq(n, i requires 0 <= i < n => SecoGetEvent(i as byte))
  }

  /**
   * hab_status on AHAB: -EIO if the lifecycle query fails; otherwise 0 iff
   * the very first sc_seco_get_event fails. The 8-bit index wraps after
   * 255: with 256 or more pending events every index answers and the loop
   * never ends.
   */
  method AhabStatus(lifecycleOk: bool, eventCount: nat) returns (status: Exit, calls: seq<Call>)
    ensures !lifecycleOk ==> status == Returns(-EIO) && calls == [SecoChipInfo]
    ensures lifecycleOk && eventCount == 0 ==> status == Returns(0)
    ensures lifecycleOk && 0 < eventCount < 256 ==> status == Returns(1)
    ensures lifecycleOk && 256 <= eventCount ==> status == Hangs
    ensures lifecycleOk && eventCount < 256 ==> calls == [SecoChipInfo] + SecoEventQueries(eventCount + 1)
  {
    calls := [SecoChipInfo];
    if !lifecycleOk {
      return Returns(-EIO), calls;
    }
    var idx: byte := 0;
    calls := calls + [SecoGetEvent(idx)];
    var ok := (idx as nat) < eventCount;
    while ok
      invariant idx as nat < 256 && idx as nat <= eventCount && (ok <==> idx as nat < eventCount)
      invariant calls == [SecoChipInfo] + SecoEventQueries(idx as nat + 1)
      decreases 255 - idx as nat
    {
      if idx == 255 {
        // Index 255 answered; the next index is 0 again, which answered
        // before, so the loop repeats forever.
        return Hangs, calls;
      }
      idx := idx + 1;
      calls := calls + [SecoGetEvent(idx)];
      ok := (idx as nat) < eventCount;
    }
    if idx == 0 {
      return Returns(0), calls;
    }
    return Returns(1), calls;
  }

  // ---------------------------------------------------------------------
  // hab_status, by variant

  ghost function HabOutcome(soc: SoC, hw: Hardware): Exit
  {
    if UsesAhab(soc) then
      if !hw.lifecycleOk then Returns(-EIO)
      else if hw.secoEventCount == 0 then Returns(0)
      else if hw.secoEventCount < 256 then Returns(1)
      else Hangs
    else (if hw.habReportOk
          || (IgnoresKnownHabEvents(soc) && forall j :: 0 <= j < |hw.habEvents| ==> Known(hw.habEvents[j]))
          then Returns(0)
          else Returns(1))
  }

  ghost function HabCalls(soc: SoC, hw: Hardware): seq<Call>
  {
    if UsesAhab(soc) then
      if !hw.lifecycleOk then [SecoChipInfo]
      else if hw.secoEventCount < 256 then [SecoChipInfo] + SecoEventQueries(hw.secoEventCount + 1)
      else [SecoChipInfo] + SecoEventQueries(256)
    else
      ([HabReportStatus]
       + (if !hw.habReportOk && IgnoresKnownHabEvents(soc)
          then HabEventQueries(FirstUnknown(hw.habEvents, 0) + 1) else []))
  }

  method HabStatus(soc: SoC, hw: Hardware) returns (status: Exit, calls: seq<Call>)
    ensures status == HabOutcome(soc, hw)
    ensures status.Returns? ==> calls == HabCalls(soc, hw)
  {
    if UsesAhab(soc) {
      status, calls := AhabStatus(hw.lifecycleOk, hw.secoEventCount);
    } else {
      var ret;
      ret, calls := Habv4Status(IgnoresKnownHabEvents(soc), hw.habReportOk, hw.habEvents);
      status := Returns(ret);
    }
  }

  // ---------------------------------------------------------------------
  // The SRK fuse check

  /** env_get_hex("srk_<i>", 0), already parsed: 0 when absent. */
  function SrkEnv(env: map<nat, u32>, i: nat): u32
  {
    if i in env then env[i] else 0
  }

  /** Locator i reads, has a non-zero expected value, and holds exactly that value. */
  predicate LocatorPasses(list: seq<FuseLocator>, fuses: map<FuseLocator, u32>, env: map<nat, u32>, i: nat)
    requires i < |list|
  {
    && list[i] in fuses
    && SrkEnv(env, i) != 0
    && SrkEnv(env, i) == fuses[list[i]]
  }

  predicate AllPass(list: seq<FuseLocator>, fuses: map<FuseLocator, u32>, env: map<nat, u32>)
  {
    forall i :: 0 <= i < |list| ==> LocatorPasses(list, fuses, env, i)
  }

  /** Index of the first locator that fails the check, or |list| if none does. */
  function FirstFailing(list: seq<FuseLocator>, fuses: map<FuseLocator, u32>, env: map<nat, u32>, from: nat): (k: nat)
    requires from <= |list|
    ensures from <= k <= |list|
    ensures forall i :: from <= i < k ==> LocatorPasses(list, fuses, env, i)
    ensures k < |list| ==> !LocatorPasses(list, fuses, env, k)
    decreases |list| - from
  {
    if from == |list| then from
    else if !LocatorPasses(list, fuses, env, from) then from
    else FirstFailing(list, fuses, env, from + 1)
  }

  lemma FirstFailingAt(list: seq<FuseLocator>, fuses: map<FuseLocator, u32>, env: map<nat, u32>, i: nat)
    requires i < |list|
    requires forall j :: 0 <= j < i ==> LocatorPasses(list, fuses, env, j)
    requires !LocatorPasses(list, fuses, env, i)
    ensures FirstFailing(list, fuses, env, 0) == i
  {
  }

  /** The accesses made while checking locator i: the fuse read, then the env lookup if the read succeeded. */
  function LocatorCalls(list: seq<FuseLocator>, fuses: map<FuseLocator, u32>, i: nat): seq<Call>
    requires i < |list|
  {
    [ReadFuse(list[i])] + (if list[i] in fuses then [ReadSrkEnv(i)] else [])
  }

  /** The accesses made while checking locators 0 .. n-1, in order. */
  function CheckCalls(list: seq<FuseLocator>, fuses: map<FuseLocator, u32>, n: nat): seq<Call>
    requires n <= |list|
  {
    if n == 0 then [] else CheckCalls(list, fuses, n - 1) + LocatorCalls(list, fuses, n - 1)
  }

  /** How many locators the loop looks at before it stops. */
  function Visited(list: seq<FuseLocator>, fuses: map<FuseLocator, u32>, env: map<nat, u32>): (n: nat)
    ensures n <= |list|
  {
    var k := FirstFailing(list, fuses, env, 0);
    if k < |list| then k + 1 else k
  }

  /**
   * The loop of do_fiohab_close over the SRK locators, in list order: it
   * stops at the first fuse-read error, the first srk_<i> that is missing
   * or zero, or the first mismatch.
   */
  method CheckSrkFuses(srkFuses: seq<FuseLocator>, fuses: map<FuseLocator, u32>, env: map<nat, u32>)
    returns (ok: bool, calls: seq<Call>)
    ensures ok <==> AllPass(srkFuses, fuses, env)
    ensures calls == CheckCalls(srkFuses, fuses, Visited(srkFuses, fuses, env))
  {
    calls := [];
    var i := 0;
    while i < |srkFuses|
      invariant 0 <= i <= |srkFuses|
      invariant forall j :: 0 <= j < i ==> LocatorPasses(srkFuses, fuses, env, j)
      invariant calls == CheckCalls(srkFuses, fuses, i)
    {
      var loc := srkFuses[i];
      calls := calls + [ReadFuse(loc)];
      if loc !in fuses {
        // fuse_read failed
        FirstFailingAt(srkFuses, fuses, env, i);
        return false, calls;
      }
      var fuse := fuses[loc];
      calls := calls + [ReadSrkEnv(i)];
      var fuseEnv := SrkEnv(env, i);
      if fuseEnv == 0 {
        // srk_<i> missing from the environment, or zero
        FirstFailingAt(srkFuses, fuses, env, i);
        return false, calls;
      }
      if fuseEnv != fuse {
        FirstFailingAt(srkFuses, fuses, env, i);
        return false, calls;
      }
      i := i + 1;
    }
    assert FirstFailing(srkFuses, fuses, env, 0) == |srkFuses|;
    return true, calls;
  }

  // ---------------------------------------------------------------------
  // do_fiohab_close

  /** What the command ends with once the status is clean: the SRK check must pass, then the closing step. */
  ghost function TailOutcome(list: seq<FuseLocator>, fuses: map<FuseLocator, u32>, env: map<nat, u32>, closeOk: bool): Exit
  {
    if AllPass(list, fuses, env) && closeOk then Returns(0) else Returns(1)
  }

  /** The accesses after a clean status: the SRK reads, then the closing step iff every SRK fuse matched. */
  ghost function TailCalls(list: seq<FuseLocator>, action: CloseAction, fuses: map<FuseLocator, u32>, env: map<nat, u32>): seq<Call>
  {
    CheckCalls(list, fuses, Visited(list, fuses, env))
      + (if AllPass(list, fuses, env) then [Program(action)] else [])
  }

  /** The outcome on a device that is still open: the status must be clean, then the tail decides. */
  ghost function OpenOutcome(soc: SoC, hw: Hardware, env: map<nat, u32>): Exit
  {
    var hab := HabOutcome(soc, hw);
    if hab == Hangs then Hangs
    else if hab != Returns(0) then Returns(1)
    else TailOutcome(SrkFuseList(soc), hw.fuses, env, hw.closeOk)
  }

  /** The accesses on a device that is still open, after the closed-bit query. */
  ghost function OpenCalls(soc: SoC, hw: Hardware, env: map<nat, u32>): seq<Call>
  {
    if HabOutcome(soc, hw) != Returns(0) then HabCalls(soc, hw)
    else HabCalls(soc, hw) + TailCalls(SrkFuseList(soc), SecureCloseAction(soc), hw.fuses, env)
  }

  /** The outcome of do_fiohab_close, stated step by step. */
  ghost function CloseOutcome(soc: SoC, argc: int, hw: Hardware, env: map<nat, u32>): Exit
  {
    if argc != 1 then Returns(1)
    else if hw.closed then Returns(0)
    else OpenOutcome(soc, hw, env)
  }

  /** The accesses do_fiohab_close makes, in order, when it returns. */
  ghost function CloseCalls(soc: SoC, argc: int, hw: Hardware, env: map<nat, u32>): seq<Call>
  {
    if argc != 1 then []
    else [QueryClosed] + (if hw.closed then [] else OpenCalls(soc, hw, env))
  }

  /** The tail of do_fiohab_close once the status is clean: the SRK check, then the closing step. */
  method CheckAndProgram(list: seq<FuseLocator>, action: CloseAction, fuses: map<FuseLocator, u32>,
                         env: map<nat, u32>, closeOk: bool)
    returns (status: Exit, calls: seq<Call>)
    ensures status == TailOutcome(list, fuses, env, closeOk)
    ensures calls == TailCalls(list, action, fuses, env)
  {
    var srkOk;
    srkOk, calls := CheckSrkFuses(list, fuses, env);
    if !srkOk {
      return Returns(1), calls;
    }
    calls := calls + [Program(action)];
    if !closeOk {
      return Returns(1), calls;
    }
    return Returns(0), calls;
  }

  /** do_fiohab_close from the status check on, on a device that is still open. */
  method CloseOpenDevice(soc: SoC, hw: Hardware, env: map<nat, u32>)
    returns (status: Exit, calls: seq<Call>)
    ensures status == OpenOutcome(soc, hw, env)
    ensures status.Returns? ==> calls == OpenCalls(soc, hw, env)
  {
    var hab;
    hab, calls := HabStatus(soc, hw);
    if hab != Returns(0) {
      return (if hab.Hangs? then Hangs else Returns(1)), calls;
    }
    var tailCalls;
    status, tailCalls := CheckAndProgram(SrkFuseList(soc), SecureCloseAction(soc), hw.fuses, env, hw.closeOk);
    calls := calls + tailCalls;
  }

  method FiohabClose(soc: SoC, argc: int, hw: Hardware, env: map<nat, u32>)
    returns (status: Exit, calls: seq<Call>)
    ensures status == CloseOutcome(soc, argc, hw, env)
    ensures status.Returns? ==> calls == CloseCalls(soc, argc, hw, env)
  {
    if argc != 1 {
      return Returns(1), [];
    }
    if hw.closed {
      return Returns(0), [QueryClosed];
    }
    var openCalls;
    status, openCalls := CloseOpenDevice(soc, hw, env);
    assert CloseOutcome(soc, argc, hw, env) == OpenOutcome(soc, hw, env);
    assert CloseCalls(soc, argc, hw, env) == [QueryClosed] + OpenCalls(soc, hw, env);
    calls := [QueryClosed] + openCalls;
  }

  // ---------------------------------------------------------------------
  // What the close trace guarantees

  /** The trace issues the closing step somewhere. */
  predicate Programs(calls: seq<Call>)
  {
    exists i :: 0 <= i < |calls| && calls[i].Program?
  }

  /** The trace touches a fuse or the srk_<i> environment somewhere. */
  predicate TouchesFusesOrEnv(calls: seq<Call>)
  {
    exists i :: 0 <= i < |calls| && (calls[i].ReadFuse? || calls[i].ReadSrkEnv? || calls[i].Program?)
  }

  lemma NotTouchedAppend(a: seq<Call>, b: seq<Call>)
    ensures TouchesFusesOrEnv(a + b) <==> TouchesFusesOrEnv(a) || TouchesFusesOrEnv(b)
    ensures Programs(a + b) <==> Programs(a) || Programs(b)
  {
    var ab := a + b;
    if TouchesFusesOrEnv(ab) {
      var i :| 0 <= i < |ab| && (ab[i].ReadFuse? || ab[i].ReadSrkEnv? || ab[i].Program?);
      if i >= |a| {
        assert b[i - |a|] == ab[i];
      }
    }
    if TouchesFusesOrEnv(a) {
      var i :| 0 <= i < |a| && (a[i].ReadFuse? || a[i].ReadSrkEnv? || a[i].Program?);
      assert ab[i] == a[i];
    }
    if TouchesFusesOrEnv(b) {
      var i :| 0 <= i < |b| && (b[i].ReadFuse? || b[i].ReadSrkEnv? || b[i].Program?);
      assert ab[|a| + i] == b[i];
    }
    if Programs(ab) {
      var i :| 0 <= i < |ab| && ab[i].Program?;
      if i >= |a| {
        assert b[i - |a|] == ab[i];
      }
    }
    if Programs(a) {
      var i :| 0 <= i < |a| && a[i].Program?;
      assert ab[i] == a[i];
    }
    if Programs(b) {
      var i :| 0 <= i < |b| && b[i].Program?;
      assert ab[|a| + i] == b[i];
    }
  }

  /** The authentication status queries read no fuse, no environment and program nothing. */
  lemma HabCallsTouchNothing(soc: SoC, hw: Hardware)
    ensures !TouchesFusesOrEnv(HabCalls(soc, hw))
  {
    var c := HabCalls(soc, hw);
    forall i | 0 <= i < |c|
      ensures !(c[i].ReadFuse? || c[i].ReadSrkEnv? || c[i].Program?)
    {
      if UsesAhab(soc) {
        if hw.lifecycleOk {
          var n := if hw.secoEventCount < 256 then hw.secoEventCount + 1 else 256;
          assert c == [SecoChipInfo] + SecoEventQueries(n);
          if i > 0 {
            assert c[i] == SecoEventQueries(n)[i - 1];
          }
        }
      } else if !hw.habReportOk && IgnoresKnownHabEvents(soc) {
        var q := HabEventQueries(FirstUnknown(hw.habEvents, 0) + 1);
        assert c == [HabReportStatus] + q;
        if i > 0 {
          assert c[i] == q[i - 1];
        }
      }
    }
  }

  /** The SRK check reads fuses and the environment but never programs. */
  lemma {:induction false} CheckCallsNeverProgram(list: seq<FuseLocator>, fuses: map<FuseLocator, u32>, n: nat)
    requires n <= |list|
    ensures !Programs(CheckCalls(list, fuses, n))
  {
    if n > 0 {
      CheckCallsNeverProgram(list, fuses, n - 1);
      var l := LocatorCalls(list, fuses, n - 1);
      assert !Programs(l) by {
        forall i | 0 <= i < |l|
          ensures !l[i].Program?
        {
        }
      }
      NotTouchedAppend(CheckCalls(list, fuses, n - 1), l);
    }
  }

  /** The tail programs iff every SRK fuse matched, and then as its last access only. */
  lemma TailProgramsIff(list: seq<FuseLocator>, action: CloseAction, fuses: map<FuseLocator, u32>, env: map<nat, u32>)
    ensures var t := TailCalls(list, action, fuses, env);
      (Programs(t) <==> AllPass(list, fuses, env))
      && (Programs(t) ==> t[|t| - 1] == Program(action) && !Programs(t[..|t| - 1]))
  {
    var checks := CheckCalls(list, fuses, Visited(list, fuses, env));
    CheckCallsNeverProgram(list, fuses, Visited(list, fuses, env));
    var t := TailCalls(list, action, fuses, env);
    if AllPass(list, fuses, env) {
      var last := [Program(action)];
      assert t == checks + last;
      assert t[..|t| - 1] == checks;
      assert t[|t| - 1] == last[0];
      NotTouchedAppend(checks, last);
    } else {
      assert t == checks;
    }
  }

  /** On an open device the closing step is issued iff the status is clean and every SRK fuse matched. */
  lemma OpenProgramsIff(soc: SoC, hw: Hardware, env: map<nat, u32>)
    ensures var c := OpenCalls(soc, hw, env);
      (Programs(c) <==> HabOutcome(soc, hw) == Returns(0) && AllPass(SrkFuseList(soc), hw.fuses, env))
      && (Programs(c) ==> c[|c| - 1] == Program(SecureCloseAction(soc)) && !Programs(c[..|c| - 1]))
  {
    var h := HabCalls(soc, hw);
    var c := OpenCalls(soc, hw, env);
    HabCallsTouchNothing(soc, hw);
    assert !Programs(h);
    if HabOutcome(soc, hw) == Returns(0) {
      var list, action := SrkFuseList(soc), SecureCloseAction(soc);
      var t := TailCalls(list, action, hw.fuses, env);
      assert c == h + t;
      TailProgramsIff(list, action, hw.fuses, env);
      NotTouchedAppend(h, t);
      if Programs(t) {
        NotTouchedAppend(h, t[..|t| - 1]);
        assert c[..|c| - 1] == h + t[..|t| - 1];
      }
    } else {
      assert c == h;
    }
  }

  /**
   * The closing step is issued iff the command has one argument, the device
   * is still open, the status is clean and every SRK fuse matches; then it is
   * the last access and it happens exactly once.
   */
  lemma CloseProgramsIff(soc: SoC, argc: int, hw: Hardware, env: map<nat, u32>)
    ensures var c := CloseCalls(soc, argc, hw, env);
      Programs(c) <==>
        argc == 1 && !hw.closed && HabOutcome(soc, hw) == Returns(0)
        && AllPass(SrkFuseList(soc), hw.fuses, env)
    ensures ProgramsOnceLast(CloseCalls(soc, argc, hw, env), SecureCloseAction(soc))
  {
    var c := CloseCalls(soc, argc, hw, env);
    if argc != 1 {
      assert c == [];
      assert !Programs(c);
    } else if hw.closed {
      assert c == [QueryClosed];
      assert !Programs(c);
    } else {
      var o := OpenCalls(soc, hw, env);
      var a := SecureCloseAction(soc);
      assert c == [QueryClosed] + o;
      OpenProgramsIff(soc, hw, env);
      QueryClosedKeepsProgramLast(o, a);
    }
  }

  /** If the trace issues a closing step, it issues `a` as its last access and nowhere before. */
  predicate ProgramsOnceLast(c: seq<Call>, a: CloseAction)
  {
    Programs(c) ==> c[|c| - 1] == Program(a) && !Programs(c[..|c| - 1])
  }

  /** Putting the closed-bit query in front keeps "programs once, as the last access". */
  lemma QueryClosedKeepsProgramLast(o: seq<Call>, a: CloseAction)
    requires Programs(o) ==> o[|o| - 1] == Program(a) && !Programs(o[..|o| - 1])
    ensures Programs([QueryClosed] + o) <==> Programs(o)
    ensures ProgramsOnceLast([QueryClosed] + o, a)
  {
    var c := [QueryClosed] + o;
    NotTouchedAppend([QueryClosed], o);
    if Programs(o) {
      NotTouchedAppend([QueryClosed], o[..|o| - 1]);
      assert c[..|c| - 1] == [QueryClosed] + o[..|o| - 1];
    }
  }

  /** A device already closed is left alone: no fuse, environment or programming access. */
  lemma ClosedDeviceIsLeftAlone(soc: SoC, hw: Hardware, env: map<nat, u32>)
    requires hw.closed
    ensures CloseOutcome(soc, 1, hw, env) == Returns(0)
    ensures CloseCalls(soc, 1, hw, env) == [QueryClosed]
    ensures !TouchesFusesOrEnv(CloseCalls(soc, 1, hw, env))
  {
  }

  /** A pending authentication event (or a failed lifecycle query) stops the command before any fuse is read. */
  lemma HabEventBlocksFuseAccess(soc: SoC, hw: Hardware, env: map<nat, u32>)
    requires !hw.closed
    requires HabOutcome(soc, hw) != Returns(0)
    ensures CloseOutcome(soc, 1, hw, env) == (if HabOutcome(soc, hw) == Hangs then Hangs else Returns(1))
    ensures !TouchesFusesOrEnv(CloseCalls(soc, 1, hw, env))
  {
    HabCallsTouchNothing(soc, hw);
    NotTouchedAppend([QueryClosed], HabCalls(soc, hw));
  }

  /** A missing (or zero) srk_<i> makes the command fail without programming anything. */
  lemma MissingSrkValueBlocksClose(soc: SoC, argc: int, hw: Hardware, env: map<nat, u32>, i: nat)
    requires i < |SrkFuseList(soc)|
    requires SrkEnv(env, i) == 0
    ensures CloseOutcome(soc, argc, hw, env) != Returns(0) || hw.closed
    ensures !Programs(CloseCalls(soc, argc, hw, env))
  {
    assert !LocatorPasses(SrkFuseList(soc), hw.fuses, env, i);
    CloseProgramsIff(soc, argc, hw, env);
  }

  /** The command reports success iff the device was already closed, or was open, clean, fully matching, and the closing step succeeded. */
  lemma CloseSucceedsIff(soc: SoC, argc: int, hw: Hardware, env: map<nat, u32>)
    ensures CloseOutcome(soc, argc, hw, env) == Returns(0) <==>
      argc == 1 && (hw.closed || (Programs(CloseCalls(soc, argc, hw, env)) && hw.closeOk))
  {
    CloseProgramsIff(soc, argc, hw, env);
  }

  /** On an MX6Q whose only pending event is the known RNG failure, the status is clean. */
  lemma KnownRngEventIsTolerated(hw: Hardware)
    requires !hw.habReportOk
    requires hw.habEvents == [KnownRngFailEvents[0]]
    ensures HabOutcome(MX6(MX6Q), hw) == Returns(0)
  {
    PrefixOfKnownPatternIsKnown(RngFailEventSize);
    assert KnownRngFailEvents[0][..RngFailEventSize] == KnownRngFailEvents[0];
  }

  /** Any other event blocks closing, also on parts that tolerate the known one, and on parts that do not the known one blocks as well. */
  lemma OtherEventsBlock(hw: Hardware)
    requires !hw.habReportOk
    requires |hw.habEvents| >= 1 && |hw.habEvents[0]| >= 1 && hw.habEvents[0][0] != 0xdb
    ensures HabOutcome(MX6(MX6Q), hw) == Returns(1)
    ensures HabOutcome(MX6(OtherMX6), hw.(habEvents := [KnownRngFailEvents[0]])) == Returns(1)
  {
    FirstByteMismatchIsUnknown(hw.habEvents[0], |hw.habEvents[0]|);
  }
}
