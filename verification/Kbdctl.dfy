/**
 The 8042 keyboard controller driver against an arbitrary device.

 A device answers every port read with any byte it likes, depending on the whole history of port
 events.  Each driver function is a function from history to history; the class KbdctlDriver.Driver
 makes the same port accesses in place.
 */
module Kbdctl {

  datatype Event = In(port: nat, value: bv8) | Out(port: nat, value: bv8)
  type History = seq<Event>

  /** reply answers a port read; takes tells whether a configuration write goes through. */
  datatype Device = Device(reply: (History, nat) -> bv8, takes: History -> bool)

  const DATA: nat := 0x60
  const STAT: nat := 0x64
  const CMD: nat := 0x64
  const STAT_OUT_BUF: bv8 := 0x01
  const STAT_IN_BUF: bv8 := 0x02

  const CMD_READ_CONFIG: bv8 := 0x20
  const CMD_WRITE_CONFIG: bv8 := 0x60
  const CMD_DISABLE_P2: bv8 := 0xA7
  const CMD_ENABLE_P2: bv8 := 0xA8
  const CMD_TEST_P2: bv8 := 0xA9
  const CMD_TEST_CTL: bv8 := 0xAA
  const CMD_TEST_P1: bv8 := 0xAB
  const CMD_DISABLE_P1: bv8 := 0xAD
  const CMD_ENABLE_P1: bv8 := 0xAE
  const CMD_WRITENEXT_CTL_OUT: bv8 := 0xD1
  const CMD_WRITENEXT_P2INBUF: bv8 := 0xD4
  const CMD_ENABLE_A20: bv8 := 0xDF
  const CMD_RST_DEVICE: bv8 := 0xFF
  const STAT_ACK: bv8 := 0xFA
  const SELFTEST_SUCCESS: bv8 := 0x55
  const DEFAULT_CONFIG_MASK: bv8 := 0xBC
  const CTL_P1_IE: bv8 := 0x01
  const CTL_P2_IE: bv8 := 0x02
  const CTL_PS2_CLKE: bv8 := 0x20

  const TURNS: nat := 5000

  // ---------------------------------------------------------------- the handshake

  /** Event k respects the handshake: the event just before it is a status read that allows it. */
  ghost predicate Allowed(h: History, k: nat)
    requires k < |h|
  {
    match h[k]
    case Out(_, _) => 0 < k && h[k - 1].In? && h[k - 1].port == 0x64 && h[k - 1].value & 0x02 == 0
    case In(port, _) =>
      port == 0x64 || (0 < k && h[k - 1].In? && h[k - 1].port == 0x64 && h[k - 1].value & 0x01 != 0)
  }

  function StatusReads(h: History): nat {
    if |h| == 0 then 0
    else StatusReads(h[..|h| - 1]) + (if h[|h| - 1].In? && h[|h| - 1].port == 0x64 then 1 else 0)
  }

  /** h' continues h with allowed events only, at most polls * 5000 of them status reads. */
  ghost predicate Continues(h: History, h': History, polls: nat) {
    && h <= h'
    && (forall k :: |h| <= k < |h'| ==> Allowed(h', k))
    && StatusReads(h') <= StatusReads(h) + polls * 5000
  }

  lemma Chain(h: History, h1: History, h2: History, p: nat, q: nat)
    requires Continues(h, h1, p) && Continues(h1, h2, q)
    ensures Continues(h, h2, p + q)
  {
    forall k | |h| <= k < |h2| ensures Allowed(h2, k) {
      if k < |h1| { assert Allowed(h1, k) && h2[k] == h1[k] && (0 < k ==> h2[k - 1] == h1[k - 1]); }
    }
    assert (p + q) * 5000 == p * 5000 + q * 5000;
  }

  lemma Wider(h: History, h': History, p: nat, q: nat)
    requires Continues(h, h', p) && p <= q
    ensures Continues(h, h', q)
  {
  }

  lemma Appended(h: History, e: Event)
    ensures StatusReads(h + [e]) == StatusReads(h) + (if e.In? && e.port == STAT then 1 else 0)
  {
  }

  // ---------------------------------------------------------------- waiting, sending, receiving

  function Mask(waitfor: bv8): bv8 { if waitfor != 0 then waitfor else STAT_IN_BUF }

  predicate Shows(status: bv8, waitfor: bv8) { status & Mask(waitfor) == waitfor }

  function Inb(d: Device, h: History, port: nat): (History, bv8) {
    (h + [In(port, d.reply(h, port))], d.reply(h, port))
  }

  /** The history ends with a status read that shows the awaited bits. */
  ghost predicate Ready(h: History, waitfor: bv8) {
    |h| > 0 && h[|h| - 1].In? && h[|h| - 1].port == STAT && Shows(h[|h| - 1].value, waitfor)
  }

  /** Polls at most turns times. */
  function CtrlRdy(d: Device, h: History, waitfor: bv8, turns: nat): (r: (History, bool))
    ensures h <= r.0 && (r.1 ==> Ready(r.0, waitfor))
    ensures forall k :: |h| <= k < |r.0| ==> r.0[k].In? && r.0[k].port == STAT
    ensures StatusReads(r.0) <= StatusReads(h) + turns
    decreases turns, h
  {
    if turns == 0 then (h, false)
    else
      var (h1, v) := Inb(d, h, STAT);
      Appended(h, In(STAT, v));
      if Shows(v, waitfor) then (h1, true) else CtrlRdy(d, h1, waitfor, turns - 1)
  }

  /** Polling stops at the first status that shows the awaited bits, and gives up only after all turns. */
  lemma {:induction false} PollingOutcome(d: Device, h: History, waitfor: bv8, turns: nat)
    ensures var (h', ok) := CtrlRdy(d, h, waitfor, turns);
      && (ok ==> |h| < |h'|) && (!ok ==> |h'| == |h| + turns)
      && forall k :: |h| <= k < |h'| - (if ok then 1 else 0) ==> !Shows(h'[k].value, waitfor)
    decreases turns, h
  {
    hide Shows, StatusReads;
    if 0 < turns {
      var (h1, v) := Inb(d, h, STAT);
      if !Shows(v, waitfor) {
        PollingOutcome(d, h1, waitfor, turns - 1);
        var (h', ok) := CtrlRdy(d, h1, waitfor, turns - 1);
        assert h'[|h|] == h1[|h|] == In(STAT, v);
      }
    }
  }

  function SendCmd(d: Device, h: History, v: bv8): (r: (History, bool))
    ensures Continues(h, r.0, 1)
  {
    var (h1, ok) := CtrlRdy(d, h, 0, TURNS);
    Appended(h1, Out(CMD, v));
    if ok then (h1 + [Out(CMD, v)], true) else (h1, false)
  }

  function RecvData(d: Device, h: History): (r: (History, bv8))
    ensures Continues(h, r.0, 1)
  {
    var (h1, ok) := CtrlRdy(d, h, STAT_OUT_BUF, TURNS);
    Appended(h1, In(DATA, d.reply(h1, DATA)));
    if ok then Inb(d, h1, DATA) else (h1, 0xff)
  }

  function SendData(d: Device, h: History, v: bv8): (r: (History, bool))
    ensures Continues(h, r.0, 1)
  {
    var (h1, ok) := CtrlRdy(d, h, 0, TURNS);
    Appended(h1, Out(DATA, v));
    if ok then (h1 + [Out(DATA, v)], true) else (h1, false)
  }

  // ---------------------------------------------------------------- the commands

  function DisablePorts(d: Device, h: History): (r: (History, nat))
    ensures Continues(h, r.0, 2)
  {
    var (h1, ok1) := SendCmd(d, h, CMD_DISABLE_P1);
    var (h2, ok2) := SendCmd(d, h1, CMD_DISABLE_P2);
    Chain(h, h1, h2, 1, 1);
    (h2, (if ok1 then 0 else 1) + (if ok2 then 0 else 2))
  }

  function ReadConfig(d: Device, h: History): (r: (History, bv8))
    ensures Continues(h, r.0, 2)
  {
    var (h1, ok) := SendCmd(d, h, CMD_READ_CONFIG);
    if !ok then (h1, 0xff)
    else
      var (h2, v) := RecvData(d, h1);
      Chain(h, h1, h2, 1, 1);
      (h2, v)
  }

  function WriteConfig(d: Device, h: History, config: bv8): (r: (History, bool))
    ensures Continues(h, r.0, 4)
  {
    var (h1, ok1) := SendCmd(d, h, CMD_WRITE_CONFIG);
    if !ok1 then (h1, false)
    else
      var (h2, ok2) := SendData(d, h1, config);
      Chain(h, h1, h2, 1, 1);
      if !ok2 then (h2, false)
      else
        var (h3, t) := ReadConfig(d, h2);
        Chain(h, h2, h3, 2, 2);
        (h3, t == config)
  }

  function ResetDevice(d: Device, h: History, which: int): (r: (History, bool))
    ensures Continues(h, r.0, 3)
  {
    var (h1, ok1) := if which == 1 then SendCmd(d, h, CMD_WRITENEXT_P2INBUF) else (h, true);
    if !ok1 then (h1, false)
    else
      var (h2, ok2) := SendCmd(d, h1, CMD_RST_DEVICE);
      Chain(h, h1, h2, 1, 1);
      if !ok2 then (h2, false)
      else
        var (h3, v) := RecvData(d, h2);
        Chain(h, h2, h3, 2, 1);
        (h3, v == STAT_ACK)
  }

  function EnableA20Line(d: Device, h: History): (r: (History, bool))
    ensures Continues(h, r.0, 2)
  {
    var (h1, ok) := SendCmd(d, h, CMD_WRITENEXT_CTL_OUT);
    if !ok then (h1, false)
    else
      var (h2, ok2) := SendData(d, h1, CMD_ENABLE_A20);
      Chain(h, h1, h2, 1, 1);
      (h2, ok2)
  }

  function DoSelfTest(d: Device, h: History): (r: (History, bool))
    ensures Continues(h, r.0, 2)
  {
    var (h1, ok) := SendCmd(d, h, CMD_TEST_CTL);
    if !ok then (h1, false)
    else
      var (h2, v) := RecvData(d, h1);
      Chain(h, h1, h2, 1, 1);
      (h2, v == SELFTEST_SUCCESS)
  }

  function TestDevice(d: Device, h: History, cmd: bv8): (r: (History, bv8))
    ensures Continues(h, r.0, 2)
  {
    var (h1, ok) := SendCmd(d, h, cmd);
    if !ok then (h1, 0xff)
    else
      var (h2, v) := RecvData(d, h1);
      Chain(h, h1, h2, 1, 1);
      (h2, v)
  }

  // ---------------------------------------------------------------- reconfiguration

  /** ps2_8042_status */
  datatype Status = Status(dualChannel: bool, currentConfiguration: bv8, devicesInitialised: int, a20Enabled: bool)

  /** The DEVICE_STATUS values kbdctl_set_default_init can return, and its panic. */
  datatype Outcome = Unknown | Faulty | Initialised | Panic

  function NewConfig(initial: bv8): bv8 {
    ((initial & DEFAULT_CONFIG_MASK) & !(CTL_P1_IE | CTL_P2_IE)) | (1 << 2)
  }

  function SetDefaultInit(d: Device, h: History, s: Status): (r: (History, Status, Outcome))
    ensures Continues(h, r.0, 12)
  {
    var (h1, initial) := ReadConfig(d, h);
    if initial == 0xff then (h1, s, Unknown)
    else
      var config := NewConfig(initial);
      var (h2, written) := WriteConfig(d, h1, config);
      Chain(h, h1, h2, 2, 4);
      if !written then (h2, s, Faulty)
      else
        var (h3, tested) := DoSelfTest(d, h2);
        Chain(h, h2, h3, 6, 2);
        if !tested then
          var (h4, restored) := WriteConfig(d, h3, initial);
          Chain(h, h3, h4, 8, 4);
          (h4, s, if restored then Faulty else Panic)
        else
          var (h4, a20) := EnableA20Line(d, h3);
          Chain(h, h3, h4, 8, 2);
          (h4, s.(dualChannel := s.dualChannel || initial & CTL_PS2_CLKE != 0,
                  a20Enabled := a20, currentConfiguration := config), Initialised)
  }

  function WithBit(config: bv8, bit: bv8): bv8 { config | bit }

  /** The second port, on a dual-channel controller. */
  function EnableSecond(d: Device, h: History): (r: (History, nat))
    ensures Continues(h, r.0, 9)
  {
    var (h1, ok) := SendCmd(d, h, CMD_ENABLE_P2);
    if !ok then
      Wider(h, h1, 1, 9);
      (h1, 1)
    else
      var (h2, conf) := ReadConfig(d, h1);
      Chain(h, h1, h2, 1, 2);
      var (h3, _) := WriteConfig(d, h2, WithBit(conf, CTL_P2_IE));
      Chain(h, h2, h3, 3, 4);
      var (h4, result) := TestDevice(d, h3, CMD_TEST_P2);
      Chain(h, h3, h4, 7, 2);
      (h4, if result == 0 then 2 else 1)
  }

  /** The number of devices reported, with the status the driver keeps. */
  function EnableDevices(d: Device, h: History, s: Status): (r: (History, Status, nat))
    ensures Continues(h, r.0, 18)
  {
    var (h1, ok) := SendCmd(d, h, CMD_ENABLE_P1);
    if !ok then (h1, s, 0)
    else
      var (h2, result1) := TestDevice(d, h1, CMD_TEST_P1);
      Chain(h, h1, h2, 1, 2);
      if result1 != 0 then (h2, s, 0)
      else
        var (h3, conf1) := ReadConfig(d, h2);
        Chain(h, h2, h3, 3, 2);
        var (h4, _) := WriteConfig(d, h3, WithBit(conf1, CTL_P1_IE));
        Chain(h, h3, h4, 5, 4);
        var s1 := s.(devicesInitialised := s.devicesInitialised + 1);
        if !s.dualChannel then (h4, s1, 1)
        else
          var (h5, count) := EnableSecond(d, h4);
          Chain(h, h4, h5, 9, 9);
          (h5, s1, count)
  }

  // ---------------------------------------------------------------- any sequence of calls

  datatype Call =
    | CallSendCmd(v: bv8)
    | CallRecvData
    | CallSendData(v: bv8)
    | CallDisablePorts
    | CallReset(which: int)
    | CallEnableA20
    | CallSelfTest
    | CallTestDevice(v: bv8)
    | CallSetDefaultInit
    | CallEnableDevices

  function Perform(d: Device, h: History, s: Status, call: Call): (History, Status) {
    match call
    case CallSendCmd(v) => (SendCmd(d, h, v).0, s)
    case CallRecvData => (RecvData(d, h).0, s)
    case CallSendData(v) => (SendData(d, h, v).0, s)
    case CallDisablePorts => (DisablePorts(d, h).0, s)
    case CallReset(which) => (ResetDevice(d, h, which).0, s)
    case CallEnableA20 => (EnableA20Line(d, h).0, s)
    case CallSelfTest => (DoSelfTest(d, h).0, s)
    case CallTestDevice(v) => (TestDevice(d, h, v).0, s)
    case CallSetDefaultInit => var (h1, s1, _) := SetDefaultInit(d, h, s); (h1, s1)
    case CallEnableDevices => var (h1, s1, _) := EnableDevices(d, h, s); (h1, s1)
  }

  function PerformAll(d: Device, h: History, s: Status, calls: seq<Call>): (History, Status)
    decreases calls
  {
    if |calls| == 0 then (h, s)
    else var (h1, s1) := Perform(d, h, s, calls[0]); PerformAll(d, h1, s1, calls[1..])
  }

  lemma CallContinues(d: Device, h: History, s: Status, call: Call)
    ensures Continues(h, Perform(d, h, s, call).0, 18)
  {
  }

  lemma ContinuesSelf(h: History)
    ensures Continues(h, h, 0)
  {
  }

  /** Handshake safety: whatever the device answers, every port access of every sequence of driver
      calls is preceded immediately by a status read that permits it, and waiting is bounded. */
  lemma {:induction false} EveryRunIsHandshaken(d: Device, h: History, s: Status, calls: seq<Call>)
    ensures Continues(h, PerformAll(d, h, s, calls).0, 18 * |calls|)
    decreases calls
  {
    hide Continues, Perform;
    if 0 < |calls| {
      var (h1, s1) := Perform(d, h, s, calls[0]);
      CallContinues(d, h, s, calls[0]);
      EveryRunIsHandshaken(d, h1, s1, calls[1..]);
      Chain(h, h1, PerformAll(d, h1, s1, calls[1..]).0, 18, 18 * |calls[1..]|);
    } else {
      ContinuesSelf(h);
    }
  }

  // ---------------------------------------------------------------- the configuration byte

  datatype Latch = Idle | Command(v: bv8)

  /** The controller's configuration byte and the command it has latched. */
  datatype Register = Register(config: bv8, latch: Latch)

  /** The register after a history, from configuration c: only a data byte after the write command can
      change the configuration, and only if the device takes it. */
  function After(d: Device, c: bv8, h: History): Register
    decreases |h|
  {
    if |h| == 0 then Register(c, Idle)
    else
      var before := h[..|h| - 1];
      var s := After(d, c, before);
      match h[|h| - 1]
      case In(_, _) => s
      case Out(port, v) =>
        if port == CMD then s.(latch := Command(v))
        else if s.latch == Command(CMD_WRITE_CONFIG) && d.takes(before) then Register(v, Idle)
        else s.(latch := Idle)
  }

  /** A device that answers the read command with its configuration: a data read after that command
      returns the byte itself, no late reply to an earlier command. */
  ghost predicate AnswersConfig(d: Device, c: bv8) {
    forall h :: After(d, c, h).latch == Command(CMD_READ_CONFIG) ==> d.reply(h, DATA) == After(d, c, h).config
  }

  lemma AfterEvent(d: Device, c: bv8, h: History, e: Event)
    ensures After(d, c, h + [e]) ==
      match e
      case In(_, _) => After(d, c, h)
      case Out(port, v) =>
        if port == CMD then After(d, c, h).(latch := Command(v))
        else if After(d, c, h).latch == Command(CMD_WRITE_CONFIG) && d.takes(h) then Register(v, Idle)
        else After(d, c, h).(latch := Idle)
  {
  }

  lemma {:induction false} PollingKeepsRegister(d: Device, c: bv8, h: History, waitfor: bv8, turns: nat)
    ensures After(d, c, CtrlRdy(d, h, waitfor, turns).0) == After(d, c, h)
    decreases turns, h
  {
    hide After;
    if 0 < turns {
      var (h1, v) := Inb(d, h, STAT);
      AfterEvent(d, c, h, In(STAT, v));
      if !Shows(v, waitfor) { PollingKeepsRegister(d, c, h1, waitfor, turns - 1); }
    }
  }

  lemma SendCmdRegister(d: Device, c: bv8, h: History, v: bv8)
    ensures var (h', ok) := SendCmd(d, h, v);
      After(d, c, h') == if ok then After(d, c, h).(latch := Command(v)) else After(d, c, h)
  {
    hide After, CtrlRdy;
    PollingKeepsRegister(d, c, h, 0, TURNS);
    AfterEvent(d, c, CtrlRdy(d, h, 0, TURNS).0, Out(CMD, v));
  }

  lemma RecvDataRegister(d: Device, c: bv8, h: History)
    requires AnswersConfig(d, c)
    ensures var (h', v) := RecvData(d, h);
      && After(d, c, h') == After(d, c, h)
      && (After(d, c, h).latch == Command(CMD_READ_CONFIG) ==> v == 0xff || v == After(d, c, h).config)
  {
    hide After, CtrlRdy;
    var h1 := CtrlRdy(d, h, STAT_OUT_BUF, TURNS).0;
    PollingKeepsRegister(d, c, h, STAT_OUT_BUF, TURNS);
    AfterEvent(d, c, h1, In(DATA, d.reply(h1, DATA)));
  }

  lemma SendDataRegister(d: Device, c: bv8, h: History, v: bv8)
    ensures var (h', ok) := SendData(d, h, v);
      && (After(d, c, h').config == After(d, c, h).config
          || (After(d, c, h).latch == Command(CMD_WRITE_CONFIG) && After(d, c, h').config == v))
  {
    hide After, CtrlRdy;
    PollingKeepsRegister(d, c, h, 0, TURNS);
    AfterEvent(d, c, CtrlRdy(d, h, 0, TURNS).0, Out(DATA, v));
  }

  lemma ReadConfigRegister(d: Device, c: bv8, h: History)
    requires AnswersConfig(d, c)
    ensures var (h', v) := ReadConfig(d, h);
      After(d, c, h').config == After(d, c, h).config && (v == 0xff || v == After(d, c, h).config)
  {
    hide After, SendCmd, RecvData, AnswersConfig;
    SendCmdRegister(d, c, h, CMD_READ_CONFIG);
    RecvDataRegister(d, c, SendCmd(d, h, CMD_READ_CONFIG).0);
  }

  /** A configuration write leaves the old byte or the new one, and the new one if it reports success. */
  lemma WriteConfigRegister(d: Device, c: bv8, h: History, config: bv8)
    requires AnswersConfig(d, c) && config != 0xff
    ensures var (h', ok) := WriteConfig(d, h, config);
      && After(d, c, h').config in {After(d, c, h).config, config}
      && (ok ==> After(d, c, h').config == config)
  {
    hide After, SendCmd, SendData, ReadConfig, AnswersConfig;
    var h1 := SendCmd(d, h, CMD_WRITE_CONFIG).0;
    SendCmdRegister(d, c, h, CMD_WRITE_CONFIG);
    SendDataRegister(d, c, h1, config);
    ReadConfigRegister(d, c, SendData(d, h1, config).0);
  }

  /** Whatever byte is written, the old byte or that one remains. */
  lemma WriteConfigRemains(d: Device, c: bv8, h: History, config: bv8)
    requires AnswersConfig(d, c)
    ensures After(d, c, WriteConfig(d, h, config).0).config in {After(d, c, h).config, config}
  {
    hide After, SendCmd, SendData, ReadConfig, AnswersConfig;
    var h1 := SendCmd(d, h, CMD_WRITE_CONFIG).0;
    SendCmdRegister(d, c, h, CMD_WRITE_CONFIG);
    SendDataRegister(d, c, h1, config);
    ReadConfigRegister(d, c, SendData(d, h1, config).0);
  }

  lemma SelfTestRegister(d: Device, c: bv8, h: History)
    requires AnswersConfig(d, c)
    ensures After(d, c, DoSelfTest(d, h).0).config == After(d, c, h).config
  {
    hide After, SendCmd, RecvData, AnswersConfig;
    SendCmdRegister(d, c, h, CMD_TEST_CTL);
    RecvDataRegister(d, c, SendCmd(d, h, CMD_TEST_CTL).0);
  }

  lemma A20Register(d: Device, c: bv8, h: History)
    ensures After(d, c, EnableA20Line(d, h).0).config == After(d, c, h).config
  {
    hide After, SendCmd, SendData;
    SendCmdRegister(d, c, h, CMD_WRITENEXT_CTL_OUT);
    SendDataRegister(d, c, SendCmd(d, h, CMD_WRITENEXT_CTL_OUT).0, CMD_ENABLE_A20);
  }

  /** The byte written is never the 0xff that stands for a failed read. */
  lemma NewConfigIsNotError(initial: bv8)
    ensures NewConfig(initial) != 0xff && NewConfig(initial) == ((initial & 0xBC) & 0xFC) | 0x04
  {
  }

  /** Reconfiguration is a transaction. */
  lemma Reconfiguration(d: Device, c: bv8, h: History, s: Status)
    requires AnswersConfig(d, c)
    ensures var initial, (h', s', outcome) := After(d, c, h).config, SetDefaultInit(d, h, s);
      var final := After(d, c, h').config;
      && final in {initial, NewConfig(initial)}
      && (outcome == Initialised ==> final == NewConfig(initial) == s'.currentConfiguration)
      && (outcome == Initialised ==> s'.dualChannel == (s.dualChannel || initial & 0x20 != 0))
      && (outcome == Unknown ==> final == initial)
      && (outcome != Initialised ==> s' == s)
  {
    hide After, ReadConfig, WriteConfig, DoSelfTest, EnableA20Line, AnswersConfig, NewConfig;
    var (h1, initial) := ReadConfig(d, h);
    ReadConfigRegister(d, c, h);
    NewConfigIsNotError(initial);
    if initial != 0xff {
      var h2 := WriteConfig(d, h1, NewConfig(initial)).0;
      WriteConfigRegister(d, c, h1, NewConfig(initial));
      var h3 := DoSelfTest(d, h2).0;
      SelfTestRegister(d, c, h2);
      WriteConfigRegister(d, c, h3, initial);
      A20Register(d, c, h3);
    }
  }

  /** A self-test that fails after the new byte was written leaves the initial byte, or panics. */
  lemma FailedSelfTestRollsBack(d: Device, c: bv8, h: History, s: Status)
    requires AnswersConfig(d, c)
    requires ReadConfig(d, h).1 != 0xff
    requires var (h1, initial) := ReadConfig(d, h);
      var (h2, written) := WriteConfig(d, h1, NewConfig(initial));
      written && !DoSelfTest(d, h2).1
    ensures var (h', s', outcome) := SetDefaultInit(d, h, s);
      (outcome == Faulty && After(d, c, h').config == After(d, c, h).config) || outcome == Panic
  {
    hide After, ReadConfig, WriteConfig, DoSelfTest, EnableA20Line, AnswersConfig, NewConfig;
    var (h1, initial) := ReadConfig(d, h);
    ReadConfigRegister(d, c, h);
    var h2 := WriteConfig(d, h1, NewConfig(initial)).0;
    WriteConfigRegister(d, c, DoSelfTest(d, h2).0, initial);
  }

  // ---------------------------------------------------------------- enabling the devices

  lemma TestDeviceRegister(d: Device, c: bv8, h: History, cmd: bv8)
    requires AnswersConfig(d, c)
    ensures After(d, c, TestDevice(d, h, cmd).0).config == After(d, c, h).config
  {
    hide After, SendCmd, RecvData, AnswersConfig;
    SendCmdRegister(d, c, h, cmd);
    RecvDataRegister(d, c, SendCmd(d, h, cmd).0);
  }

  /** The byte stays or gains the bit. */
  predicate Gains(before: bv8, after: bv8, bit: bv8) { after == before || after == before | bit }

  /** Setting one bit of the byte that was read: the byte stays, gains that bit, or becomes 0xff, the last
      only when the read came back with 0xff. */
  lemma SetBitRegister(d: Device, c: bv8, h: History, bit: bv8)
    requires AnswersConfig(d, c)
    ensures var (h1, conf) := ReadConfig(d, h);
      var before, after := After(d, c, h).config, After(d, c, WriteConfig(d, h1, WithBit(conf, bit)).0).config;
      Gains(before, after, bit) || (conf == 0xff && after == 0xff)
  {
    hide After, ReadConfig, WriteConfig, AnswersConfig;
    var (h1, conf) := ReadConfig(d, h);
    ReadConfigRegister(d, c, h);
    WriteConfigRemains(d, c, h1, WithBit(conf, bit));
    assert 0xff | bit == 0xff;
  }

  lemma GainsNothing(x: bv8, bit: bv8)
    ensures Gains(x, x, bit)
  {
  }

  lemma EnableSecondRegister(d: Device, c: bv8, h: History)
    requires AnswersConfig(d, c)
    ensures var before, after := After(d, c, h).config, After(d, c, EnableSecond(d, h).0).config;
      && (Gains(before, after, CTL_P2_IE) || after == 0xff)
      && (ReadConfig(d, SendCmd(d, h, CMD_ENABLE_P2).0).1 != 0xff ==> Gains(before, after, CTL_P2_IE))
  {
    hide After, SendCmd, TestDevice, ReadConfig, WriteConfig, AnswersConfig, Continues, Gains;
    var (h1, ok) := SendCmd(d, h, CMD_ENABLE_P2);
    SendCmdRegister(d, c, h, CMD_ENABLE_P2);
    if ok {
      var (h2, conf) := ReadConfig(d, h1);
      SetBitRegister(d, c, h1, CTL_P2_IE);
      TestDeviceRegister(d, c, WriteConfig(d, h2, WithBit(conf, CTL_P2_IE)).0, CMD_TEST_P2);
    } else {
      GainsNothing(After(d, c, h).config, CTL_P2_IE);
    }
  }

  /** The history once the first port is tested, and once its interrupt bit is written. */
  function FirstTested(d: Device, h: History): History {
    TestDevice(d, SendCmd(d, h, CMD_ENABLE_P1).0, CMD_TEST_P1).0
  }

  function FirstEnabled(d: Device, h: History): History {
    var (h1, conf) := ReadConfig(d, FirstTested(d, h));
    WriteConfig(d, h1, WithBit(conf, CTL_P1_IE)).0
  }

  /** The configuration reads that enabling makes do not come back with 0xff. */
  predicate ConfigReadsSucceed(d: Device, h: History) {
    && ReadConfig(d, FirstTested(d, h)).1 != 0xff
    && ReadConfig(d, SendCmd(d, FirstEnabled(d, h), CMD_ENABLE_P2).0).1 != 0xff
  }

  /** The byte with some of the two interrupt bits added. */
  predicate InterruptsAdded(before: bv8, after: bv8) {
    after == before || after == before | CTL_P1_IE || after == before | CTL_P2_IE
    || after == before | CTL_P1_IE | CTL_P2_IE
  }

  lemma BothGains(before: bv8, mid: bv8, after: bv8)
    requires Gains(mid, after, CTL_P2_IE)
    ensures Gains(before, mid, CTL_P1_IE) ==> InterruptsAdded(before, after)
    ensures mid == 0xff ==> after == 0xff
  {
  }

  lemma InterruptsAddedSelf(x: bv8)
    ensures InterruptsAdded(x, x)
  {
  }

  /** The bytes after each stage, put together. */
  lemma EnableStages(before: bv8, mid: bv8, after: bv8)
    ensures InterruptsAdded(before, before)
    ensures Gains(before, mid, CTL_P1_IE) ==> InterruptsAdded(before, mid)
    ensures Gains(before, mid, CTL_P1_IE) && Gains(mid, after, CTL_P2_IE) ==> InterruptsAdded(before, after)
    ensures mid == 0xff && Gains(mid, after, CTL_P2_IE) ==> after == 0xff
  {
    InterruptsAddedSelf(before);
    GainsNothing(mid, CTL_P2_IE);
    BothGains(before, mid, mid);
    hide InterruptsAdded;
    if Gains(mid, after, CTL_P2_IE) { BothGains(before, mid, after); }
  }

  /** How far enabling gets. */
  lemma EnableDevicesCases(d: Device, h: History, s: Status)
    ensures var (h1, ok) := SendCmd(d, h, CMD_ENABLE_P1);
      var (final, _, count) := EnableDevices(d, h, s);
      (final, count) == if !ok then (h1, 0)
                        else if TestDevice(d, h1, CMD_TEST_P1).1 != 0 then (FirstTested(d, h), 0)
                        else if !s.dualChannel then (FirstEnabled(d, h), 1)
                        else EnableSecond(d, FirstEnabled(d, h))
  {
    hide SendCmd, TestDevice, ReadConfig, WriteConfig, EnableSecond, Continues;
  }

  /** Enabling the devices adds interrupt bits to the configuration byte, or leaves 0xff, the failed read
      written back; when its reads succeed only interrupt bits change. */
  lemma EnableDevicesRegister(d: Device, c: bv8, h: History, s: Status)
    requires AnswersConfig(d, c)
    ensures var before, after := After(d, c, h).config, After(d, c, EnableDevices(d, h, s).0).config;
      (InterruptsAdded(before, after) || after == 0xff) && (ConfigReadsSucceed(d, h) ==> InterruptsAdded(before, after))
  {
    EnableDevicesCases(d, h, s);
    hide After, SendCmd, TestDevice, ReadConfig, WriteConfig, EnableDevices, EnableSecond, AnswersConfig, Continues,
      Gains, InterruptsAdded;
    var (h1, ok) := SendCmd(d, h, CMD_ENABLE_P1);
    SendCmdRegister(d, c, h, CMD_ENABLE_P1);
    TestDeviceRegister(d, c, h1, CMD_TEST_P1);
    SetBitRegister(d, c, FirstTested(d, h), CTL_P1_IE);
    var h4 := FirstEnabled(d, h);
    EnableSecondRegister(d, c, h4);
    EnableStages(After(d, c, h).config, After(d, c, h4).config, After(d, c, EnableSecond(d, h4).0).config);
  }

  /** Such bytes agree outside the interrupt bits. */
  lemma InterruptsOnly(before: bv8, after: bv8)
    requires InterruptsAdded(before, after)
    ensures after & !(CTL_P1_IE | CTL_P2_IE) == before & !(CTL_P1_IE | CTL_P2_IE)
  {
  }

  // ---------------------------------------------------------------- a working controller

  /** Always ready in both directions, takes configuration writes and passes its self-test. */
  ghost predicate Cooperative(d: Device, c: bv8) {
    && (forall h :: d.reply(h, STAT) & (STAT_OUT_BUF | STAT_IN_BUF) == STAT_OUT_BUF)
    && (forall h :: d.takes(h))
    && (forall h :: After(d, c, h).latch == Command(CMD_TEST_CTL) ==> d.reply(h, DATA) == SELFTEST_SUCCESS)
  }

  lemma ReadyAtOnce(d: Device, c: bv8, h: History, waitfor: bv8)
    requires Cooperative(d, c) && waitfor in {0, STAT_OUT_BUF}
    ensures CtrlRdy(d, h, waitfor, TURNS).1
  {
  }

  lemma CooperativeRead(d: Device, c: bv8, h: History)
    requires Cooperative(d, c) && AnswersConfig(d, c)
    ensures ReadConfig(d, h).1 == After(d, c, h).config
  {
    hide After, CtrlRdy, Cooperative;
    ReadyAtOnce(d, c, h, 0);
    SendCmdRegister(d, c, h, CMD_READ_CONFIG);
    var h1 := SendCmd(d, h, CMD_READ_CONFIG).0;
    ReadyAtOnce(d, c, h1, STAT_OUT_BUF);
    PollingKeepsRegister(d, c, h1, STAT_OUT_BUF, TURNS);
  }

  lemma CooperativeWrite(d: Device, c: bv8, h: History, config: bv8)
    requires Cooperative(d, c) && AnswersConfig(d, c)
    ensures WriteConfig(d, h, config).1
  {
    hide After, CtrlRdy, ReadConfig, AnswersConfig;
    ReadyAtOnce(d, c, h, 0);
    SendCmdRegister(d, c, h, CMD_WRITE_CONFIG);
    var h1 := SendCmd(d, h, CMD_WRITE_CONFIG).0;
    ReadyAtOnce(d, c, h1, 0);
    PollingKeepsRegister(d, c, h1, 0, TURNS);
    AfterEvent(d, c, CtrlRdy(d, h1, 0, TURNS).0, Out(DATA, config));
    CooperativeRead(d, c, SendData(d, h1, config).0);
  }

  lemma CooperativeSelfTest(d: Device, c: bv8, h: History)
    requires Cooperative(d, c)
    ensures DoSelfTest(d, h).1
  {
    hide After, CtrlRdy;
    ReadyAtOnce(d, c, h, 0);
    SendCmdRegister(d, c, h, CMD_TEST_CTL);
    var h1 := SendCmd(d, h, CMD_TEST_CTL).0;
    ReadyAtOnce(d, c, h1, STAT_OUT_BUF);
    PollingKeepsRegister(d, c, h1, STAT_OUT_BUF, TURNS);
  }

  /** A working controller is always initialised, unless its configuration byte is the 0xff that the
      driver cannot tell from a failed read. */
  lemma WorkingControllerIsInitialised(d: Device, c: bv8, h: History, s: Status)
    requires Cooperative(d, c) && AnswersConfig(d, c)
    ensures SetDefaultInit(d, h, s).2 == if After(d, c, h).config == 0xff then Unknown else Initialised
  {
    hide After, ReadConfig, WriteConfig, DoSelfTest, EnableA20Line, AnswersConfig, Cooperative;
    var (h1, initial) := ReadConfig(d, h);
    CooperativeRead(d, c, h);
    CooperativeWrite(d, c, h1, NewConfig(initial));
    CooperativeSelfTest(d, c, WriteConfig(d, h1, NewConfig(initial)).0);
  }

  /** Both ports answer their test with zero. */
  ghost predicate PassesPortTests(d: Device, c: bv8) {
    forall h :: After(d, c, h).latch in {Command(CMD_TEST_P1), Command(CMD_TEST_P2)} ==> d.reply(h, DATA) == 0
  }

  lemma CooperativeTest(d: Device, c: bv8, h: History, cmd: bv8)
    requires Cooperative(d, c) && PassesPortTests(d, c) && cmd in {CMD_TEST_P1, CMD_TEST_P2}
    ensures TestDevice(d, h, cmd).1 == 0
  {
    hide After, CtrlRdy, Cooperative;
    ReadyAtOnce(d, c, h, 0);
    SendCmdRegister(d, c, h, cmd);
    var h1 := SendCmd(d, h, cmd).0;
    ReadyAtOnce(d, c, h1, STAT_OUT_BUF);
    PollingKeepsRegister(d, c, h1, STAT_OUT_BUF, TURNS);
  }

  lemma CooperativeCommand(d: Device, c: bv8, h: History, cmd: bv8)
    requires Cooperative(d, c)
    ensures SendCmd(d, h, cmd).1 && After(d, c, SendCmd(d, h, cmd).0).config == After(d, c, h).config
  {
    hide After, CtrlRdy, Cooperative;
    ReadyAtOnce(d, c, h, 0);
    SendCmdRegister(d, c, h, cmd);
  }

  lemma CooperativeStores(d: Device, c: bv8, h: History, config: bv8)
    requires Cooperative(d, c) && AnswersConfig(d, c)
    ensures After(d, c, WriteConfig(d, h, config).0).config == config
  {
    hide After, CtrlRdy, ReadConfig, AnswersConfig;
    ReadyAtOnce(d, c, h, 0);
    SendCmdRegister(d, c, h, CMD_WRITE_CONFIG);
    var h1 := SendCmd(d, h, CMD_WRITE_CONFIG).0;
    ReadyAtOnce(d, c, h1, 0);
    PollingKeepsRegister(d, c, h1, 0, TURNS);
    AfterEvent(d, c, CtrlRdy(d, h1, 0, TURNS).0, Out(DATA, config));
    ReadConfigRegister(d, c, SendData(d, h1, config).0);
  }

  /** Setting a bit on a working controller sets that bit. */
  lemma CooperativeSetBit(d: Device, c: bv8, h: History, bit: bv8)
    requires Cooperative(d, c) && AnswersConfig(d, c)
    ensures var (h1, conf) := ReadConfig(d, h);
      After(d, c, WriteConfig(d, h1, WithBit(conf, bit)).0).config == WithBit(After(d, c, h).config, bit)
  {
    hide After, SendCmd, SendData, AnswersConfig, Cooperative, Continues, WithBit;
    var (h1, conf) := ReadConfig(d, h);
    CooperativeRead(d, c, h);
    ReadConfigRegister(d, c, h);
    CooperativeStores(d, c, h1, WithBit(conf, bit));
  }

  /** Enabling the second port, once its command has gone out. */
  lemma EnableSecondCases(d: Device, h: History)
    requires SendCmd(d, h, CMD_ENABLE_P2).1
    ensures var (h1, conf) := ReadConfig(d, SendCmd(d, h, CMD_ENABLE_P2).0);
      var h2 := WriteConfig(d, h1, WithBit(conf, CTL_P2_IE)).0;
      EnableSecond(d, h)
      == (TestDevice(d, h2, CMD_TEST_P2).0, if TestDevice(d, h2, CMD_TEST_P2).1 == 0 then 2 else 1)
  {
    hide SendCmd, TestDevice, ReadConfig, WriteConfig, Continues, WithBit;
  }

  lemma CooperativeSecond(d: Device, c: bv8, h: History)
    requires Cooperative(d, c) && AnswersConfig(d, c) && PassesPortTests(d, c)
    ensures EnableSecond(d, h).1 == 2
    ensures After(d, c, EnableSecond(d, h).0).config == WithBit(After(d, c, h).config, CTL_P2_IE)
  {
    CooperativeCommand(d, c, h, CMD_ENABLE_P2);
    EnableSecondCases(d, h);
    hide After, SendCmd, TestDevice, ReadConfig, WriteConfig, EnableSecond, AnswersConfig, Cooperative,
      PassesPortTests, Continues, WithBit;
    var h1 := SendCmd(d, h, CMD_ENABLE_P2).0;
    CooperativeSetBit(d, c, h1, CTL_P2_IE);
    var (h2, conf) := ReadConfig(d, h1);
    var h3 := WriteConfig(d, h2, WithBit(conf, CTL_P2_IE)).0;
    CooperativeTest(d, c, h3, CMD_TEST_P2);
    TestDeviceRegister(d, c, h3, CMD_TEST_P2);
  }

  lemma CooperativeFirst(d: Device, c: bv8, h: History)
    requires Cooperative(d, c) && AnswersConfig(d, c) && PassesPortTests(d, c)
    ensures SendCmd(d, h, CMD_ENABLE_P1).1 && TestDevice(d, SendCmd(d, h, CMD_ENABLE_P1).0, CMD_TEST_P1).1 == 0
    ensures After(d, c, FirstEnabled(d, h)).config == WithBit(After(d, c, h).config, CTL_P1_IE)
  {
    hide After, SendCmd, TestDevice, ReadConfig, WriteConfig, AnswersConfig, Cooperative, PassesPortTests, Continues,
      WithBit;
    var h1 := SendCmd(d, h, CMD_ENABLE_P1).0;
    CooperativeCommand(d, c, h, CMD_ENABLE_P1);
    CooperativeTest(d, c, h1, CMD_TEST_P1);
    TestDeviceRegister(d, c, h1, CMD_TEST_P1);
    CooperativeSetBit(d, c, FirstTested(d, h), CTL_P1_IE);
  }

  /** A working controller has its devices enabled, one or two, with exactly their interrupt bits set. */
  lemma WorkingControllerIsEnabled(d: Device, c: bv8, h: History, s: Status)
    requires Cooperative(d, c) && AnswersConfig(d, c) && PassesPortTests(d, c)
    ensures var before, (h', s', count) := After(d, c, h).config, EnableDevices(d, h, s);
      && count == (if s.dualChannel then 2 else 1)
      && After(d, c, h').config
         == if s.dualChannel then before | CTL_P1_IE | CTL_P2_IE else before | CTL_P1_IE
  {
    EnableDevicesCases(d, h, s);
    hide After, SendCmd, TestDevice, FirstEnabled, EnableDevices, EnableSecond, AnswersConfig, Cooperative,
      PassesPortTests, Continues;
    CooperativeFirst(d, c, h);
    if s.dualChannel { CooperativeSecond(d, c, FirstEnabled(d, h)); }
  }

  lemma {:induction false} RegisterIgnoresReplies(d: Device, e: Device, c: bv8, h: History)
    requires d.takes == e.takes
    ensures After(d, c, h) == After(e, c, h)
    decreases |h|
  {
    if 0 < |h| { RegisterIgnoresReplies(d, e, c, h[..|h| - 1]); }
  }

  /** Such controllers exist, for every configuration byte. */
  lemma WorkingControllerExists(c: bv8) returns (d: Device)
    ensures Cooperative(d, c) && AnswersConfig(d, c) && PassesPortTests(d, c)
  {
    var silent := Device((_, _) => 0, _ => true);
    d := silent.(reply := (h, port) =>
      if port == STAT then STAT_OUT_BUF
      else if After(silent, c, h).latch == Command(CMD_TEST_CTL) then SELFTEST_SUCCESS
      else if After(silent, c, h).latch in {Command(CMD_TEST_P1), Command(CMD_TEST_P2)} then 0
      else After(silent, c, h).config);
    forall h ensures After(d, c, h) == After(silent, c, h) { RegisterIgnoresReplies(d, silent, c, h); }
  }

  // ---------------------------------------------------------------- a configuration that cannot be read

  /** Takes every byte, passes its port tests, and never has an answer ready to the read command. */
  ghost predicate Mute(d: Device, c: bv8) {
    && (forall h :: d.reply(h, STAT) & STAT_IN_BUF == 0) && (forall h :: d.takes(h))
    && (forall h :: After(d, c, h).latch == Command(CMD_READ_CONFIG) ==> d.reply(h, STAT) & STAT_OUT_BUF == 0)
    && (forall h :: After(d, c, h).latch == Command(CMD_TEST_P1) ==>
          d.reply(h, STAT) & STAT_OUT_BUF == STAT_OUT_BUF && d.reply(h, DATA) == 0)
  }

  lemma {:induction false} MuteNeverAnswers(d: Device, c: bv8, h: History, turns: nat)
    requires Mute(d, c) && After(d, c, h).latch == Command(CMD_READ_CONFIG)
    ensures !CtrlRdy(d, h, STAT_OUT_BUF, turns).1
    decreases turns
  {
    hide After;
    if 0 < turns {
      var (h1, v) := Inb(d, h, STAT);
      AfterEvent(d, c, h, In(STAT, v));
      MuteNeverAnswers(d, c, h1, turns - 1);
    }
  }

  lemma MuteIsReady(d: Device, c: bv8, h: History)
    requires Mute(d, c)
    ensures CtrlRdy(d, h, 0, TURNS).1
    ensures After(d, c, h).latch == Command(CMD_TEST_P1) ==> CtrlRdy(d, h, STAT_OUT_BUF, TURNS).1
  {
    hide After;
  }

  lemma MuteRead(d: Device, c: bv8, h: History)
    requires Mute(d, c)
    ensures ReadConfig(d, h).1 == 0xff && After(d, c, ReadConfig(d, h).0).config == After(d, c, h).config
  {
    hide After, CtrlRdy, Mute;
    MuteIsReady(d, c, h);
    SendCmdRegister(d, c, h, CMD_READ_CONFIG);
    var h1 := SendCmd(d, h, CMD_READ_CONFIG).0;
    MuteNeverAnswers(d, c, h1, TURNS);
    PollingKeepsRegister(d, c, h1, STAT_OUT_BUF, TURNS);
  }

  lemma MuteWrite(d: Device, c: bv8, h: History, config: bv8)
    requires Mute(d, c)
    ensures After(d, c, WriteConfig(d, h, config).0).config == config
  {
    hide After, CtrlRdy, ReadConfig;
    MuteIsReady(d, c, h);
    SendCmdRegister(d, c, h, CMD_WRITE_CONFIG);
    var h1 := SendCmd(d, h, CMD_WRITE_CONFIG).0;
    MuteIsReady(d, c, h1);
    PollingKeepsRegister(d, c, h1, 0, TURNS);
    AfterEvent(d, c, CtrlRdy(d, h1, 0, TURNS).0, Out(DATA, config));
    MuteRead(d, c, SendData(d, h1, config).0);
  }

  lemma MuteTest(d: Device, c: bv8, h: History)
    requires Mute(d, c)
    ensures TestDevice(d, h, CMD_TEST_P1).1 == 0
  {
    hide After, CtrlRdy;
    MuteIsReady(d, c, h);
    SendCmdRegister(d, c, h, CMD_TEST_P1);
    var h1 := SendCmd(d, h, CMD_TEST_P1).0;
    MuteIsReady(d, c, h1);
    PollingKeepsRegister(d, c, h1, STAT_OUT_BUF, TURNS);
  }

  lemma MuteSends(d: Device, c: bv8, h: History, cmd: bv8)
    requires Mute(d, c)
    ensures SendCmd(d, h, cmd).1
  {
    hide After, CtrlRdy;
    MuteIsReady(d, c, h);
  }

  /** Enabling the port of such a controller overwrites its configuration with 0xff. */
  lemma FailedReadIsWritten(d: Device, c: bv8, h: History, s: Status)
    requires Mute(d, c) && !s.dualChannel
    ensures var (h', s', count) := EnableDevices(d, h, s); count == 1 && After(d, c, h').config == 0xff
  {
    hide After, SendCmd, TestDevice, ReadConfig, WriteConfig, Mute, Continues;
    var h1 := SendCmd(d, h, CMD_ENABLE_P1).0;
    MuteSends(d, c, h, CMD_ENABLE_P1);
    MuteTest(d, c, h1);
    var h2 := TestDevice(d, h1, CMD_TEST_P1).0;
    MuteRead(d, c, h2);
    MuteWrite(d, c, ReadConfig(d, h2).0, 0xff);
    assert 0xff | CTL_P1_IE == 0xff;
  }

  /** Such controllers exist, for every configuration byte, among those that answer the read command
      truthfully when they answer it. */
  lemma MuteExists(c: bv8) returns (d: Device)
    ensures Mute(d, c) && AnswersConfig(d, c)
  {
    var silent := Device((_, _) => 0, _ => true);
    d := silent.(reply := (h, port) =>
      if port == STAT then (if After(silent, c, h).latch == Command(CMD_TEST_P1) then STAT_OUT_BUF else 0)
      else if After(silent, c, h).latch == Command(CMD_TEST_P1) then 0
      else After(silent, c, h).config);
    forall h ensures After(d, c, h) == After(silent, c, h) { RegisterIgnoresReplies(d, silent, c, h); }
  }
}
