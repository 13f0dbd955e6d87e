/**
 What the 8042 driver says on its ports, in ports and bytes.

 The talk of a history is its writes and its data reads; status reads are left out.
 */
module KbdctlTrace {
  import opened Kbdctl

  function Talk(h: History): History {
    if |h| == 0 then []
    else
      var last := h[|h| - 1];
      Talk(h[..|h| - 1]) + (if last.In? && last.port == 0x64 then [] else [last])
  }

  /** From h to h' the driver says es. */
  ghost predicate Says(h: History, h': History, es: History) { Talk(h') == Talk(h) + es }

  lemma TalkAppend(h: History, e: Event)
    ensures Says(h, h + [e], if e.In? && e.port == 0x64 then [] else [e])
  {
  }

  lemma SaysThen(h: History, h1: History, h2: History, es: History, fs: History)
    requires Says(h, h1, es) && Says(h1, h2, fs)
    ensures Says(h, h2, es + fs)
  {
  }

  // ---------------------------------------------------------------- waiting, sending, receiving

  /** Polling says nothing. */
  lemma {:induction false} PollingIsSilent(d: Device, h: History, waitfor: bv8, turns: nat)
    ensures Says(h, CtrlRdy(d, h, waitfor, turns).0, [])
    decreases turns, h
  {
    hide Talk;
    if 0 < turns {
      var (h1, v) := Inb(d, h, STAT);
      TalkAppend(h, In(STAT, v));
      if !Shows(v, waitfor) { PollingIsSilent(d, h1, waitfor, turns - 1); }
    }
  }

  /** What is waited for: bit 1 of the status clear before a write, bit 0 set before a data read. */
  lemma AwaitedBits(status: bv8)
    ensures Shows(status, 0) <==> status & 0x02 == 0
    ensures Shows(status, STAT_OUT_BUF) <==> status & 0x01 != 0
  {
  }

  lemma SendCmdSays(d: Device, h: History, v: bv8)
    ensures var (h', ok) := SendCmd(d, h, v); Says(h, h', if ok then [Out(0x64, v)] else [])
  {
    hide Talk, CtrlRdy, Continues;
    var h1 := CtrlRdy(d, h, 0, TURNS).0;
    PollingIsSilent(d, h, 0, TURNS);
    TalkAppend(h1, Out(CMD, v));
  }

  lemma SendDataSays(d: Device, h: History, v: bv8)
    ensures var (h', ok) := SendData(d, h, v); Says(h, h', if ok then [Out(0x60, v)] else [])
  {
    hide Talk, CtrlRdy, Continues;
    var h1 := CtrlRdy(d, h, 0, TURNS).0;
    PollingIsSilent(d, h, 0, TURNS);
    TalkAppend(h1, Out(DATA, v));
  }

  /** A byte is received from the data port, or 0xff stands for a timeout. */
  lemma RecvDataSays(d: Device, h: History)
    ensures var (h', v) := RecvData(d, h); Says(h, h', [In(0x60, v)]) || (v == 0xff && Says(h, h', []))
  {
    hide Talk, CtrlRdy, Continues;
    var h1 := CtrlRdy(d, h, STAT_OUT_BUF, TURNS).0;
    PollingIsSilent(d, h, STAT_OUT_BUF, TURNS);
    TalkAppend(h1, In(DATA, d.reply(h1, DATA)));
  }

  predicate Busy(status: bv8, write: bool) { if write then status & 0x02 != 0 else status & 0x01 == 0 }

  /** Busy statuses only: 5000 of them when given up, otherwise followed by the first that is not busy and by one
      access. */
  ghost predicate Waited(h: History, h': History, ok: bool, write: bool) {
    && h <= h' && (if ok then |h| + 2 <= |h'| && !Busy(h'[|h'| - 2].value, write) else |h'| == |h| + 5000)
    && forall k :: |h| <= k < |h'| - (if ok then 2 else 0)
         ==> h'[k].In? && h'[k].port == 0x64 && Busy(h'[k].value, write)
  }

  lemma PollingWaits(d: Device, h: History, write: bool, e: Event)
    ensures var (h1, ok) := CtrlRdy(d, h, if write then 0 else STAT_OUT_BUF, TURNS);
      Waited(h, if ok then h1 + [e] else h1, ok, write)
  {
    hide Continues, StatusReads;
    var waitfor := if write then 0 else STAT_OUT_BUF;
    var (h1, ok) := CtrlRdy(d, h, waitfor, TURNS);
    PollingOutcome(d, h, waitfor, TURNS);
    forall k | |h| <= k < |h1| ensures Busy(h1[k].value, write) <==> !Shows(h1[k].value, waitfor) {
      AwaitedBits(h1[k].value);
    }
  }

  /** A send gives up exactly after 5000 statuses with bit 1 set, and otherwise goes out right after the first
      status with it clear. */
  lemma SendGivesUp(d: Device, h: History, v: bv8)
    ensures var (h', ok) := SendCmd(d, h, v); Waited(h, h', ok, true) && (ok ==> h'[|h'| - 1] == Out(0x64, v))
    ensures var (h', ok) := SendData(d, h, v); Waited(h, h', ok, true) && (ok ==> h'[|h'| - 1] == Out(0x60, v))
  {
    PollingWaits(d, h, true, Out(0x64, v));
    PollingWaits(d, h, true, Out(0x60, v));
    hide CtrlRdy, Continues, Busy, StatusReads;
  }

  /** A receive gives up with 0xff exactly after 5000 statuses with bit 0 clear, and otherwise reads the data port
      right after the first status with it set. */
  lemma ReceiveGivesUp(d: Device, h: History)
    ensures var (h', v) := RecvData(d, h);
      || (Waited(h, h', true, false) && h'[|h'| - 1] == In(0x60, v))
      || (Waited(h, h', false, false) && v == 0xff)
  {
    var h1 := CtrlRdy(d, h, STAT_OUT_BUF, TURNS).0;
    PollingWaits(d, h, false, In(0x60, d.reply(h1, DATA)));
    hide CtrlRdy, Continues, Busy, StatusReads;
  }

  // ---------------------------------------------------------------- the commands

  /** A command that is sent and answered. */
  lemma CommandSays(d: Device, h: History, cmd: bv8)
    ensures var (h1, ok) := SendCmd(d, h, cmd);
      var (h2, v) := RecvData(d, h1);
      ok && v != 0xff ==> Says(h, h2, [Out(0x64, cmd), In(0x60, v)])
  {
    hide Talk, CtrlRdy, Continues, SendCmd, RecvData;
    var (h1, ok) := SendCmd(d, h, cmd);
    SendCmdSays(d, h, cmd);
    RecvDataSays(d, h1);
    var (h2, v) := RecvData(d, h1);
    if ok && v != 0xff { SaysThen(h, h1, h2, [Out(0x64, cmd)], [In(0x60, v)]); }
  }

  lemma ReadConfigSays(d: Device, h: History)
    ensures var (h', v) := ReadConfig(d, h); v != 0xff ==> Says(h, h', [Out(0x64, 0x20), In(0x60, v)])
  {
    hide Talk, Continues, SendCmd, RecvData;
    CommandSays(d, h, CMD_READ_CONFIG);
  }

  /** A configuration write that succeeds: command, byte, and the byte read back. */
  lemma WriteConfigSays(d: Device, h: History, config: bv8)
    requires config != 0xff
    ensures var (h', ok) := WriteConfig(d, h, config);
      ok ==> Says(h, h', [Out(0x64, 0x60), Out(0x60, config), Out(0x64, 0x20), In(0x60, config)])
  {
    hide Talk, Continues, SendCmd, SendData, ReadConfig;
    var (h1, ok1) := SendCmd(d, h, CMD_WRITE_CONFIG);
    SendCmdSays(d, h, CMD_WRITE_CONFIG);
    var (h2, ok2) := SendData(d, h1, config);
    SendDataSays(d, h1, config);
    var (h3, t) := ReadConfig(d, h2);
    ReadConfigSays(d, h2);
    if ok1 && ok2 && t == config {
      SaysThen(h, h1, h2, [Out(0x64, 0x60)], [Out(0x60, config)]);
      SaysThen(h, h2, h3, [Out(0x64, 0x60)] + [Out(0x60, config)], [Out(0x64, 0x20), In(0x60, config)]);
    }
  }

  lemma SelfTestSays(d: Device, h: History)
    ensures var (h', ok) := DoSelfTest(d, h); ok ==> Says(h, h', [Out(0x64, 0xAA), In(0x60, 0x55)])
  {
    hide Talk, Continues, SendCmd, RecvData;
    CommandSays(d, h, CMD_TEST_CTL);
  }

  /** Enabling the A20 line reports success exactly when both bytes have gone out. */
  lemma A20Says(d: Device, h: History)
    ensures var (h', ok) := EnableA20Line(d, h);
      if ok then Says(h, h', [Out(0x64, 0xD1), Out(0x60, 0xDF)])
      else Says(h, h', []) || Says(h, h', [Out(0x64, 0xD1)])
  {
    hide Talk, Continues, SendCmd, SendData;
    var (h1, ok) := SendCmd(d, h, CMD_WRITENEXT_CTL_OUT);
    SendCmdSays(d, h, CMD_WRITENEXT_CTL_OUT);
    var (h2, ok2) := SendData(d, h1, CMD_ENABLE_A20);
    SendDataSays(d, h1, CMD_ENABLE_A20);
    if ok {
      SaysThen(h, h1, h2, [Out(0x64, 0xD1)], if ok2 then [Out(0x60, 0xDF)] else []);
      assert [Out(0x64, 0xD1)] + [] == [Out(0x64, 0xD1)];
    }
  }

  /** A device test whose result is not 0xff. */
  lemma TestDeviceSays(d: Device, h: History, cmd: bv8)
    ensures var (h', v) := TestDevice(d, h, cmd); v != 0xff ==> Says(h, h', [Out(0x64, cmd), In(0x60, v)])
  {
    hide Talk, Continues, SendCmd, RecvData;
    CommandSays(d, h, cmd);
  }

  /** The result tells which of the two commands went out. */
  lemma DisablePortsSays(d: Device, h: History)
    ensures var (h', ret) := DisablePorts(d, h);
      && ret < 4
      && Says(h, h', (if ret % 2 == 0 then [Out(0x64, 0xAD)] else []) + (if ret < 2 then [Out(0x64, 0xA7)] else []))
  {
    hide Talk, Continues, SendCmd;
    var (h1, ok1) := SendCmd(d, h, CMD_DISABLE_P1);
    SendCmdSays(d, h, CMD_DISABLE_P1);
    var (h2, ok2) := SendCmd(d, h1, CMD_DISABLE_P2);
    SendCmdSays(d, h1, CMD_DISABLE_P2);
    SaysThen(h, h1, h2, if ok1 then [Out(0x64, 0xAD)] else [], if ok2 then [Out(0x64, 0xA7)] else []);
  }

  lemma SaysNothing(h: History)
    ensures Says(h, h, [])
  {
  }

  /** A reset succeeds exactly when it has been said in full and acknowledged; the second device is addressed
      first. */
  lemma ResetDeviceSays(d: Device, h: History, which: int) returns (es: History)
    ensures var (h', ok) := ResetDevice(d, h, which);
      && Says(h, h', es)
      && (ok <==> es == (if which == 1 then [Out(0x64, 0xD4)] else []) + [Out(0x64, 0xFF), In(0x60, 0xFA)])
  {
    hide Talk, Says, Continues, SendCmd, RecvData;
    var (h1, ok1) := if which == 1 then SendCmd(d, h, CMD_WRITENEXT_P2INBUF) else (h, true);
    SendCmdSays(d, h, CMD_WRITENEXT_P2INBUF);
    SaysNothing(h);
    var address := if which == 1 then [Out(0x64, 0xD4)] else [];
    es := if ok1 then address else [];
    if ok1 {
      var (h2, ok2) := SendCmd(d, h1, CMD_RST_DEVICE);
      SendCmdSays(d, h1, CMD_RST_DEVICE);
      var sent := if ok2 then [Out(0x64, 0xFF)] else [];
      SaysThen(h, h1, h2, es, sent);
      es := es + sent;
      if ok2 {
        RecvDataSays(d, h2);
        var (h3, v) := RecvData(d, h2);
        var answer := if Says(h2, h3, [In(0x60, v)]) then [In(0x60, v)] else [];
        SaysThen(h, h2, h3, es, answer);
        es := es + answer;
        assert answer != [] ==> es == address + [Out(0x64, 0xFF), In(0x60, v)] && es[|address| + 1] == In(0x60, v);
      }
    }
  }

  // ---------------------------------------------------------------- reconfiguration

  /** What successful reconfiguration says before it turns to the A20 line, for the byte c read and the byte n
      written. */
  function Reconfigured(c: bv8, n: bv8): History {
    [Out(0x64, 0x20), In(0x60, c), Out(0x64, 0x60), Out(0x60, n), Out(0x64, 0x20), In(0x60, n),
     Out(0x64, 0xAA), In(0x60, 0x55)]
  }

  /** The steps of a reconfiguration that comes to its end. */
  lemma InitialisedSteps(d: Device, h: History, s: Status)
      returns (c: bv8, n: bv8, h1: History, h2: History, h3: History)
    requires SetDefaultInit(d, h, s).2 == Initialised
    ensures c != 0xff && n != 0xff && n == ((c & 0xBC) & 0xFC) | 0x04
    ensures ReadConfig(d, h) == (h1, c) && WriteConfig(d, h1, n) == (h2, true) && DoSelfTest(d, h2) == (h3, true)
    ensures var (h4, a20) := EnableA20Line(d, h3);
      SetDefaultInit(d, h, s)
      == (h4, Status(s.dualChannel || c & 0x20 != 0, n, s.devicesInitialised, a20), Initialised)
  {
    hide ReadConfig, WriteConfig, DoSelfTest, EnableA20Line, Continues, NewConfig;
    c := ReadConfig(d, h).1;
    NewConfigIsNotError(c);
    n := NewConfig(c);
    h1 := ReadConfig(d, h).0;
    h2 := WriteConfig(d, h1, n).0;
    h3 := DoSelfTest(d, h2).0;
  }

  lemma SaysReconfigured(d: Device, h: History, h1: History, h2: History, h3: History, c: bv8, n: bv8)
    requires c != 0xff && n != 0xff
    requires ReadConfig(d, h) == (h1, c) && WriteConfig(d, h1, n) == (h2, true) && DoSelfTest(d, h2) == (h3, true)
    ensures Says(h, h3, Reconfigured(c, n))
  {
    hide Talk, ReadConfig, WriteConfig, DoSelfTest, Continues, Says;
    ReadConfigSays(d, h);
    WriteConfigSays(d, h1, n);
    SelfTestSays(d, h2);
    var a, b := [Out(0x64, 0x20), In(0x60, c)], [Out(0x64, 0x60), Out(0x60, n), Out(0x64, 0x20), In(0x60, n)];
    SaysThen(h, h1, h2, a, b);
    SaysThen(h, h2, h3, a + b, [Out(0x64, 0xAA), In(0x60, 0x55)]);
    assert a + b + [Out(0x64, 0xAA), In(0x60, 0x55)] == Reconfigured(c, n);
  }

  /** For every device: when the driver reports success it has said exactly this, with c the byte read, and
      recorded exactly that; A20 counts as enabled when both its bytes have gone out. */
  lemma DefaultInitSays(d: Device, h: History, s: Status) returns (c: bv8, n: bv8)
    requires SetDefaultInit(d, h, s).2 == Initialised
    ensures n == ((c & 0xBC) & 0xFC) | 0x04 && ReadConfig(d, h).1 == c
    ensures var (h', s', _) := SetDefaultInit(d, h, s);
      && s' == Status(s.dualChannel || c & 0x20 != 0, n, s.devicesInitialised, s'.a20Enabled)
      && if s'.a20Enabled then Says(h, h', Reconfigured(c, n) + [Out(0x64, 0xD1), Out(0x60, 0xDF)])
         else Says(h, h', Reconfigured(c, n)) || Says(h, h', Reconfigured(c, n) + [Out(0x64, 0xD1)])
  {
    hide Talk, ReadConfig, WriteConfig, DoSelfTest, EnableA20Line, Continues, Says;
    var h1, h2, h3;
    c, n, h1, h2, h3 := InitialisedSteps(d, h, s);
    hide SetDefaultInit;
    var h4 := EnableA20Line(d, h3).0;
    SaysReconfigured(d, h, h1, h2, h3, c, n);
    A20Says(d, h3);
    if Says(h3, h4, [Out(0x64, 0xD1), Out(0x60, 0xDF)]) {
      SaysThen(h, h3, h4, Reconfigured(c, n), [Out(0x64, 0xD1), Out(0x60, 0xDF)]);
    }
    if Says(h3, h4, []) {
      SaysThen(h, h3, h4, Reconfigured(c, n), []);
      assert Reconfigured(c, n) + [] == Reconfigured(c, n);
    }
    if Says(h3, h4, [Out(0x64, 0xD1)]) { SaysThen(h, h3, h4, Reconfigured(c, n), [Out(0x64, 0xD1)]); }
  }

  /** The driver's talk ends with both A20 bytes. */
  predicate EndsWithA20(t: History) {
    |t| >= 2 && t[|t| - 2] == Out(0x64, 0xD1) && t[|t| - 1] == Out(0x60, 0xDF)
  }

  /** A20 is recorded as enabled exactly when the last two things said are its command and its byte. */
  lemma A20EnabledExactly(d: Device, h: History, s: Status)
    requires SetDefaultInit(d, h, s).2 == Initialised
    ensures var (h', s', _) := SetDefaultInit(d, h, s); s'.a20Enabled <==> EndsWithA20(Talk(h'))
  {
    hide Talk, SetDefaultInit, Continues, ReadConfig;
    var c, n := DefaultInitSays(d, h, s);
  }

  /** After a failed self-test the byte read first is written back and read again, unless the driver panics. */
  lemma RestoreSays(d: Device, h: History, s: Status)
    requires ReadConfig(d, h).1 != 0xff
    requires var (h1, initial) := ReadConfig(d, h);
      var (h2, written) := WriteConfig(d, h1, NewConfig(initial));
      written && !DoSelfTest(d, h2).1
    ensures var c, (h', s', outcome) := ReadConfig(d, h).1, SetDefaultInit(d, h, s);
      && s' == s && (outcome == Faulty || outcome == Panic)
      && (outcome == Faulty ==>
            var t := Talk(h');
            |t| >= 4 && t[|t| - 4..] == [Out(0x64, 0x60), Out(0x60, c), Out(0x64, 0x20), In(0x60, c)])
  {
    hide Talk, ReadConfig, WriteConfig, DoSelfTest, EnableA20Line, Continues, NewConfig;
    var (h1, c) := ReadConfig(d, h);
    var h3 := DoSelfTest(d, WriteConfig(d, h1, NewConfig(c)).0).0;
    WriteConfigSays(d, h3, c);
  }

  // ---------------------------------------------------------------- a working controller

  /** A working controller answers at once. */
  lemma CooperativeAnswer(d: Device, c: bv8, h: History, cmd: bv8)
    requires Cooperative(d, c)
    ensures var (h1, ok) := SendCmd(d, h, cmd);
      var (h2, v) := RecvData(d, h1);
      Says(h, h2, [Out(0x64, cmd), In(0x60, v)])
  {
    hide Talk, CtrlRdy, Cooperative, Continues;
    ReadyAtOnce(d, c, h, 0);
    SendCmdSays(d, h, cmd);
    var h1 := SendCmd(d, h, cmd).0;
    ReadyAtOnce(d, c, h1, STAT_OUT_BUF);
    PollingIsSilent(d, h1, STAT_OUT_BUF, TURNS);
    var h2 := CtrlRdy(d, h1, STAT_OUT_BUF, TURNS).0;
    TalkAppend(h2, In(DATA, d.reply(h2, DATA)));
    SaysThen(h, h1, RecvData(d, h1).0, [Out(0x64, cmd)], [In(0x60, RecvData(d, h1).1)]);
  }

  lemma CooperativeReadSays(d: Device, c: bv8, h: History)
    requires Cooperative(d, c) && AnswersConfig(d, c)
    ensures var v := After(d, c, h).config;
      ReadConfig(d, h).1 == v && Says(h, ReadConfig(d, h).0, [Out(0x64, 0x20), In(0x60, v)])
  {
    CooperativeRead(d, c, h);
    CooperativeCommand(d, c, h, CMD_READ_CONFIG);
    CooperativeAnswer(d, c, h, CMD_READ_CONFIG);
    hide Talk, Cooperative, AnswersConfig, Continues, After, SendCmd, RecvData;
  }

  lemma CooperativeDataSays(d: Device, c: bv8, h: History, v: bv8)
    requires Cooperative(d, c)
    ensures SendData(d, h, v).1 && Says(h, SendData(d, h, v).0, [Out(0x60, v)])
  {
    hide Talk, CtrlRdy, Cooperative, Continues;
    ReadyAtOnce(d, c, h, 0);
    SendDataSays(d, h, v);
  }

  lemma CooperativeSendSays(d: Device, c: bv8, h: History, cmd: bv8)
    requires Cooperative(d, c)
    ensures SendCmd(d, h, cmd).1 && Says(h, SendCmd(d, h, cmd).0, [Out(0x64, cmd)])
    ensures After(d, c, SendCmd(d, h, cmd).0).config == After(d, c, h).config
  {
    hide Talk, CtrlRdy, Cooperative, Continues, After, SendCmd;
    CooperativeCommand(d, c, h, cmd);
    SendCmdSays(d, h, cmd);
  }

  lemma CooperativeWriteSays(d: Device, c: bv8, h: History, config: bv8)
    requires Cooperative(d, c) && AnswersConfig(d, c)
    ensures var h' := WriteConfig(d, h, config).0;
      && After(d, c, h').config == config
      && Says(h, h', [Out(0x64, 0x60), Out(0x60, config), Out(0x64, 0x20), In(0x60, config)])
  {
    CooperativeStores(d, c, h, config);
    CooperativeSendSays(d, c, h, CMD_WRITE_CONFIG);
    var h1 := SendCmd(d, h, CMD_WRITE_CONFIG).0;
    CooperativeDataSays(d, c, h1, config);
    var h2 := SendData(d, h1, config).0;
    CooperativeReadSays(d, c, h2);
    ReadConfigRegister(d, c, h2);
    hide Talk, Says, Cooperative, AnswersConfig, Continues, After, SendCmd, SendData, ReadConfig;
    var h3 := ReadConfig(d, h2).0;
    assert WriteConfig(d, h, config).0 == h3;
    SaysThen(h, h1, h2, [Out(0x64, 0x60)], [Out(0x60, config)]);
    SaysThen(h, h2, h3, [Out(0x64, 0x60)] + [Out(0x60, config)], [Out(0x64, 0x20), In(0x60, config)]);
    assert [Out(0x64, 0x60)] + [Out(0x60, config)] + [Out(0x64, 0x20), In(0x60, config)]
        == [Out(0x64, 0x60), Out(0x60, config), Out(0x64, 0x20), In(0x60, config)];
  }

  lemma CooperativeA20(d: Device, c: bv8, h: History)
    requires Cooperative(d, c)
    ensures EnableA20Line(d, h).1
  {
    hide Talk, Cooperative, Continues, SendCmd, SendData;
    CooperativeSendSays(d, c, h, CMD_WRITENEXT_CTL_OUT);
    CooperativeDataSays(d, c, SendCmd(d, h, CMD_WRITENEXT_CTL_OUT).0, CMD_ENABLE_A20);
  }

  /** On a working controller the whole reconfiguration is said, A20 included, for its own byte. */
  lemma WorkingControllerHears(d: Device, c: bv8, h: History, s: Status)
    requires Cooperative(d, c) && AnswersConfig(d, c) && After(d, c, h).config != 0xff
    ensures var b, (h', s', outcome) := After(d, c, h).config, SetDefaultInit(d, h, s);
      var n := ((b & 0xBC) & 0xFC) | 0x04;
      && outcome == Initialised && s' == Status(s.dualChannel || b & 0x20 != 0, n, s.devicesInitialised, true)
      && Says(h, h', [Out(0x64, 0x20), In(0x60, b), Out(0x64, 0x60), Out(0x60, n), Out(0x64, 0x20), In(0x60, n),
                      Out(0x64, 0xAA), In(0x60, 0x55), Out(0x64, 0xD1), Out(0x60, 0xDF)])
  {
    hide Talk, Says, Cooperative, AnswersConfig, Continues, After, ReadConfig, WriteConfig, DoSelfTest, EnableA20Line,
      SetDefaultInit;
    WorkingControllerIsInitialised(d, c, h, s);
    CooperativeReadSays(d, c, h);
    var b, n, h1, h2, h3 := InitialisedSteps(d, h, s);
    CooperativeA20(d, c, h3);
    var h4 := EnableA20Line(d, h3).0;
    SaysReconfigured(d, h, h1, h2, h3, b, n);
    A20Says(d, h3);
    SaysThen(h, h3, h4, Reconfigured(b, n), [Out(0x64, 0xD1), Out(0x60, 0xDF)]);
    assert Reconfigured(b, n) + [Out(0x64, 0xD1), Out(0x60, 0xDF)]
        == [Out(0x64, 0x20), In(0x60, b), Out(0x64, 0x60), Out(0x60, n), Out(0x64, 0x20), In(0x60, n),
            Out(0x64, 0xAA), In(0x60, 0x55), Out(0x64, 0xD1), Out(0x60, 0xDF)];
  }

  // ---------------------------------------------------------------- enabling the devices

  lemma {:induction false} TalkGrows(h: History, h': History)
    requires h <= h'
    ensures Talk(h) <= Talk(h')
    decreases |h'|
  {
    if h == h' {
    } else {
      var before := h'[..|h'| - 1];
      assert h <= before;
      TalkGrows(h, before);
    }
  }

  /** What follows what has been said already. */
  lemma SaysMore(h: History, h1: History, h2: History, es: History) returns (fs: History)
    requires Says(h, h1, es) && h1 <= h2
    ensures Says(h1, h2, fs) && Says(h, h2, es + fs)
  {
    TalkGrows(h1, h2);
    fs := Talk(h2)[|Talk(h1)|..];
    SaysThen(h, h1, h2, es, fs);
  }

  lemma SecondCounts(d: Device, h: History)
    ensures EnableSecond(d, h).1 in {1, 2}
  {
    hide SendCmd, TestDevice, ReadConfig, WriteConfig, Continues;
  }

  lemma EnableStatus(d: Device, h: History, s: Status)
    ensures var (h', s', count) := EnableDevices(d, h, s);
      count <= 2 && s' == s.(devicesInitialised := s.devicesInitialised + (if 1 <= count then 1 else 0))
  {
    hide SendCmd, TestDevice, ReadConfig, WriteConfig, EnableSecond, Continues;
    SecondCounts(d, WriteConfig(d, ReadConfig(d, FirstTested(d, h)).0,
                                WithBit(ReadConfig(d, FirstTested(d, h)).1, CTL_P1_IE)).0);
  }

  lemma FirstEnabledGrows(d: Device, h: History)
    ensures FirstTested(d, h) <= FirstEnabled(d, h)
  {
    hide SendCmd, TestDevice, ReadConfig, WriteConfig;
  }

  lemma SecondGrows(d: Device, h: History)
    ensures var (h1, conf) := ReadConfig(d, SendCmd(d, h, CMD_ENABLE_P2).0);
      h <= WriteConfig(d, h1, WithBit(conf, CTL_P2_IE)).0
  {
    hide SendCmd, ReadConfig, WriteConfig;
  }

  lemma SecondSays(d: Device, h: History) returns (fs: History)
    ensures var (h', count) := EnableSecond(d, h);
      Says(h, h', fs) && (count == 2 ==> |fs| >= 2 && fs[|fs| - 2..] == [Out(0x64, 0xA9), In(0x60, 0)])
  {
    var (h', count) := EnableSecond(d, h);
    SaysNothing(h);
    if count == 2 {
      EnableSecondCases(d, h);
      hide Talk, SendCmd, TestDevice, ReadConfig, WriteConfig, EnableSecond, Says;
      var (h1, conf) := ReadConfig(d, SendCmd(d, h, CMD_ENABLE_P2).0);
      var h2 := WriteConfig(d, h1, WithBit(conf, CTL_P2_IE)).0;
      SecondGrows(d, h);
      var before := SaysMore(h, h, h2, []);
      TestDeviceSays(d, h2, CMD_TEST_P2);
      SaysThen(h, h2, h', before, [Out(0x64, 0xA9), In(0x60, 0)]);
      fs := before + [Out(0x64, 0xA9), In(0x60, 0)];
    } else {
      hide EnableSecond, Says;
      fs := SaysMore(h, h, h', []);
    }
  }

  /** For every device: a first device is counted only after its port is enabled and has passed its test, a second
      one only when enabling ends with its own test passed; the status counts one initialisation. */
  lemma EnableDevicesSays(d: Device, h: History, s: Status) returns (rest: History)
    ensures var (h', s', count) := EnableDevices(d, h, s);
      && count <= 2
      && s' == s.(devicesInitialised := s.devicesInitialised + (if 1 <= count then 1 else 0))
      && (1 <= count ==> Says(h, h', [Out(0x64, 0xAE), Out(0x64, 0xAB), In(0x60, 0)] + rest))
      && (count == 2 ==> s.dualChannel && |rest| >= 2 && rest[|rest| - 2..] == [Out(0x64, 0xA9), In(0x60, 0)])
  {
    EnableDevicesCases(d, h, s);
    EnableStatus(d, h, s);
    hide Talk, Says, SendCmd, TestDevice, FirstEnabled, EnableDevices, EnableSecond;
    var (h1, ok) := SendCmd(d, h, CMD_ENABLE_P1);
    SendCmdSays(d, h, CMD_ENABLE_P1);
    TestDeviceSays(d, h1, CMD_TEST_P1);
    var (h2, v) := TestDevice(d, h1, CMD_TEST_P1);
    rest := [];
    if ok && v == 0 {
      var first := [Out(0x64, 0xAE)] + [Out(0x64, 0xAB), In(0x60, 0)];
      SaysThen(h, h1, h2, [Out(0x64, 0xAE)], [Out(0x64, 0xAB), In(0x60, 0)]);
      assert first == [Out(0x64, 0xAE), Out(0x64, 0xAB), In(0x60, 0)];
      FirstEnabledGrows(d, h);
      rest := SaysMore(h, h2, FirstEnabled(d, h), first);
      if s.dualChannel {
        var fs := SecondSays(d, FirstEnabled(d, h));
        SaysThen(h, FirstEnabled(d, h), EnableSecond(d, FirstEnabled(d, h)).0, first + rest, fs);
        rest := rest + fs;
        assert first + rest == first + (rest[..|rest| - |fs|]) + fs;
      }
    }
  }

  /** What setting a bit of the configuration says, for the byte b read and the byte n written. */
  function BitSaid(b: bv8, n: bv8): History {
    [Out(0x64, 0x20), In(0x60, b), Out(0x64, 0x60), Out(0x60, n), Out(0x64, 0x20), In(0x60, n)]
  }

  lemma CooperativeBitSays(d: Device, c: bv8, h: History, bit: bv8)
    requires Cooperative(d, c) && AnswersConfig(d, c)
    ensures var b, (h1, conf) := After(d, c, h).config, ReadConfig(d, h);
      var n, h2 := WithBit(b, bit), WriteConfig(d, h1, WithBit(conf, bit)).0;
      After(d, c, h2).config == n && Says(h, h2, BitSaid(b, n))
  {
    hide Talk, Says, Cooperative, AnswersConfig, Continues, After, ReadConfig, WriteConfig, WithBit;
    CooperativeReadSays(d, c, h);
    var b, h1 := After(d, c, h).config, ReadConfig(d, h).0;
    var n := WithBit(b, bit);
    CooperativeWriteSays(d, c, h1, n);
    SaysThen(h, h1, WriteConfig(d, h1, n).0, [Out(0x64, 0x20), In(0x60, b)],
             [Out(0x64, 0x60), Out(0x60, n), Out(0x64, 0x20), In(0x60, n)]);
    assert [Out(0x64, 0x20), In(0x60, b)] + [Out(0x64, 0x60), Out(0x60, n), Out(0x64, 0x20), In(0x60, n)]
        == BitSaid(b, n);
  }

  lemma CooperativeTestSays(d: Device, c: bv8, h: History, cmd: bv8)
    requires Cooperative(d, c) && AnswersConfig(d, c) && PassesPortTests(d, c) && cmd in {CMD_TEST_P1, CMD_TEST_P2}
    ensures var (h', v) := TestDevice(d, h, cmd);
      v == 0 && Says(h, h', [Out(0x64, cmd), In(0x60, 0)]) && After(d, c, h').config == After(d, c, h).config
  {
    CooperativeTest(d, c, h, cmd);
    TestDeviceSays(d, h, cmd);
    TestDeviceRegister(d, c, h, cmd);
  }

  /** What enabling each port says. */
  function FirstSaid(b: bv8, n: bv8): History {
    [Out(0x64, 0xAE), Out(0x64, 0xAB), In(0x60, 0)] + BitSaid(b, n)
  }

  function SecondSaid(b: bv8, n: bv8): History {
    [Out(0x64, 0xA8)] + BitSaid(b, n) + [Out(0x64, 0xA9), In(0x60, 0)]
  }

  lemma CooperativeFirstSays(d: Device, c: bv8, h: History)
    requires Cooperative(d, c) && AnswersConfig(d, c) && PassesPortTests(d, c)
    ensures var b := After(d, c, h).config;
      var n := WithBit(b, CTL_P1_IE);
      Says(h, FirstEnabled(d, h), FirstSaid(b, n)) && After(d, c, FirstEnabled(d, h)).config == n
  {
    hide Talk, Says, Cooperative, AnswersConfig, PassesPortTests, Continues, After, SendCmd, TestDevice, ReadConfig,
      WriteConfig, WithBit, BitSaid;
    var b, h1 := After(d, c, h).config, SendCmd(d, h, CMD_ENABLE_P1).0;
    CooperativeSendSays(d, c, h, CMD_ENABLE_P1);
    CooperativeTestSays(d, c, h1, CMD_TEST_P1);
    var h2 := FirstTested(d, h);
    CooperativeBitSays(d, c, h2, CTL_P1_IE);
    var x, y := [Out(0x64, 0xAE)], [Out(0x64, 0xAB), In(0x60, 0)];
    SaysThen(h, h1, h2, x, y);
    SaysThen(h, h2, FirstEnabled(d, h), x + y, BitSaid(b, WithBit(b, CTL_P1_IE)));
    assert x + y == [Out(0x64, 0xAE), Out(0x64, 0xAB), In(0x60, 0)];
  }

  lemma CooperativeSecondSays(d: Device, c: bv8, h: History)
    requires Cooperative(d, c) && AnswersConfig(d, c) && PassesPortTests(d, c)
    ensures var b := After(d, c, h).config;
      Says(h, EnableSecond(d, h).0, SecondSaid(b, WithBit(b, CTL_P2_IE))) && EnableSecond(d, h).1 == 2
  {
    var b, h1 := After(d, c, h).config, SendCmd(d, h, CMD_ENABLE_P2).0;
    CooperativeSendSays(d, c, h, CMD_ENABLE_P2);
    EnableSecondCases(d, h);
    CooperativeBitSays(d, c, h1, CTL_P2_IE);
    var (h2, conf) := ReadConfig(d, h1);
    var h3 := WriteConfig(d, h2, WithBit(conf, CTL_P2_IE)).0;
    CooperativeTestSays(d, c, h3, CMD_TEST_P2);
    hide Talk, Says, Cooperative, AnswersConfig, PassesPortTests, Continues, After, SendCmd, TestDevice, ReadConfig,
      WriteConfig, EnableSecond, WithBit, BitSaid;
    var x, y := [Out(0x64, 0xA8)], BitSaid(b, WithBit(b, CTL_P2_IE));
    SaysThen(h, h1, h3, x, y);
    SaysThen(h, h3, EnableSecond(d, h).0, x + y, [Out(0x64, 0xA9), In(0x60, 0)]);
  }

  lemma BitsByNumber(b: bv8)
    ensures WithBit(b, CTL_P1_IE) == b | 0x01 && WithBit(b, CTL_P2_IE) == b | 0x02
  {
  }

  /** On a working controller with configuration byte b the devices are enabled in these words: n1 is b with
      the first interrupt bit, n2 is n1 with the second. */
  lemma WorkingControllerHearsEnabling(d: Device, c: bv8, h: History, s: Status) returns (n1: bv8, n2: bv8)
    requires Cooperative(d, c) && AnswersConfig(d, c) && PassesPortTests(d, c)
    ensures n1 == After(d, c, h).config | 0x01 && n2 == n1 | 0x02
    ensures var b, (h', s', count) := After(d, c, h).config, EnableDevices(d, h, s);
      && count == (if s.dualChannel then 2 else 1)
      && s' == s.(devicesInitialised := s.devicesInitialised + 1)
      && Says(h, h', if s.dualChannel then FirstSaid(b, n1) + SecondSaid(n1, n2) else FirstSaid(b, n1))
  {
    hide Talk, Says, Cooperative, AnswersConfig, PassesPortTests, Continues, After, SendCmd, TestDevice, FirstEnabled,
      EnableDevices, EnableSecond, FirstSaid, SecondSaid, WithBit;
    EnableDevicesCases(d, h, s);
    EnableStatus(d, h, s);
    CooperativeFirst(d, c, h);
    CooperativeFirstSays(d, c, h);
    var b, h1 := After(d, c, h).config, FirstEnabled(d, h);
    CooperativeSecondSays(d, c, h1);
    n1 := WithBit(b, CTL_P1_IE);
    n2 := WithBit(n1, CTL_P2_IE);
    BitsByNumber(b);
    BitsByNumber(n1);
    if s.dualChannel { SaysThen(h, h1, EnableSecond(d, h1).0, FirstSaid(b, n1), SecondSaid(n1, n2)); }
  }
}
