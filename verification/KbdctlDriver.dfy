/**
 The 8042 driver in place: it reads and writes ports and keeps its status in fields.  Every method
 makes exactly the port accesses of the function it is specified by.
 */
module KbdctlDriver {
  import opened K = Kbdctl

  class Driver {
    const device: Device
    var history: History
    var status: Status

    constructor (device: Device)
      ensures this.device == device && history == [] && status == Status(false, 0, 0, false)
    {
      this.device := device;
      history := [];
      status := Status(false, 0, 0, false);
    }

    method Inb(port: nat) returns (v: bv8)
      modifies this`history
      ensures (history, v) == K.Inb(device, old(history), port)
    {
      v := device.reply(history, port);
      history := history + [In(port, v)];
    }

    method Outb(v: bv8, port: nat)
      modifies this`history
      ensures history == old(history) + [Out(port, v)]
    {
      history := history + [Out(port, v)];
    }

    method CtrlRdy(waitfor: bv8) returns (ok: bool)
      modifies this`history
      ensures (history, ok) == K.CtrlRdy(device, old(history), waitfor, TURNS)
    {
      var mask := STAT_IN_BUF;
      if waitfor != 0 {
        mask := waitfor;
      }
      for i := 0 to TURNS
        invariant K.CtrlRdy(device, history, waitfor, TURNS - i) == K.CtrlRdy(device, old(history), waitfor, TURNS)
      {
        var v := Inb(STAT);
        if v & mask == waitfor {
          return true;
        }
      }
      return false;
    }

    method SendCmd(v: bv8) returns (ok: bool)
      modifies this`history
      ensures (history, ok) == K.SendCmd(device, old(history), v)
    {
      hide K.CtrlRdy;
      var ready := CtrlRdy(0);
      if !ready {
        return false;
      }
      Outb(v, CMD);
      return true;
    }

    method RecvDataPoll() returns (v: bv8)
      modifies this`history
      ensures (history, v) == K.RecvData(device, old(history))
    {
      hide K.CtrlRdy;
      var ready := CtrlRdy(STAT_OUT_BUF);
      if !ready {
        return 0xff;
      }
      v := Inb(DATA);
    }

    method SendDataPoll(v: bv8) returns (ok: bool)
      modifies this`history
      ensures (history, ok) == K.SendData(device, old(history), v)
    {
      hide K.CtrlRdy;
      var ready := CtrlRdy(0);
      if !ready {
        return false;
      }
      Outb(v, DATA);
      return true;
    }

    method DisablePorts() returns (ret: nat)
      modifies this`history
      ensures (history, ret) == K.DisablePorts(device, old(history))
    {
      hide K.SendCmd;
      ret := 0;
      var ok := SendCmd(CMD_DISABLE_P1);
      if !ok {
        ret := ret + 1;
      }
      ok := SendCmd(CMD_DISABLE_P2);
      if !ok {
        ret := ret + 2;
      }
    }

    method ReadConfig() returns (v: bv8)
      modifies this`history
      ensures (history, v) == K.ReadConfig(device, old(history))
    {
      hide K.SendCmd, K.RecvData;
      var ok := SendCmd(CMD_READ_CONFIG);
      if !ok {
        return 0xff;
      }
      v := RecvDataPoll();
    }

    method WriteConfig(config: bv8) returns (ok: bool)
      modifies this`history
      ensures (history, ok) == K.WriteConfig(device, old(history), config)
    {
      hide K.SendCmd, K.SendData, K.ReadConfig;
      ok := SendCmd(CMD_WRITE_CONFIG);
      if !ok {
        return false;
      }
      ok := SendDataPoll(config);
      if !ok {
        return false;
      }
      var t := ReadConfig();
      return t == config;
    }

    method ResetDevice(which: int) returns (ok: bool)
      modifies this`history
      ensures (history, ok) == K.ResetDevice(device, old(history), which)
    {
      hide K.SendCmd, K.RecvData;
      if which == 1 {
        ok := SendCmd(CMD_WRITENEXT_P2INBUF);
        if !ok {
          return false;
        }
      }
      ok := SendCmd(CMD_RST_DEVICE);
      if !ok {
        return false;
      }
      var v := RecvDataPoll();
      return v == STAT_ACK;
    }

    method EnableA20Line() returns (ok: bool)
      modifies this`history
      ensures (history, ok) == K.EnableA20Line(device, old(history))
    {
      hide K.SendCmd, K.SendData;
      ok := SendCmd(CMD_WRITENEXT_CTL_OUT);
      if !ok {
        return false;
      }
      ok := SendDataPoll(CMD_ENABLE_A20);
    }

    method DoSelfTest() returns (ok: bool)
      modifies this`history
      ensures (history, ok) == K.DoSelfTest(device, old(history))
    {
      hide K.SendCmd, K.RecvData;
      ok := SendCmd(CMD_TEST_CTL);
      if !ok {
        return false;
      }
      var v := RecvDataPoll();
      return v == SELFTEST_SUCCESS;
    }

    method TestDevice(cmd: bv8) returns (v: bv8)
      modifies this`history
      ensures (history, v) == K.TestDevice(device, old(history), cmd)
    {
      hide K.SendCmd, K.RecvData;
      var ok := SendCmd(cmd);
      if !ok {
        return 0xff;
      }
      v := RecvDataPoll();
    }

    method SetDefaultInit() returns (outcome: Outcome)
      modifies this`history, this`status
      ensures (history, status, outcome) == K.SetDefaultInit(device, old(history), old(status))
    {
      hide K.ReadConfig, K.WriteConfig, K.DoSelfTest, K.EnableA20Line;
      var initial := ReadConfig();
      if initial == 0xff {
        return Unknown;
      }
      var config := initial & DEFAULT_CONFIG_MASK;
      config := config & !(CTL_P1_IE | CTL_P2_IE);
      config := config | (1 << 2);
      var ok := WriteConfig(config);
      if !ok {
        return Faulty;
      }
      ok := DoSelfTest();
      if !ok {
        ok := WriteConfig(initial);
        return if ok then Faulty else Panic;
      }
      if initial & CTL_PS2_CLKE != 0 {
        status := status.(dualChannel := true);
      }
      var a20 := EnableA20Line();
      status := status.(a20Enabled := a20, currentConfiguration := config);
      return Initialised;
    }

    method EnableSecond() returns (count: nat)
      modifies this`history
      ensures (history, count) == K.EnableSecond(device, old(history))
    {
      hide K.SendCmd, K.TestDevice, K.ReadConfig, K.WriteConfig, Continues;
      var ok := SendCmd(CMD_ENABLE_P2);
      if ok {
        var conf := ReadConfig();
        var _ := WriteConfig(conf | CTL_P2_IE);
        var result := TestDevice(CMD_TEST_P2);
        if result == 0 {
          return 2;
        }
      }
      return 1;
    }

    method EnableDevices() returns (count: nat)
      modifies this`history, this`status
      ensures (history, status, count) == K.EnableDevices(device, old(history), old(status))
    {
      hide K.SendCmd, K.TestDevice, K.ReadConfig, K.WriteConfig, K.EnableSecond, Continues;
      var ok := SendCmd(CMD_ENABLE_P1);
      if !ok {
        return 0;
      }
      var result := TestDevice(CMD_TEST_P1);
      if result != 0 {
        return 0;
      }
      var conf := ReadConfig();
      var _ := WriteConfig(conf | CTL_P1_IE);
      status := status.(devicesInitialised := status.devicesInitialised + 1);
      if status.dualChannel {
        count := EnableSecond();
      } else {
        count := 1;
      }
    }
  }
}
