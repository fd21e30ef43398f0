/** The library object itself: the session fields that its methods update
    in place and the serial port they drive byte by byte. Every method is
    proved to do what the line-level function of the same operation in
    `Transport`, `Session` or `Phonebook` says, so the properties proved
    there hold of it. */
module Card {
  import opened Wrappers
  import opened Hex
  import opened Commands
  import opened Transport
  import opened Padding
  import opened Session
  import opened Records
  import opened Messages
  import opened Phonebook

  class SimCard {
    const debug: bool
    const port: SerialPort

    var state: bool
    var chv1Enabled: int
    var chv1TriesLeft: int
    var chv1: string
    var chv2Enabled: int
    var chv2TriesLeft: int
    var chv2: string
    var fdnAvailable: int

    /** The session fields as one value. */
    function Snapshot(): Fields
      reads this
    {
      Fields(state, chv1Enabled, chv1TriesLeft, chv1, chv2Enabled, chv2TriesLeft, chv2, fdnAvailable)
    }

    /** `pySIMlib(dbg)`, with the port it will talk to already open. */
    constructor (dbg: bool, line: SerialPort)
      ensures debug == dbg && port == line && Snapshot() == Initial
    {
      debug := dbg;
      port := line;
      state := false;
      chv1Enabled := 0;
      chv1TriesLeft := 0;
      chv1 := "";
      chv2Enabled := 0;
      chv2TriesLeft := 0;
      chv2 := "";
      fdnAvailable := 0;
    }

    // -------------------------------------------------------------------
    // `sendAPDU`

    /** Writes the `count` bytes at pairs `from`, `from + 1`, ... of the
        command, reading one echo after each. */
    method WritePairs(cmd: string, from: nat, count: nat) returns (r: Result<seq<Byte>>)
      modifies port
      ensures Outcome(r, port.State()) == SendPairs(cmd, from, count, old(port.State()))
    {
      var sent: seq<Byte> := [];
      var i: nat := 0;
      PrependedNothing(SendPairs(cmd, from, count, port.State()));
      while i < count
        invariant i <= count
        invariant SendPairs(cmd, from, count, old(port.State())) == Prepended(sent, SendPairs(cmd, from + i, count - i, port.State()))
      {
        var s := PairAt(cmd, from + i);
        if s.Err? {
          return Err(s.fault);
        }
        ghost var before := port.State();
        port.Write(s.value);
        var _ := port.Read();
        assert SendPairs(cmd, from + i, count - i, before) == Prepended([s.value], SendPairs(cmd, from + i + 1, count - i - 1, port.State()));
        PrependedTwice(sent, [s.value], SendPairs(cmd, from + i + 1, count - i - 1, port.State()));
        sent := sent + [s.value];
        i := i + 1;
      }
      assert sent + [] == sent;
      return Ok(sent);
    }

    /** Reads procedure bytes until the INS byte (true) or a byte other
        than NULL (false). */
    method PollProcedure(ins: Byte) returns (r: Result<bool>)
      modifies port
      ensures Outcome(r, port.State()) == AwaitProcedure(ins, old(port.State()))
    {
      while true
        invariant AwaitProcedure(ins, old(port.State())) == AwaitProcedure(ins, port.State())
        decreases |port.input|
      {
        var rep := port.Read();
        if rep.None? {
          return Err(ReadTimeout);
        }
        if rep.value == ins {
          return Ok(true);
        }
        if rep.value != 0x60 {
          return Ok(false);
        }
      }
    }

    /** Reads `n` data bytes and returns them as `"%02X"` text. */
    method ReadData(n: nat) returns (r: Result<string>)
      modifies port
      ensures var o := ReceiveBytes(n, old(port.State()));
        port.State() == o.wire &&
        r == if o.result.Ok? then Ok(HexUpper(o.result.value)) else Err(o.result.fault)
    {
      var data: string := "";
      ghost var got: seq<Byte> := [];
      var i: nat := 0;
      PrependedNothing(ReceiveBytes(n, port.State()));
      while i < n
        invariant i <= n && data == HexUpper(got)
        invariant ReceiveBytes(n, old(port.State())) == Prepended(got, ReceiveBytes(n - i, port.State()))
      {
        ghost var before := port.State();
        var x := port.Read();
        if x.None? {
          return Err(ReadTimeout);
        }
        assert ReceiveBytes(n - i, before) == Prepended([x.value], ReceiveBytes(n - i - 1, port.State()));
        PrependedTwice(got, [x.value], ReceiveBytes(n - i - 1, port.State()));
        var hexed := UpperHex(x.value);
        HexUpperSnoc(got, x.value);
        data := data + [hexed[0]] + [hexed[1]];
        got := got + [x.value];
        i := i + 1;
      }
      assert got + [] == got;
      return Ok(data);
    }

    /** Reads SW1, skipping NULL bytes, then SW2. */
    method PollStatus() returns (r: Result<(Byte, Byte)>)
      modifies port
      ensures Outcome(r, port.State()) == AwaitStatus(old(port.State()))
    {
      var sw1: Option<Byte>;
      while true
        invariant AwaitStatus(old(port.State())) == AwaitStatus(port.State())
        decreases |port.input|
      {
        sw1 := port.Read();
        if sw1.None? {
          return Err(ReadTimeout);
        }
        if sw1.value != 0x60 {
          break;
        }
      }
      var sw2 := port.Read();
      if sw2.None? {
        return Err(ReadTimeout);
      }
      return Ok((sw1.value, sw2.value));
    }

    /** `sendAPDU(command, checkSW, refSW)`. */
    method SendApdu(command: string, checkSw: bool, refSw: string) returns (r: Result<Reply>)
      modifies port
      ensures Outcome(r, port.State()) == Exchange(command, checkSw, refSw, old(port.State()))
    {
      var h := WritePairs(command, 0, 5);
      if h.Err? {
        return Err(h.fault);
      }
      ghost var afterHeader := port.State();
      var go := PollProcedure(h.value[1]);
      if go.Err? {
        return Err(go.fault);
      }
      if !go.value {
        return Ok(Reply("", ""));
      }
      ghost var afterProcedure := port.State();
      var data: string := "";
      if |command| == 10 {
        var d := ReadData(h.value[4]);
        if d.Err? {
          return Err(d.fault);
        }
        data := d.value;
      } else {
        var s := WritePairs(command, 5, h.value[4]);
        if s.Err? {
          return Err(s.fault);
        }
      }
      assert DataPhase(command, h.value[4], afterProcedure) == Outcome(Ok(data), port.State());
      var sw := PollStatus();
      if sw.Err? {
        return Err(sw.fault);
      }
      var text := StatusText(sw.value.0, sw.value.1);
      if checkSw && text != refSw {
        return Err(StatusWordMismatch);
      }
      return Ok(Reply(data, text));
    }

    /** A command builder such as `_SELECT(fileId)`. */
    method Send(c: Command) returns (r: Result<Reply>)
      modifies port
      ensures Outcome(r, port.State()) == Transmit(c, old(port.State()))
    {
      r := SendApdu(Apdu(c), false, "");
    }

    // -------------------------------------------------------------------
    // `setFile` and `checkCHV`

    /** `setFile(dirList)`: one SELECT per file; only an exception stops. */
    method SetFile(files: seq<string>) returns (r: Result<()>)
      modifies port
      ensures Outcome(r, port.State()) == SetFileRun(files, old(port.State()))
    {
      var i := 0;
      while i < |files|
        invariant i <= |files|
        invariant SetFileRun(files, old(port.State())) == SetFileRun(files[i..], port.State())
      {
        var o := Send(Select(files[i]));
        if o.Err? {
          return Err(o.fault);
        }
        assert files[i..][1..] == files[i + 1..];
        i := i + 1;
      }
      return Ok(());
    }

    /** `checkCHV()`: the CHV fields from the STATUS response and the FDN
        probe; an exception anywhere ends it with the fields set so far. */
    method CheckChv()
      modifies this, port
      ensures (Snapshot(), port.State()) == CheckChvRun(old(Snapshot()), old(port.State()))
    {
      var m := SetFile([Mf]);
      if m.Err? {
        return;
      }
      var a := Send(Status("0D"));
      if a.Err? {
        return;
      }
      var l := StatusLength(a.value.data);
      if l.Err? {
        return;
      }
      ReadChv(l.value);
    }

    /** The second STATUS of `checkCHV`, of `l` bytes, and what follows. */
    method ReadChv(l: nat)
      modifies this, port
      ensures (Snapshot(), port.State()) == ReadChvStatus(old(Snapshot()), l, old(port.State()))
    {
      var b := Send(Status(Format02(l, false)));
      if b.Err? {
        return;
      }
      var s := Unhexlify(b.value.data);
      if s.None? {
        return;
      }
      var complete := SetChvFields(s.value);
      if complete {
        ProbeFdnFile();
      }
    }

    /** The CHV fields from the STATUS bytes `s`, up to the IndexError of
        a short reply; `complete` is false when that error occurs. */
    method SetChvFields(s: seq<Byte>) returns (complete: bool)
      modifies this
      ensures (Snapshot(), complete) == ChvFromStatus(old(Snapshot()), s)
    {
      chv1Enabled := 1;
      if |s| <= 13 {
        return false;
      }
      if HasBit(s[13], 7) {
        chv1Enabled := 0;
      }
      if |s| <= 18 {
        return false;
      }
      chv1TriesLeft := s[18] % 16;
      if |s| >= 22 {
        chv2Enabled := 1;
        chv2TriesLeft := s[20] % 16;
      }
      return true;
    }

    /** "See if the FDN file exists". */
    method ProbeFdnFile()
      modifies this, port
      ensures (Snapshot(), port.State()) == ProbeFdn(old(Snapshot()), old(port.State()))
    {
      var p := SetFile([Mf, DfTelecom, EfFdn]);
      if p.Ok? {
        fdnAvailable := 1;
      }
    }

    // -------------------------------------------------------------------
    // `openSession`

    /** A `read()` whose value only a debug print looks at. */
    method ReadPrinted(printed: bool) returns (r: Result<()>)
      modifies port
      ensures Outcome(r, port.State()) == Peek(printed, old(port.State()))
    {
      var x := port.Read();
      if printed && x.None? {
        return Err(ReadTimeout);
      }
      return Ok(());
    }

    /** The ATR loop of `openSession`, then `checkCHV`: 3 for a bad TS, 0
        once the session is open. */
    method OpenSession() returns (r: Result<int>)
      modifies this, port
      ensures Run(r, Snapshot(), port.State()) == OpenSessionRun(debug, old(Snapshot()), old(port.State()))
    {
      var ts := port.Read();
      if ts.None? {
        return Err(ReadTimeout);
      }
      if ts.value != 0x3B {
        return Ok(3);
      }
      ghost var w1 := port.State();
      var t: Option<Byte> := Some(0x3B);
      while t == Some(0x3B)
        modifies port
        invariant t == Some(0x3B) ==> SkipTs(w1) == SkipTs(port.State())
        invariant t != Some(0x3B) ==>
          SkipTs(w1) == Outcome(if t.None? then Err(ReadTimeout) else Ok(t.value), port.State())
        decreases |port.input| + (if t == Some(0x3B) then 1 else 0)
      {
        t := port.Read();
      }
      if t.None? {
        return Err(ReadTimeout);
      }
      var t0 := t.value;
      var rest := InterfaceAndHistorical(t0);
      if rest.Err? {
        return Err(rest.fault);
      }
      Drain();
      ghost var atr := port.State();
      assert ReadAtr(debug, old(port.State())) == Outcome(Ok(true), atr);
      state := true;
      ghost var started := Snapshot();
      assert started == old(Snapshot()).(state := true);
      CheckChv();
      assert (Snapshot(), port.State()) == CheckChvRun(started, atr);
      OpenSessionStages(debug, old(Snapshot()), old(port.State()), atr);
      return Ok(0);
    }

    /** The interface bytes T0 announces and its historical bytes. */
    method InterfaceAndHistorical(t0: Byte) returns (r: Result<()>)
      modifies port
      ensures var i := InterfaceBytes(debug, t0, old(port.State()));
        if i.result.Err? then r == Err(i.result.fault) && port.State() == i.wire
        else var h := Historical(debug, t0 % 16, i.wire);
          port.State() == h.wire && r == h.result
    {
      r := ReadInterfaceBytes(t0);
      if r.Err? {
        return;
      }
      r := ReadHistorical(t0 % 16);
    }

    /** TA1, TB1, TC1 and TD1 as T0's bits 4 to 7 announce them. */
    method ReadInterfaceBytes(t0: Byte) returns (r: Result<()>)
      modifies port
      ensures Outcome(r, port.State()) == InterfaceBytes(debug, t0, old(port.State()))
    {
      ghost var w := port.State();
      if debug && HasBit(t0, 4) {
        var x := ReadPrinted(true);
        if x.Err? {
          return Err(x.fault);
        }
      }
      ghost var a := port.State();
      assert (if debug && HasBit(t0, 4) then Peek(true, w) else Outcome(Ok(()), w)) == Outcome(Ok(()), a);
      if debug && HasBit(t0, 5) {
        var x := ReadPrinted(true);
        if x.Err? {
          return Err(x.fault);
        }
      }
      ghost var b := port.State();
      assert (if debug && HasBit(t0, 5) then Peek(true, a) else Outcome(Ok(()), a)) == Outcome(Ok(()), b);
      if debug && HasBit(t0, 6) {
        var x := ReadPrinted(true);
        if x.Err? {
          return Err(x.fault);
        }
      }
      ghost var c := port.State();
      assert (if debug && HasBit(t0, 6) then Peek(true, b) else Outcome(Ok(()), b)) == Outcome(Ok(()), c);
      if HasBit(t0, 7) {
        r := ReadPrinted(debug);
      } else {
        r := Ok(());
      }
    }

    /** `for i in range(0, n)`: `n` historical bytes. */
    method ReadHistorical(n: nat) returns (r: Result<()>)
      modifies port
      ensures Outcome(r, port.State()) == Historical(debug, n, old(port.State()))
    {
      var i := 0;
      while i < n
        invariant i <= n
        invariant Historical(debug, n, old(port.State())) == Historical(debug, n - i, port.State())
      {
        var x := ReadPrinted(debug);
        if x.Err? {
          return Err(x.fault);
        }
        i := i + 1;
      }
      return Ok(());
    }

    /** Reads until a read times out. */
    method Drain()
      modifies port
      ensures port.State() == Session.Drain(old(port.State()))
    {
      while true
        invariant Session.Drain(old(port.State())) == Session.Drain(port.State())
        decreases |port.input|
      {
        var x := port.Read();
        if x.None? {
          return;
        }
      }
    }

    // -------------------------------------------------------------------
    // CHV1

    /** `getPINinfo()`. */
    method GetPinInfo() returns (enabled: int, triesLeft: int)
      ensures enabled == chv1Enabled && triesLeft == chv1TriesLeft
    {
      return chv1Enabled, chv1TriesLeft;
    }

    /** `verPIN(pin)`. */
    method VerPin(pin: string) returns (r: Result<bool>)
      requires IsByteString(pin)
      modifies this, port
      ensures Run(r, Snapshot(), port.State()) == VerPinRun(old(Snapshot()), pin, old(port.State()))
    {
      var o := Send(VerifyChv("01", AsciiToPin(pin)));
      if o.Err? {
        return Err(o.fault);
      }
      var pinOk := o.value.sw == "9000";
      chv1 := pin;
      chv1TriesLeft := if !pinOk then chv1TriesLeft - 1 else 3;
      VerPinStages(old(Snapshot()), pin, old(port.State()), o.value, port.State());
      return Ok(pinOk);
    }

    /** `enPIN(pin)`. */
    method EnPin(pin: string) returns (r: Result<int>)
      requires IsByteString(pin)
      modifies this, port
      ensures Run(r, Snapshot(), port.State()) == EnPinRun(old(Snapshot()), pin, old(port.State()))
    {
      var o := Send(EnableChv(AsciiToPin(pin)));
      if o.Err? {
        return Err(o.fault);
      }
      chv1Enabled := 1;
      chv1TriesLeft := 3;
      chv1 := pin;
      return Ok(0);
    }

    /** `chgPIN(pinOld, pinNew)`. */
    method ChgPin(pinOld: string, pinNew: string) returns (r: Result<int>)
      requires IsByteString(pinOld) && IsByteString(pinNew)
      modifies this, port
      ensures Run(r, Snapshot(), port.State()) == ChgPinRun(old(Snapshot()), pinOld, pinNew, old(port.State()))
    {
      var o := Send(ChangeChv("01", AsciiToPin(pinOld) + AsciiToPin(pinNew)));
      if o.Err? {
        return Err(o.fault);
      }
      chv1 := pinNew;
      chv1TriesLeft := 3;
      return Ok(0);
    }

    /** `disPIN(pin)`. */
    method DisPin(pin: string) returns (r: Result<int>)
      requires IsByteString(pin)
      modifies this, port
      ensures Run(r, Snapshot(), port.State()) == DisPinRun(old(Snapshot()), pin, old(port.State()))
    {
      var o := Send(DisableChv(AsciiToPin(pin)));
      if o.Err? {
        return Err(o.fault);
      }
      chv1Enabled := 0;
      chv1 := "";
      return Ok(0);
    }

    // -------------------------------------------------------------------
    // Elementary files

    /** `getICCID()` ... `getPhase()`. */
    method GetInfo(file: InfoFile) returns (r: Result<string>)
      modifies port
      ensures Outcome(r, port.State()) == GetInfoRun(file, old(port.State()))
    {
      var s := SetFile(InfoPath(file));
      if s.Err? {
        return Err(s.fault);
      }
      var o := Send(ReadBinary("0000", InfoLength(file)));
      if o.Err? {
        return Err(o.fault);
      }
      return Ok(o.value.data);
    }

    /** `getNumInfo(numFile)`. */
    method GetNumInfo(file: string) returns (r: Result<NumInfo>)
      modifies port
      ensures Outcome(r, port.State()) == GetNumInfoRun(file, old(port.State()))
    {
      var s := SetFile([Mf, DfTelecom, file]);
      if s.Err? {
        return Err(s.fault);
      }
      var o := Send(GetResponse("0F"));
      if o.Err? {
        return Err(o.fault);
      }
      return NumInfoOf(o.value.data);
    }

    /** `getNum(numFile, recNum, recLen, nameLen)`. */
    method GetNum(file: string, recNum: nat, recLen: nat, nameLen: int) returns (r: Result<(string, string)>)
      modifies port
      ensures Outcome(r, port.State()) == GetNumRun(file, recNum, recLen, nameLen, old(port.State()))
    {
      var s := SetFile([Mf, DfTelecom, file]);
      if s.Err? {
        return Err(s.fault);
      }
      var o := Send(ReadRecordOf(recNum, recLen));
      if o.Err? {
        return Err(o.fault);
      }
      return NumRecord(o.value.data, nameLen);
    }

    /** `setNum(numFile, recNum, recLen, nameLen, name, number)`. */
    method SetNum(file: string, recNum: nat, recLen: nat, nameLen: int, name: string, number: string)
      returns (r: Result<Option<int>>)
      modifies port
      ensures Outcome(r, port.State()) == SetNumRun(file, recNum, recLen, nameLen, name, number, old(port.State()))
    {
      var s := SetFile([Mf, DfTelecom, file]);
      if s.Err? {
        return Err(s.fault);
      }
      var data := NumRecordData(name, number, nameLen, recLen);
      if data.Err? {
        return Err(data.fault);
      }
      if file == EfAdn {
        var o := Send(UpdateRecord(Format02(recNum, true), "04", Format02(recLen, true), data.value));
        if o.Err? {
          return Err(o.fault);
        }
        return Ok(Some(0));
      } else if file == EfFdn {
        return Ok(Some(1));
      } else if file == EfLnd {
        var o := Send(UpdateRecord("00", "03", Format02(recLen, true), data.value));
        if o.Err? {
          return Err(o.fault);
        }
        return Ok(Some(0));
      }
      return Ok(None);
    }

    /** `getNums(numFile)`: records 1, 2, ... until the first one without
        a name or a number. */
    method GetNums(file: string) returns (r: Result<Phonebook>)
      modifies port
      ensures Outcome(r, port.State()) == GetNumsRun(file, old(port.State()))
    {
      var g := GetNumInfo(file);
      if g.Err? {
        return Err(g.fault);
      }
      var info := g.value;
      ghost var w := port.State();
      var numbers: map<int, (string, string)> := map[];
      var i: nat := 1;
      while i <= info.recNum
        invariant 1 <= i <= info.recNum + 1
        invariant ScanNums(RecordReader(file, info), info.recNum, 1, map[], w) ==
          ScanNums(RecordReader(file, info), info.recNum, i, numbers, port.State())
        decreases info.recNum + 1 - i
      {
        var o := GetNum(file, i, info.recLen, info.nameLen);
        if o.Err? {
          return Err(o.fault);
        }
        if o.value.0 != "" && o.value.1 != "" {
          numbers := numbers[i := o.value];
        } else {
          return Ok(Phonebook(numbers, Range(i, info.recNum)));
        }
        i := i + 1;
      }
      return Ok(Phonebook(numbers, []));
    }

    /** `getSMS(recNum, recLen)`. */
    method GetSms(recNum: nat, recLen: nat) returns (r: Result<SmsSlot>)
      modifies port
      ensures Outcome(r, port.State()) == GetSmsRun(recNum, recLen, old(port.State()))
    {
      var s := SetFile([Mf, DfTelecom, EfSms]);
      if s.Err? {
        return Err(s.fault);
      }
      var o := Send(ReadRecordOf(recNum, recLen));
      if o.Err? {
        return Err(o.fault);
      }
      return SmsSlotOf(o.value.data);
    }
  }
}
