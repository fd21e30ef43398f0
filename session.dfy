/** The session object's fields and the operations that change them:
    the answer-to-reset loop of `openSession` (ISO/IEC 7816-3 section 8),
    `setFile`, `checkCHV` (the STATUS response of GSM 11.11 section 9.2.1)
    and the CHV1 operations `verPIN`, `enPIN`, `chgPIN` and `disPIN`.

    Each operation is a function from the fields and the line before it to
    its result, the fields and the line after it; the class `SimCard`
    carries them out step by step. */
module Session {
  import opened Wrappers
  import opened Hex
  import opened Commands
  import opened Transport
  import opened Padding

  const Mf := "3F00"
  const DfTelecom := "7F10"
  const DfGsm := "7F20"
  const EfFdn := "6F3B"

  /** `state`, `chv1_enabled`, `chv1_tries_left`, `chv1`, `chv2_enabled`,
      `chv2_tries_left`, `chv2` and `FDN_available`. */
  datatype Fields = Fields(
    state: bool,
    chv1Enabled: int, chv1TriesLeft: int, chv1: string,
    chv2Enabled: int, chv2TriesLeft: int, chv2: string,
    fdnAvailable: int)

  /** The fields as the constructor sets them. */
  const Initial := Fields(false, 0, 0, "", 0, 0, "", 0)

  /** An operation's result (or exception), the fields and the line after it. */
  datatype Run<+T> = Run(result: Result<T>, fields: Fields, wire: Wire)

  /** A command builder such as `_SELECT(fileId)`: `sendAPDU` without
      `checkSW`. */
  function Transmit(c: Command, w: Wire): Outcome<Reply> {
    Exchange(Apdu(c), false, "", w)
  }

  // ---------------------------------------------------------------------
  // `setFile`

  /** `setFile(dirList)`: one SELECT per file, in order. The status words
      are not looked at; only an exception ends the loop early. */
  function SetFileRun(files: seq<string>, w: Wire): Outcome<()>
    decreases |files|
  {
    if files == [] then Outcome(Ok(()), w)
    else
      var o := Transmit(Select(files[0]), w);
      if o.result.Err? then Outcome(Err(o.result.fault), o.wire)
      else SetFileRun(files[1..], o.wire)
  }

  /** Selecting the files of `a + b` is selecting those of `a` and then,
      unless that raised, those of `b`. */
  lemma {:induction false} SetFileAppend(a: seq<string>, b: seq<string>, w: Wire)
    ensures var o := SetFileRun(a, w);
      SetFileRun(a + b, w) == if o.result.Err? then o else SetFileRun(b, o.wire)
    decreases |a|
  {
    if a == [] {
      assert a + b == b;
    } else {
      assert (a + b)[0] == a[0] && (a + b)[1..] == a[1..] + b;
      var o := Transmit(Select(a[0]), w);
      if o.result.Ok? {
        SetFileAppend(a[1..], b, o.wire);
      }
    }
  }

  lemma SelectHeaderText()
    ensures Unhexlify("A0A4000002") == Some([0xA0, 0xA4, 0x00, 0x00, 0x02])
  {
    var hb: seq<Byte> := [0xA0, 0xA4, 0x00, 0x00, 0x02];
    assert HexUpper(hb) == "A0A4000002";
    UnhexlifyHexUpper(hb);
  }

  /** SELECT of a four-digit file id: the header A0 A4 00 00 02 and the
      id's two bytes as data. */
  lemma SelectCommand(f: string, id: seq<Byte>)
    requires |f| == 4 && Unhexlify(f) == Some(id)
    ensures var cmd := Apdu(Select(f));
      |cmd| == 14 && HeaderParses(cmd) && HeaderBytes(cmd) == [0xA0, 0xA4, 0x00, 0x00, 0x02] &&
      PairsParse(cmd, 5, 2) && PairBytes(cmd, 5, 2) == id
  {
    var cmd := Apdu(Select(f));
    assert cmd[..10] == "A0A4000002";
    SelectHeaderText();
    HeaderOf(cmd, [0xA0, 0xA4, 0x00, 0x00, 0x02]);
    assert cmd[2 * 5..2 * (5 + 2)] == f;
    PairsOfText(cmd, 5, 2, id);
  }

  /** A SELECT the card takes goes on to the next file whatever status
      word it ends with, "file not found" included: the header and the
      file id are written and the rest of the list follows. */
  lemma SelectAnyStatus(f: string, id: seq<Byte>, files: seq<string>, e: Queue, echoes: Queue,
                        sw1: Byte, sw2: Byte, rest: Queue, written: seq<Byte>)
    requires |f| == 4 && Unhexlify(f) == Some(id) && |e| == 5 && |echoes| == 2 && sw1 != 0x60
    ensures var sent: seq<Byte> := written + [0xA0, 0xA4, 0x00, 0x00, 0x02] + id;
      SetFileRun([f] + files, Wire(Answered(e, 0xA4, echoes, sw1, sw2) + rest, written)) ==
      SetFileRun(files, Wire(rest, sent))
  {
    SelectCommand(f, id);
    WriteCommandReply(Apdu(Select(f)), 0xA0, 0xA4, 0x00, 0x00, 0x02, id, e, echoes, sw1, sw2, rest, written);
    assert ([f] + files)[0] == f && ([f] + files)[1..] == files;
  }

  // ---------------------------------------------------------------------
  // `checkCHV`

  /** `0x0D + int(data[24:26], 16)`: thirteen plus byte 12 of the first
      STATUS reply, the length of the second STATUS. */
  function StatusLength(data: string): (r: Result<nat>)
    ensures r.Ok? ==> r.value >= 13
  {
    var extra :- ParseHex(Slice(data, 24, 26));
    Ok(13 + extra)
  }

  /** The fields from `self.chv1_enabled = 1` on, read from the STATUS
      bytes `s`: CHV1 is disabled when bit 0x80 of byte 13 is set, the
      tries left are the low nibbles of bytes 18 and 20 (CHV2 only for 22
      bytes or more). The second component is false when byte 13 or 18 is
      missing: the IndexError keeps whatever was already set. */
  function ChvFromStatus(f: Fields, s: seq<Byte>): (Fields, bool) {
    var f1 := f.(chv1Enabled := 1);
    if |s| <= 13 then (f1, false)
    else
      var f2 := f1.(chv1Enabled := if HasBit(s[13], 7) then 0 else 1);
      if |s| <= 18 then (f2, false)
      else
        var f3 := f2.(chv1TriesLeft := s[18] % 16);
        if |s| >= 22 then (f3.(chv2Enabled := 1, chv2TriesLeft := s[20] % 16), true)
        else (f3, true)
  }

  /** `checkCHV()`: select MF, STATUS with 13 bytes, STATUS again with the
      length the first reply gives, then the fields from the second reply
      and the FDN probe. Every exception is caught, so the result is only
      the fields and the line. */
  function CheckChvRun(f: Fields, w: Wire): (Fields, Wire) {
    var m := SetFileRun([Mf], w);
    if m.result.Err? then (f, m.wire)
    else
      var a := Transmit(Status("0D"), m.wire);
      if a.result.Err? then (f, a.wire)
      else match StatusLength(a.result.value.data)
        case Err(_) => (f, a.wire)
        case Ok(l) => ReadChvStatus(f, l, a.wire)
  }

  /** `_STATUS("%02x" % l)`, `unhexlify` of its data and the fields read
      from it; a malformed reply is a TypeError. */
  function ReadChvStatus(f: Fields, l: nat, w: Wire): (Fields, Wire) {
    ChvFromReply(f, Transmit(Status(Format02(l, false)), w))
  }

  /** What `checkCHV` does with the outcome `b` of its second STATUS. */
  function ChvFromReply(f: Fields, b: Outcome<Reply>): (Fields, Wire) {
    if b.result.Err? then (f, b.wire)
    else match Unhexlify(b.result.value.data)
      case None => (f, b.wire)
      case Some(s) =>
        var (g, complete) := ChvFromStatus(f, s);
        if !complete then (g, b.wire) else ProbeFdn(g, b.wire)
  }

  /** "See if the FDN file exists": `FDN_available` becomes 1 when the
      three SELECTs complete, whatever their status words; nothing ever
      sets it back to 0. */
  function ProbeFdn(f: Fields, w: Wire): (Fields, Wire) {
    var o := SetFileRun([Mf, DfTelecom, EfFdn], w);
    (if o.result.Ok? then f.(fdnAvailable := 1) else f, o.wire)
  }

  /** On a STATUS reply of the library's own formatting, the second STATUS
      asks for thirteen plus byte 12 of it. */
  lemma StatusLengthOfReply(bs: seq<Byte>)
    requires |bs| >= 13
    ensures StatusLength(HexUpper(bs)) == Ok(13 + bs[12] as nat)
  {
    ParseResponseByte(bs, 12);
  }

  lemma HighBit(b: Byte)
    ensures HasBit(b, 7) <==> b >= 0x80
  {
    assert Pow2(7) == 128;
  }

  /** A STATUS reply of at least 19 bytes sets every CHV field it covers:
      CHV1 is disabled exactly when bit 0x80 of byte 13 is set, its tries
      are the low nibble of byte 18, CHV2 is set from byte 20 only for a
      reply of 22 bytes or more; the PINs, the session flag and the FDN
      flag are untouched. */
  lemma ChvStatusFields(f: Fields, s: seq<Byte>)
    requires |s| >= 19
    ensures var (g, complete) := ChvFromStatus(f, s);
      complete &&
      (g.chv1Enabled == 0 <==> s[13] >= 0x80) && (g.chv1Enabled == 0 || g.chv1Enabled == 1) &&
      g.chv1TriesLeft == s[18] % 16 && 0 <= g.chv1TriesLeft < 16 &&
      (|s| >= 22 ==> g.chv2Enabled == 1 && g.chv2TriesLeft == s[20] % 16) &&
      (|s| < 22 ==> g.chv2Enabled == f.chv2Enabled && g.chv2TriesLeft == f.chv2TriesLeft) &&
      g.state == f.state && g.chv1 == f.chv1 && g.chv2 == f.chv2 && g.fdnAvailable == f.fdnAvailable
  {
    HighBit(s[13]);
  }

  /** A STATUS reply cut short keeps the fields set before the IndexError:
      `chv1_enabled` is already 1 (or 0 from byte 13), the tries are not. */
  lemma ChvStatusShort(f: Fields, s: seq<Byte>)
    requires |s| <= 18
    ensures var (g, complete) := ChvFromStatus(f, s);
      !complete &&
      (|s| <= 13 ==> g == f.(chv1Enabled := 1)) &&
      (|s| > 13 ==> g == f.(chv1Enabled := if s[13] >= 0x80 then 0 else 1))
  {
    if |s| > 13 {
      HighBit(s[13]);
    }
  }

  /** `checkCHV` never touches the session flag or the stored PINs, and
      `FDN_available` can only become 1. */
  lemma CheckChvKeeps(f: Fields, w: Wire)
    ensures var g := CheckChvRun(f, w).0;
      g.state == f.state && g.chv1 == f.chv1 && g.chv2 == f.chv2 &&
      (g.fdnAvailable == f.fdnAvailable || g.fdnAvailable == 1)
  {
    var m := SetFileRun([Mf], w);
    if m.result.Ok? {
      var a := Transmit(Status("0D"), m.wire);
      if a.result.Ok? {
        var l := StatusLength(a.result.value.data);
        if l.Ok? {
          assert CheckChvRun(f, w) == ReadChvStatus(f, l.value, a.wire);
          ReadChvStatusKeeps(f, l.value, a.wire);
        }
      }
    }
  }

  lemma ReadChvStatusKeeps(f: Fields, l: nat, w: Wire)
    ensures var g := ReadChvStatus(f, l, w).0;
      g.state == f.state && g.chv1 == f.chv1 && g.chv2 == f.chv2 &&
      (g.fdnAvailable == f.fdnAvailable || g.fdnAvailable == 1)
  {
    ChvFromReplyKeeps(f, Transmit(Status(Format02(l, false)), w));
  }

  lemma ChvFromReplyKeeps(f: Fields, b: Outcome<Reply>)
    ensures var g := ChvFromReply(f, b).0;
      g.state == f.state && g.chv1 == f.chv1 && g.chv2 == f.chv2 &&
      (g.fdnAvailable == f.fdnAvailable || g.fdnAvailable == 1)
  {
    if b.result.Ok? {
      var s := Unhexlify(b.result.value.data);
      if s.Some? {
        ChvFromStatusKeeps(f, s.value);
      }
    }
  }

  lemma ChvFromStatusKeeps(f: Fields, s: seq<Byte>)
    ensures var g := ChvFromStatus(f, s).0;
      g.state == f.state && g.chv1 == f.chv1 && g.chv2 == f.chv2 && g.fdnAvailable == f.fdnAvailable
  {
  }

  /** One byte formatted with `%02X` or `%02x` unhexlifies back to itself. */
  lemma ByteText(l: Byte, upper: bool)
    ensures Unhexlify(Format02(l, upper)) == Some([l])
  {
    Format02Byte(l, upper);
    if upper {
      assert HexUpper([l]) == UpperHex(l);
      UnhexlifyHexUpper([l]);
    } else {
      assert Hexlify([l]) == LowerHex(l);
      UnhexlifyHexlify([l]);
    }
  }

  lemma StatusHeaderText(l: Byte, t: string)
    requires Unhexlify(t) == Some([l])
    ensures Unhexlify("A0F20000" + t) == Some([0xA0, 0xF2, 0x00, 0x00, l])
  {
    var hb: seq<Byte> := [0xA0, 0xF2, 0x00, 0x00];
    StatusPrefixText();
    UnhexlifyAppend("A0F20000", t);
    var one: seq<Byte> := [l];
    assert hb + one == [0xA0, 0xF2, 0x00, 0x00, l];
  }

  lemma StatusPrefixText()
    ensures Unhexlify("A0F20000") == Some([0xA0, 0xF2, 0x00, 0x00])
  {
    var hb: seq<Byte> := [0xA0, 0xF2, 0x00, 0x00];
    assert HexUpper(hb) == "A0F20000";
    UnhexlifyHexUpper(hb);
  }

  /** A ten-character command that unhexlifies to `hb` has header `hb`. */
  lemma HeaderOfTen(cmd: string, hb: seq<Byte>)
    requires |cmd| == 10 && Unhexlify(cmd) == Some(hb)
    ensures HeaderParses(cmd) && HeaderBytes(cmd) == hb
  {
    assert cmd[..10] == cmd;
    HeaderOf(cmd, hb);
  }

  /** STATUS with P3 = `l`, in upper- or lower-case hex: a ten-character
      command with header A0 F2 00 00 `l`. */
  lemma StatusCommand(l: Byte, upper: bool)
    ensures var cmd := Apdu(Status(Format02(l, upper)));
      |cmd| == 10 && HeaderParses(cmd) && HeaderBytes(cmd) == [0xA0, 0xF2, 0x00, 0x00, l]
  {
    var t := Format02(l, upper);
    ByteText(l, upper);
    UnhexlifyLength(t);
    StatusHeaderText(l, t);
    HeaderOfTen(Apdu(Status(t)), [0xA0, 0xF2, 0x00, 0x00, l]);
  }

  lemma MfText()
    ensures Unhexlify(Mf) == Some([0x3F, 0x00])
  {
    var id: seq<Byte> := [0x3F, 0x00];
    assert HexUpper(id) == Mf;
    UnhexlifyHexUpper(id);
  }

  /** A card that takes the SELECT of MF: its two echoes and a status word
      are read, and the header and file id are written. */
  lemma SelectMfAnswered(e: Queue, echoes: Queue, sw1: Byte, sw2: Byte, rest: Queue, written: seq<Byte>)
    requires |e| == 5 && |echoes| == 2 && sw1 != 0x60
    ensures SetFileRun([Mf], Wire(Answered(e, 0xA4, echoes, sw1, sw2) + rest, written)) ==
      Outcome(Ok(()), Wire(rest, written + [0xA0, 0xA4, 0x00, 0x00, 0x02] + [0x3F, 0x00]))
  {
    MfText();
    SelectAnyStatus(Mf, [0x3F, 0x00], [], e, echoes, sw1, sw2, rest, written);
    assert [Mf] + [] == [Mf];
  }

  /** A card that answers a STATUS of `l` bytes: the reply is their
      upper-case hex, and only the header is written. */
  lemma StatusAnswered(l: Byte, upper: bool, e: Queue, r: seq<Byte>, sw1: Byte, sw2: Byte, rest: Queue, written: seq<Byte>)
    requires |e| == 5 && |r| == l as int && sw1 != 0x60
    ensures Transmit(Status(Format02(l, upper)), Wire(Answered(e, 0xF2, Arriving(r), sw1, sw2) + rest, written)) ==
      Outcome(Ok(Reply(HexUpper(r), StatusText(sw1, sw2))), Wire(rest, written + [0xA0, 0xF2, 0x00, 0x00, l]))
  {
    StatusCommand(l, upper);
    ReadCommandReply(Apdu(Status(Format02(l, upper))), 0xA0, 0xF2, 0x00, 0x00, l, e, r, sw1, sw2, rest, written);
  }

  /** A card that takes the SELECT of MF and both STATUS commands: the
      second STATUS asks for thirteen plus byte 12 of the first reply, and
      the CHV fields come from the second reply before the FDN probe. */
  lemma CheckChvAnswered(f: Fields, e1: Queue, echoes: Queue, e2: Queue, r1: seq<Byte>, e3: Queue, r2: seq<Byte>,
                         sw1: Byte, sw2: Byte, rest: Queue, written: seq<Byte>)
    requires |e1| == 5 && |e2| == 5 && |e3| == 5 && |echoes| == 2 && sw1 != 0x60
    requires |r1| == 13 && 13 + r1[12] as int < 256 && |r2| == 13 + r1[12] as int && |r2| >= 19
    ensures var line := Answered(e1, 0xA4, echoes, sw1, sw2) + (Answered(e2, 0xF2, Arriving(r1), sw1, sw2) +
        (Answered(e3, 0xF2, Arriving(r2), sw1, sw2) + rest));
      var sent: seq<Byte> := written + [0xA0, 0xA4, 0x00, 0x00, 0x02] + [0x3F, 0x00] +
        [0xA0, 0xF2, 0x00, 0x00, 0x0D] + [0xA0, 0xF2, 0x00, 0x00, |r2|];
      CheckChvRun(f, Wire(line, written)) == ProbeFdn(ChvFromStatus(f, r2).0, Wire(rest, sent))
  {
    var q3 := Answered(e3, 0xF2, Arriving(r2), sw1, sw2) + rest;
    var q2 := Answered(e2, 0xF2, Arriving(r1), sw1, sw2) + q3;
    var w1 := written + [0xA0, 0xA4, 0x00, 0x00, 0x02] + [0x3F, 0x00];
    var w2 := w1 + [0xA0, 0xF2, 0x00, 0x00, 0x0D];
    var l: Byte := |r2|;
    var w3 := w2 + [0xA0, 0xF2, 0x00, 0x00, l];
    SelectMfAnswered(e1, echoes, sw1, sw2, q2, written);
    StatusAnswered(0x0D, true, e2, r1, sw1, sw2, q3, w1);
    assert Format02(0x0D, true) == "0D" by {
      Format02Byte(0x0D, true);
    }
    StatusLengthOfReply(r1);
    StatusAnswered(l, false, e3, r2, sw1, sw2, rest, w2);
    UnhexlifyHexUpper(r2);
    ChvStatusFields(f, r2);
    CheckChvStages(f, Wire(Answered(e1, 0xA4, echoes, sw1, sw2) + q2, written), Wire(q2, w1),
      Reply(HexUpper(r1), StatusText(sw1, sw2)), Wire(q3, w2), l);
    ReadChvStatusStages(f, l, Wire(q3, w2), Reply(HexUpper(r2), StatusText(sw1, sw2)), Wire(rest, w3), r2);
  }

  lemma CheckChvStages(f: Fields, w: Wire, w1: Wire, reply: Reply, w2: Wire, l: nat)
    requires SetFileRun([Mf], w) == Outcome(Ok(()), w1)
    requires Transmit(Status("0D"), w1) == Outcome(Ok(reply), w2)
    requires StatusLength(reply.data) == Ok(l)
    ensures CheckChvRun(f, w) == ReadChvStatus(f, l, w2)
  {
  }

  lemma ReadChvStatusStages(f: Fields, l: nat, w: Wire, reply: Reply, w1: Wire, s: seq<Byte>)
    requires Transmit(Status(Format02(l, false)), w) == Outcome(Ok(reply), w1)
    requires Unhexlify(reply.data) == Some(s) && ChvFromStatus(f, s).1
    ensures ReadChvStatus(f, l, w) == ProbeFdn(ChvFromStatus(f, s).0, w1)
  {
  }

  // ---------------------------------------------------------------------
  // The answer to reset

  /** A `read()` whose value is only printed in debug mode: there the
      `ord('')` of a timeout raises, otherwise the timeout goes unnoticed. */
  function Peek(debug: bool, w: Wire): Outcome<()> {
    var (x, w1) := ReadByte(w);
    if debug && x.None? then Outcome(Err(ReadTimeout), w1) else Outcome(Ok(()), w1)
  }

  /** `while ord(t0) == 0x3b: t0 = read()`: T0 is the first byte that is
      not 0x3B; a timeout raises. */
  function SkipTs(w: Wire): (o: Outcome<Byte>)
    ensures o.result.Ok? ==> o.result.value != 0x3B
    decreases |w.input|
  {
    var (x, w1) := ReadByte(w);
    if x.None? then Outcome(Err(ReadTimeout), w1)
    else if x.value == 0x3B then SkipTs(w1)
    else Outcome(Ok(x.value), w1)
  }

  /** The interface bytes T0 announces. TA1, TB1 and TC1 are read only in
      debug mode, because the read sits inside the debug print; TD1 is
      read whenever bit 0x80 is set. TDi chaining is not followed. */
  function InterfaceBytes(debug: bool, t0: Byte, w: Wire): Outcome<()> {
    var a := if debug && HasBit(t0, 4) then Peek(true, w) else Outcome(Ok(()), w);
    if a.result.Err? then a
    else
      var b := if debug && HasBit(t0, 5) then Peek(true, a.wire) else Outcome(Ok(()), a.wire);
      if b.result.Err? then b
      else
        var c := if debug && HasBit(t0, 6) then Peek(true, b.wire) else Outcome(Ok(()), b.wire);
        if c.result.Err? then c
        else if HasBit(t0, 7) then Peek(debug, c.wire)
        else c
  }

  /** How many interface bytes are read. */
  function InterfaceCount(debug: bool, t0: Byte): nat {
    (if debug && HasBit(t0, 4) then 1 else 0) + (if debug && HasBit(t0, 5) then 1 else 0) +
    (if debug && HasBit(t0, 6) then 1 else 0) + (if HasBit(t0, 7) then 1 else 0)
  }

  /** The `n` historical bytes, one read each. */
  function Historical(debug: bool, n: nat, w: Wire): Outcome<()> {
    if n == 0 then Outcome(Ok(()), w)
    else
      var p := Peek(debug, w);
      if p.result.Err? then p else Historical(debug, n - 1, p.wire)
  }

  /** `while 1: x = read(); if x == "": break`: everything up to and
      including the next quiet period. */
  function Drain(w: Wire): Wire
    decreases |w.input|
  {
    var (x, w1) := ReadByte(w);
    if x.None? then w1 else Drain(w1)
  }

  /** The read loop of `openSession`: `Ok(false)` for a TS other than
      0x3B, `Ok(true)` once the ATR is read and the line drained. A timeout
      on TS raises: the `ts == None` test never holds, `read()` returns
      '' and `ord('')` fails. */
  function ReadAtr(debug: bool, w: Wire): Outcome<bool> {
    var (ts, w1) := ReadByte(w);
    if ts.None? then Outcome(Err(ReadTimeout), w1)
    else if ts.value != 0x3B then Outcome(Ok(false), w1)
    else
      var t := SkipTs(w1);
      if t.result.Err? then Outcome(Err(t.result.fault), t.wire)
      else
        var i := InterfaceBytes(debug, t.result.value, t.wire);
        if i.result.Err? then Outcome(Err(i.result.fault), i.wire)
        else
          var h := Historical(debug, t.result.value % 16, i.wire);
          if h.result.Err? then Outcome(Err(h.result.fault), h.wire)
          else Outcome(Ok(true), Drain(h.wire))
  }

  /** `openSession` once the port is open: 3 for a bad TS; otherwise the
      session is marked open, `checkCHV` runs and the result is 0. */
  function OpenSessionRun(debug: bool, f: Fields, w: Wire): Run<int> {
    var a := ReadAtr(debug, w);
    if a.result.Err? then Run(Err(a.result.fault), f, a.wire)
    else if !a.result.value then Run(Ok(3), f, a.wire)
    else
      var (g, w2) := CheckChvRun(f.(state := true), a.wire);
      Run(Ok(0), g, w2)
  }

  lemma OpenSessionStages(debug: bool, f: Fields, w: Wire, atr: Wire)
    requires ReadAtr(debug, w) == Outcome(Ok(true), atr)
    ensures var (g, w2) := CheckChvRun(f.(state := true), atr);
      OpenSessionRun(debug, f, w) == Run(Ok(0), g, w2)
  {
  }

  /** The session is open exactly when the result is 0; a bad TS or an
      exception leaves every field as it was. */
  lemma OpenSessionState(debug: bool, f: Fields, w: Wire)
    ensures var r := OpenSessionRun(debug, f, w);
      (r.result == Ok(0) ==> r.fields.state) &&
      (r.result != Ok(0) ==> r.fields == f) &&
      (r.result.Ok? ==> r.result.value == 0 || r.result.value == 3)
  {
    var a := ReadAtr(debug, w);
    if a.result.Ok? && a.result.value {
      CheckChvKeeps(f.(state := true), a.wire);
    }
  }

  /** A first byte other than 0x3B: 3, with only that byte read. */
  lemma AtrBadTs(debug: bool, f: Fields, b: Byte, rest: Queue, written: seq<Byte>)
    requires b != 0x3B
    ensures OpenSessionRun(debug, f, Wire([Some(b)] + rest, written)) == Run(Ok(3), f, Wire(rest, written))
  {
    assert ([Some(b)] + rest)[1..] == rest;
  }

  /** No card, or a card that stays quiet: the first read times out and
      `openSession` raises instead of returning 2. */
  lemma AtrSilent(debug: bool, f: Fields, w: Wire)
    requires w.input == [] || w.input[0] == None
    ensures OpenSessionRun(debug, f, w).result == Err(ReadTimeout)
    ensures OpenSessionRun(debug, f, w).fields == f
  {
  }

  lemma ArrivingFirst(bs: seq<Byte>, q: Queue)
    requires bs != []
    ensures (Arriving(bs) + q)[0] == Some(bs[0]) && (Arriving(bs) + q)[1..] == Arriving(bs[1..]) + q
  {
    assert Arriving(bs)[1..] == Arriving(bs[1..]);
  }

  lemma PeekArriving(debug: bool, bs: seq<Byte>, q: Queue, written: seq<Byte>)
    requires bs != []
    ensures Peek(debug, Wire(Arriving(bs) + q, written)) == Outcome(Ok(()), Wire(Arriving(bs[1..]) + q, written))
  {
    ArrivingFirst(bs, q);
  }

  lemma {:induction false} SkipTsArriving(k: nat, t0: Byte, q: Queue, written: seq<Byte>)
    requires t0 != 0x3B
    ensures SkipTs(Wire(Arriving(seq(k, _ => 0x3B)) + [Some(t0)] + q, written)) == Outcome(Ok(t0), Wire(q, written))
  {
    var line := Arriving(seq(k, _ => 0x3B)) + [Some(t0)] + q;
    if k == 0 {
      assert line == [Some(t0)] + q;
      assert line[1..] == q;
    } else {
      assert line == Arriving(seq(k, _ => 0x3B)) + ([Some(t0)] + q);
      ArrivingFirst(seq(k, _ => 0x3B), [Some(t0)] + q);
      assert seq(k, _ => 0x3B)[1..] == seq(k - 1, _ => 0x3B);
      assert line[1..] == Arriving(seq(k - 1, _ => 0x3B)) + [Some(t0)] + q;
      SkipTsArriving(k - 1, t0, q, written);
    }
  }

  /** One read for each interface byte `InterfaceCount` counts. */
  lemma InterfaceArriving(debug: bool, t0: Byte, bs: seq<Byte>, q: Queue, written: seq<Byte>)
    requires |bs| >= InterfaceCount(debug, t0)
    ensures InterfaceBytes(debug, t0, Wire(Arriving(bs) + q, written)) ==
      Outcome(Ok(()), Wire(Arriving(bs[InterfaceCount(debug, t0)..]) + q, written))
  {
    var n0 := 0;
    var n1 := n0 + (if debug && HasBit(t0, 4) then 1 else 0);
    var n2 := n1 + (if debug && HasBit(t0, 5) then 1 else 0);
    var n3 := n2 + (if debug && HasBit(t0, 6) then 1 else 0);
    var n4 := n3 + (if HasBit(t0, 7) then 1 else 0);
    assert n4 == InterfaceCount(debug, t0);
    assert bs[n0..] == bs;
    if n1 > n0 {
      PeekArriving(true, bs[n0..], q, written);
      assert bs[n0..][1..] == bs[n1..];
    }
    if n2 > n1 {
      PeekArriving(true, bs[n1..], q, written);
      assert bs[n1..][1..] == bs[n2..];
    }
    if n3 > n2 {
      PeekArriving(true, bs[n2..], q, written);
      assert bs[n2..][1..] == bs[n3..];
    }
    if n4 > n3 {
      PeekArriving(debug, bs[n3..], q, written);
      assert bs[n3..][1..] == bs[n4..];
    }
  }

  lemma {:induction false} HistoricalArriving(debug: bool, n: nat, bs: seq<Byte>, q: Queue, written: seq<Byte>)
    requires |bs| >= n
    ensures Historical(debug, n, Wire(Arriving(bs) + q, written)) == Outcome(Ok(()), Wire(Arriving(bs[n..]) + q, written))
  {
    if n == 0 {
      assert bs[0..] == bs;
    } else {
      PeekArriving(debug, bs, q, written);
      HistoricalArriving(debug, n - 1, bs[1..], q, written);
      assert bs[1..][n - 1..] == bs[n..];
    }
  }

  lemma {:induction false} DrainArriving(bs: seq<Byte>, rest: Queue, written: seq<Byte>)
    ensures Drain(Wire(Arriving(bs) + [None] + rest, written)) == Wire(rest, written)
    decreases |bs|
  {
    var line := Arriving(bs) + [None] + rest;
    if bs == [] {
      assert line == [None] + rest;
      assert line[1..] == rest;
    } else {
      assert line == Arriving(bs) + ([None] + rest);
      ArrivingFirst(bs, [None] + rest);
      assert line[1..] == Arriving(bs[1..]) + [None] + rest;
      DrainArriving(bs[1..], rest, written);
    }
  }

  /** An ATR that arrives in one burst and ends with a quiet period: TS,
      any number of repeated 0x3B, T0 and at least the bytes the loop reads
      after T0. The session opens with 0 and `checkCHV` starts on the line
      after the quiet period; whatever the burst held beyond the bytes read
      is drained. */
  lemma AtrBurst(debug: bool, f: Fields, k: nat, t0: Byte, more: seq<Byte>, rest: Queue, written: seq<Byte>)
    requires t0 != 0x3B && |more| >= InterfaceCount(debug, t0) + t0 % 16
    ensures var line := [Some(0x3B)] + Arriving(seq(k, _ => 0x3B)) + [Some(t0)] + Arriving(more) + [None] + rest;
      var (g, w) := CheckChvRun(f.(state := true), Wire(rest, written));
      OpenSessionRun(debug, f, Wire(line, written)) == Run(Ok(0), g, w)
  {
    var tail := [None] + rest;
    var q := Arriving(more) + tail;
    var line := [Some(0x3B)] + Arriving(seq(k, _ => 0x3B)) + [Some(t0)] + Arriving(more) + [None] + rest;
    assert line == [Some(0x3B)] + (Arriving(seq(k, _ => 0x3B)) + [Some(t0)] + q);
    var w1 := Wire(Arriving(seq(k, _ => 0x3B)) + [Some(t0)] + q, written);
    assert ReadByte(Wire(line, written)) == (Some(0x3B), w1);
    SkipTsArriving(k, t0, q, written);
    var c := InterfaceCount(debug, t0);
    InterfaceArriving(debug, t0, more, tail, written);
    var m := more[c..];
    HistoricalArriving(debug, t0 % 16, m, tail, written);
    assert Arriving(m[t0 % 16..]) + tail == Arriving(m[t0 % 16..]) + [None] + rest;
    DrainArriving(m[t0 % 16..], rest, written);
    assert ReadAtr(debug, Wire(line, written)) == Outcome(Ok(true), Wire(rest, written));
  }

  /** Outside debug mode only TD1 is read from the interface bytes, and
      no timeout after T0 is noticed. */
  lemma InterfaceQuiet(t0: Byte, w: Wire)
    ensures InterfaceCount(false, t0) == (if HasBit(t0, 7) then 1 else 0)
    ensures InterfaceBytes(false, t0, w).result.Ok?
    ensures forall n: nat :: Historical(false, n, w).result.Ok?
  {
    forall n: nat
      ensures Historical(false, n, w).result.Ok?
    {
      HistoricalQuiet(n, w);
    }
  }

  lemma {:induction false} HistoricalQuiet(n: nat, w: Wire)
    ensures Historical(false, n, w).result.Ok?
  {
    if n > 0 {
      HistoricalQuiet(n - 1, Peek(false, w).wire);
    }
  }

  // ---------------------------------------------------------------------
  // CHV1

  /** `verPIN(pin)`: VERIFY CHV1 with the padded PIN; the PIN is stored
      and the tries become 3 when the status word is "9000", one less
      otherwise (with no floor at 0). */
  function VerPinRun(f: Fields, pin: string, w: Wire): Run<bool>
    requires IsByteString(pin)
  {
    var o := Transmit(VerifyChv("01", AsciiToPin(pin)), w);
    if o.result.Err? then Run(Err(o.result.fault), f, o.wire)
    else
      var ok := o.result.value.sw == "9000";
      Run(Ok(ok), f.(chv1 := pin, chv1TriesLeft := if ok then 3 else f.chv1TriesLeft - 1), o.wire)
  }

  lemma VerPinStages(f: Fields, pin: string, w: Wire, reply: Reply, w1: Wire)
    requires IsByteString(pin)
    requires Transmit(VerifyChv("01", AsciiToPin(pin)), w) == Outcome(Ok(reply), w1)
    ensures var ok := reply.sw == "9000";
      VerPinRun(f, pin, w) == Run(Ok(ok), f.(chv1 := pin, chv1TriesLeft := if ok then 3 else f.chv1TriesLeft - 1), w1)
  {
  }

  /** `enPIN(pin)`: ENABLE CHV1; whatever the card answers, CHV1 counts as
      enabled with 3 tries and the PIN is stored. */
  function EnPinRun(f: Fields, pin: string, w: Wire): (r: Run<int>)
    requires IsByteString(pin)
    ensures r.wire == Transmit(EnableChv(AsciiToPin(pin)), w).wire
    ensures r.result.Ok? <==> Transmit(EnableChv(AsciiToPin(pin)), w).result.Ok?
    ensures r.result.Ok? ==> r.result.value == 0 && r.fields == f.(chv1Enabled := 1, chv1TriesLeft := 3, chv1 := pin)
    ensures r.result.Err? ==> r.fields == f
  {
    var o := Transmit(EnableChv(AsciiToPin(pin)), w);
    if o.result.Err? then Run(Err(o.result.fault), f, o.wire)
    else Run(Ok(0), f.(chv1Enabled := 1, chv1TriesLeft := 3, chv1 := pin), o.wire)
  }

  /** `chgPIN(pinOld, pinNew)`: CHANGE CHV1 with both padded PINs;
      whatever the card answers, the new PIN is stored with 3 tries. */
  function ChgPinRun(f: Fields, pinOld: string, pinNew: string, w: Wire): (r: Run<int>)
    requires IsByteString(pinOld) && IsByteString(pinNew)
    ensures r.wire == Transmit(ChangeChv("01", AsciiToPin(pinOld) + AsciiToPin(pinNew)), w).wire
    ensures r.result.Ok? <==> Transmit(ChangeChv("01", AsciiToPin(pinOld) + AsciiToPin(pinNew)), w).result.Ok?
    ensures r.result.Ok? ==> r.result.value == 0 && r.fields == f.(chv1 := pinNew, chv1TriesLeft := 3)
    ensures r.result.Err? ==> r.fields == f
  {
    var o := Transmit(ChangeChv("01", AsciiToPin(pinOld) + AsciiToPin(pinNew)), w);
    if o.result.Err? then Run(Err(o.result.fault), f, o.wire)
    else Run(Ok(0), f.(chv1 := pinNew, chv1TriesLeft := 3), o.wire)
  }

  /** `disPIN(pin)`: DISABLE CHV1; whatever the card answers, CHV1 counts
      as disabled and the stored PIN is cleared; the tries stay. */
  function DisPinRun(f: Fields, pin: string, w: Wire): (r: Run<int>)
    requires IsByteString(pin)
    ensures r.wire == Transmit(DisableChv(AsciiToPin(pin)), w).wire
    ensures r.result.Ok? <==> Transmit(DisableChv(AsciiToPin(pin)), w).result.Ok?
    ensures r.result.Ok? ==> r.result.value == 0 && r.fields == f.(chv1Enabled := 0, chv1 := "")
    ensures r.result.Ok? ==> r.fields.chv1TriesLeft == f.chv1TriesLeft
    ensures r.result.Err? ==> r.fields == f
  {
    var o := Transmit(DisableChv(AsciiToPin(pin)), w);
    if o.result.Err? then Run(Err(o.result.fault), f, o.wire)
    else Run(Ok(0), f.(chv1Enabled := 0, chv1 := ""), o.wire)
  }

  lemma VerifyHeaderText()
    ensures Unhexlify("A020000108") == Some([0xA0, 0x20, 0x00, 0x01, 0x08])
  {
    var hb: seq<Byte> := [0xA0, 0x20, 0x00, 0x01, 0x08];
    assert HexUpper(hb) == "A020000108";
    UnhexlifyHexUpper(hb);
  }

  /** The eight-byte CHV block of a PIN of at most eight characters. */
  function PinBlock(pin: string): (b: seq<Byte>)
    requires IsByteString(pin) && |pin| <= 8
    ensures |b| == 8
  {
    Latin1(pin) + seq(8 - |pin|, _ => 0xFF)
  }

  /** VERIFY CHV1 of a PIN of at most eight characters: header
      A0 20 00 01 08 and the eight-byte CHV block. */
  lemma VerifyCommand(pin: string)
    requires IsByteString(pin) && |pin| <= 8
    ensures var cmd := Apdu(VerifyChv("01", AsciiToPin(pin)));
      |cmd| == 26 && HeaderParses(cmd) && HeaderBytes(cmd) == [0xA0, 0x20, 0x00, 0x01, 0x08] &&
      PairsParse(cmd, 5, 8) && PairBytes(cmd, 5, 8) == PinBlock(pin)
  {
    var cmd := Apdu(VerifyChv("01", AsciiToPin(pin)));
    AsciiToPinBlock(pin);
    assert cmd[..10] == "A020000108";
    VerifyHeaderText();
    HeaderOf(cmd, [0xA0, 0x20, 0x00, 0x01, 0x08]);
    assert cmd[2 * 5..2 * (5 + 8)] == AsciiToPin(pin);
    PairsOfText(cmd, 5, 8, PinBlock(pin));
  }

  /** A card that takes the VERIFY: the answer is true and the tries are 3
      exactly for status 90 00; any other status word costs one try, below
      zero too. Either way the PIN is stored. */
  lemma VerPinAnswered(f: Fields, pin: string, e: Queue, echoes: Queue, sw1: Byte, sw2: Byte, rest: Queue, written: seq<Byte>)
    requires IsByteString(pin) && |pin| <= 8 && |e| == 5 && |echoes| == 8 && sw1 != 0x60
    ensures var ok := sw1 == 0x90 && sw2 == 0x00;
      var sent: seq<Byte> := written + [0xA0, 0x20, 0x00, 0x01, 0x08] + PinBlock(pin);
      VerPinRun(f, pin, Wire(Answered(e, 0x20, echoes, sw1, sw2) + rest, written)) ==
      Run(Ok(ok), f.(chv1 := pin, chv1TriesLeft := if ok then 3 else f.chv1TriesLeft - 1), Wire(rest, sent))
  {
    var w := Wire(Answered(e, 0x20, echoes, sw1, sw2) + rest, written);
    var sent := written + [0xA0, 0x20, 0x00, 0x01, 0x08] + PinBlock(pin);
    assert Transmit(VerifyChv("01", AsciiToPin(pin)), w) == Outcome(Ok(Reply("", StatusText(sw1, sw2))), Wire(rest, sent)) by {
      VerifyCommand(pin);
      WriteCommandReply(Apdu(VerifyChv("01", AsciiToPin(pin))), 0xA0, 0x20, 0x00, 0x01, 0x08, PinBlock(pin), e, echoes, sw1, sw2, rest, written);
    }
    StatusTextOk(sw1, sw2);
    VerPinStage(f, pin, w, Reply("", StatusText(sw1, sw2)), Wire(rest, sent));
  }

  lemma VerPinStage(f: Fields, pin: string, w: Wire, reply: Reply, w1: Wire)
    requires IsByteString(pin)
    requires Transmit(VerifyChv("01", AsciiToPin(pin)), w) == Outcome(Ok(reply), w1)
    ensures var ok := reply.sw == "9000";
      VerPinRun(f, pin, w) == Run(Ok(ok), f.(chv1 := pin, chv1TriesLeft := if ok then 3 else f.chv1TriesLeft - 1), w1)
  {
  }

  /** A card that answers the VERIFY header with a procedure byte other
      than INS and NULL: the empty status word counts as a wrong PIN. */
  lemma VerPinRefused(f: Fields, pin: string, e: Queue, b: Byte, rest: Queue, written: seq<Byte>)
    requires IsByteString(pin) && |pin| <= 8 && |e| == 5 && b != 0x20 && b != 0x60
    ensures var sent: seq<Byte> := written + [0xA0, 0x20, 0x00, 0x01, 0x08];
      VerPinRun(f, pin, Wire(e + [Some(b)] + rest, written)) ==
      Run(Ok(false), f.(chv1 := pin, chv1TriesLeft := f.chv1TriesLeft - 1), Wire(rest, sent))
  {
    VerifyCommand(pin);
    UnexpectedProcedureByte(Apdu(VerifyChv("01", AsciiToPin(pin))), false, "", e, b, rest, written);
  }
}
