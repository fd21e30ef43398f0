/** The readers and writers of elementary files: `getICCID` ... `getPhase`
    (READ BINARY of a fixed length), the phone-book records of EF_ADN,
    EF_FDN and EF_LND (`getNumInfo`, `getNum`, `setNum`, `getNums`;
    GSM 11.11 section 10.5.1) and the messages of EF_SMS (`getSMS`;
    section 10.5.3). Each is a function of the line, as in `Session`. */
module Phonebook {
  import opened Wrappers
  import opened Hex
  import opened Commands
  import opened Transport
  import opened Session
  import opened Records
  import opened Messages

  const EfAdn := "6F3A"
  const EfSms := "6F3C"
  const EfLnd := "6F44"

  // ---------------------------------------------------------------------
  // Five-byte headers

  lemma HexUpperFive(bs: seq<Byte>)
    requires |bs| == 5
    ensures HexUpper(bs) == UpperHex(bs[0]) + UpperHex(bs[1]) + UpperHex(bs[2]) + UpperHex(bs[3]) + UpperHex(bs[4])
  {
    var h := HexUpper(bs);
    var t := UpperHex(bs[0]) + UpperHex(bs[1]) + UpperHex(bs[2]) + UpperHex(bs[3]) + UpperHex(bs[4]);
    forall k | 0 <= k < 10
      ensures h[k] == t[k]
    {
      HexUpperAt(bs, k / 2);
      assert h[k] == UpperHex(bs[k / 2])[k % 2];
    }
  }

  /** A ten-character command printed from five bytes has them as header. */
  lemma HeaderOfBytes(cmd: string, bs: seq<Byte>)
    requires |bs| == 5
    requires cmd == UpperHex(bs[0]) + UpperHex(bs[1]) + UpperHex(bs[2]) + UpperHex(bs[3]) + UpperHex(bs[4])
    ensures |cmd| == 10 && HeaderParses(cmd) && HeaderBytes(cmd) == bs
  {
    HexUpperFive(bs);
    UnhexlifyHexUpper(bs);
    assert cmd[..10] == cmd;
    HeaderOf(cmd, bs);
  }

  // ---------------------------------------------------------------------
  // `getICCID` ... `getPhase`

  /** The elementary files with a reader of their own. */
  datatype InfoFile = Iccid | Lp | Imsi | Kc | Hplmn | Sst | Bcch | Acc | Fplmn | Loci | Ad | Phase

  /** The path each reader selects: EF_ICCID under MF, the others under
      DF_GSM. */
  function InfoPath(file: InfoFile): seq<string> {
    match file
    case Iccid => [Mf, "2FE2"]
    case Lp => [Mf, DfGsm, "6F05"]
    case Imsi => [Mf, DfGsm, "6F07"]
    case Kc => [Mf, DfGsm, "6F20"]
    case Hplmn => [Mf, DfGsm, "6F31"]
    case Sst => [Mf, DfGsm, "6F38"]
    case Bcch => [Mf, DfGsm, "6F74"]
    case Acc => [Mf, DfGsm, "6F78"]
    case Fplmn => [Mf, DfGsm, "6F7B"]
    case Loci => [Mf, DfGsm, "6F7E"]
    case Ad => [Mf, DfGsm, "6FAD"]
    case Phase => [Mf, DfGsm, "6FAE"]
  }

  /** The length argument each reader passes to READ BINARY. */
  function InfoLength(file: InfoFile): string {
    match file
    case Iccid => "0A"
    case Lp => "01"
    case Imsi => "09"
    case Kc => "09"
    case Hplmn => "01"
    case Sst => "02"
    case Bcch => "10"
    case Acc => "02"
    case Fplmn => "0C"
    case Loci => "0B"
    case Ad => "03"
    case Phase => "01"
  }

  /** The same lengths as numbers of bytes. */
  function InfoSize(file: InfoFile): Byte {
    match file
    case Iccid => 10
    case Lp => 1
    case Imsi => 9
    case Kc => 9
    case Hplmn => 1
    case Sst => 2
    case Bcch => 16
    case Acc => 2
    case Fplmn => 12
    case Loci => 11
    case Ad => 3
    case Phase => 1
  }

  lemma InfoLengthText(file: InfoFile)
    ensures InfoLength(file) == UpperHex(InfoSize(file))
  {
  }

  /** A reader: select the path, READ BINARY at offset 0, return the data. */
  function GetInfoRun(file: InfoFile, w: Wire): Outcome<string> {
    var s := SetFileRun(InfoPath(file), w);
    if s.result.Err? then Outcome(Err(s.result.fault), s.wire)
    else
      var r := Transmit(ReadBinary("0000", InfoLength(file)), s.wire);
      if r.result.Err? then Outcome(Err(r.result.fault), r.wire)
      else Outcome(Ok(r.result.value.data), r.wire)
  }

  lemma ReadBinaryCommand(file: InfoFile)
    ensures var cmd := Apdu(ReadBinary("0000", InfoLength(file)));
      |cmd| == 10 && HeaderParses(cmd) && HeaderBytes(cmd) == [0xA0, 0xB0, 0x00, 0x00, InfoSize(file)]
  {
    InfoLengthText(file);
    var bs: seq<Byte> := [0xA0, 0xB0, 0x00, 0x00, InfoSize(file)];
    assert UpperHex(0xA0) + UpperHex(0xB0) + UpperHex(0x00) + UpperHex(0x00) == "A0B00000";
    HeaderOfBytes(Apdu(ReadBinary("0000", InfoLength(file))), bs);
  }

  /** What a reader returns is empty (the card refused the command) or
      exactly the file's length in upper-case hex, two characters a byte. */
  lemma GetInfoShape(file: InfoFile, w: Wire)
    requires GetInfoRun(file, w).result.Ok?
    ensures var d := GetInfoRun(file, w).result.value;
      d == "" || (|d| == 2 * InfoSize(file) as int && UpperHexText(d))
  {
    var s := SetFileRun(InfoPath(file), w);
    ReadBinaryCommand(file);
    ReplyShape(Apdu(ReadBinary("0000", InfoLength(file))), false, "", s.wire);
  }

  /** A card that answers the READ BINARY with the file's bytes: the
      reader returns them as upper-case hex, which `unhexlify` turns back
      into the bytes. */
  lemma GetInfoAnswered(file: InfoFile, w: Wire, e: Queue, bs: seq<Byte>, sw1: Byte, sw2: Byte, rest: Queue, written: seq<Byte>)
    requires |e| == 5 && |bs| == InfoSize(file) as int && sw1 != 0x60
    requires SetFileRun(InfoPath(file), w) == Outcome(Ok(()), Wire(Answered(e, 0xB0, Arriving(bs), sw1, sw2) + rest, written))
    ensures var sent: seq<Byte> := written + [0xA0, 0xB0, 0x00, 0x00, InfoSize(file)];
      GetInfoRun(file, w) == Outcome(Ok(HexUpper(bs)), Wire(rest, sent))
    ensures Unhexlify(HexUpper(bs)) == Some(bs)
  {
    ReadBinaryAnswered(file, e, bs, sw1, sw2, rest, written);
    UnhexlifyHexUpper(bs);
  }

  /** The READ BINARY exchange with a card that answers INS, the file's
      bytes and a status word: the reply carries their upper-case hex. */
  lemma ReadBinaryAnswered(file: InfoFile, e: Queue, bs: seq<Byte>, sw1: Byte, sw2: Byte, rest: Queue, written: seq<Byte>)
    requires |e| == 5 && |bs| == InfoSize(file) as int && sw1 != 0x60
    ensures Transmit(ReadBinary("0000", InfoLength(file)), Wire(Answered(e, 0xB0, Arriving(bs), sw1, sw2) + rest, written))
      == Outcome(Ok(Reply(HexUpper(bs), StatusText(sw1, sw2))), Wire(rest, written + [0xA0, 0xB0, 0x00, 0x00, InfoSize(file)]))
  {
    ReadBinaryCommand(file);
    ReadCommandReply(Apdu(ReadBinary("0000", InfoLength(file))), 0xA0, 0xB0, 0x00, 0x00, InfoSize(file), e, bs, sw1, sw2, rest, written);
  }

  // ---------------------------------------------------------------------
  // `getNumInfo`

  /** `getNumInfo(numFile)`: select the file under DF_TELECOM, GET RESPONSE
      of 15 bytes, and the record geometry read from it. */
  function GetNumInfoRun(file: string, w: Wire): (o: Outcome<NumInfo>)
    ensures o.result.Ok? ==> o.result.value.recLen > 0 && o.result.value.recNum >= 0
  {
    var s := SetFileRun([Mf, DfTelecom, file], w);
    if s.result.Err? then Outcome(Err(s.result.fault), s.wire)
    else
      var r := Transmit(GetResponse("0F"), s.wire);
      if r.result.Err? then Outcome(Err(r.result.fault), r.wire)
      else Outcome(NumInfoOf(r.result.value.data), r.wire)
  }

  lemma GetResponseCommand()
    ensures var cmd := Apdu(GetResponse("0F"));
      |cmd| == 10 && HeaderParses(cmd) && HeaderBytes(cmd) == [0xA0, 0xC0, 0x00, 0x00, 0x0F]
  {
    var bs: seq<Byte> := [0xA0, 0xC0, 0x00, 0x00, 0x0F];
    assert UpperHex(0xA0) + UpperHex(0xC0) + UpperHex(0x00) + UpperHex(0x00) + UpperHex(0x0F) == "A0C000000F";
    HeaderOfBytes(Apdu(GetResponse("0F")), bs);
  }

  /** A card that answers the GET RESPONSE with fifteen bytes: the file
      size is bytes 2-3, the record length byte 14, and the number of
      records their quotient (a zero record length raises). */
  lemma GetNumInfoAnswered(file: string, w: Wire, e: Queue, bs: seq<Byte>, sw1: Byte, sw2: Byte, rest: Queue, written: seq<Byte>)
    requires |e| == 5 && |bs| == 15 && sw1 != 0x60
    requires SetFileRun([Mf, DfTelecom, file], w) == Outcome(Ok(()), Wire(Answered(e, 0xC0, Arriving(bs), sw1, sw2) + rest, written))
    ensures var o := GetNumInfoRun(file, w);
      var size, recLen := 256 * (bs[2] as int) + bs[3] as int, bs[14] as int;
      o.wire == Wire(rest, written + [0xA0, 0xC0, 0x00, 0x00, 0x0F]) &&
      (recLen == 0 ==> o.result == Err(DivisionByZero)) &&
      (recLen != 0 ==> o.result == Ok(NumInfo(size / recLen, recLen, recLen - 14)))
  {
    GetResponseAnswered(e, bs, sw1, sw2, rest, written);
    NumInfoOfResponse(bs);
  }

  /** The GET RESPONSE exchange with a card that answers INS, fifteen bytes
      and a status word: the reply carries their upper-case hex. */
  lemma GetResponseAnswered(e: Queue, bs: seq<Byte>, sw1: Byte, sw2: Byte, rest: Queue, written: seq<Byte>)
    requires |e| == 5 && |bs| == 15 && sw1 != 0x60
    ensures Transmit(GetResponse("0F"), Wire(Answered(e, 0xC0, Arriving(bs), sw1, sw2) + rest, written))
      == Outcome(Ok(Reply(HexUpper(bs), StatusText(sw1, sw2))), Wire(rest, written + [0xA0, 0xC0, 0x00, 0x00, 0x0F]))
  {
    GetResponseCommand();
    ReadCommandReply(Apdu(GetResponse("0F")), 0xA0, 0xC0, 0x00, 0x00, 0x0F, e, bs, sw1, sw2, rest, written);
  }

  // ---------------------------------------------------------------------
  // `getNum`

  /** The READ RECORD that `getNum` and `getSMS` send: record `recNum`,
      absolute mode "04", `recLen` bytes, both numbers as `"%02X"`. */
  function ReadRecordOf(recNum: nat, recLen: nat): Command {
    ReadRecord(Format02(recNum, true), "04", Format02(recLen, true))
  }

  lemma ReadRecordCommand(recNum: Byte, recLen: Byte)
    ensures var cmd := Apdu(ReadRecordOf(recNum, recLen));
      |cmd| == 10 && HeaderParses(cmd) && HeaderBytes(cmd) == [0xA0, 0xB2, recNum, 0x04, recLen]
  {
    Format02Byte(recNum, true);
    Format02Byte(recLen, true);
    var bs: seq<Byte> := [0xA0, 0xB2, recNum, 0x04, recLen];
    assert UpperHex(0xA0) == "A0" && UpperHex(0xB2) == "B2" && UpperHex(0x04) == "04";
    HeaderOfBytes(Apdu(ReadRecordOf(recNum, recLen)), bs);
  }

  /** The READ RECORD exchange with a card that answers INS, the record's
      bytes and a status word: the reply carries their upper-case hex. */
  lemma ReadRecordAnswered(recNum: Byte, recLen: Byte, e: Queue, bs: seq<Byte>,
                           sw1: Byte, sw2: Byte, rest: Queue, written: seq<Byte>)
    requires |e| == 5 && |bs| == recLen as int && sw1 != 0x60
    ensures Transmit(ReadRecordOf(recNum, recLen), Wire(Answered(e, 0xB2, Arriving(bs), sw1, sw2) + rest, written))
      == Outcome(Ok(Reply(HexUpper(bs), StatusText(sw1, sw2))), Wire(rest, written + [0xA0, 0xB2, recNum, 0x04, recLen]))
  {
    ReadRecordCommand(recNum, recLen);
    ReadCommandReply(Apdu(ReadRecordOf(recNum, recLen)), 0xA0, 0xB2, recNum, 0x04, recLen, e, bs, sw1, sw2, rest, written);
  }

  /** `getNum(numFile, recNum, recLen, nameLen)`: select the file, READ
      RECORD, and the (name, number) pair of the record text. */
  function GetNumRun(file: string, recNum: nat, recLen: nat, nameLen: int, w: Wire): Outcome<(string, string)> {
    var s := SetFileRun([Mf, DfTelecom, file], w);
    if s.result.Err? then Outcome(Err(s.result.fault), s.wire)
    else
      var r := Transmit(ReadRecordOf(recNum, recLen), s.wire);
      if r.result.Err? then Outcome(Err(r.result.fault), r.wire)
      else Outcome(NumRecord(r.result.value.data, nameLen), r.wire)
  }

  /** A card that answers the READ RECORD with the record's bytes: the pair
      is read from their upper-case hex text. */
  lemma GetNumAnswered(file: string, recNum: Byte, recLen: Byte, nameLen: int, w: Wire, e: Queue, bs: seq<Byte>,
                       sw1: Byte, sw2: Byte, rest: Queue, written: seq<Byte>)
    requires |e| == 5 && |bs| == recLen as int && sw1 != 0x60
    requires SetFileRun([Mf, DfTelecom, file], w) == Outcome(Ok(()), Wire(Answered(e, 0xB2, Arriving(bs), sw1, sw2) + rest, written))
    ensures var sent: seq<Byte> := written + [0xA0, 0xB2, recNum, 0x04, recLen];
      GetNumRun(file, recNum, recLen, nameLen, w) == Outcome(NumRecord(HexUpper(bs), nameLen), Wire(rest, sent))
  {
    ReadRecordAnswered(recNum, recLen, e, bs, sw1, sw2, rest, written);
  }

  // ---------------------------------------------------------------------
  // `setNum`

  /** An UPDATE RECORD's outcome as `setNum` reports it: 0 once sent. */
  function Updated(o: Outcome<Reply>): Outcome<Option<int>> {
    if o.result.Err? then Outcome(Err(o.result.fault), o.wire) else Outcome(Ok(Some(0)), o.wire)
  }

  /** `setNum(numFile, recNum, recLen, nameLen, name, number)`: select the
      file and build the record; then EF_ADN is written at `recNum`
      (absolute mode), EF_LND as the next record (mode "03", record "00"),
      EF_FDN is not written and gives 1, and any other file gives `None`. */
  function SetNumRun(file: string, recNum: nat, recLen: nat, nameLen: int, name: string, number: string, w: Wire)
    : Outcome<Option<int>>
  {
    var s := SetFileRun([Mf, DfTelecom, file], w);
    if s.result.Err? then Outcome(Err(s.result.fault), s.wire)
    else match NumRecordData(name, number, nameLen, recLen)
      case Err(f) => Outcome(Err(f), s.wire)
      case Ok(data) =>
        if file == EfAdn then
          Updated(Transmit(UpdateRecord(Format02(recNum, true), "04", Format02(recLen, true), data), s.wire))
        else if file == EfFdn then Outcome(Ok(Some(1)), s.wire)
        else if file == EfLnd then
          Updated(Transmit(UpdateRecord("00", "03", Format02(recLen, true), data), s.wire))
        else Outcome(Ok(None), s.wire)
  }

  /** For EF_FDN nothing is written after the SELECTs, and the answer is 1. */
  lemma SetNumFdn(recNum: nat, recLen: nat, nameLen: int, name: string, number: string, w: Wire)
    ensures var s := SetFileRun([Mf, DfTelecom, EfFdn], w);
      var o := SetNumRun(EfFdn, recNum, recLen, nameLen, name, number, w);
      o.wire == s.wire && (o.result.Ok? ==> o.result.value == Some(1))
  {
  }

  /** A file other than the three phone books: nothing is written after
      the SELECTs and the answer is `None`. */
  lemma SetNumOtherFile(file: string, recNum: nat, recLen: nat, nameLen: int, name: string, number: string, w: Wire)
    requires file != EfAdn && file != EfFdn && file != EfLnd
    ensures var s := SetFileRun([Mf, DfTelecom, file], w);
      var o := SetNumRun(file, recNum, recLen, nameLen, name, number, w);
      o.wire == s.wire && (o.result.Ok? ==> o.result.value.None?)
  {
  }

  /** The UPDATE RECORD that `setNum` sends to EF_ADN for a record of the
      file's own geometry: P3 is the record length and the body is exactly
      that many bytes, so `sendAPDU` writes the whole record; an empty name
      writes 0xFF throughout. */
  lemma SetNumAdnCommand(recNum: Byte, recLen: Byte, name: string, number: string)
    requires recLen > 0
    requires name != [] ==> NameFits(name, recLen as int - 14) && NumberFits(number)
    ensures var d := NumRecordData(name, number, recLen as int - 14, recLen);
      d.Ok? && |d.value| == 2 * recLen as int &&
      (name == [] ==> d.value == Padding.Repeat("FF", recLen as int))
    ensures var d := NumRecordData(name, number, recLen as int - 14, recLen).value;
      var cmd := Apdu(UpdateRecord(Format02(recNum, true), "04", Format02(recLen, true), d));
      |cmd| == 10 + 2 * recLen as int && |cmd| != 10 && PairAt(cmd, 2) == Ok(recNum) && PairAt(cmd, 4) == Ok(recLen)
  {
    NumRecordLength(name, number, recLen as int);
    UpdateRecordHeader(recNum, recLen, NumRecordData(name, number, recLen as int - 14, recLen).value);
  }

  /** An UPDATE RECORD in absolute mode with a body of `recLen` bytes of
      text: its P1 and P3 pairs are the record number and length. */
  lemma UpdateRecordHeader(recNum: Byte, recLen: Byte, d: string)
    requires |d| == 2 * recLen as int
    ensures var cmd := Apdu(UpdateRecord(Format02(recNum, true), "04", Format02(recLen, true), d));
      |cmd| == 10 + 2 * recLen as int && PairAt(cmd, 2) == Ok(recNum) && PairAt(cmd, 4) == Ok(recLen)
  {
    Format02Byte(recNum, true);
    Format02Byte(recLen, true);
    var cmd := Apdu(UpdateRecord(Format02(recNum, true), "04", Format02(recLen, true), d));
    assert cmd[4..6] == UpperHex(recNum) && cmd[8..10] == UpperHex(recLen);
    PairOfUpperHex(cmd, 2, recNum);
    PairOfUpperHex(cmd, 4, recLen);
  }

  lemma PairOfUpperHex(cmd: string, k: nat, b: Byte)
    requires 2 * k + 2 <= |cmd| && cmd[2 * k..2 * k + 2] == UpperHex(b)
    ensures PairAt(cmd, k) == Ok(b)
  {
    assert cmd[2 * k] == UpperHex(b)[0] && cmd[2 * k + 1] == UpperHex(b)[1];
  }

  // ---------------------------------------------------------------------
  // `getNums`

  /** What `getNums` returns: the `numbers` dictionary and `free_slots`. */
  datatype Phonebook = Phonebook(numbers: map<int, (string, string)>, freeSlots: seq<int>)

  /** Python's `list(range(lo, hi))`. */
  function Range(lo: int, hi: int): (r: seq<int>)
    ensures |r| == if hi > lo then hi - lo else 0
    ensures forall j :: 0 <= j < |r| ==> r[j] == lo + j
  {
    seq(if hi > lo then hi - lo else 0, j => lo + j)
  }

  /** Reading one record: record number and line in, the outcome of
      `getNum` out. */
  type Reader = (nat, Wire) -> Outcome<(string, string)>

  /** `getNum(numFile, i, recLen, nameLen)` as the loop of `getNums` calls it. */
  function RecordReader(file: string, info: NumInfo): Reader
    requires info.recLen > 0
  {
    (j: nat, v: Wire) => GetNumRun(file, j, info.recLen, info.nameLen, v)
  }

  /** The loop of `getNums` from record `i` on, with the entries found so
      far: a record with a name and a number is added; the first one
      without stops the loop and lists `range(i, recNum)` as free. */
  function ScanNums(read: Reader, recNum: int, i: nat, numbers: map<int, (string, string)>, w: Wire): Outcome<Phonebook>
    decreases recNum + 1 - i
  {
    if i > recNum then Outcome(Ok(Phonebook(numbers, [])), w)
    else
      var o := read(i, w);
      if o.result.Err? then Outcome(Err(o.result.fault), o.wire)
      else if o.result.value.0 != "" && o.result.value.1 != "" then
        ScanNums(read, recNum, i + 1, numbers[i := o.result.value], o.wire)
      else Outcome(Ok(Phonebook(numbers, Range(i, recNum))), o.wire)
  }

  /** `getNums(numFile)`: the geometry, then records 1 .. recNum. */
  function GetNumsRun(file: string, w: Wire): Outcome<Phonebook> {
    var g := GetNumInfoRun(file, w);
    if g.result.Err? then Outcome(Err(g.result.fault), g.wire)
    else ScanNums(RecordReader(file, g.result.value), g.result.value.recNum, 1, map[], g.wire)
  }

  /** Every entry has a name and a number. */
  predicate AllFilled(numbers: map<int, (string, string)>) {
    forall j :: j in numbers ==> numbers[j].0 != "" && numbers[j].1 != ""
  }

  /** `p` holds the entries of `numbers` and records `i .. k - 1`, and lists
      `k .. recNum - 1` as free when record `k` was read and was empty. */
  ghost predicate ScannedTo(p: Phonebook, numbers: map<int, (string, string)>, i: int, k: int, recNum: int) {
    (forall j :: j in p.numbers <==> j in numbers || i <= j < k) &&
    p.freeSlots == (if k <= recNum then Range(k, recNum) else [])
  }

  /** The shape of a scan from record `i`: the entries are the earlier ones
      plus records `i .. k - 1` for some `k`, each with a name and a
      number; the free slots are `k .. recNum - 1` when record `k` was
      empty, and none when every record held an entry. */
  ghost predicate Scanned(p: Phonebook, numbers: map<int, (string, string)>, i: int, recNum: int) {
    AllFilled(p.numbers) &&
    exists k :: i <= k && (k <= recNum + 1 || k == i) && ScannedTo(p, numbers, i, k, recNum)
  }

  /** Every scan from record `i` has that shape, whatever the records read. */
  lemma {:induction false} ScanShape(read: Reader, recNum: int, i: nat, numbers: map<int, (string, string)>, w: Wire)
    requires i >= 1 && AllFilled(numbers)
    requires ScanNums(read, recNum, i, numbers, w).result.Ok?
    ensures Scanned(ScanNums(read, recNum, i, numbers, w).result.value, numbers, i, recNum)
    decreases recNum + 1 - i
  {
    var p := ScanNums(read, recNum, i, numbers, w).result.value;
    if i > recNum {
      ScannedNone(p, numbers, i, recNum);
    } else {
      var o := read(i, w);
      var e := o.result.value;
      if e.0 != "" && e.1 != "" {
        FilledOneMore(numbers, i, e);
        ScanShape(read, recNum, i + 1, numbers[i := e], o.wire);
        ScannedOneMore(p, numbers, e, i, recNum);
      } else {
        ScannedNone(p, numbers, i, recNum);
      }
    }
  }

  /** A scan that stops at record `i` adds nothing. */
  lemma ScannedNone(p: Phonebook, numbers: map<int, (string, string)>, i: int, recNum: int)
    requires AllFilled(numbers) && p.numbers == numbers
    requires p.freeSlots == if i <= recNum then Range(i, recNum) else []
    ensures Scanned(p, numbers, i, recNum)
  {
    assert ScannedTo(p, numbers, i, i, recNum);
  }

  lemma FilledOneMore(numbers: map<int, (string, string)>, i: int, entry: (string, string))
    requires AllFilled(numbers) && entry.0 != "" && entry.1 != ""
    ensures AllFilled(numbers[i := entry])
  {
  }

  /** A scan from `i + 1` after record `i` was an entry is a scan from `i`. */
  lemma ScannedOneMore(p: Phonebook, numbers: map<int, (string, string)>, entry: (string, string), i: int, recNum: int)
    requires i <= recNum && Scanned(p, numbers[i := entry], i + 1, recNum)
    ensures Scanned(p, numbers, i, recNum)
  {
    var k :| i + 1 <= k && (k <= recNum + 1 || k == i + 1) && ScannedTo(p, numbers[i := entry], i + 1, k, recNum);
    assert ScannedTo(p, numbers, i, k, recNum);
  }

  /** `getNums`: the entries are records 1 .. k - 1 for some `k`, each with
      a name and a number, and the free slots are `k .. recNum - 1`: the
      last record is never listed as free, even when it is empty. */
  lemma GetNumsShape(file: string, w: Wire)
    requires GetNumsRun(file, w).result.Ok?
    ensures var info := GetNumInfoRun(file, w).result.value;
      var p := GetNumsRun(file, w).result.value;
      AllFilled(p.numbers) &&
      (exists k :: 1 <= k <= info.recNum + 1 && ScannedTo(p, map[], 1, k, info.recNum)) &&
      info.recNum !in p.freeSlots
  {
    var g := GetNumInfoRun(file, w);
    var info := g.result.value;
    var none: map<int, (string, string)> := map[];
    ScanShape(RecordReader(file, info), info.recNum, 1, none, g.wire);
    var p := GetNumsRun(file, w).result.value;
    var k :| 1 <= k && (k <= info.recNum + 1 || k == 1) && ScannedTo(p, none, 1, k, info.recNum);
    LastNeverFree(p, none, k, info.recNum);
  }

  /** The free slots stop short of `recNum`. */
  lemma LastNeverFree(p: Phonebook, numbers: map<int, (string, string)>, k: int, recNum: int)
    requires 1 <= k && (k <= recNum + 1 || k == 1) && recNum >= 0 && ScannedTo(p, numbers, 1, k, recNum)
    ensures k <= recNum + 1 && recNum !in p.freeSlots
  {
  }

  /** The line as record `j` is read, when a scan from record `i` on
      `w` has read records `i .. j - 1` before it. */
  function WireBefore(read: Reader, i: nat, j: nat, w: Wire): Wire
    decreases j - i
  {
    if j <= i then w else WireBefore(read, i + 1, j, read(i, w).wire)
  }

  /** What each entry holds: the entries made before record `i` are kept,
      and entry `j` from `i` on is the record read at `j`, name and number,
      on the line as the scan left it after records `i .. j - 1`. */
  lemma {:induction false} ScanEntries(read: Reader, recNum: int, i: nat, numbers: map<int, (string, string)>, w: Wire)
    requires forall j :: j in numbers ==> j < i
    requires ScanNums(read, recNum, i, numbers, w).result.Ok?
    ensures var p := ScanNums(read, recNum, i, numbers, w).result.value;
      (forall j :: j in numbers ==> j in p.numbers && p.numbers[j] == numbers[j]) &&
      (forall j: nat :: j in p.numbers && i <= j ==> read(j, WireBefore(read, i, j, w)).result == Ok(p.numbers[j]))
    decreases recNum + 1 - i
  {
    var p := ScanNums(read, recNum, i, numbers, w).result.value;
    if i <= recNum {
      var o := read(i, w);
      var e := o.result.value;
      if e.0 != "" && e.1 != "" {
        ScanEntries(read, recNum, i + 1, numbers[i := e], o.wire);
        forall j: nat | j in p.numbers && i <= j
          ensures read(j, WireBefore(read, i, j, w)).result == Ok(p.numbers[j])
        {
          if j > i {
            assert WireBefore(read, i, j, w) == WireBefore(read, i + 1, j, o.wire);
          }
        }
      }
    }
  }

  /** `getNums`: entry `j` is exactly what `getNum(numFile, j, recLen,
      nameLen)` returned, on the line as reading records `1 .. j - 1` left
      it. */
  lemma GetNumsEntries(file: string, w: Wire)
    requires GetNumsRun(file, w).result.Ok?
    ensures var g := GetNumInfoRun(file, w);
      var info := g.result.value;
      var p := GetNumsRun(file, w).result.value;
      forall j: nat :: j in p.numbers ==>
        GetNumRun(file, j, info.recLen, info.nameLen, WireBefore(RecordReader(file, info), 1, j, g.wire)).result == Ok(p.numbers[j])
  {
    var g := GetNumInfoRun(file, w);
    var info := g.result.value;
    var none: map<int, (string, string)> := map[];
    ScanEntries(RecordReader(file, info), info.recNum, 1, none, g.wire);
    ScanShape(RecordReader(file, info), info.recNum, 1, none, g.wire);
  }

  // ---------------------------------------------------------------------
  // `getSMS`

  /** `getSMS(recNum, recLen)`: select EF_SMS, READ RECORD, and the record
      read as free or as a message. */
  function GetSmsRun(recNum: nat, recLen: nat, w: Wire): Outcome<SmsSlot> {
    var s := SetFileRun([Mf, DfTelecom, EfSms], w);
    if s.result.Err? then Outcome(Err(s.result.fault), s.wire)
    else
      var r := Transmit(ReadRecordOf(recNum, recLen), s.wire);
      if r.result.Err? then Outcome(Err(r.result.fault), r.wire)
      else Outcome(SmsSlotOf(r.result.value.data), r.wire)
  }

  lemma UpperHexFF(b: Byte)
    ensures UpperHex(b) == "FF" <==> b == 0xFF
  {
    if UpperHex(b) == "FF" {
      assert DigitValue(UpperHex(b)[0]) == b / 16 && DigitValue(UpperHex(b)[1]) == b % 16;
    }
  }

  /** A card that answers the READ RECORD with the record's bytes: the
      record is free exactly when bit 0 of its status byte is clear and
      its second byte is 0xFF. */
  lemma GetSmsAnswered(recNum: Byte, recLen: Byte, w: Wire, e: Queue, bs: seq<Byte>,
                       sw1: Byte, sw2: Byte, rest: Queue, written: seq<Byte>)
    requires |e| == 5 && |bs| == recLen as int && recLen >= 2 && sw1 != 0x60
    requires SetFileRun([Mf, DfTelecom, EfSms], w) == Outcome(Ok(()), Wire(Answered(e, 0xB2, Arriving(bs), sw1, sw2) + rest, written))
    ensures var o := GetSmsRun(recNum, recLen, w);
      o.result == SmsSlotOf(HexUpper(bs)) &&
      (o.result == Ok(Free) <==> bs[0] % 2 == 0 && bs[1] == 0xFF)
  {
    ReadRecordAnswered(recNum, recLen, e, bs, sw1, sw2, rest, written);
    SmsRecordFree(bs);
  }

  /** The record text of bytes `bs` reads as free exactly when bit 0 of the
      status byte is clear and the second byte is 0xFF. */
  lemma SmsRecordFree(bs: seq<Byte>)
    requires |bs| >= 2
    ensures SmsSlotOf(HexUpper(bs)) == Ok(Free) <==> bs[0] % 2 == 0 && bs[1] == 0xFF
  {
    var d := HexUpper(bs);
    ParseResponseByte(bs, 0);
    HexUpperAt(bs, 1);
    assert Slice(d, 2, 4) == UpperHex(bs[1]);
    UpperHexFF(bs[1]);
    SmsSlotFree(d);
  }
}
