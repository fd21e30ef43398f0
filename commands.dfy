/** The command builders `_SELECT` ... `_TERMINAL_RESPONSE`: each pastes a
    fixed "A0" class byte, the instruction byte of GSM 11.11 section 9.2 and
    its parameters in front of the caller's hexadecimal arguments, and hands
    the text to `sendAPDU`. */
module Commands {
  import opened Hex

  /** One command with the hexadecimal text its builder receives. */
  datatype Command =
    | Select(fileId: string)
    | Status(lgth: string)
    | ReadBinary(off: string, lgth: string)
    | UpdateBinary(off: string, lgth: string, data: string)
    | ReadRecord(recNum: string, mode: string, lgth: string)
    | UpdateRecord(recNum: string, mode: string, lgth: string, data: string)
    | Seek(typeMode: string, lgth: string, data: string)
    | Increase(typeMode: string, lgth: string, data: string)
    | VerifyChv(chvNum: string, data: string)
    | ChangeChv(chvNum: string, data: string)
    | DisableChv(data: string)
    | EnableChv(data: string)
    | UnblockChv(chvNum: string, data: string)
    | Invalidate
    | Rehabilitate
    | RunGsmAlgorithm(data: string)
    | Sleep
    | GetResponse(lgth: string)
    | TerminalProfile(lgth: string)
    | Envelope(lgth: string)
    | Fetch(lgth: string)
    | TerminalResponse(lgth: string)

  /** The command text each builder passes to `sendAPDU`. */
  function Apdu(c: Command): string {
    match c
    case Select(fileId) => "A0A4000002" + fileId
    case Status(lgth) => "A0F20000" + lgth
    case ReadBinary(off, lgth) => "A0B0" + off + lgth
    case UpdateBinary(off, lgth, data) => "A0D6" + off + lgth + data
    case ReadRecord(recNum, mode, lgth) => "A0B2" + recNum + mode + lgth
    case UpdateRecord(recNum, mode, lgth, data) => "A0DC" + recNum + mode + lgth + data
    case Seek(typeMode, lgth, data) => "A0A200" + typeMode + lgth + data
    case Increase(typeMode, lgth, data) => "A032000003" + typeMode + lgth + data
    case VerifyChv(chvNum, data) => "A02000" + chvNum + "08" + data
    case ChangeChv(chvNum, data) => "A02400" + chvNum + "10" + data
    case DisableChv(data) => "A026000108" + data
    case EnableChv(data) => "A028000108" + data
    case UnblockChv(chvNum, data) => "A02C00" + chvNum + "10" + data
    case Invalidate => "A004000000"
    case Rehabilitate => "A044000000"
    case RunGsmAlgorithm(data) => "A088000010" + data
    case Sleep => "A0FA000000"
    case GetResponse(lgth) => "A0C00000" + lgth
    case TerminalProfile(lgth) => "A0100000" + lgth
    case Envelope(lgth) => "A0C20000" + lgth
    case Fetch(lgth) => "A0120000" + lgth
    case TerminalResponse(lgth) => "A0140000" + lgth
  }

  /** The instruction byte of each command, from the coding table of
      GSM 11.11 section 9.2. */
  function Ins(c: Command): Byte {
    match c
    case Select(_) => 0xA4
    case Status(_) => 0xF2
    case ReadBinary(_, _) => 0xB0
    case UpdateBinary(_, _, _) => 0xD6
    case ReadRecord(_, _, _) => 0xB2
    case UpdateRecord(_, _, _, _) => 0xDC
    case Seek(_, _, _) => 0xA2
    case Increase(_, _, _) => 0x32
    case VerifyChv(_, _) => 0x20
    case ChangeChv(_, _) => 0x24
    case DisableChv(_) => 0x26
    case EnableChv(_) => 0x28
    case UnblockChv(_, _) => 0x2C
    case Invalidate => 0x04
    case Rehabilitate => 0x44
    case RunGsmAlgorithm(_) => 0x88
    case Sleep => 0xFA
    case GetResponse(_) => 0xC0
    case TerminalProfile(_) => 0x10
    case Envelope(_) => 0xC2
    case Fetch(_) => 0x12
    case TerminalResponse(_) => 0x14
  }

  /** The arguments have the widths GSM 11.11 gives their fields: two hex
      characters per one-byte parameter, four for a file id or an offset. */
  predicate WellFormed(c: Command) {
    match c
    case Select(fileId) => |fileId| == 4
    case Status(lgth) => |lgth| == 2
    case ReadBinary(off, lgth) => |off| == 4 && |lgth| == 2
    case UpdateBinary(off, lgth, _) => |off| == 4 && |lgth| == 2
    case ReadRecord(recNum, mode, lgth) => |recNum| == 2 && |mode| == 2 && |lgth| == 2
    case UpdateRecord(recNum, mode, lgth, _) => |recNum| == 2 && |mode| == 2 && |lgth| == 2
    case Seek(typeMode, lgth, _) => |typeMode| == 2 && |lgth| == 2
    case Increase(typeMode, lgth, _) => |typeMode| == 2 && |lgth| == 2
    case VerifyChv(chvNum, _) => |chvNum| == 2
    case ChangeChv(chvNum, _) => |chvNum| == 2
    case UnblockChv(chvNum, _) => |chvNum| == 2
    case GetResponse(lgth) => |lgth| == 2
    case TerminalProfile(lgth) => |lgth| == 2
    case Envelope(lgth) => |lgth| == 2
    case Fetch(lgth) => |lgth| == 2
    case TerminalResponse(lgth) => |lgth| == 2
    case _ => true
  }

  /** The P3 field: the caller's length argument or the builder's constant. */
  function P3(c: Command): string {
    match c
    case Select(_) => "02"
    case Status(lgth) => lgth
    case ReadBinary(_, lgth) => lgth
    case UpdateBinary(_, lgth, _) => lgth
    case ReadRecord(_, _, lgth) => lgth
    case UpdateRecord(_, _, lgth, _) => lgth
    case Seek(_, lgth, _) => lgth
    case Increase(_, _, _) => "03"
    case VerifyChv(_, _) => "08"
    case ChangeChv(_, _) => "10"
    case DisableChv(_) => "08"
    case EnableChv(_) => "08"
    case UnblockChv(_, _) => "10"
    case Invalidate => "00"
    case Rehabilitate => "00"
    case RunGsmAlgorithm(_) => "10"
    case Sleep => "00"
    case GetResponse(lgth) => lgth
    case TerminalProfile(lgth) => lgth
    case Envelope(lgth) => lgth
    case Fetch(lgth) => lgth
    case TerminalResponse(lgth) => lgth
  }

  /** Whatever follows the five header bytes: the data sent to the card. */
  function Body(c: Command): string {
    match c
    case Select(fileId) => fileId
    case UpdateBinary(_, _, data) => data
    case UpdateRecord(_, _, _, data) => data
    case Seek(_, _, data) => data
    case Increase(typeMode, lgth, data) => typeMode + lgth + data
    case VerifyChv(_, data) => data
    case ChangeChv(_, data) => data
    case DisableChv(data) => data
    case EnableChv(data) => data
    case UnblockChv(_, data) => data
    case RunGsmAlgorithm(data) => data
    case _ => ""
  }

  /** Every command text starts with the class byte "A0" and the command's
      instruction byte in upper-case hex. */
  lemma ApduHeader(c: Command)
    ensures |Apdu(c)| >= 4 && Apdu(c)[..4] == "A0" + UpperHex(Ins(c))
  {
    if c.Select? || c.Status? || c.ReadBinary? || c.UpdateBinary? || c.ReadRecord? || c.UpdateRecord? || c.Seek? || c.Increase? {
      HeaderOfGroup1(c);
    } else if c.VerifyChv? || c.ChangeChv? || c.DisableChv? || c.EnableChv? || c.UnblockChv? || c.Invalidate? || c.Rehabilitate? {
      HeaderOfGroup2(c);
    } else {
      HeaderOfGroup3(c);
    }
  }

  lemma HeaderOfGroup1(c: Command)
    requires c.Select? || c.Status? || c.ReadBinary? || c.UpdateBinary? || c.ReadRecord? || c.UpdateRecord? || c.Seek? || c.Increase?
    ensures |Apdu(c)| >= 4 && Apdu(c)[..4] == "A0" + UpperHex(Ins(c))
  {
    var h := Apdu(c)[..4];
    match c {
      case Select(_) => assert h == "A0A4";
      case Status(_) => assert h == "A0F2";
      case ReadBinary(_, _) => assert h == "A0B0";
      case UpdateBinary(_, _, _) => assert h == "A0D6";
      case ReadRecord(_, _, _) => assert h == "A0B2";
      case UpdateRecord(_, _, _, _) => assert h == "A0DC";
      case Seek(_, _, _) => assert h == "A0A2";
      case Increase(_, _, _) => assert h == "A032";
    }
  }

  lemma HeaderOfGroup2(c: Command)
    requires c.VerifyChv? || c.ChangeChv? || c.DisableChv? || c.EnableChv? || c.UnblockChv? || c.Invalidate? || c.Rehabilitate?
    ensures |Apdu(c)| >= 4 && Apdu(c)[..4] == "A0" + UpperHex(Ins(c))
  {
    var h := Apdu(c)[..4];
    match c {
      case VerifyChv(_, _) => assert h == "A020";
      case ChangeChv(_, _) => assert h == "A024";
      case DisableChv(_) => assert h == "A026";
      case EnableChv(_) => assert h == "A028";
      case UnblockChv(_, _) => assert h == "A02C";
      case Invalidate => assert h == "A004";
      case Rehabilitate => assert h == "A044";
    }
  }

  lemma HeaderOfGroup3(c: Command)
    requires c.RunGsmAlgorithm? || c.Sleep? || c.GetResponse? || c.TerminalProfile? || c.Envelope? || c.Fetch? || c.TerminalResponse?
    ensures |Apdu(c)| >= 4 && Apdu(c)[..4] == "A0" + UpperHex(Ins(c))
  {
    var h := Apdu(c)[..4];
    match c {
      case RunGsmAlgorithm(_) => assert h == "A088";
      case Sleep => assert h == "A0FA";
      case GetResponse(_) => assert h == "A0C0";
      case TerminalProfile(_) => assert h == "A010";
      case Envelope(_) => assert h == "A0C2";
      case Fetch(_) => assert h == "A012";
      case TerminalResponse(_) => assert h == "A014";
    }
  }

  /** A well-formed command is the four header characters, P1 P2, P3 and
      then its body; so `sendAPDU` reads from the card (the command is ten
      characters) exactly when the body is empty. This holds for TERMINAL
      PROFILE, ENVELOPE and TERMINAL RESPONSE too, which the library builds
      without any data. */
  lemma ApduFields(c: Command)
    requires WellFormed(c)
    ensures |Apdu(c)| == 10 + |Body(c)|
    ensures Apdu(c)[8..10] == P3(c) && Apdu(c)[10..] == Body(c)
    ensures |Apdu(c)| == 10 <==> Body(c) == ""
  {
    if c.Select? || c.Status? || c.ReadBinary? || c.UpdateBinary? || c.ReadRecord? || c.UpdateRecord? || c.Seek? || c.Increase? {
      FieldsOfGroup1(c);
    } else if c.VerifyChv? || c.ChangeChv? || c.DisableChv? || c.EnableChv? || c.UnblockChv? || c.Invalidate? || c.Rehabilitate? {
      FieldsOfGroup2(c);
    } else {
      FieldsOfGroup3(c);
    }
    Fields(Apdu(c), Apdu(c)[..8], P3(c), Body(c));
  }

  lemma FieldsOfGroup1(c: Command)
    requires WellFormed(c) && (c.Select? || c.Status? || c.ReadBinary? || c.UpdateBinary? || c.ReadRecord? || c.UpdateRecord? || c.Seek? || c.Increase?)
    ensures Apdu(c) == Apdu(c)[..8] + P3(c) + Body(c)
  {
    var a := Apdu(c);
    var h: string := a[..8];
    match c {
      case Select(_) => assert a == h + "02" + Body(c);
      case Status(_) => assert a == h + P3(c) + Body(c);
      case ReadBinary(_, _) => assert a == h + P3(c) + Body(c);
      case UpdateBinary(_, _, _) => assert a == h + P3(c) + Body(c);
      case ReadRecord(_, _, _) => assert a == h + P3(c) + Body(c);
      case UpdateRecord(_, _, _, _) => assert a == h + P3(c) + Body(c);
      case Seek(_, _, _) => assert a == h + P3(c) + Body(c);
      case Increase(_, _, _) => assert a == h + P3(c) + Body(c);
    }
  }

  lemma FieldsOfGroup2(c: Command)
    requires WellFormed(c) && (c.VerifyChv? || c.ChangeChv? || c.DisableChv? || c.EnableChv? || c.UnblockChv? || c.Invalidate? || c.Rehabilitate?)
    ensures Apdu(c) == Apdu(c)[..8] + P3(c) + Body(c)
  {
    var a := Apdu(c);
    var h: string := a[..8];
    match c {
      case VerifyChv(_, _) => assert a == h + P3(c) + Body(c);
      case ChangeChv(_, _) => assert a == h + P3(c) + Body(c);
      case DisableChv(_) => assert a == h + P3(c) + Body(c);
      case EnableChv(_) => assert a == h + P3(c) + Body(c);
      case UnblockChv(_, _) => assert a == h + P3(c) + Body(c);
      case Invalidate => assert a == h + P3(c) + Body(c);
      case Rehabilitate => assert a == h + P3(c) + Body(c);
    }
  }

  lemma FieldsOfGroup3(c: Command)
    requires WellFormed(c) && (c.RunGsmAlgorithm? || c.Sleep? || c.GetResponse? || c.TerminalProfile? || c.Envelope? || c.Fetch? || c.TerminalResponse?)
    ensures Apdu(c) == Apdu(c)[..8] + P3(c) + Body(c)
  {
    var a := Apdu(c);
    var h: string := a[..8];
    match c {
      case RunGsmAlgorithm(_) => assert a == h + P3(c) + Body(c);
      case Sleep => assert a == h + P3(c) + Body(c);
      case GetResponse(_) => assert a == h + P3(c) + Body(c);
      case TerminalProfile(_) => assert a == h + P3(c) + Body(c);
      case Envelope(_) => assert a == h + P3(c) + Body(c);
      case Fetch(_) => assert a == h + P3(c) + Body(c);
      case TerminalResponse(_) => assert a == h + P3(c) + Body(c);
    }
  }

  lemma Fields(a: string, h: string, p3: string, body: string)
    requires |h| == 8 && |p3| == 2 && a == h + p3 + body
    ensures |a| == 10 + |body| && a[8..10] == p3 && a[10..] == body
  {
  }
}
