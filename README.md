# pySIMlib in Dafny

A model of `pySIMlib`, a Python 2 library that talks to a GSM SIM card through a serial-port
reader. The model covers the library's own logic:

- the character and number codecs: semi-octet phone numbers (GSM 04.08 section 10.5.4.7), the
  GSM 03.38 default alphabet, 7-bit septet unpacking, PIN and string padding;
- the T=0 exchange of `sendAPDU` (ISO/IEC 7816-3 section 10.3). The header bytes are echoed, NULL
  (0x60) procedure bytes are skipped, the data phase runs in the direction the command length
  gives, and the status word comes back in lower case;
- the answer-to-reset loop of `openSession` (ISO/IEC 7816-3 section 8);
- the session fields (`state`, the CHV1/CHV2 fields, `FDN_available`) and the operations that
  change them: `checkCHV`, `verPIN`, `enPIN`, `chgPIN`, `disPIN`;
- the GSM 11.11 section 9.2 command builders and `setFile`;
- the phone-book records of EF_ADN/EF_FDN/EF_LND (GSM 11.11 section 10.5.1): `getNumInfo`,
  `getNum`, `setNum`, `getNums`;
- EF_SMS records and the SMS-DELIVER TPDU (GSM 11.11 section 10.5.3, GSM 03.40 sections 9.2.2.1
  and 9.2.3.11): `getSMS`, `smsFromData`, `convertTimestamp`.

The serial port is a `SerialPort` object: a queue of bytes still to arrive and a log of every
byte written. A `None` in the queue is a quiet period longer than the one-second read timeout,
and an exhausted queue times out on every read. A Python exception becomes `Err(fault)`.

Each operation is given twice:

- as a function of the line, `XRun`/`Exchange` in `Transport`, `Session` and `Phonebook`, about
  which the lemmas are proved;
- as a method of the class `Card.SimCard`, which updates the fields in place and drives the port
  byte by byte in loops. Each method's postcondition equates its result, its new fields and the
  port's new state with that function.

The loop-based codecs (`swapNibbles`, the phone-number, alphabet and septet converters) are
methods with loop invariants, proved equal to the function that specifies them.

Modules: `Wrappers` (Option, Result, faults), `Hex` (Python's `int(x, 16)`, `"%02X"`, slicing,
`hexlify`/`unhexlify`), `PhoneNumber`, `Alphabet`, `Septets`, `Padding`, `Commands`,
`Transport`, `Session`, `Records`, `Messages`, `Phonebook`, `Card`.

## Model

| member | source | states |
|---|---|---|
| `Hex.Format02RoundTrip` | pySIMlib.py:323-324 | `int("%02x" % n, 16) == n`; the text has two digits exactly when n < 256 |
| `Hex.UnhexlifyHexUpper` | pySIMlib.py:187-191 | `unhexlify` turns the data text of `sendAPDU` back into the bytes received |
| `Hex.UnhexlifyHexlify` | pySIMlib.py:492 | `unhexlify(hexlify(bs)) == bs` |
| `Hex.ParseResponseByte` | pySIMlib.py:323 | `int(data[2i:2i+2], 16)` on a reply is byte i |
| `Hex.ParseResponseWord` | pySIMlib.py:445 | `int(data[2i:2i+4], 16)` on a reply is the big-endian word at byte i |
| `PhoneNumber.SwapNibbles` | pySIMlib.py:588-613 | the loop returns the padded string with each pair of characters exchanged, the pad dropped when it sat second to last |
| `PhoneNumber.SwapNibblesExample` | pySIMlib.py:592 | "01396643721" becomes "1093663427F1" |
| `PhoneNumber.NibbleSwappedLength` | pySIMlib.py:601-613 | one output character per input character, one more for an odd length, one fewer when the pad sits second to last |
| `PhoneNumber.SwapNibblesTwice` | pySIMlib.py:588-613 | applied twice to an even-length string whose last two characters are not the pad, the string comes back |
| `PhoneNumber.EncodePhoneNumber` | pySIMlib.py:615-638 | the loop builds the type-of-number octet followed by the digits in swapped semi-octets |
| `PhoneNumber.SwapPairsOnto` | pySIMlib.py:633-636 | the encoding loop appends the padded digits pair by pair, each pair swapped |
| `PhoneNumber.EncodingTonNpi` | pySIMlib.py:624-629 | the encoding starts with "91" exactly when the number starts with '+', with "81" otherwise |
| `PhoneNumber.EncodingLength` | pySIMlib.py:615-638 | length is 2 plus the digit count rounded up to even |
| `PhoneNumber.DecodePhoneNumber` | pySIMlib.py:640-665 | the loop decodes as `PhoneNumberDecoding` says: '+' for "91", pairs swapped back, a trailing 'F'/'f' dropped, an odd length an IndexError |
| `PhoneNumber.AppendSwappedPairs` | pySIMlib.py:657-660 | the decoding loop appends every pair swapped back for an even length, and raises an IndexError for an odd one |
| `PhoneNumber.DecodingExample` | pySIMlib.py:643 | "10936634F7" decodes to "013966437" |
| `PhoneNumber.DigitsRoundTrip` | pySIMlib.py:656-663 | decoding the swapped digits gives them back unless an even run ends in 'F' |
| `PhoneNumber.PhoneNumberRoundTrip` | pySIMlib.py:615-665 | decoding with `replaceTonNPI=1` inverts the encoding for every number whose digits survive the 'F' strip |
| `PhoneNumber.InternationalExample` | pySIMlib.py:615-665 | "+38640123456" encodes to "918346103254F6" and decodes back |
| `Alphabet.ToDefaultAlphabet` | pySIMlib.py:667-733 | the loop returns the character-by-character encoding, or the KeyError |
| `Alphabet.EncodedBytes` | pySIMlib.py:722-733 | one byte per character, each the character's encoding; '%'..'?', 'A'..'Z', 'a'..'z' unchanged |
| `Alphabet.EncodedFailsIff` | pySIMlib.py:722-733 | encoding fails exactly when some character is outside the pass-through ranges and the table |
| `Alphabet.EncodedPrefixFails` | pySIMlib.py:722-733 | once a prefix fails to encode, the whole string fails |
| `Alphabet.FromDefaultAlphabet` | pySIMlib.py:735-795 | the loop returns the decoding: stop at 0xFF, map through the table, pass other bytes through |
| `Alphabet.DecodedChars` | pySIMlib.py:786-795 | decoding never fails and gives one character per byte before the first 0xFF, so never more characters than bytes |
| `Alphabet.DecodedStopsAtFiller` | pySIMlib.py:789-790 | whatever follows the first 0xFF is ignored |
| `Alphabet.CharRoundTrip` | pySIMlib.py:673-795 | every encodable character other than chr(0x9C) encodes below 0x80 and decodes back to itself |
| `Alphabet.DecodedInvertsEncoded` | pySIMlib.py:667-795 | decoding inverts encoding for every encodable string without chr(0x9C) |
| `Alphabet.PoundSignNotInverted` | pySIMlib.py:675 | chr(0x9C) encodes to 0x01, which decodes to the Latin-1 pound sign chr(0xA3) |
| `Alphabet.DecodedExample` | pySIMlib.py:741-742 | "\x00\x01\x02\x04\x05\x06Pascal" decodes to "@£$èéùPascal" |
| `Septets.SeptetAt` | pySIMlib.py:807 | every unpacked value is below 0x80 |
| `Septets.Gsm7BitToAscii` | pySIMlib.py:801-818 | the loop over `i`, `mask` and `last` returns the unpacked septets decoded through the alphabet |
| `Septets.UnpackedRange` | pySIMlib.py:801-818 | every septet lies in 0x00..0x7F |
| `Septets.FirstSeptet` | pySIMlib.py:807-808 | the first septet is the low 7 bits of the first octet |
| `Septets.EighthSeptet` | pySIMlib.py:813-814 | each full group's eighth septet is the top 7 bits of its seventh octet |
| `Septets.SevenBitTextLength` | pySIMlib.py:801-818 | n octets give n + n div 7 characters |
| `Septets.UserDataCharsIsCeiling` | pySIMlib.py:563-565 | the user-data text is 2·ceil(7·udl/8) characters |
| `Septets.UserDataSeptets` | pySIMlib.py:561-566 | those octets unpack to udl septets, or udl + 1 when udl mod 8 is 7 |
| `Padding.PadStringShape` | pySIMlib.py:797-799 | `s` stays as prefix, the result has `max(length, len(s))` characters, and nothing but the pad follows `s` |
| `Padding.AsciiToPinExample` | pySIMlib.py:578 | "0000" becomes "30303030FFFFFFFF" |
| `Padding.AsciiToPinBlock` | pySIMlib.py:575-586 | a PIN of at most 8 characters gives 16 hex characters: its bytes, then 0xFF up to eight |
| `Padding.AsciiToPinLong` | pySIMlib.py:586 | a longer PIN gets no padding |
| `Padding.UnhexlifyFillers` | pySIMlib.py:586 | `unhexlify("FF" * n)` is n bytes 0xFF |
| `Commands.ApduHeader` | pySIMlib.py:220-306 | every command text starts with "A0" and the command's INS byte |
| `Commands.ApduFields` | pySIMlib.py:220-306 | for well-formed arguments, characters 8-9 are P3, the rest is the body, and the command is 10 characters exactly when it has no body |
| `Transport.SerialPort.constructor` | pySIMlib.py:87-94 | a fresh port holds the arriving bytes and has written nothing |
| `Transport.SerialPort.Read` | pySIMlib.py:169 | one read: the next byte, or a timeout on a quiet period or an empty queue |
| `Transport.SerialPort.Write` | pySIMlib.py:167 | one write appends the byte to the log |
| `Transport.SendPairs` | pySIMlib.py:165-169 | on success, the `count` bytes sent are the parsed pairs, appended to the log, with one queue element used per echo |
| `Transport.AwaitStatus` | pySIMlib.py:202-206 | SW1 is never 0x60 and nothing is written |
| `Transport.SendPairsParsed` | pySIMlib.py:195-199 | pairs that parse are all written, and one echo is consumed for each |
| `Transport.ExchangeParsed` | pySIMlib.py:163-214 | once the header parses, the exchange is the card's answer on the line after the five echoes |
| `Transport.ReplyMeansHeaderParsed` | pySIMlib.py:165-166 | any reply means the first ten characters were hex |
| `Transport.EchoesIgnored` | pySIMlib.py:168-169 | the values of the echoes do not matter |
| `Transport.AwaitProcedureSkipsNulls` | pySIMlib.py:171-181 | any run of NULL bytes before the procedure byte is skipped |
| `Transport.NullsBeforeProcedureIgnored` | pySIMlib.py:171-181 | NULLs before the procedure byte leave the whole exchange unchanged |
| `Transport.UnexpectedProcedureByte` | pySIMlib.py:178-180 | a procedure byte other than INS and NULL returns ("", ""), even with `checkSW` |
| `Transport.ReceiveArriving` | pySIMlib.py:187-191 | P3 arriving bytes are read exactly |
| `Transport.ReadCommandReply` | pySIMlib.py:184-191 | a 10-character command reads P3 bytes, returns them as upper-case hex with the status word, and writes only the header |
| `Transport.WriteCommandReply` | pySIMlib.py:192-199 | a longer command writes its P3 body bytes after the header and returns data "" |
| `Transport.FinishShape` | pySIMlib.py:183-214 | the status word is 4 lower-case hex characters; the data is 2·P3 upper-case hex characters for a read and "" otherwise |
| `Transport.ReplyShape` | pySIMlib.py:171-214 | every reply is ("", "") or has the shape `FinishShape` gives |
| `Transport.CheckedExchange` | pySIMlib.py:210-212 | `checkSW` leaves the line unchanged; it turns a mismatching status word into an error |
| `Transport.HeaderWrittenFirst` | pySIMlib.py:164-169 | the five header bytes are written first |
| `Transport.SendPairsPrefix` | pySIMlib.py:195-199 | sending only appends to the log |
| `Transport.StatusTextOk` | pySIMlib.py:207 | the status word reads "9000" exactly for SW1 0x90 and SW2 0x00 |
| `Session.SetFileAppend` | pySIMlib.py:308-313 | selecting `a + b` selects `a` and then, unless that raised, `b` |
| `Session.SelectCommand` | pySIMlib.py:220-222 | SELECT of a file id has header A0 A4 00 00 02 and the id's two bytes as data |
| `Session.SelectAnyStatus` | pySIMlib.py:308-313 | a SELECT answered with any status word, "file not found" included, goes on to the next file |
| `Session.StatusLength` | pySIMlib.py:323 | the second STATUS asks for at least 13 bytes |
| `Session.StatusLengthOfReply` | pySIMlib.py:323 | on a reply of the library's own formatting, the length is 13 plus byte 12 |
| `Session.StatusCommand` | pySIMlib.py:224-226 | STATUS of a one-byte length has header A0 F2 00 00 l |
| `Session.ChvStatusFields` | pySIMlib.py:327-338 | CHV1 is disabled iff bit 0x80 of byte 13 is set; its tries are the low nibble of byte 18; CHV2 is set from byte 20 only for 22 bytes or more; other fields unchanged |
| `Session.ChvStatusShort` | pySIMlib.py:327-333 | a short reply keeps the fields set before the IndexError |
| `Session.CheckChvKeeps` | pySIMlib.py:315-347 | `checkCHV` never changes `state` or the stored PINs, and `FDN_available` can only become 1 |
| `Session.CheckChvAnswered` | pySIMlib.py:320-343 | on a card that answers, the line carries SELECT MF, STATUS 0D and STATUS 13 + byte 12, and the fields come from the second reply |
| `Session.SkipTs` | pySIMlib.py:114-116 | T0 is the first byte that is not 0x3B |
| `Session.OpenSessionState` | pySIMlib.py:106-145 | the session is open exactly when the result is 0; a bad TS or an exception leaves every field as it was |
| `Session.AtrBadTs` | pySIMlib.py:109-110 | a first byte other than 0x3B returns 3 after reading only that byte |
| `Session.AtrSilent` | pySIMlib.py:106-109 | a silent card raises (the `ts == None` test never holds) and the fields stay |
| `Session.AtrBurst` | pySIMlib.py:106-145 | after TS, repeated 0x3B and T0, one byte per announced interface byte and T0 & 0x0F historical bytes are read, the rest is drained, and `checkCHV` runs on the line after the quiet period |
| `Session.InterfaceQuiet` | pySIMlib.py:123-135 | outside debug mode only TD1 of the interface bytes is read and no timeout after T0 raises |
| `Session.EnPinRun` | pySIMlib.py:412-417 | whatever the card answers: 0, CHV1 enabled, 3 tries, PIN stored |
| `Session.ChgPinRun` | pySIMlib.py:426-430 | whatever the card answers: 0, new PIN stored, 3 tries |
| `Session.DisPinRun` | pySIMlib.py:432-436 | whatever the card answers: 0, CHV1 disabled, PIN cleared, tries unchanged |
| `Session.PinBlock` | pySIMlib.py:575-586 | the CHV block has eight bytes |
| `Session.VerifyCommand` | pySIMlib.py:252-254 | VERIFY CHV1 has header A0 20 00 01 08 and the eight-byte PIN block as data |
| `Session.VerPinStage` | pySIMlib.py:419-424 | result true and tries 3 iff the status word is "9000"; otherwise one try less, with no floor; the PIN is stored either way |
| `Session.VerPinAnswered` | pySIMlib.py:419-424 | on a card that takes the VERIFY: true and 3 tries exactly for 90 00, otherwise one try less (below zero too) |
| `Session.VerPinRefused` | pySIMlib.py:419-424 | an unexpected procedure byte counts as a wrong PIN |
| `Records.NumInfoOf` | pySIMlib.py:442-446 | on success the record length is positive, the count non-negative and the name length 14 less than the record length |
| `Records.NumInfoOfResponse` | pySIMlib.py:442-446 | the record length is byte 14, the count is the size word (bytes 2-3) divided by it, and a zero length raises |
| `Records.RStrip` | pySIMlib.py:474 | `rstrip` removes exactly the trailing blanks |
| `Records.EncodingBound` | pySIMlib.py:490-492 | a number of at most 20 digits encodes to at most 11 bytes |
| `Records.NumRecordLength` | pySIMlib.py:484-492 | with nameLen = recLen − 14 and a fitting name and number, the record is exactly recLen bytes; an empty name gives "FF" · recLen |
| `Records.NumRecordRoundTrip` | pySIMlib.py:462-492 | `getNum` reads back the name and number that `setNum` built |
| `Records.EmptyRecordRoundTrip` | pySIMlib.py:467-482 | an all-"FF" record reads as ("", "") |
| `Messages.DecimalAt` | pySIMlib.py:824 | `int(ts[k])` is a decimal digit |
| `Messages.TimeDigitsDefined` | pySIMlib.py:824-837 | the six fields are read exactly when the first twelve characters are decimal digits, and they are then field k = digit 2k + 10 × digit 2k+1, with years from 80 on in the 1900s |
| `Messages.TimestampDefined` | pySIMlib.py:820-840 | the time stamp converts exactly when its first twelve characters are decimal digits AND they spell a real Gregorian date (month 1..12, a day the month has in that year) with hour ≤ 23, minute ≤ 59 and second ≤ 61; other digits are the ValueError of `calendar.weekday`/`time.asctime` |
| `Messages.TimestampZeroRefused` | pySIMlib.py:838 | "000000000000" (month 0) is refused |
| `Messages.TimestampNinesRefused` | pySIMlib.py:838 | "999999999999" (month 99) is refused |
| `Messages.TimestampNonLeapRefused` | pySIMlib.py:838 | 29 February 2001 is refused |
| `Messages.TimestampHourRefused` | pySIMlib.py:840 | hour 24 is refused |
| `Messages.TimestampLeapDayAccepted` | pySIMlib.py:838 | 29 February 2000 is accepted |
| `Messages.TimestampLeapSecondAccepted` | pySIMlib.py:840 | second 61 is accepted |
| `Messages.TimestampFields` | pySIMlib.py:824-837 | every field is two swapped digits; years from 80 on are 19xx, the others 20xx |
| `Messages.TimestampExample` | pySIMlib.py:821 | "2050107034146B" is 1 May 2002, 07:43:41 |
| `Messages.Coding` | pySIMlib.py:562-571 | the coding group is one of four |
| `Messages.SevenBitMessageLength` | pySIMlib.py:561-566 | a 7-bit message reads as udl characters, one more when udl mod 8 is 7 |
| `Messages.SevenBitExample` | pySIMlib.py:801-818 | "C834" unpacks to "Hi" |
| `Messages.RecordLayout` | pySIMlib.py:534-541 | a record is the status, the service-centre length and address, then the TPDU |
| `Messages.DeliverLayout` | pySIMlib.py:543-554 | the TPDU is the first octet, the digit count, the address of 4 + n + n mod 2 characters, then the fields |
| `Messages.FieldsLayout` | pySIMlib.py:556-566 | PID, DCS, the 14-character time stamp, UDL and the user data |
| `Messages.SmsExample` | pySIMlib.py:534-573 | a sample record reads as status 1, its time, "+31641600986" and "Hi" |
| `Messages.SmsSlotFree` | pySIMlib.py:527-532 | a record is free exactly when bit 0 of the status is clear and byte 1 is "FF"; otherwise it is read as a message |
| `Phonebook.ReadBinaryCommand` | pySIMlib.py:228-230 | each reader's READ BINARY has header A0 B0 00 00 and the file's size |
| `Phonebook.GetInfoShape` | pySIMlib.py:349-407 | a reader returns "" or exactly two upper-case hex characters per byte of the file |
| `Phonebook.GetInfoAnswered` | pySIMlib.py:349-407 | on a card that answers, a reader returns the file's bytes as hex, and `unhexlify` gives them back |
| `Phonebook.GetResponseCommand` | pySIMlib.py:288-290 | GET RESPONSE "0F" has header A0 C0 00 00 0F |
| `Phonebook.GetNumInfoRun` | pySIMlib.py:438-446 | on success the record length is positive and the count non-negative |
| `Phonebook.GetNumInfoAnswered` | pySIMlib.py:438-446 | on a 15-byte answer the geometry is the size word divided by byte 14; a zero record length raises |
| `Phonebook.ReadRecordCommand` | pySIMlib.py:236-238 | READ RECORD has header A0 B2 recNum 04 recLen |
| `Phonebook.GetNumAnswered` | pySIMlib.py:462-482 | on a card that answers, `getNum` reads the pair from the record's hex text |
| `Phonebook.SetNumFdn` | pySIMlib.py:498-499 | for EF_FDN nothing is written after the SELECTs and the answer is 1 |
| `Phonebook.SetNumOtherFile` | pySIMlib.py:484-502 | any other file writes nothing and answers `None` |
| `Phonebook.SetNumAdnCommand` | pySIMlib.py:484-497 | the EF_ADN UPDATE RECORD has P1 = recNum, P3 = recLen and a body of exactly recLen bytes |
| `Phonebook.Range` | pySIMlib.py:458 | `list(range(lo, hi))` |
| `Phonebook.ScanShape` | pySIMlib.py:451-459 | from record i on, the keys are the earlier ones plus i .. k−1, every value has a name and a number, and the free slots are k .. recNum−1 or none |
| `Phonebook.GetNumsShape` | pySIMlib.py:448-460 | the keys are 1 .. k−1, each value with a name and a number; the free slots are k .. recNum−1; the last record is never free |
| `Phonebook.ScanEntries` | pySIMlib.py:453-455 | from record i on, earlier entries keep their values and entry j is the (name, number) read at record j, on the line as reading records i .. j−1 left it |
| `Phonebook.GetNumsEntries` | pySIMlib.py:448-455 | entry j of `getNums` is exactly what `getNum(numFile, j, recLen, nameLen)` returned after records 1 .. j−1 were read |
| `Phonebook.GetSmsAnswered` | pySIMlib.py:522-532 | on a card that answers, the record is free iff status bit 0 is clear and byte 1 is 0xFF |
| `Phonebook.SmsRecordFree` | pySIMlib.py:527-532 | on the library's own formatting of a record, the slot is free exactly when bit 0 of the status byte is clear and byte 1 is 0xFF |
| `Card.SimCard.constructor` | pySIMlib.py:45-56 | a new object holds the initial fields: closed session, everything 0 or "" |
| `Card.SimCard.WritePairs` | pySIMlib.py:165-169 | the loop writes and echoes as `SendPairs` says |
| `Card.SimCard.PollProcedure` | pySIMlib.py:171-181 | the procedure loop reads as `AwaitProcedure` says |
| `Card.SimCard.ReadData` | pySIMlib.py:186-191 | the loop returns the bytes `ReceiveBytes` reads, as `"%02X"` text |
| `Card.SimCard.PollStatus` | pySIMlib.py:202-206 | the status loop reads as `AwaitStatus` says |
| `Card.SimCard.SendApdu` | pySIMlib.py:155-214 | `sendAPDU` returns and leaves the port as `Exchange` says |
| `Card.SimCard.Send` | pySIMlib.py:220-306 | a command builder is `sendAPDU` of its command text |
| `Card.SimCard.SetFile` | pySIMlib.py:308-313 | the loop selects as `SetFileRun` says |
| `Card.SimCard.CheckChv` | pySIMlib.py:315-347 | fields and port end as `CheckChvRun` says |
| `Card.SimCard.ReadChv` | pySIMlib.py:324-345 | fields and port after the first STATUS end as `ReadChvStatus` says |
| `Card.SimCard.SetChvFields` | pySIMlib.py:327-338 | the fields are set as `ChvFromStatus` says |
| `Card.SimCard.ProbeFdnFile` | pySIMlib.py:340-345 | `FDN_available` becomes 1 when the three SELECTs complete |
| `Card.SimCard.ReadPrinted` | pySIMlib.py:133-135 | a read whose value only a debug print uses |
| `Card.SimCard.OpenSession` | pySIMlib.py:106-145 | result, fields and port end as `OpenSessionRun` says |
| `Card.SimCard.InterfaceAndHistorical` | pySIMlib.py:122-135 | the interface and historical bytes are read as `InterfaceBytes` and `Historical` say |
| `Card.SimCard.ReadInterfaceBytes` | pySIMlib.py:123-131 | TA1, TB1 and TC1 are read as T0 bits 4-6 announce (a timeout raises only in debug mode), TD1 whenever bit 7 is set, as `InterfaceBytes` says |
| `Card.SimCard.ReadHistorical` | pySIMlib.py:133-135 | `T0 & 0xF` historical bytes are read, as `Historical` says |
| `Card.SimCard.Drain` | pySIMlib.py:137-141 | reads until the first timeout |
| `Card.SimCard.GetPinInfo` | pySIMlib.py:409-410 | returns `chv1_enabled` and `chv1_tries_left` |
| `Card.SimCard.VerPin` | pySIMlib.py:419-424 | `verPIN` ends as `VerPinRun` says |
| `Card.SimCard.EnPin` | pySIMlib.py:412-417 | `enPIN` ends as `EnPinRun` says |
| `Card.SimCard.ChgPin` | pySIMlib.py:426-430 | `chgPIN` ends as `ChgPinRun` says |
| `Card.SimCard.DisPin` | pySIMlib.py:432-436 | `disPIN` ends as `DisPinRun` says |
| `Card.SimCard.GetInfo` | pySIMlib.py:349-407 | `getICCID` … `getPhase` end as `GetInfoRun` says |
| `Card.SimCard.GetNumInfo` | pySIMlib.py:438-446 | `getNumInfo` ends as `GetNumInfoRun` says |
| `Card.SimCard.GetNum` | pySIMlib.py:462-482 | `getNum` ends as `GetNumRun` says |
| `Card.SimCard.SetNum` | pySIMlib.py:484-502 | `setNum` ends as `SetNumRun` says |
| `Card.SimCard.GetNums` | pySIMlib.py:448-460 | the loop fills the entries and free slots as `ScanNums` says |
| `Card.SimCard.GetSms` | pySIMlib.py:522-532 | `getSMS` ends as `GetSmsRun` says |

## Left out

- Opening, resetting, flushing and closing the serial port (`serial.Serial(...)`, RTS/DTR
  toggling, `time.sleep`, `flushInput`, `closeSession`). These are hardware I/O. The model
  starts from a port that is already open and whose input is a given queue, so the "return 1"
  of a port that failed to open is not modelled.
- Debug `print`s and `print_exc`. They are output only. What matters of them is modelled: in
  debug mode the `ord()` inside a print raises on a timeout, and the reads of TA1, TB1 and TC1
  happen only inside those prints.
- The weekday and the text that `calendar.weekday` and `time.asctime` compute in
  `convertTimestamp`, and the stored `self.timetuple`. These are library date formatting.
  Their checks are modelled: `Messages.TimestampOf` refuses, as `BadDate`, the fields that
  these calls raise ValueError on, and otherwise gives the six fields as a value instead of
  the `asctime` text. The time-of-day limits (hour 23, minute 59, second 61) are those of
  Python 2.7's `time.asctime`.
- `getSMSinfo` and `getSMSs` are not part of this model. They are not among the modelled
  operations, although they repeat `getNumInfo`'s arithmetic and `getNums`'s loop.
- pySIMlibGUI.py. It is UI, threads and file export.
- Python's `int(x, 16)` accepts a sign, surrounding blanks and a "0x" prefix. The model accepts
  hex digits only, so text with those extras is an error in the model.
- `recNum` and `recLen` are natural numbers in `getNum`, `setNum` and `getSMS`. Python's
  `"%02X"` of a negative number is not modelled.
- The unused constants (`SW_FOLDER_SELECTED_OK`, `CHV_*`, `ATTRIBUTE_*`, the `SCARD_*`
  protocols, `ACK_OK`) and the dead code after `return data, sw` are not modelled.
- `matchSW` is undefined in the source. A status-word mismatch under `checkSW` is modelled as
  the exception it ends in, whatever its message.
- Python 2 division `/` on non-negative integers is floor division. The model uses Dafny's `/`
  only where both operands are non-negative.

Where the code departs from a plain reading of the protocol, the model follows the code:

- `setFile` never stops on a bad status word.
- `verPIN` counts tries below zero.
- `FDN_available` is never reset to 0.
- A silent card raises in `openSession` instead of returning 2, because `read()` returns ''
  and never `None`.
- TA1/TB1/TC1 are read only in debug mode.
- `getNums` never lists the last record as a free slot.
