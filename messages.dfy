/** EF_SMS records (GSM 11.11 section 10.5.3) as `getSMS`, `smsFromData`
    and `convertTimestamp` read them: a status byte, the service-centre
    address and an SMS-DELIVER TPDU (GSM 03.40 section 9.2.2.1), all on the
    hexadecimal text `sendAPDU` returns. */
module Messages {
  import opened Wrappers
  import opened Hex
  import opened PhoneNumber
  import opened Alphabet
  import opened Septets

  // ---------------------------------------------------------------------
  // Service-centre time stamp (`convertTimestamp`, GSM 03.40 section 9.2.3.11)

  /** The six fields `convertTimestamp` fills in; the weekday and the
      `asctime` text it goes on to compute are not part of this model,
      only the range checks those calls make (`ValidTime`). */
  datatype Time = Time(year: int, month: int, day: int, hour: int, minute: int, second: int)

  predicate IsDecimal(c: char) {
    '0' <= c <= '9'
  }

  /** `int(ts[k])`: an IndexError past the end, a ValueError on anything
      but a decimal digit. */
  function DecimalAt(ts: string, k: nat): (r: Result<nat>)
    ensures r.Ok? ==> r.value < 10
  {
    if k >= |ts| then Err(OutOfRange)
    else if IsDecimal(ts[k]) then Ok(ts[k] as int - '0' as int)
    else Err(BadDigit)
  }

  /** Field `k`: two semi-octets, low digit first. */
  function SemiOctets(ts: string, k: nat): (r: Result<nat>)
    ensures r.Ok? ==> r.value < 100
  {
    var lo :- DecimalAt(ts, 2 * k);
    var hi :- DecimalAt(ts, 2 * k + 1);
    Ok(lo + 10 * hi)
  }

  /** Two-digit years from 80 on are the 1900s, the others the 2000s. */
  function Century(y: nat): int {
    if y >= 80 then y + 1900 else y + 2000
  }

  /** The six fields as `convertTimestamp` reads them from the digits,
      before anything checks that they make a date. */
  function TimeDigits(ts: string): Result<Time> {
    var y :- SemiOctets(ts, 0);
    var month :- SemiOctets(ts, 1);
    var day :- SemiOctets(ts, 2);
    var hour :- SemiOctets(ts, 3);
    var minute :- SemiOctets(ts, 4);
    var second :- SemiOctets(ts, 5);
    Ok(Time(Century(y), month, day, hour, minute, second))
  }

  /** Gregorian leap years, as `calendar` and `datetime` count them. */
  predicate IsLeap(year: int) {
    year % 4 == 0 && (year % 100 != 0 || year % 400 == 0)
  }

  function DaysInMonth(year: int, month: int): int
    requires 1 <= month <= 12
  {
    if month == 2 then (if IsLeap(year) then 29 else 28)
    else if month == 4 || month == 6 || month == 9 || month == 11 then 30
    else 31
  }

  /** What the library calls after the digits accept: `calendar.weekday`
      needs a real calendar date, and `time.asctime` an hour up to 23, a
      minute up to 59 and a second up to 61 (leap seconds included). */
  predicate ValidTime(t: Time) {
    1 <= t.month <= 12 && 1 <= t.day <= DaysInMonth(t.year, t.month) &&
    0 <= t.hour <= 23 && 0 <= t.minute <= 59 && 0 <= t.second <= 61
  }

  /** `convertTimestamp(ts)`: the digit fields, and a ValueError when they
      are not a date and time of day. */
  function TimestampOf(ts: string): Result<Time> {
    var t :- TimeDigits(ts);
    if ValidTime(t) then Ok(t) else Err(BadDate)
  }

  predicate TwelveDigits(ts: string) {
    |ts| >= 12 && forall i :: 0 <= i < 12 ==> IsDecimal(ts[i])
  }

  /** Field `k` read straight off the text: digit `2k` plus ten times
      digit `2k + 1`. */
  function DigitPair(ts: string, k: nat): int
    requires 2 * k + 1 < |ts|
  {
    (ts[2 * k] as int - '0' as int) + 10 * (ts[2 * k + 1] as int - '0' as int)
  }

  /** Reference reading of the twelve digits, written out field by field. */
  function ReadTime(ts: string): Time
    requires |ts| >= 12
  {
    var y := DigitPair(ts, 0);
    Time(if y >= 80 then 1900 + y else 2000 + y,
         DigitPair(ts, 1), DigitPair(ts, 2), DigitPair(ts, 3), DigitPair(ts, 4), DigitPair(ts, 5))
  }

  /** The digit fields are read exactly when the first twelve characters
      are decimal digits, and then they are the reference reading. */
  lemma TimeDigitsDefined(ts: string)
    ensures TimeDigits(ts).Ok? <==> TwelveDigits(ts)
    ensures TwelveDigits(ts) ==> TimeDigits(ts) == Ok(ReadTime(ts))
  {
    if TwelveDigits(ts) {
      forall k | 0 <= k < 6 ensures SemiOctets(ts, k) == Ok(DigitPair(ts, k)) {
        assert IsDecimal(ts[2 * k]) && IsDecimal(ts[2 * k + 1]);
      }
    } else if |ts| >= 12 {
      var i :| 0 <= i < 12 && !IsDecimal(ts[i]);
      assert SemiOctets(ts, i / 2).Err?;
    } else {
      assert SemiOctets(ts, |ts| / 2).Err?;
    }
  }

  /** The time stamp converts exactly when its first twelve characters are
      decimal digits and they spell a real date and time of day; digits
      that do not are the library's ValueError. */
  lemma TimestampDefined(ts: string)
    ensures TimestampOf(ts).Ok? <==> TwelveDigits(ts) && ValidTime(ReadTime(ts))
    ensures TwelveDigits(ts) && !ValidTime(ReadTime(ts)) ==> TimestampOf(ts) == Err(BadDate)
    ensures TimestampOf(ts).Ok? ==> TimestampOf(ts).value == ReadTime(ts)
  {
    TimeDigitsDefined(ts);
  }

  /** Twelve digits that are no date are refused: all zeros is month 0 ... */
  lemma TimestampZeroRefused()
    ensures TimestampOf("000000000000") == Err(BadDate)
  {
    TimeExample("000000000000", Time(2000, 0, 0, 0, 0, 0));
  }

  /** ... all nines is month 99 ... */
  lemma TimestampNinesRefused()
    ensures TimestampOf("999999999999") == Err(BadDate)
  {
    TimeExample("999999999999", Time(1999, 99, 99, 99, 99, 99));
  }

  /** ... 2001 has no 29 February ... */
  lemma TimestampNonLeapRefused()
    ensures TimestampOf("102092000000") == Err(BadDate)
  {
    TimeExample("102092000000", Time(2001, 2, 29, 0, 0, 0));
  }

  /** ... and there is no hour 24. */
  lemma TimestampHourRefused()
    ensures TimestampOf("012110420000") == Err(BadDate)
  {
    TimeExample("012110420000", Time(2010, 12, 1, 24, 0, 0));
  }

  /** 29 February 2000 is a date ... */
  lemma TimestampLeapDayAccepted()
    ensures TimestampOf("002092000000") == Ok(Time(2000, 2, 29, 0, 0, 0))
  {
    assert IsLeap(2000);
    TimeExample("002092000000", Time(2000, 2, 29, 0, 0, 0));
  }

  /** ... and a 61st second passes. */
  lemma TimestampLeapSecondAccepted()
    ensures TimestampOf("012110320016") == Ok(Time(2010, 12, 1, 23, 0, 61))
  {
    TimeExample("012110320016", Time(2010, 12, 1, 23, 0, 61));
  }

  lemma TimeExample(ts: string, t: Time)
    requires TwelveDigits(ts) && ReadTime(ts) == t
    ensures TimestampOf(ts) == if ValidTime(t) then Ok(t) else Err(BadDate)
  {
    TimestampDefined(ts);
  }

  /** Every field is two decimal digits, low digit first; the year lies in
      1980 to 2079. */
  lemma TimestampFields(ts: string)
    requires TimestampOf(ts).Ok?
    ensures var t := TimestampOf(ts).value;
      var d := (k: nat) requires k < 12 && k < |ts| && IsDecimal(ts[k]) => ts[k] as int - '0' as int;
      |ts| >= 12 && (forall i :: 0 <= i < 12 ==> IsDecimal(ts[i])) &&
      1980 <= t.year <= 2079 && t.year % 100 == d(0) + 10 * d(1) &&
      t.month == d(2) + 10 * d(3) && t.day == d(4) + 10 * d(5) &&
      t.hour == d(6) + 10 * d(7) && t.minute == d(8) + 10 * d(9) && t.second == d(10) + 10 * d(11)
  {
    TimestampDefined(ts);
  }

  /** The example in the source: "2050107034146B" is 1 May 2002, 07:43:41
      (the time-zone octet "6B" is not read). */
  lemma TimestampExample()
    ensures TimestampOf("2050107034146B") == Ok(Time(2002, 5, 1, 7, 43, 41))
  {
    TimeExample("2050107034146B", Time(2002, 5, 1, 7, 43, 41));
  }

  // ---------------------------------------------------------------------
  // The SMS record (`smsFromData`)

  /** What `smsFromData` returns: status byte, time stamp, originating
      number and message text. */
  datatype Sms = Sms(status: nat, timestamp: Time, number: string, message: string)

  const Binary8Bit := "ERROR: Don't understand 8-bit binary messages"
  const Ucs2 := "ERROR: Don't understand 16-bit UCS2 messages"
  const UnknownCoding := "ERROR: Don't understand this message format"

  /** Bits 2 and 3 of the data-coding scheme: 0 is the 7-bit default
      alphabet, 1 8-bit data, 2 UCS2. */
  function Coding(dcs: nat): (c: nat)
    ensures c < 4
  {
    (dcs / 4) % 4
  }

  /** The message text: 7-bit user data unpacked from `UserDataChars(udl)`
      hexadecimal characters, or a fixed error text for the other codings. */
  function UserDataText(dcs: nat, udl: nat, d: string): Result<string> {
    match Coding(dcs)
    case 0 => SevenBitText(Slice(d, 20, 20 + UserDataChars(udl)))
    case 1 => Ok(Binary8Bit)
    case 2 => Ok(Ucs2)
    case _ => Ok(UnknownCoding)
  }

  /** `smsFromData(data)`. The service-centre address is decoded and
      dropped (a failure still raises); the TPDU follows it. */
  function SmsFromData(data: string): Result<Sms> {
    var status :- ParseHex(Slice(data, 0, 2));
    var smscLen :- ParseHex(Slice(data, 2, 4));
    var i := 2 * smscLen;
    var smsc :- PhoneNumberDecoding(Slice(data, 4, 4 + i), true);
    DeliverOf(status, Slice(data, 4 + i, |data|))
  }

  /** The SMS-DELIVER TPDU: the first octet is parsed and dropped, the
      originating address takes `4 + n + n % 2` characters for `n` digits. */
  function DeliverOf(status: nat, tpdu: string): Result<Sms> {
    var firstOctet :- ParseHex(Slice(tpdu, 0, 2));
    var rest := Slice(tpdu, 2, |tpdu|);
    var digits :- ParseHex(Slice(rest, 0, 2));
    var j := 4 + digits + digits % 2;
    var number :- PhoneNumberDecoding(Slice(rest, 2, j), true);
    SmsFields(status, number, Slice(rest, j, |rest|))
  }

  /** PID, DCS, the time stamp, the user-data length and the user data. */
  function SmsFields(status: nat, number: string, d: string): Result<Sms> {
    var pid :- ParseHex(Slice(d, 0, 2));
    var dcs :- ParseHex(Slice(d, 2, 4));
    var timestamp :- TimestampOf(Slice(d, 4, 18));
    var udl :- ParseHex(Slice(d, 18, 20));
    var message :- UserDataText(dcs, udl, d);
    Ok(Sms(status, timestamp, number, message))
  }

  /** A 7-bit message with all its user data present reads as `udl`
      characters, one more when `udl % 8 == 7` (the septet made of the seven
      spare bits of the last octet is decoded too). */
  lemma SevenBitMessageLength(dcs: nat, udl: nat, d: string)
    requires Coding(dcs) == 0 && |d| >= 20 + UserDataChars(udl)
    requires UserDataText(dcs, udl, d).Ok?
    ensures |UserDataText(dcs, udl, d).value| == udl + (if udl % 8 == 7 then 1 else 0)
  {
    var ud := Slice(d, 20, 20 + UserDataChars(udl));
    assert |ud| == UserDataChars(udl);
    SevenBitTextLength(ud);
    UserDataCharsIsCeiling(udl);
    UserDataSeptets(udl);
  }

  /** Two packed octets carry the two septets of "Hi". */
  lemma SevenBitExample()
    ensures SevenBitText("C834") == Ok("Hi")
  {
    var o: seq<Byte> := [0xC8, 0x34];
    assert HexUpper(o) == "C834";
    UnhexlifyHexUpper(o);
    ExampleUnpacked();
    ExampleDecoded();
  }

  lemma ExampleUnpacked()
    ensures Unpacked([0xC8, 0x34]) == [0x48, 0x69]
  {
    var u := Unpacked([0xC8, 0x34]);
    assert u[0] == 0x48;
    assert u[1] == 0x69;
  }

  lemma ExampleDecoded()
    ensures Decoded([0x48, 0x69]) == "Hi"
  {
    var h: seq<Byte> := [0x48, 0x69];
    assert h[1..] == [0x69];
    assert Decoded([0x69]) == "i";
  }

  /** `int(x, 16)` on two upper-case digits. */
  lemma ParsePair(b: Byte, x: string)
    requires UpperHex(b) == x
    ensures ParseHex(x) == Ok(b)
  {
    ParseByteHex(b, true);
  }

  // ---------------------------------------------------------------------
  // The record laid out field by field

  /** A record is the status byte, the length in bytes of the service
      centre address, that address, and the TPDU. */
  lemma RecordLayout(st: string, sl: string, smsc: string, tpdu: string)
    requires |st| == 2 && |sl| == 2 && ParseHex(st).Ok?
    requires |smsc| % 2 == 0 && ParseHex(sl) == Ok(|smsc| / 2) && PhoneNumberDecoding(smsc, true).Ok?
    ensures SmsFromData(st + sl + smsc + tpdu) == DeliverOf(ParseHex(st).value, tpdu)
  {
    RecordSlices(st, sl, smsc, tpdu);
  }

  lemma RecordSlices(st: string, sl: string, smsc: string, tpdu: string)
    requires |st| == 2 && |sl| == 2
    ensures var data := st + sl + smsc + tpdu;
      Slice(data, 0, 2) == st && Slice(data, 2, 4) == sl &&
      Slice(data, 4, 4 + |smsc|) == smsc && Slice(data, 4 + |smsc|, |data|) == tpdu
  {
    var data := st + sl + smsc + tpdu;
    assert data[0..2] == st;
    assert data[2..4] == sl;
    assert data[4..4 + |smsc|] == smsc;
    assert data[4 + |smsc|..|data|] == tpdu;
  }

  /** The TPDU is the first octet, the number of address digits, the
      address (type-of-number octet and the digits in semi-octets) and the
      remaining fields. */
  lemma DeliverLayout(status: nat, fo: string, al: string, addr: string, d: string)
    requires |fo| == 2 && ParseHex(fo).Ok? && |al| == 2 && ParseHex(al).Ok?
    requires |addr| == 2 + ParseHex(al).value + ParseHex(al).value % 2
    requires PhoneNumberDecoding(addr, true).Ok?
    ensures DeliverOf(status, fo + al + addr + d) == SmsFields(status, PhoneNumberDecoding(addr, true).value, d)
  {
    DeliverSlices(fo, al, addr, d);
  }

  lemma DeliverSlices(fo: string, al: string, addr: string, d: string)
    requires |fo| == 2 && |al| == 2
    ensures var tpdu, rest := fo + al + addr + d, al + addr + d;
      Slice(tpdu, 0, 2) == fo && Slice(tpdu, 2, |tpdu|) == rest && Slice(rest, 0, 2) == al &&
      Slice(rest, 2, 2 + |addr|) == addr && Slice(rest, 2 + |addr|, |rest|) == d
  {
    var tpdu, rest := fo + al + addr + d, al + addr + d;
    assert tpdu[0..2] == fo;
    assert tpdu[2..|tpdu|] == rest;
    assert rest[0..2] == al;
    assert rest[2..2 + |addr|] == addr;
    assert rest[2 + |addr|..|rest|] == d;
  }

  /** The fields after the address: PID, DCS, seven octets of time stamp,
      the user-data length and, for the default alphabet, exactly the
      `UserDataChars(udl)` characters of user data. */
  lemma FieldsLayout(status: nat, number: string, pid: string, dcs: string, ts: string, udl: string, ud: string, rest: string)
    requires |pid| == 2 && ParseHex(pid).Ok? && |dcs| == 2 && ParseHex(dcs).Ok?
    requires |ts| == 14 && TimestampOf(ts).Ok? && |udl| == 2 && ParseHex(udl).Ok?
    requires Coding(ParseHex(dcs).value) == 0 && |ud| == UserDataChars(ParseHex(udl).value)
    requires SevenBitText(ud).Ok?
    ensures SmsFields(status, number, pid + dcs + ts + udl + ud + rest) ==
      Ok(Sms(status, TimestampOf(ts).value, number, SevenBitText(ud).value))
  {
    FieldSlices(pid, dcs, ts, udl, ud, rest);
  }

  lemma FieldSlices(pid: string, dcs: string, ts: string, udl: string, ud: string, rest: string)
    requires |pid| == 2 && |dcs| == 2 && |ts| == 14 && |udl| == 2
    ensures var d := pid + dcs + ts + udl + ud + rest;
      Slice(d, 0, 2) == pid && Slice(d, 2, 4) == dcs && Slice(d, 4, 18) == ts &&
      Slice(d, 18, 20) == udl && Slice(d, 20, 20 + |ud|) == ud
  {
    var d := pid + dcs + ts + udl + ud + rest;
    assert d[0..2] == pid;
    assert d[2..4] == dcs;
    assert d[4..18] == ts;
    assert d[18..20] == udl;
    assert d[20..20 + |ud|] == ud;
  }

  /** A read record holding a delivered message: status 01, service
      centre +31624000000, sender +31641600986, 26 August 2002 19:37:41,
      two 7-bit septets of text, then filler. */
  lemma SmsExample()
    ensures SmsFromData("01" + "07" + "911326040000F0" + ExampleTpdu) ==
      Ok(Sms(1, Time(2002, 8, 26, 19, 37, 41), "+31641600986", "Hi"))
  {
    ParsePair(1, "01");
    ParsePair(7, "07");
    ExampleServiceCentre();
    RecordLayout("01", "07", "911326040000F0", ExampleTpdu);
    ExampleDeliver();
  }

  /** The example's TPDU: first octet 04, an eleven-digit international
      sender, and the fields after it. */
  const ExampleTpdu := "04" + "0B" + "911346610089F6" + ExampleFieldText

  const ExampleFieldText := "00" + "00" + "20806291731408" + "02" + "C834" + "FFFF"

  lemma ExampleDeliver()
    ensures DeliverOf(1, ExampleTpdu) ==
      Ok(Sms(1, Time(2002, 8, 26, 19, 37, 41), "+31641600986", "Hi"))
  {
    ParsePair(4, "04");
    ParsePair(11, "0B");
    ExampleSender();
    DeliverLayout(1, "04", "0B", "911346610089F6", ExampleFieldText);
    ExampleFields();
  }

  lemma ExampleFields()
    ensures SmsFields(1, "+31641600986", ExampleFieldText) ==
      Ok(Sms(1, Time(2002, 8, 26, 19, 37, 41), "+31641600986", "Hi"))
  {
    assert Coding(0) == 0 && UserDataChars(2) == 4;
    ParsePair(0, "00");
    ParsePair(2, "02");
    ExampleTime();
    SevenBitExample();
    FieldsLayout(1, "+31641600986", "00", "00", "20806291731408", "02", "C834", "FFFF");
  }

  lemma ExampleTime()
    ensures TimestampOf("20806291731408") == Ok(Time(2002, 8, 26, 19, 37, 41))
  {
    TimeExample("20806291731408", Time(2002, 8, 26, 19, 37, 41));
  }

  lemma ExampleServiceCentre()
    ensures PhoneNumberDecoding("911326040000F0", true).Ok?
  {
    assert Slice("911326040000F0", 2, 14) == "1326040000F0";
  }

  lemma ExampleSender()
    ensures PhoneNumberDecoding("911346610089F6", true) == Ok("+31641600986")
  {
    assert Slice("911346610089F6", 0, 2) == "91";
    assert Slice("911346610089F6", 2, 14) == "1346610089F6";
    assert PairSwapped("1346610089F6") == "31641600986F";
    var r := "+31641600986F";
    assert "+" + "31641600986F" == r;
    assert r[..|r| - 1] == "+31641600986";
  }

  // ---------------------------------------------------------------------
  // `getSMS`

  /** A record is free or holds a message. */
  datatype SmsSlot = Free | Used(sms: Sms)

  /** `getSMS` on the READ RECORD text: "" (here `Free`) when bit 0 of the
      status byte is clear and the next byte is "FF", the decoded message
      otherwise. */
  function SmsSlotOf(data: string): Result<SmsSlot> {
    var status :- ParseHex(Slice(data, 0, 2));
    if status % 2 == 1 || Slice(data, 2, 4) != "FF" then
      var sms :- SmsFromData(data);
      Ok(Used(sms))
    else Ok(Free)
  }

  /** A record reads as free exactly when its status byte parses with bit 0
      clear and its second byte is "FF"; any other readable record is
      decoded as a message. */
  lemma SmsSlotFree(data: string)
    ensures SmsSlotOf(data) == Ok(Free) <==>
      ParseHex(Slice(data, 0, 2)).Ok? && ParseHex(Slice(data, 0, 2)).value % 2 == 0 && Slice(data, 2, 4) == "FF"
    ensures SmsSlotOf(data).Ok? && SmsSlotOf(data) != Ok(Free) ==>
      SmsFromData(data).Ok? && SmsSlotOf(data) == Ok(Used(SmsFromData(data).value))
  {
  }
}
