/** The EF_ADN / EF_FDN / EF_LND dialling-number records (GSM 11.11
    section 10.5.1) as `getNumInfo`, `getNum` and `setNum` read and build
    them, all on the hexadecimal text `sendAPDU` exchanges.

    A record is `recLen` bytes: an alpha identifier of `recLen - 14` bytes
    in the default alphabet padded with 0xFF, the length in bytes of the
    BCD number (type-of-number octet included), ten bytes of the number
    itself padded with 0xFF and two trailing 0xFF bytes (capability and
    extension identifiers). */
module Records {
  import opened Wrappers
  import opened Hex
  import opened Alphabet
  import opened PhoneNumber
  import opened Padding

  // ---------------------------------------------------------------------
  // Record geometry (`getNumInfo`)

  /** Number of records, record length and alpha-identifier length. */
  datatype NumInfo = NumInfo(recNum: int, recLen: int, nameLen: int)

  /** The arithmetic of `getNumInfo` on the GET RESPONSE text: the record
      length is byte 14 of the response, the name length is 14 less, and
      the number of records is the file size (bytes 2 and 3) divided by the
      record length. A zero record length is a ZeroDivisionError. */
  function NumInfoOf(data: string): (r: Result<NumInfo>)
    ensures r.Ok? ==> r.value.recLen > 0 && r.value.recNum >= 0 && r.value.nameLen == r.value.recLen - 14
  {
    var recLen :- ParseHex(Slice(data, 28, 30));
    var size :- ParseHex(Slice(data, 4, 8));
    if recLen == 0 then Err(DivisionByZero)
    else
      QuotientNonNegative(size, recLen);
      Ok(NumInfo(size / recLen, recLen, recLen - 14))
  }

  /** Stated apart so that the division stays out of the solver's way. */
  lemma QuotientNonNegative(a: nat, b: nat)
    requires b > 0
    ensures a / b >= 0
  {
  }

  /** On a GET RESPONSE reply of at least fifteen bytes the geometry is
      read from the file-size word and the record-length byte. */
  lemma NumInfoOfResponse(bs: seq<Byte>)
    requires |bs| >= 15
    ensures var i := NumInfoOf(HexUpper(bs));
      var size, recLen := 256 * (bs[2] as int) + bs[3] as int, bs[14] as int;
      (recLen == 0 <==> i == Err(DivisionByZero)) &&
      (recLen != 0 ==> i == Ok(NumInfo(size / recLen, recLen, recLen - 14)))
  {
    var data := HexUpper(bs);
    ParseResponseByte(bs, 14);
    ParseResponseWord(bs, 2);
    NumInfoOfParsed(data, bs[14] as nat, 256 * (bs[2] as int) + bs[3] as int);
  }

  /** The geometry from the two fields once they parse. */
  lemma NumInfoOfParsed(data: string, recLen: nat, size: nat)
    requires ParseHex(Slice(data, 28, 30)) == Ok(recLen) && ParseHex(Slice(data, 4, 8)) == Ok(size)
    ensures recLen == 0 <==> NumInfoOf(data) == Err(DivisionByZero)
    ensures recLen != 0 ==> NumInfoOf(data) == Ok(NumInfo(size / recLen, recLen, recLen - 14))
  {
  }

  // ---------------------------------------------------------------------
  // Reading a record (`getNum`)

  /** The characters Python's `str.rstrip()` removes. */
  predicate IsSpace(c: char) {
    c == ' ' || c == '\t' || c == '\n' || c == '\r' || c == '\U{0B}' || c == '\U{0C}'
  }

  /** `s.rstrip()`. */
  function RStrip(s: string): (r: string)
    ensures |r| <= |s| && r == s[..|r|]
    ensures r != [] ==> !IsSpace(r[|r| - 1])
    ensures forall i :: |r| <= i < |s| ==> IsSpace(s[i])
  {
    if s != [] && IsSpace(s[|s| - 1]) then RStrip(s[..|s| - 1]) else s
  }

  /** The name of a record whose first byte is not "FF": the alpha
      identifier decoded up to its first 0xFF; a last character above 0x80
      (a group mark some phones add) is dropped with the blanks before it.
      An empty name makes `name[-1]` an IndexError. */
  function NameField(data: string, nameLen: int): Result<string> {
    match Unhexlify(Slice(data, 0, 2 * nameLen))
    case None => Err(BadHex)
    case Some(bytes) =>
      var name := Decoded(bytes);
      if name == [] then Err(OutOfRange)
      else if name[|name| - 1] as int > 0x80 then Ok(RStrip(name[..|name| - 1]))
      else Ok(name)
  }

  /** The number of a record whose alpha identifier is `h` characters long:
      the length byte, then that many bytes when it is 1 to 11, a '+' for
      type-of-number "91" and the digits behind it. */
  function NumberField(data: string, h: int): Result<string> {
    var numberLen :- ParseHex(Slice(data, h, h + 2));
    if 0 < numberLen <= 11 then
      var hexNumber := Slice(data, h + 2, h + 2 + 2 * numberLen);
      var lead := if Slice(hexNumber, 0, 2) == "91" then "+" else "";
      var digits :- PhoneNumberDecoding(Slice(hexNumber, 2, |hexNumber|), false);
      Ok(lead + digits)
    else Ok("")
  }

  /** `getNum` on the READ RECORD text: ("", "") for a record starting
      with "FF", otherwise its name and number. */
  function NumRecord(data: string, nameLen: int): Result<(string, string)> {
    if Slice(data, 0, 2) == "FF" then Ok(("", ""))
    else
      var name :- NameField(data, nameLen);
      var number :- NumberField(data, 2 * nameLen);
      Ok((name, number))
  }

  // ---------------------------------------------------------------------
  // Building a record (`setNum`)

  /** `setNum`'s record text: "FF" for every byte when the name is empty;
      otherwise the name in the default alphabet (lower-case hex) padded
      with 'F' to `nameLen` bytes, the number's length byte, the number
      padded to eleven bytes and "FFFF". A name character outside the
      alphabet is a KeyError. */
  function NumRecordData(name: string, number: string, nameLen: int, recLen: int): Result<string> {
    if name == [] then Ok(Repeat("FF", recLen))
    else
      var gsmNumber := PhoneNumberEncoding(number);
      match Encoded(name)
      case None => Err(NotInAlphabet)
      case Some(enc) =>
        Ok(PadString(Hexlify(enc), 2 * nameLen, "F") + Format02(|gsmNumber| / 2, true) +
           PadString(gsmNumber, 22, "F") + "FFFF")
  }

  /** A name that fits the record: non-empty, encodable, at most `nameLen`
      characters. */
  predicate NameFits(name: string, nameLen: int) {
    name != [] && Encoded(name).Some? && |name| <= nameLen
  }

  /** A number that fits the record: at most twenty digits, so at most
      eleven bytes with the type-of-number octet. */
  predicate NumberFits(number: string) {
    |Digits(number)| <= 20
  }

  lemma EncodingBound(number: string)
    requires NumberFits(number)
    ensures var g := PhoneNumberEncoding(number);
      |g| % 2 == 0 && |g| <= 22 && (|g| == 0 <==> number == [])
  {
    if number != [] {
      EncodingLength(number);
    }
  }

  /** With `nameLen = recLen - 14`, a name and a number that fit make
      exactly `recLen` bytes of text; an empty name makes "FF" `recLen`
      times. */
  lemma NumRecordLength(name: string, number: string, recLen: int)
    requires recLen >= 0
    requires name != [] ==> NameFits(name, recLen - 14) && NumberFits(number)
    ensures NumRecordData(name, number, recLen - 14, recLen).Ok?
    ensures |NumRecordData(name, number, recLen - 14, recLen).value| == 2 * recLen
    ensures name == [] ==> NumRecordData(name, number, recLen - 14, recLen).value == Repeat("FF", recLen)
  {
    if name != [] {
      var nameLen := recLen - 14;
      var enc := Encoded(name).value;
      EncodedBytes(name);
      var g := PhoneNumberEncoding(number);
      EncodingBound(number);
      PadStringShape(Hexlify(enc), 2 * nameLen, 'F');
      PadStringShape(g, 22, 'F');
      Format02RoundTrip(|g| / 2, true);
    }
  }

  // ---------------------------------------------------------------------
  // Reading back what was written

  lemma {:induction false} RepeatPairs(k: int)
    ensures Repeat("F", 2 * k) == Repeat("FF", k)
    decreases if k > 0 then k else 0
  {
    if k > 0 {
      RepeatPairs(k - 1);
      assert Repeat("F", 2 * k) == "F" + ("F" + Repeat("F", 2 * (k - 1)));
    }
  }

  /** The padded alpha identifier is the name's hex and "FF" pairs. */
  lemma PaddedNameText(enc: seq<Byte>, nameLen: int)
    requires |enc| <= nameLen
    ensures PadString(Hexlify(enc), 2 * nameLen, "F") == Hexlify(enc) + Repeat("FF", nameLen - |enc|)
  {
    RepeatPairs(nameLen - |enc|);
  }

  /** The padded alpha identifier unhexlifies to the encoded name followed
      by 0xFF fillers. */
  lemma PaddedNameBytes(enc: seq<Byte>, nameLen: int)
    requires |enc| <= nameLen
    ensures var n := PadString(Hexlify(enc), 2 * nameLen, "F");
      |n| == 2 * nameLen && Unhexlify(n).Some? &&
      Unhexlify(n).value == enc + seq(nameLen - |enc|, _ => 0xFF)
  {
    var h := Hexlify(enc);
    var f := Repeat("FF", nameLen - |enc|);
    PaddedNameText(enc, nameLen);
    UnhexlifyHexlify(enc);
    UnhexlifyFillers(nameLen - |enc|);
    UnhexlifyAppend(h, f);
  }

  /** The fillers after the name stop the decoding and give the name back. */
  lemma DecodedPaddedName(name: string, nameLen: int)
    requires NameFits(name, nameLen)
    requires forall i :: 0 <= i < |name| ==> name[i] != '\U{9C}'
    ensures Decoded(Encoded(name).value + seq(nameLen - |name|, _ => 0xFF)) == name
  {
    var enc := Encoded(name).value;
    EncodedBytes(name);
    DecodedInvertsEncoded(name);
    var fill: seq<Byte> := seq(nameLen - |name|, _ => 0xFF);
    forall i | 0 <= i < |enc| ensures enc[i] != 0xFF {
      CharRoundTrip(name[i]);
    }
    if fill == [] {
      assert enc + fill == enc;
    } else {
      DecodedStopsAtFiller(enc, fill[1..]);
      assert enc + fill == enc + [0xFF] + fill[1..];
    }
  }

  /** The name field of a built record is the name, as long as it avoids
      chr(0x9C) (which comes back as the pound sign) and does not end in a
      character above 0x80 (which is taken for a group mark). */
  lemma NameFieldOfRecord(name: string, nameLen: int, rest: string)
    requires NameFits(name, nameLen)
    requires forall i :: 0 <= i < |name| ==> name[i] != '\U{9C}'
    requires name[|name| - 1] as int <= 0x80
    ensures var n := PadString(Hexlify(Encoded(name).value), 2 * nameLen, "F");
      NameField(n + rest, nameLen) == Ok(name)
  {
    var enc := Encoded(name).value;
    EncodedBytes(name);
    var n := PadString(Hexlify(enc), 2 * nameLen, "F");
    PaddedNameBytes(enc, nameLen);
    assert Slice(n + rest, 0, 2 * nameLen) == n;
    DecodedPaddedName(name, nameLen);
  }

  /** Where the length byte and the number sit in a built record. */
  lemma NumberFieldSlices(pre: string, len: string, g: string, rest: string)
    requires |len| == 2 && |g| <= 22
    ensures var data := pre + len + PadString(g, 22, "F") + rest;
      Slice(data, |pre|, |pre| + 2) == len &&
      Slice(data, |pre| + 2, |pre| + 2 + |g|) == g
  {
    var padded := PadString(g, 22, "F");
    PadStringShape(g, 22, 'F');
    var data := pre + len + padded + rest;
    assert data[|pre|..|pre| + 2] == len;
    assert data[|pre| + 2..|pre| + 2 + |g|] == padded[..|g|] == g;
  }

  /** The text of a non-empty number reads back as the number: "91" gives
      the '+', the rest decodes to the digits. */
  lemma NumberOfText(number: string)
    requires number != [] && SurvivesFiller(number)
    ensures var g := PhoneNumberEncoding(number);
      var digits := PhoneNumberDecoding(Slice(g, 2, |g|), false);
      digits.Ok? && (if Slice(g, 0, 2) == "91" then "+" else "") + digits.value == number
  {
    var g := PhoneNumberEncoding(number);
    var d := Digits(number);
    var p := Padded(d, 'F');
    assert Slice(g, 0, 2) == TonNpi(number);
    assert Slice(g, 2, |g|) == PairSwapped(p);
    DigitsRoundTrip(d);
    var lead := if number[0] == '+' then "+" else "";
    assert lead + d == number;
  }

  /** A length byte and the number's text behind it read as the number. */
  lemma NumberFieldOfText(data: string, h: int, number: string)
    requires NumberFits(number) && SurvivesFiller(number)
    requires var g := PhoneNumberEncoding(number);
      ParseHex(Slice(data, h, h + 2)) == Ok(|g| / 2) && Slice(data, h + 2, h + 2 + |g|) == g
    ensures NumberField(data, h) == Ok(number)
  {
    var g := PhoneNumberEncoding(number);
    EncodingBound(number);
    if number != [] {
      assert 2 * (|g| / 2) == |g|;
      NumberOfText(number);
      NumberFieldDecodes(data, h, |g| / 2, g);
    }
  }

  /** The number field when its length byte is in range. */
  lemma NumberFieldDecodes(data: string, h: int, n: int, hexNumber: string)
    requires ParseHex(Slice(data, h, h + 2)) == Ok(n) && 0 < n <= 11
    requires Slice(data, h + 2, h + 2 + 2 * n) == hexNumber
    ensures var digits := PhoneNumberDecoding(Slice(hexNumber, 2, |hexNumber|), false);
      digits.Ok? ==>
      NumberField(data, h) == Ok((if Slice(hexNumber, 0, 2) == "91" then "+" else "") + digits.value)
  {
  }

  /** The number field of a built record is the number again, under the
      same filler condition as `PhoneNumberRoundTrip`. */
  lemma NumberFieldOfRecord(pre: string, number: string, rest: string)
    requires NumberFits(number) && SurvivesFiller(number)
    ensures var g := PhoneNumberEncoding(number);
      NumberField(pre + Format02(|g| / 2, true) + PadString(g, 22, "F") + rest, |pre|) == Ok(number)
  {
    var g := PhoneNumberEncoding(number);
    EncodingBound(number);
    var len := Format02(|g| / 2, true);
    Format02RoundTrip(|g| / 2, true);
    NumberFieldSlices(pre, len, g, rest);
    NumberFieldOfText(pre + len + PadString(g, 22, "F") + rest, |pre|, number);
  }

  /** A record holding a name does not start with the free marker "FF":
      the name's hex is lower-case. */
  lemma NamedRecordNotFree(enc: seq<Byte>, nameLen: int, tail: string)
    requires 1 <= |enc| <= nameLen
    ensures Slice(PadString(Hexlify(enc), 2 * nameLen, "F") + tail, 0, 2) != "FF"
  {
    var data := PadString(Hexlify(enc), 2 * nameLen, "F") + tail;
    PaddedNameText(enc, nameLen);
    assert data[0] == Hexlify(enc)[0] == LowerHex(enc[0])[0];
    assert Slice(data, 0, 2) == data[..2];
    assert data[..2][0] != 'F';
  }

  /** `getNum` reads back what `setNum` wrote: a fitting name (avoiding the
      two exceptions of `NameFieldOfRecord`) and a number that survives its
      filler come back unchanged; an empty name reads as ("", ""). */
  lemma NumRecordRoundTrip(name: string, number: string, nameLen: int, recLen: int)
    requires NameFits(name, nameLen) && NumberFits(number) && SurvivesFiller(number)
    requires forall i :: 0 <= i < |name| ==> name[i] != '\U{9C}'
    requires name[|name| - 1] as int <= 0x80
    ensures NumRecordData(name, number, nameLen, recLen).Ok?
    ensures NumRecord(NumRecordData(name, number, nameLen, recLen).value, nameLen) == Ok((name, number))
  {
    var enc := Encoded(name).value;
    EncodedBytes(name);
    var g := PhoneNumberEncoding(number);
    var n := PadString(Hexlify(enc), 2 * nameLen, "F");
    var tail := Format02(|g| / 2, true) + PadString(g, 22, "F") + "FFFF";
    var data := NumRecordData(name, number, nameLen, recLen).value;
    assert data == n + tail;
    PaddedNameBytes(enc, nameLen);
    NamedRecordNotFree(enc, nameLen, tail);
    NameFieldOfRecord(name, nameLen, tail);
    assert |n| == 2 * nameLen;
    NumberFieldOfRecord(n, number, "FFFF");
    assert n + Format02(|g| / 2, true) + PadString(g, 22, "F") + "FFFF" == data;
  }

  /** An empty record ("FF" throughout, at least one byte) reads as ("", ""). */
  lemma EmptyRecordRoundTrip(number: string, nameLen: int, recLen: int)
    requires recLen >= 1
    ensures NumRecord(NumRecordData("", number, nameLen, recLen).value, nameLen) == Ok(("", ""))
  {
    var data := Repeat("FF", recLen);
    assert data == "FF" + Repeat("FF", recLen - 1);
    assert Slice(data, 0, 2) == "FF";
  }
}
