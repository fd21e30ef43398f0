/** Semi-octet phone numbers: `swapNibbles`, `String_2_GSMPhoneNumber` and
    `GSMPhoneNumber_2_String`.

    A dialling number is stored as BCD digits with the two digits of each
    octet exchanged, an odd count padded with 'F', behind a type-of-number
    octet: "91" for an international number (written with a leading '+'),
    "81" otherwise (GSM 04.08 section 10.5.4.7, as EF_ADN stores it per
    GSM 11.11 section 10.5.1). The library works on the hexadecimal text, so
    everything here is a `string`. */
module PhoneNumber {
  import opened Wrappers
  import opened Hex

  // ---------------------------------------------------------------------
  // Pair swapping

  /** `s` with `pad` appended when its length is odd. */
  function Padded(s: string, pad: char): (p: string)
    ensures |p| == |s| + |s| % 2 && |p| % 2 == 0
    ensures p[..|s|] == s
  {
    if |s| % 2 == 1 then s + [pad] else s
  }

  /** Every character pair of an even-length string exchanged: "ab" becomes "ba". */
  function PairSwapped(p: string): (r: string)
    requires |p| % 2 == 0
    ensures |r| == |p|
  {
    seq(|p|, k requires 0 <= k < |p| => if k % 2 == 0 then p[k + 1] else p[k - 1])
  }

  /** Exchanging the pairs twice gives the string back. */
  lemma PairSwappedInvolution(p: string)
    requires |p| % 2 == 0
    ensures PairSwapped(PairSwapped(p)) == p
  {
  }

  /** Swapping the pairs of a concatenation swaps each part. */
  lemma PairSwappedAppend(p: string, q: string)
    requires |p| % 2 == 0 && |q| % 2 == 0
    ensures PairSwapped(p + q) == PairSwapped(p) + PairSwapped(q)
  {
  }

  /** What `swapNibbles(s, pad)` returns: the padded string with its pairs
      exchanged, less the last character when the second-to-last character
      of `s` is the pad. */
  function NibbleSwapped(s: string, pad: char): string {
    var r := PairSwapped(Padded(s, pad));
    if |s| >= 2 && s[|s| - 2] == pad then r[..|r| - 1] else r
  }

  method SwapNibbles(hexString: string, paddingNibble: char) returns (res: string)
    ensures res == NibbleSwapped(hexString, paddingNibble)
  {
    var length := |hexString|;
    var removePad := length >= 2 && hexString[length - 2] == paddingNibble;
    var s := hexString;
    if length % 2 == 1 {
      s := s + [paddingNibble];
    }
    res := "";
    var i := 0;
    while i < length
      invariant s == Padded(hexString, paddingNibble)
      invariant i % 2 == 0 && 0 <= i <= |s|
      invariant res == PairSwapped(s)[..i]
    {
      res := res + [s[i + 1], s[i]];
      i := i + 2;
    }
    assert res == PairSwapped(s);
    if removePad {
      res := res[..|res| - 1];
    }
  }

  /** The doc-comment example: "01396643721" becomes "1093663427F1". */
  lemma SwapNibblesExample()
    ensures NibbleSwapped("01396643721", 'F') == "1093663427F1"
  {
    var p := Padded("01396643721", 'F');
    assert p == "01396643721F";
  }

  /** One character per input character, one more for an odd length, one
      fewer when the pad sits second to last. */
  lemma NibbleSwappedLength(s: string, pad: char)
    ensures |NibbleSwapped(s, pad)| ==
      |s| + |s| % 2 - (if |s| >= 2 && s[|s| - 2] == pad then 1 else 0)
  {
  }

  /** Applied twice to an even-length string whose last two characters are
      not the pad, `swapNibbles` gives the string back. */
  lemma SwapNibblesTwice(s: string, pad: char)
    requires |s| % 2 == 0
    requires |s| >= 2 ==> s[|s| - 1] != pad && s[|s| - 2] != pad
    ensures NibbleSwapped(NibbleSwapped(s, pad), pad) == s
  {
    var once := NibbleSwapped(s, pad);
    assert once == PairSwapped(s);
    if |s| >= 2 {
      assert once[|once| - 2] == s[|s| - 1];
    }
    PairSwappedInvolution(s);
  }

  // ---------------------------------------------------------------------
  // Number to semi-octets (`String_2_GSMPhoneNumber`)

  /** The digits of a number: everything after a leading '+'. */
  function Digits(s: string): (d: string)
    ensures |d| == if s != [] && s[0] == '+' then |s| - 1 else |s|
  {
    if s != [] && s[0] == '+' then s[1..] else s
  }

  /** The type-of-number octet: international exactly for a leading '+'. */
  function TonNpi(s: string): string {
    if s != [] && s[0] == '+' then "91" else "81"
  }

  /** `String_2_GSMPhoneNumber(s)`: empty for an empty string, otherwise the
      type-of-number octet and the digits in swapped semi-octets. */
  function PhoneNumberEncoding(s: string): string {
    if s == [] then "" else TonNpi(s) + PairSwapped(Padded(Digits(s), 'F'))
  }

  method EncodePhoneNumber(phoneString: string) returns (res: string)
    ensures res == PhoneNumberEncoding(phoneString)
  {
    if |phoneString| == 0 {
      return "";
    }
    var p := phoneString;
    if p[0] == '+' {
      res := "91";
      p := p[1..];
    } else {
      res := "81";
    }
    if |p| % 2 == 1 {
      p := p + "F";
    }
    assert res == TonNpi(phoneString) && p == Padded(Digits(phoneString), 'F');
    res := SwapPairsOnto(res, p);
  }

  /** The loop of `String_2_GSMPhoneNumber`: the pairs of the padded,
      even-length digits appended to `res` one by one, each swapped. */
  method SwapPairsOnto(res: string, p: string) returns (r: string)
    requires |p| % 2 == 0
    ensures r == res + PairSwapped(p)
  {
    ghost var swapped := PairSwapped(p);
    r := res;
    var i := 0;
    ghost var j := 0;
    while i < |p|
      invariant i == 2 * j && 0 <= i <= |p|
      invariant r == res + swapped[..i]
    {
      SwappedPair(p, j);
      r := r + [p[i + 1], p[i]];
      i, j := i + 2, j + 1;
    }
    assert swapped[..i] == swapped;
  }

  /** `n` is twice its half plus its parity. */
  lemma Halves(n: nat)
    ensures n == 2 * (n / 2) + n % 2 && (n % 2 == 0 || n % 2 == 1)
  {
  }

  /** The pairs swapped so far grow by one swapped pair. */
  lemma SwappedPair(p: string, j: nat)
    requires |p| % 2 == 0 && 2 * j + 1 < |p|
    ensures PairSwapped(p)[..2 * j + 2] == PairSwapped(p)[..2 * j] + [p[2 * j + 1], p[2 * j]]
  {
    var r := PairSwapped(p);
    assert r[2 * j] == p[2 * j + 1];
    assert r[2 * j + 1] == p[2 * j];
  }

  /** "91" leads exactly when the number starts with '+', "81" otherwise. */
  lemma EncodingTonNpi(s: string)
    requires s != []
    ensures |PhoneNumberEncoding(s)| >= 2
    ensures PhoneNumberEncoding(s)[..2] == "91" <==> s[0] == '+'
    ensures PhoneNumberEncoding(s)[..2] == "81" <==> s[0] != '+'
  {
    var r := PhoneNumberEncoding(s);
    assert r[..2] == TonNpi(s);
  }

  /** Two characters of type-of-number octet plus the digit count rounded up
      to even. */
  lemma EncodingLength(s: string)
    requires s != []
    ensures |PhoneNumberEncoding(s)| == 2 + |Digits(s)| + |Digits(s)| % 2
  {
  }

  // ---------------------------------------------------------------------
  // Semi-octets to number (`GSMPhoneNumber_2_String`)

  /** A trailing 'F' (in either case) removed, as `res[-1].upper() == 'F'` does. */
  function WithoutFiller(r: string): string {
    if r != [] && (r[|r| - 1] == 'F' || r[|r| - 1] == 'f') then r[..|r| - 1] else r
  }

  /** `GSMPhoneNumber_2_String(h, replaceTonNPI)`. With `replaceTonNpi` the
      first two characters are the type-of-number octet: "91" becomes a
      leading '+', anything else is dropped. An odd number of remaining
      characters is an IndexError. */
  function PhoneNumberDecoding(h: string, replaceTonNpi: bool): Result<string> {
    if h == [] then Ok("")
    else
      var lead := if replaceTonNpi && Slice(h, 0, 2) == "91" then "+" else "";
      var body := if replaceTonNpi then Slice(h, 2, |h|) else h;
      if |body| % 2 == 1 then Err(OutOfRange)
      else Ok(WithoutFiller(lead + PairSwapped(body)))
  }

  method DecodePhoneNumber(phoneString: string, replaceTonNpi: bool) returns (r: Result<string>)
    ensures r == PhoneNumberDecoding(phoneString, replaceTonNpi)
  {
    if |phoneString| == 0 {
      return Ok("");
    }
    var res := "";
    var p := phoneString;
    if replaceTonNpi {
      if Slice(p, 0, 2) == "91" {
        res := "+";
      }
      p := Slice(p, 2, |p|);
    }
    var swapped := AppendSwappedPairs(res, p);
    if swapped.Err? {
      return swapped;
    }
    res := swapped.value;
    if res != [] && (res[|res| - 1] == 'F' || res[|res| - 1] == 'f') {
      res := res[..|res| - 1];
    }
    r := Ok(res);
  }

  /** The loop of `GSMPhoneNumber_2_String`: the pairs of `p` appended to
      `res` one by one, each swapped; an odd length raises an IndexError
      when the last pair is read. */
  method AppendSwappedPairs(res: string, p: string) returns (r: Result<string>)
    ensures |p| % 2 == 1 ==> r == Err(OutOfRange)
    ensures |p| % 2 == 0 ==> r == Ok(res + PairSwapped(p))
  {
    ghost var m := |p| / 2;
    Halves(|p|);
    ghost var q := p[..2 * m];
    ghost var swapped := PairSwapped(q);
    var acc := res;
    var i := 0;
    ghost var j := 0;
    while i < |p|
      invariant i == 2 * j && 0 <= i <= 2 * m
      invariant acc == res + swapped[..i]
    {
      if i + 1 >= |p| {
        assert |p| % 2 == 1;
        return Err(OutOfRange);
      }
      SwappedPair(q, j);
      assert q[i] == p[i] && q[i + 1] == p[i + 1];
      acc := acc + [p[i + 1], p[i]];
      i, j := i + 2, j + 1;
    }
    assert q == p;
    assert swapped[..i] == PairSwapped(p);
    r := Ok(acc);
  }

  /** The doc-comment example: "10936634F7" decodes to "013966437". */
  lemma DecodingExample()
    ensures PhoneNumberDecoding("10936634F7", false) == Ok("013966437")
  {
    assert PairSwapped("10936634F7") == "013966437F";
    var r := WithoutFiller("" + "013966437F");
    assert "" + "013966437F" == "013966437F";
    assert r == "013966437F"[..9] == "013966437";
  }

  /** When a number round-trips: an odd digit count (its 'F' pad is the one
      dropped) or a last character that is not an 'F'. */
  predicate SurvivesFiller(s: string) {
    var d := Digits(s);
    |d| % 2 == 1 || d == [] || (d[|d| - 1] != 'F' && d[|d| - 1] != 'f')
  }

  /** Decoding without the type-of-number octet recovers the digits. */
  lemma DigitsRoundTrip(d: string)
    requires |d| % 2 == 1 || d == [] || (d[|d| - 1] != 'F' && d[|d| - 1] != 'f')
    ensures PhoneNumberDecoding(PairSwapped(Padded(d, 'F')), false) == Ok(d)
  {
    var p := Padded(d, 'F');
    PairSwappedInvolution(p);
    var h := PairSwapped(p);
    if d != [] {
      assert "" + PairSwapped(h) == p;
      if |d| % 2 == 1 {
        assert p[..|p| - 1] == d;
      }
    }
  }

  /** `GSMPhoneNumber_2_String(String_2_GSMPhoneNumber(s), replaceTonNPI=1) == s`
      unless an even run of digits ends in 'F'. */
  lemma PhoneNumberRoundTrip(s: string)
    requires SurvivesFiller(s)
    ensures PhoneNumberDecoding(PhoneNumberEncoding(s), true) == Ok(s)
  {
    if s != [] {
      var d := Digits(s);
      var p := Padded(d, 'F');
      var h := PhoneNumberEncoding(s);
      EncodedParts(s);
      PairSwappedInvolution(p);
      DecodedParts(h, TonNpi(s), PairSwapped(p));
      var lead := if TonNpi(s) == "91" then "+" else "";
      LeadAndDigits(s);
      FillerDropped(lead, d);
    }
  }

  /** The type-of-number octet gives back the '+' the digits lost. */
  lemma LeadAndDigits(s: string)
    requires s != []
    ensures (if TonNpi(s) == "91" then "+" else "") + Digits(s) == s
  {
    if s[0] == '+' {
      assert "+" + s[1..] == s;
    } else {
      assert "" + s == s;
    }
  }

  /** Decoding with the type-of-number octet, split at that octet. */
  lemma DecodedParts(h: string, ton: string, body: string)
    requires |h| >= 2 && Slice(h, 0, 2) == ton && Slice(h, 2, |h|) == body && |body| % 2 == 0
    ensures PhoneNumberDecoding(h, true) == Ok(WithoutFiller((if ton == "91" then "+" else "") + PairSwapped(body)))
  {
  }

  /** The encoding of a non-empty number: the type-of-number octet, then
      the swapped digits. */
  lemma EncodedParts(s: string)
    requires s != []
    ensures var h := PhoneNumberEncoding(s);
      Slice(h, 0, 2) == TonNpi(s) && Slice(h, 2, |h|) == PairSwapped(Padded(Digits(s), 'F'))
  {
    var h := PhoneNumberEncoding(s);
    assert h[0..2] == TonNpi(s);
    assert h[2..|h|] == PairSwapped(Padded(Digits(s), 'F'));
  }

  /** Dropping the trailing filler of the padded digits leaves the digits:
      the pad itself is dropped for an odd count, nothing otherwise. */
  lemma FillerDropped(lead: string, d: string)
    requires |d| % 2 == 1 || (d != [] && d[|d| - 1] != 'F' && d[|d| - 1] != 'f') || (d == [] && lead == "+")
    ensures WithoutFiller(lead + Padded(d, 'F')) == lead + d
  {
    var p := Padded(d, 'F');
    if |d| % 2 == 1 {
      assert (lead + p)[..|lead + p| - 1] == lead + d;
    }
  }

  /** A sample international number: "+38640123456" encodes with "91" and comes back. */
  lemma InternationalExample()
    ensures PhoneNumberEncoding("+38640123456") == "918346103254F6"
    ensures PhoneNumberDecoding("918346103254F6", true) == Ok("+38640123456")
  {
    var s := "+38640123456";
    assert Digits(s) == "38640123456";
    assert Padded(Digits(s), 'F') == "38640123456F";
    ExampleSwapped();
    assert TonNpi(s) + "8346103254F6" == "918346103254F6";
    PhoneNumberRoundTrip(s);
  }

  lemma ExampleSwapped()
    ensures PairSwapped("38640123456F") == "8346103254F6"
  {
    var r := PairSwapped("38640123456F");
    assert r[0] == '8' && r[1] == '3' && r[2] == '4' && r[3] == '6';
    assert r[4] == '1' && r[5] == '0' && r[6] == '3' && r[7] == '2';
    assert r[8] == '5' && r[9] == '4' && r[10] == 'F' && r[11] == '6';
  }
}
