/** `padString` and `_ASCII2PIN`: fixed-width fields of hexadecimal text. */
module Padding {
  import opened Wrappers
  import opened Hex

  /** Python's `p * n`: `n` copies of `p`, none at all when `n <= 0`. */
  function Repeat(p: string, n: int): (r: string)
    ensures |r| == |p| * (if n > 0 then n else 0)
    decreases if n > 0 then n else 0
  {
    if n <= 0 then [] else p + Repeat(p, n - 1)
  }

  /** Every character of a repeated one-character string is that character. */
  lemma {:induction false} RepeatChar(c: char, n: int)
    ensures forall i :: 0 <= i < |Repeat([c], n)| ==> Repeat([c], n)[i] == c
    decreases if n > 0 then n else 0
  {
    if n > 0 {
      RepeatChar(c, n - 1);
    }
  }

  /** `padString(s, length, padding)`: `s` followed by `padding` repeated
      `length - len(s)` times. */
  function PadString(s: string, length: int, padding: string): string {
    s + Repeat(padding, length - |s|)
  }

  /** With a one-character pad, the result keeps `s` as its prefix, is
      exactly `length` long when `s` is shorter, is `s` itself otherwise,
      and holds nothing but the pad after `s`. */
  lemma PadStringShape(s: string, length: int, pad: char)
    ensures var r := PadString(s, length, [pad]);
      r[..|s|] == s &&
      |r| == (if length > |s| then length else |s|) &&
      forall i :: |s| <= i < |r| ==> r[i] == pad
  {
    var r := PadString(s, length, [pad]);
    RepeatChar(pad, length - |s|);
    forall i | |s| <= i < |r|
      ensures r[i] == pad
    {
      assert r[i] == Repeat([pad], length - |s|)[i - |s|];
    }
  }

  // ---------------------------------------------------------------------
  // CHV values

  /** A Python 2 byte string: every character is one byte. */
  predicate IsByteString(s: string) {
    forall i :: 0 <= i < |s| ==> s[i] as int < 256
  }

  /** The bytes of a byte string. */
  function Latin1(s: string): (bs: seq<Byte>)
    requires IsByteString(s)
    ensures |bs| == |s|
  {
    seq(|s|, i requires 0 <= i < |s| => s[i] as int)
  }

  /** `_ASCII2PIN(pin)`: the PIN's bytes in hexadecimal, then "FF" once for
      every character short of eight. */
  function AsciiToPin(pin: string): string
    requires IsByteString(pin)
  {
    Hexlify(Latin1(pin)) + Repeat("FF", 8 - |pin|)
  }

  /** The doc-comment example: "0000" becomes "30303030FFFFFFFF". */
  lemma AsciiToPinExample()
    ensures AsciiToPin("0000") == "30303030FFFFFFFF"
  {
    var bs := Latin1("0000");
    assert bs == [0x30, 0x30, 0x30, 0x30];
    assert Hexlify(bs) == "30303030";
    assert Repeat("FF", 4) == "FFFFFFFF";
  }

  /** `unhexlify("FF" * n)` is `n` bytes 0xFF. */
  lemma {:induction false} UnhexlifyFillers(n: int)
    ensures Unhexlify(Repeat("FF", n)).Some?
    ensures Unhexlify(Repeat("FF", n)).value == seq(if n > 0 then n else 0, _ => 0xFF)
    decreases if n > 0 then n else 0
  {
    if n > 0 {
      var r := Repeat("FF", n);
      assert r == "FF" + Repeat("FF", n - 1);
      assert r[0] == 'F' && r[1] == 'F' && r[2..] == Repeat("FF", n - 1);
      assert 16 * DigitValue('F') + DigitValue('F') == 0xFF;
      UnhexlifyFillers(n - 1);
      var ones: seq<Byte> := seq(n - 1, _ => 0xFF);
      assert Unhexlify(r[2..]) == Some(ones);
      assert Unhexlify(r) == Some([0xFF] + ones);
      assert [0xFF] + ones == seq(n, _ => 0xFF);
    }
  }

  /** A PIN of at most eight characters becomes the eight-byte CHV block of
      GSM 11.11 section 9.2.9: the PIN's bytes, then 0xFF up to eight. */
  lemma AsciiToPinBlock(pin: string)
    requires IsByteString(pin) && |pin| <= 8
    ensures |AsciiToPin(pin)| == 16
    ensures Unhexlify(AsciiToPin(pin)).Some?
    ensures Unhexlify(AsciiToPin(pin)).value == Latin1(pin) + seq(8 - |pin|, _ => 0xFF)
  {
    var bs := Latin1(pin);
    var h := Hexlify(bs);
    var n := 8 - |pin|;
    var f := Repeat("FF", n);
    assert AsciiToPin(pin) == h + f;
    assert |f| == 2 * n;
    UnhexlifyHexlify(bs);
    UnhexlifyFillers(n);
    UnhexlifyAppend(h, f);
  }

  /** A PIN longer than eight characters gets no padding at all. */
  lemma AsciiToPinLong(pin: string)
    requires IsByteString(pin) && |pin| > 8
    ensures AsciiToPin(pin) == Hexlify(Latin1(pin))
  {
    assert Repeat("FF", 8 - |pin|) == [];
  }
}
