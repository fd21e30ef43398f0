/** The GSM 03.38 default alphabet (section 6.2.1), as the library's two
    conversion tables implement it.

    Characters are the Latin-1 characters the source file's coding line
    declares; a Python 2 byte string becomes a `string` for text and a
    `seq<Byte>` for encoded data. */
module Alphabet {
  import opened Wrappers
  import opened Hex

  // ---------------------------------------------------------------------
  // Tables

  /** The encoding table `dic_GSM_3_38`. Note the pound sign is keyed as
      chr(0x9C), not the Latin-1 pound sign chr(0xA3). */
  function TableCode(c: char): Option<Byte> {
    match c
    case '@' => Some(0x00)
    case '\U{9C}' => Some(0x01)
    case '$' => Some(0x02)
    case '\U{A5}' => Some(0x03)  // yen
    case '\U{E8}' => Some(0x04)  // e grave
    case '\U{E9}' => Some(0x05)  // e acute
    case '\U{F9}' => Some(0x06)  // u grave
    case '\U{EC}' => Some(0x07)  // i grave
    case '\U{F2}' => Some(0x08)  // o grave
    case '\U{C7}' => Some(0x09)  // C cedilla
    case '\n' => Some(0x0A)
    case '\U{D8}' => Some(0x0B)  // O slash
    case '\U{F8}' => Some(0x0C)  // o slash
    case '\r' => Some(0x0D)
    case '\U{C5}' => Some(0x0E)  // A ring
    case '\U{E5}' => Some(0x0F)  // a ring
    case '_' => Some(0x11)
    case '\U{C6}' => Some(0x1C)  // AE
    case '\U{E6}' => Some(0x1D)  // ae
    case '\U{DF}' => Some(0x1E)  // sharp s
    case '\U{C9}' => Some(0x1F)  // E acute
    case ' ' => Some(0x20)
    case '!' => Some(0x21)
    case '"' => Some(0x22)
    case '#' => Some(0x23)
    case '\U{A4}' => Some(0x24)  // currency sign
    case '\U{A1}' => Some(0x40)  // inverted exclamation mark
    case '\U{C4}' => Some(0x5B)  // A diaeresis
    case '\U{E4}' => Some(0x7B)  // a diaeresis
    case '\U{D6}' => Some(0x5C)  // O diaeresis
    case '\U{F6}' => Some(0x7C)  // o diaeresis
    case '\U{D1}' => Some(0x5D)  // N tilde
    case '\U{F1}' => Some(0x7D)  // n tilde
    case '\U{DC}' => Some(0x5E)  // U diaeresis
    case '\U{FC}' => Some(0x7E)  // u diaeresis
    case '\U{A7}' => Some(0x5F)  // section sign
    case '\U{BF}' => Some(0x60)  // inverted question mark
    case '\U{E0}' => Some(0x7F)  // a grave
    case _ => None
  }

  /** The decoding table `dic_GSM_3_38_toAscii`. */
  function TableChar(b: Byte): Option<char> {
    match b
    case 0x00 => Some('@')
    case 0x01 => Some('\U{A3}')  // pound sign
    case 0x02 => Some('$')
    case 0x03 => Some('\U{A5}')
    case 0x04 => Some('\U{E8}')
    case 0x05 => Some('\U{E9}')
    case 0x06 => Some('\U{F9}')
    case 0x07 => Some('\U{EC}')
    case 0x08 => Some('\U{F2}')
    case 0x09 => Some('\U{C7}')
    case 0x0A => Some('\n')
    case 0x0B => Some('\U{D8}')
    case 0x0C => Some('\U{F8}')
    case 0x0D => Some('\r')
    case 0x0E => Some('\U{C5}')
    case 0x0F => Some('\U{E5}')
    case 0x11 => Some('_')
    case 0x1C => Some('\U{C6}')
    case 0x1D => Some('\U{E6}')
    case 0x1E => Some('\U{DF}')
    case 0x1F => Some('\U{C9}')
    case 0x20 => Some(' ')
    case 0x21 => Some('!')
    case 0x22 => Some('"')
    case 0x23 => Some('#')
    case 0x24 => Some('\U{A4}')
    case 0x40 => Some('\U{A1}')
    case 0x5B => Some('\U{C4}')
    case 0x5C => Some('\U{D6}')
    case 0x5D => Some('\U{D1}')
    case 0x5E => Some('\U{DC}')
    case 0x5F => Some('\U{A7}')
    case 0x60 => Some('\U{BF}')
    case 0x7B => Some('\U{E4}')
    case 0x7C => Some('\U{F6}')
    case 0x7D => Some('\U{F1}')
    case 0x7E => Some('\U{FC}')
    case 0x7F => Some('\U{E0}')
    case _ => None
  }

  /** The three ranges `ASCII_2_GSM3_38` copies without a table lookup. */
  predicate PassesThrough(c: char) {
    '%' <= c <= '?' || 'A' <= c <= 'Z' || 'a' <= c <= 'z'
  }

  function EncodeChar(c: char): Option<Byte> {
    if PassesThrough(c) then Some(c as int) else TableCode(c)
  }

  /** One decoded byte: a table hit, otherwise the byte itself as a character. */
  function DecodeByte(b: Byte): char {
    match TableChar(b)
    case Some(c) => c
    case None => b as char
  }

  // ---------------------------------------------------------------------
  // Text to default alphabet (`ASCII_2_GSM3_38`)

  /** The encoding of `s`, built character by character; `None` is the
      KeyError raised for a character outside both the ranges and the table. */
  function Encoded(s: string): Option<seq<Byte>> {
    if s == [] then Some([])
    else match Encoded(s[..|s| - 1])
      case None => None
      case Some(r) =>
        match EncodeChar(s[|s| - 1])
        case None => None
        case Some(b) => Some(r + [b])
  }

  method ToDefaultAlphabet(s: string) returns (r: Option<seq<Byte>>)
    ensures r == Encoded(s)
  {
    var acc: seq<Byte> := [];
    var i := 0;
    while i < |s|
      invariant 0 <= i <= |s|
      invariant Encoded(s[..i]) == Some(acc)
    {
      assert s[..i + 1][..i] == s[..i];
      var c := s[i];
      if PassesThrough(c) {
        acc := acc + [c as int];
      } else {
        match TableCode(c)
        case None =>
          EncodedPrefixFails(s, i + 1);
          return None;
        case Some(b) =>
          acc := acc + [b];
      }
      i := i + 1;
    }
    assert s[..i] == s;
    r := Some(acc);
  }

  /** Once a prefix fails to encode, every extension fails. */
  lemma {:induction false} EncodedPrefixFails(s: string, k: nat)
    requires k <= |s| && Encoded(s[..k]).None?
    ensures Encoded(s).None?
    decreases |s| - k
  {
    if k < |s| {
      assert s[..k + 1][..k] == s[..k];
      EncodedPrefixFails(s, k + 1);
    } else {
      assert s[..k] == s;
    }
  }

  /** One byte per character, each the character's own encoding; in
      particular '%'..'?', 'A'..'Z' and 'a'..'z' come out unchanged. */
  lemma {:induction false} EncodedBytes(s: string)
    requires Encoded(s).Some?
    ensures |Encoded(s).value| == |s|
    ensures forall i :: 0 <= i < |s| ==> EncodeChar(s[i]) == Some(Encoded(s).value[i])
    ensures forall i :: 0 <= i < |s| && PassesThrough(s[i]) ==> Encoded(s).value[i] == s[i] as int
  {
    if s != [] {
      var p := s[..|s| - 1];
      EncodedBytes(p);
      forall i | 0 <= i < |s| - 1
        ensures EncodeChar(s[i]) == Some(Encoded(s).value[i])
      {
        assert s[i] == p[i];
      }
    }
  }

  /** Encoding fails exactly when some character is neither in a
      pass-through range nor in the table. */
  lemma {:induction false} EncodedFailsIff(s: string)
    ensures Encoded(s).None? <==>
      exists i :: 0 <= i < |s| && !PassesThrough(s[i]) && TableCode(s[i]).None?
  {
    if s != [] {
      var p := s[..|s| - 1];
      EncodedFailsIff(p);
      if Encoded(p).None? {
        var i :| 0 <= i < |p| && !PassesThrough(p[i]) && TableCode(p[i]).None?;
        assert s[i] == p[i];
      } else if EncodeChar(s[|s| - 1]).Some? {
        forall i | 0 <= i < |s|
          ensures PassesThrough(s[i]) || TableCode(s[i]).Some?
        {
          if i < |s| - 1 { assert s[i] == p[i]; }
        }
      }
    }
  }

  // ---------------------------------------------------------------------
  // Default alphabet to text (`GSM3_38_2_ASCII`)

  /** The decoding of `bs`: stop at the first 0xFF, map through the table,
      pass every other byte through. */
  function Decoded(bs: seq<Byte>): string {
    if bs == [] || bs[0] == 0xFF then [] else [DecodeByte(bs[0])] + Decoded(bs[1..])
  }

  method FromDefaultAlphabet(bs: seq<Byte>) returns (r: string)
    ensures r == Decoded(bs)
  {
    r := [];
    var i := 0;
    while i < |bs|
      invariant 0 <= i <= |bs|
      invariant r + Decoded(bs[i..]) == Decoded(bs)
    {
      var c := bs[i];
      if c == 0xFF {
        return;
      }
      r := r + [DecodeByte(c)];
      assert bs[i..][1..] == bs[i + 1..];
      i := i + 1;
    }
  }

  /** Position of the first 0xFF (the end-of-name filler), or the length. */
  function NameEnd(bs: seq<Byte>): (n: nat)
    ensures n <= |bs|
    ensures forall i :: 0 <= i < n ==> bs[i] != 0xFF
    ensures n < |bs| ==> bs[n] == 0xFF
  {
    if bs == [] || bs[0] == 0xFF then 0 else 1 + NameEnd(bs[1..])
  }

  /** Decoding never fails and yields one character per byte before the
      first 0xFF, each the byte's own decoding; so never more characters
      than bytes. */
  lemma {:induction false} DecodedChars(bs: seq<Byte>)
    ensures |Decoded(bs)| == NameEnd(bs) <= |bs|
    ensures forall i :: 0 <= i < NameEnd(bs) ==> Decoded(bs)[i] == DecodeByte(bs[i])
  {
    if bs != [] && bs[0] != 0xFF {
      DecodedChars(bs[1..]);
    }
  }

  /** Whatever follows the first 0xFF is ignored. */
  lemma {:induction false} DecodedStopsAtFiller(a: seq<Byte>, b: seq<Byte>)
    requires forall i :: 0 <= i < |a| ==> a[i] != 0xFF
    ensures Decoded(a + [0xFF] + b) == Decoded(a)
  {
    if a != [] {
      assert (a + [0xFF] + b)[1..] == a[1..] + [0xFF] + b;
      DecodedStopsAtFiller(a[1..], b);
    }
  }

  // ---------------------------------------------------------------------
  // The two tables against each other

  /** Every encodable character except chr(0x9C) decodes back to itself;
      no encodable character yields the filler 0xFF. */
  lemma CharRoundTrip(c: char)
    requires EncodeChar(c).Some? && c != '\U{9C}'
    ensures EncodeChar(c).value < 0x80
    ensures DecodeByte(EncodeChar(c).value) == c
  {
  }

  /** `GSM3_38_2_ASCII(ASCII_2_GSM3_38(s)) == s` whenever encoding succeeds
      and `s` has no chr(0x9C). */
  lemma DecodedInvertsEncoded(s: string)
    requires Encoded(s).Some?
    requires forall i :: 0 <= i < |s| ==> s[i] != '\U{9C}'
    ensures Decoded(Encoded(s).value) == s
  {
    var bs := Encoded(s).value;
    EncodedBytes(s);
    forall i | 0 <= i < |s|
      ensures bs[i] != 0xFF && DecodeByte(bs[i]) == s[i]
    {
      CharRoundTrip(s[i]);
    }
    NoFillerNameEnd(bs);
    DecodedChars(bs);
  }

  lemma {:induction false} NoFillerNameEnd(bs: seq<Byte>)
    requires forall i :: 0 <= i < |bs| ==> bs[i] != 0xFF
    ensures NameEnd(bs) == |bs|
  {
    if bs != [] {
      NoFillerNameEnd(bs[1..]);
    }
  }

  /** The one table key that does not survive: chr(0x9C) encodes to 0x01,
      which decodes to the Latin-1 pound sign chr(0xA3). */
  lemma PoundSignNotInverted()
    ensures Encoded("\U{9C}") == Some([0x01])
    ensures Decoded([0x01]) == "\U{A3}"
    ensures Decoded(Encoded("\U{9C}").value) != "\U{9C}"
  {
    var s := "\U{9C}";
    assert s[..|s| - 1] == [];
    assert EncodeChar(s[0]) == Some(0x01);
    assert Encoded(s[..|s| - 1]) == Some([]);
    var one: seq<Byte> := [0x01];
    assert Encoded(s) == Some([] + one);
    assert [] + one == one;
    assert Encoded("\U{9C}") == Some(one);
    assert Decoded([0x01]) == [DecodeByte(0x01)] + Decoded([]);
  }

  /** The example of the doc-comment: "\x00\x01\x02\x04\x05\x06Pascal" decodes to "@£$èéùPascal". */
  lemma DecodedExample()
    ensures Decoded([0x00, 0x01, 0x02, 0x04, 0x05, 0x06] + [0x50, 0x61, 0x73, 0x63, 0x61, 0x6C])
      == "@\U{A3}$\U{E8}\U{E9}\U{F9}Pascal"
  {
    var bs: seq<Byte> := [0x00, 0x01, 0x02, 0x04, 0x05, 0x06] + [0x50, 0x61, 0x73, 0x63, 0x61, 0x6C];
    NoFillerNameEnd(bs);
    DecodedChars(bs);
  }
}
