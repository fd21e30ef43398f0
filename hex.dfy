/** Bytes, hexadecimal text and Python string slicing.

    The library keeps every APDU, response and record as a string of
    hexadecimal characters: `"%02X"`/`"%02x"` formatting, `int(x, 16)`,
    `binascii.hexlify` (lower case) and `binascii.unhexlify`. This module
    gives those conversions a definition and proves they invert each other. */
module Hex {
  import opened Wrappers

  type Byte = x: int | 0 <= x < 256

  predicate IsHexDigit(c: char) {
    '0' <= c <= '9' || 'A' <= c <= 'F' || 'a' <= c <= 'f'
  }

  predicate AllHex(s: string) {
    forall i :: 0 <= i < |s| ==> IsHexDigit(s[i])
  }

  function DigitValue(c: char): (v: nat)
    requires IsHexDigit(c)
    ensures v < 16
  {
    if '0' <= c <= '9' then c as int - '0' as int
    else if 'A' <= c <= 'F' then c as int - 'A' as int + 10
    else c as int - 'a' as int + 10
  }

  /** A digit as `"%X"` (upper) or `"%x"` prints it. */
  function Digit(v: nat, upper: bool): (c: char)
    requires v < 16
    ensures IsHexDigit(c) && DigitValue(c) == v
    ensures upper ==> !('a' <= c <= 'f')
    ensures !upper ==> !('A' <= c <= 'F')
  {
    if v < 10 then ('0' as int + v) as char
    else if upper then ('A' as int + v - 10) as char
    else ('a' as int + v - 10) as char
  }

  /** `"%02X" % b` */
  function UpperHex(b: Byte): string {
    [Digit(b / 16, true), Digit(b % 16, true)]
  }

  /** `"%02x" % b` */
  function LowerHex(b: Byte): string {
    [Digit(b / 16, false), Digit(b % 16, false)]
  }

  /** How `sendAPDU` formats the data bytes it received: `"%02X"` per byte. */
  function HexUpper(bs: seq<Byte>): (s: string)
    ensures |s| == 2 * |bs|
  {
    seq(2 * |bs|, k requires 0 <= k < 2 * |bs| => UpperHex(bs[k / 2])[k % 2])
  }

  /** `binascii.hexlify`: two lower-case digits per byte. */
  function Hexlify(bs: seq<Byte>): (s: string)
    ensures |s| == 2 * |bs|
  {
    if bs == [] then [] else LowerHex(bs[0]) + Hexlify(bs[1..])
  }

  /** `binascii.unhexlify`: `None` for an odd length or a non-hex character. */
  function Unhexlify(s: string): (r: Option<seq<Byte>>)
    decreases |s|
  {
    if s == [] then Some([])
    else if |s| < 2 || !IsHexDigit(s[0]) || !IsHexDigit(s[1]) then None
    else match Unhexlify(s[2..])
      case None => None
      case Some(rest) => Some([16 * DigitValue(s[0]) + DigitValue(s[1])] + rest)
  }

  /** Value of a string of hex digits, most significant digit first. */
  function HexValue(s: string): nat
    requires AllHex(s)
  {
    if s == [] then 0 else 16 * HexValue(s[..|s| - 1]) + DigitValue(s[|s| - 1])
  }

  /** `int(s, 16)`: a non-empty string of hex digits, anything else is a ValueError. */
  function ParseHex(s: string): Result<nat> {
    if |s| > 0 && AllHex(s) then Ok(HexValue(s)) else Err(BadHex)
  }

  /** The hex digits of `n` without leading zeros. */
  function HexDigits(n: nat, upper: bool): (s: string)
    ensures |s| >= 1 && AllHex(s)
  {
    if n < 16 then [Digit(n, upper)] else HexDigits(n / 16, upper) + [Digit(n % 16, upper)]
  }

  /** `"%02X" % n` (upper) or `"%02x" % n`: at least two digits, more if `n` needs them. */
  function Format02(n: nat, upper: bool): string {
    if n < 16 then ['0', Digit(n, upper)] else HexDigits(n, upper)
  }

  /** Python's treatment of one slice bound: negative counts from the end, then clamp. */
  function Bound(i: int, n: nat): (j: nat)
    ensures j <= n
  {
    var k := if i < 0 then i + n else i;
    if k < 0 then 0 else if k > n then n else k
  }

  /** Python's `s[lo:hi]`. */
  function Slice<T>(s: seq<T>, lo: int, hi: int): (r: seq<T>)
    ensures |r| <= |s|
  {
    var a := Bound(lo, |s|);
    var b := Bound(hi, |s|);
    if a < b then s[a..b] else []
  }

  /** `(b >> k) & 1 == 1`, the bit tests the library writes as `b & mask`. */
  predicate HasBit(b: nat, k: nat) {
    (b / Pow2(k)) % 2 == 1
  }

  function Pow2(k: nat): (p: nat)
    ensures p >= 1
  {
    if k == 0 then 1 else 2 * Pow2(k - 1)
  }

  // ---------------------------------------------------------------------
  // Round trips between the formats

  lemma {:induction false} HexValueAppend(s: string, c: char)
    requires AllHex(s) && IsHexDigit(c)
    ensures AllHex(s + [c]) && HexValue(s + [c]) == 16 * HexValue(s) + DigitValue(c)
  {
    assert (s + [c])[..|s|] == s;
  }

  /** Reading back `"%02X"`/`"%02x"` gives the formatted byte. */
  lemma ParseByteHex(b: Byte, upper: bool)
    ensures ParseHex(if upper then UpperHex(b) else LowerHex(b)) == Ok(b)
  {
    var s := if upper then UpperHex(b) else LowerHex(b);
    assert s[..1] == [s[0]];
    assert s[..1][..0] == [];
    assert HexValue(s[..1]) == DigitValue(s[0]) == b / 16;
    assert HexValue(s) == 16 * (b / 16) + b % 16;
  }

  /** `int(HexDigits(n), 16) == n` */
  lemma {:induction false} ParseHexDigits(n: nat, upper: bool)
    ensures ParseHex(HexDigits(n, upper)) == Ok(n)
  {
    if n < 16 {
      var s := HexDigits(n, upper);
      assert s[..0] == [];
      assert HexValue(s) == DigitValue(s[0]) == n;
    } else {
      ParseHexDigits(n / 16, upper);
      HexValueAppend(HexDigits(n / 16, upper), Digit(n % 16, upper));
    }
  }

  /** Parsing what `Format02` printed gives the number back. */
  lemma Format02RoundTrip(n: nat, upper: bool)
    ensures ParseHex(Format02(n, upper)) == Ok(n)
    ensures |Format02(n, upper)| == 2 <==> n < 256
  {
    if n < 16 {
      var s := Format02(n, upper);
      assert s[..1] == ['0'];
      assert s[..1][..0] == [];
      assert HexValue(s[..1]) == 0;
      assert HexValue(s) == n;
    } else {
      ParseHexDigits(n, upper);
      HexDigitsLength(n, upper);
    }
  }

  lemma {:induction false} HexDigitsLength(n: nat, upper: bool)
    requires n >= 16
    ensures |HexDigits(n, upper)| == 2 <==> n < 256
  {
    if n >= 256 {
      HexDigitsLength(n / 16, upper);
    }
  }

  /** For a byte, `Format02` is the two-digit `UpperHex`/`LowerHex`. */
  lemma Format02Byte(b: Byte, upper: bool)
    ensures Format02(b, upper) == if upper then UpperHex(b) else LowerHex(b)
  {
    if b >= 16 {
      assert HexDigits(b / 16, upper) == [Digit(b / 16, upper)];
    }
  }

  /** `unhexlify` undoes the library's upper-case formatting. */
  lemma {:induction false} UnhexlifyHexUpper(bs: seq<Byte>)
    ensures Unhexlify(HexUpper(bs)) == Some(bs)
  {
    if bs != [] {
      var s := HexUpper(bs);
      assert s[2..] == HexUpper(bs[1..]);
      assert 16 * DigitValue(s[0]) + DigitValue(s[1]) == bs[0];
      UnhexlifyHexUpper(bs[1..]);
      assert [bs[0]] + bs[1..] == bs;
    }
  }

  /** `unhexlify(hexlify(bs)) == bs` */
  lemma {:induction false} UnhexlifyHexlify(bs: seq<Byte>)
    ensures Unhexlify(Hexlify(bs)) == Some(bs)
  {
    if bs != [] {
      var s := Hexlify(bs);
      var h := LowerHex(bs[0]);
      assert s == h + Hexlify(bs[1..]);
      assert s[0] == h[0] && s[1] == h[1];
      assert s[2..] == Hexlify(bs[1..]);
      assert 16 * DigitValue(s[0]) + DigitValue(s[1]) == bs[0];
      UnhexlifyHexlify(bs[1..]);
      assert [bs[0]] + bs[1..] == bs;
    }
  }

  /** Whatever `unhexlify` accepts is exactly two characters per byte. */
  lemma {:induction false} UnhexlifyLength(s: string)
    ensures Unhexlify(s).Some? ==> |s| == 2 * |Unhexlify(s).value|
    decreases |s|
  {
    if |s| >= 2 {
      UnhexlifyLength(s[2..]);
    }
  }

  /** `unhexlify` works pair by pair, so it distributes over an even split. */
  lemma {:induction false} UnhexlifyAppend(a: string, b: string)
    requires |a| % 2 == 0 && Unhexlify(a).Some? && Unhexlify(b).Some?
    ensures Unhexlify(a + b).Some?
    ensures Unhexlify(a + b).value == Unhexlify(a).value + Unhexlify(b).value
    decreases |a|
  {
    if a != [] {
      var ab := a + b;
      assert ab[0] == a[0] && ab[1] == a[1] && ab[2..] == a[2..] + b;
      UnhexlifyAppend(a[2..], b);
      var x: Byte := 16 * DigitValue(a[0]) + DigitValue(a[1]);
      var ta, tb := Unhexlify(a[2..]).value, Unhexlify(b).value;
      assert Unhexlify(a).value == [x] + ta;
      assert Unhexlify(ab) == Some([x] + (ta + tb));
      assert [x] + (ta + tb) == ([x] + ta) + tb;
    } else {
      assert a + b == b;
    }
  }

  /** Byte `i` of a formatted response sits at characters `2i .. 2i+2`. */
  lemma HexUpperAt(bs: seq<Byte>, i: nat)
    requires i < |bs|
    ensures HexUpper(bs)[2 * i..2 * i + 2] == UpperHex(bs[i])
  {
  }

  /** Formatting one more byte appends its two digits. */
  lemma HexUpperSnoc(bs: seq<Byte>, b: Byte)
    ensures HexUpper(bs + [b]) == HexUpper(bs) + UpperHex(b)
  {
    var l, r := HexUpper(bs + [b]), HexUpper(bs) + UpperHex(b);
    forall k | 0 <= k < |l|
      ensures l[k] == r[k]
    {
      assert (bs + [b])[k / 2] == if k / 2 < |bs| then bs[k / 2] else b;
    }
  }

  /** `int(data[2i:2i+2], 16)` on a formatted response is byte `i`. */
  lemma ParseResponseByte(bs: seq<Byte>, i: nat)
    requires i < |bs|
    ensures ParseHex(Slice(HexUpper(bs), 2 * i, 2 * i + 2)) == Ok(bs[i])
  {
    HexUpperAt(bs, i);
    ParseByteHex(bs[i], true);
  }

  /** `int(data[2i:2i+4], 16)` on a formatted response is the big-endian word at byte `i`. */
  lemma ParseResponseWord(bs: seq<Byte>, i: nat)
    requires i + 1 < |bs|
    ensures var p := ParseHex(Slice(HexUpper(bs), 2 * i, 2 * i + 4));
      p.Ok? && p.value == 256 * (bs[i] as int) + bs[i + 1] as int
  {
    HexUpperWordAt(bs, i);
    ParseWord(bs[i], bs[i + 1]);
  }

  lemma HexUpperWordAt(bs: seq<Byte>, i: nat)
    requires i + 1 < |bs|
    ensures Slice(HexUpper(bs), 2 * i, 2 * i + 4) == UpperHex(bs[i]) + UpperHex(bs[i + 1])
  {
    var h := HexUpper(bs);
    assert h[2 * i..2 * i + 2] == UpperHex(bs[i]) by { HexUpperAt(bs, i); }
    assert h[2 * i + 2..2 * i + 4] == UpperHex(bs[i + 1]) by { HexUpperAt(bs, i + 1); }
    SliceOfFour(h, 2 * i, UpperHex(bs[i]), UpperHex(bs[i + 1]));
  }

  lemma SliceOfFour<T>(s: seq<T>, j: nat, x: seq<T>, y: seq<T>)
    requires j + 4 <= |s| && s[j..j + 2] == x && s[j + 2..j + 4] == y
    ensures Slice(s, j, j + 4) == x + y
  {
    assert s[j..j + 4] == s[j..j + 2] + s[j + 2..j + 4];
  }

  lemma SliceSplit<T>(s: seq<T>, a: nat, b: nat, c: nat)
    requires a <= b <= c <= |s|
    ensures s[a..c] == s[a..b] + s[b..c]
  {
  }

  lemma ParseWord(x: Byte, y: Byte)
    ensures var p := ParseHex(UpperHex(x) + UpperHex(y));
      p.Ok? && p.value == 256 * (x as int) + y as int
  {
    var a, b := UpperHex(x), UpperHex(y);
    ParseByteHex(x, true);
    HexValueAppend(a, b[0]);
    HexValueAppend(a + [b[0]], b[1]);
    assert a + b == (a + [b[0]]) + [b[1]];
  }
}
