/** `GSM7bit_2_Ascii`: unpacking the default alphabet from 7-bit packed
    user data (GSM 03.38 section 6.1.2.1).

    Seven octets carry eight septets. Septet `k` of a group (k < 7) takes
    the low `7 - k` bits of octet `k` as its high part and the top `k` bits
    of octet `k - 1` as its low part; the eighth septet is the top seven
    bits of the group's seventh octet. */
module Septets {
  import opened Wrappers
  import opened Hex
  import opened Alphabet

  /** Septet `j` of the packed octets `o`, as GSM 03.38 lays them out:
      group `j / 8`, position `j % 8` within it. */
  function SeptetAt(o: seq<Byte>, j: nat): (v: Byte)
    requires j < |o| + |o| / 7
    ensures v < 0x80
  {
    SeptetIndex(|o|, j);
    var b := 7 * (j / 8);
    match j % 8
    case 0 => o[b] % 128
    case 1 => (o[b + 1] % 64) * 2 + o[b] / 128
    case 2 => (o[b + 2] % 32) * 4 + o[b + 1] / 64
    case 3 => (o[b + 3] % 16) * 8 + o[b + 2] / 32
    case 4 => (o[b + 4] % 8) * 16 + o[b + 3] / 16
    case 5 => (o[b + 5] % 4) * 32 + o[b + 4] / 8
    case 6 => (o[b + 6] % 2) * 64 + o[b + 5] / 4
    case 7 => o[b + 6] / 2
  }

  /** Every septet index below `n + n / 7` falls on octets that exist. */
  lemma SeptetIndex(n: nat, j: nat)
    requires j < n + n / 7
    ensures 7 * (j / 8) + (if j % 8 == 7 then 6 else j % 8) < n
  {
    var g, k := j / 8, j % 8;
    var q, r := n / 7, n % 7;
    assert j == 8 * g + k && n == 7 * q + r;
    if g >= q {
      assert g == q;
    }
  }

  /** All the septets packed into `o`: `n + n / 7` of them for `n` octets. */
  function Unpacked(o: seq<Byte>): (s: seq<Byte>)
    ensures |s| == |o| + |o| / 7
  {
    seq(|o| + |o| / 7, j requires 0 <= j < |o| + |o| / 7 => SeptetAt(o, j))
  }

  /** `GSM7bit_2_Ascii(data)`: unhexlify (a TypeError on malformed text),
      unpack, then decode the septets with `GSM3_38_2_ASCII`. */
  function SevenBitText(data: string): Result<string> {
    match Unhexlify(data)
    case None => Err(BadHex)
    case Some(o) => Ok(Decoded(Unpacked(o)))
  }

  /** The loop's step: with `i = idx % 7`, `mask = 2^(7-i) - 1` and `last`
      the previous octet of the group, `((c & mask) << i) + (last >> (8 - i))`
      is the septet that octet `idx` completes. */
  lemma {:induction false} StepIsSeptet(o: seq<Byte>, idx: nat)
    requires idx < |o|
    ensures idx + idx / 7 < |o| + |o| / 7
    ensures var i := idx % 7;
      var last := if i == 0 then 0 else o[idx - 1];
      SeptetAt(o, idx + idx / 7) == (o[idx] % Pow2(7 - i)) * Pow2(i) + last / Pow2(8 - i)
  {
    SeptetPosition(idx);
    SmallPowers();
  }

  /** Octet `idx` completes septet `idx + idx / 7`, at the same place in
      its group of eight as the octet in its group of seven. */
  lemma SeptetPosition(idx: nat)
    ensures var q, i := idx / 7, idx % 7;
      (idx + q) / 8 == q && (idx + q) % 8 == i && 7 * q + i == idx
  {
    var q, i := idx / 7, idx % 7;
    assert idx + q == 8 * q + i;
  }

  lemma SmallPowers()
    ensures Pow2(0) == 1 && Pow2(1) == 2 && Pow2(2) == 4 && Pow2(3) == 8 && Pow2(4) == 16
    ensures Pow2(5) == 32 && Pow2(6) == 64 && Pow2(7) == 128 && Pow2(8) == 256
  {
  }

  /** After the seventh octet of a group, `last >> 1` is the group's eighth septet. */
  lemma EighthSeptetStep(o: seq<Byte>, idx: nat)
    requires idx < |o| && idx % 7 == 6
    ensures idx + 1 + idx / 7 < |o| + |o| / 7
    ensures SeptetAt(o, idx + 1 + idx / 7) == o[idx] / 2
  {
    var q := idx / 7;
    assert idx == 7 * q + 6;
    assert (idx + 1) / 7 == q + 1;
    var j := idx + 1 + q;
    assert j == 8 * q + 7;
    assert j / 8 == q && j % 8 == 7;
  }

  /** What the loop of `GSM7bit_2_Ascii` knows after `idx` octets: the
      position `i` in the group, `mask` and `last` as the source keeps them,
      and the septets produced so far. */
  ghost predicate Unpacking(o: seq<Byte>, idx: nat, i: nat, mask: int, last: int, res: seq<Byte>) {
    idx <= |o| && i == idx % 7 && mask + 1 == Pow2(7 - i) &&
    last == (if i == 0 then 0 else o[idx - 1]) &&
    res == Unpacked(o)[..idx + idx / 7]
  }

  /** One pass of the loop body keeps `Unpacking`. */
  lemma UnpackingStep(o: seq<Byte>, idx: nat, i: nat, mask: int, last: int, res: seq<Byte>)
    requires Unpacking(o, idx, i, mask, last, res) && idx < |o|
    ensures var val := (o[idx] % (mask + 1)) * Pow2(i) + last / Pow2(8 - i);
      0 <= val < 256 &&
      ((i + 1) % 7 != 0 ==> Unpacking(o, idx + 1, i + 1, mask / 2, o[idx], res + [val])) &&
      ((i + 1) % 7 == 0 ==> Unpacking(o, idx + 1, 0, 0x7F, 0, res + [val] + [o[idx] / 2]))
  {
    var val := (o[idx] % (mask + 1)) * Pow2(i) + last / Pow2(8 - i);
    GroupEnd(i);
    StepIsSeptet(o, idx);
    NextIndex(idx);
    if i + 1 == 7 {
      GroupCompleted(o, idx, res, val);
    } else {
      HalfMask(7 - i);
      GroupContinues(o, idx, res, val);
    }
  }

  lemma GroupEnd(i: nat)
    requires i < 7
    ensures (i + 1) % 7 == 0 <==> i + 1 == 7
  {
  }

  /** A septet in the middle of a group: the prefix grows by one. */
  lemma GroupContinues(o: seq<Byte>, idx: nat, res: seq<Byte>, val: int)
    requires idx < |o| && idx % 7 != 6 && res == Unpacked(o)[..idx + idx / 7]
    requires idx + idx / 7 < |o| + |o| / 7 && SeptetAt(o, idx + idx / 7) == val
    requires (idx + 1) / 7 == idx / 7
    ensures res + [val] == Unpacked(o)[..(idx + 1) + (idx + 1) / 7]
  {
    assert Unpacked(o)[..|res| + 1] == res + [val];
  }

  /** The seventh octet of a group: its septet and the eighth one. */
  lemma GroupCompleted(o: seq<Byte>, idx: nat, res: seq<Byte>, val: int)
    requires idx < |o| && idx % 7 == 6 && res == Unpacked(o)[..idx + idx / 7]
    requires idx + idx / 7 < |o| + |o| / 7 && SeptetAt(o, idx + idx / 7) == val
    requires (idx + 1) / 7 == idx / 7 + 1
    ensures res + [val] + [o[idx] / 2] == Unpacked(o)[..(idx + 1) + (idx + 1) / 7]
  {
    EighthSeptetStep(o, idx);
    assert Unpacked(o)[..|res| + 2] == res + [val] + [o[idx] / 2];
  }

  method Gsm7BitToAscii(data: string) returns (r: Result<string>)
    ensures r == SevenBitText(data)
  {
    var octets := Unhexlify(data);
    if octets.None? {
      return Err(BadHex);
    }
    var o := octets.value;
    var i := 0;
    var mask := 0x7F;
    var last := 0;
    var res: seq<Byte> := [];
    var idx := 0;
    while idx < |o|
      invariant Unpacking(o, idx, i, mask, last, res)
    {
      var c := o[idx];
      UnpackingStep(o, idx, i, mask, last, res);
      var val := (c % (mask + 1)) * Pow2(i) + last / Pow2(8 - i);
      res := res + [val];
      i := i + 1;
      mask := mask / 2;
      last := c;
      if i % 7 == 0 {
        res := res + [last / 2];
        i := 0;
        mask := 0x7F;
        last := 0;
      }
      idx := idx + 1;
    }
    assert res == Unpacked(o);
    var text := FromDefaultAlphabet(res);
    r := Ok(text);
  }

  lemma NextIndex(idx: nat)
    ensures (idx + 1) % 7 == if idx % 7 == 6 then 0 else idx % 7 + 1
    ensures (idx + 1) / 7 == idx / 7 + if idx % 7 == 6 then 1 else 0
  {
  }

  lemma HalfMask(m: nat)
    requires m >= 1
    ensures (Pow2(m) - 1) / 2 + 1 == Pow2(m - 1)
  {
  }

  // ---------------------------------------------------------------------
  // Properties

  /** Every unpacked value is a septet, 0x00 to 0x7F. */
  lemma UnpackedRange(o: seq<Byte>)
    ensures forall j :: 0 <= j < |Unpacked(o)| ==> Unpacked(o)[j] <= 0x7F
  {
  }

  /** The first septet is the low seven bits of the first octet. */
  lemma FirstSeptet(o: seq<Byte>)
    requires |o| > 0
    ensures Unpacked(o)[0] == o[0] % 0x80
  {
  }

  /** Each full group's eighth septet is the top seven bits of its seventh octet. */
  lemma EighthSeptet(o: seq<Byte>, g: nat)
    requires 7 * g + 7 <= |o|
    ensures 8 * g + 7 < |Unpacked(o)|
    ensures Unpacked(o)[8 * g + 7] == o[7 * g + 6] / 2
  {
    var j := 8 * g + 7;
    assert j / 8 == g && j % 8 == 7;
  }

  /** No septet is the 0xFF filler, so the text has one character per septet:
      `n` octets read as `n + n / 7` characters. */
  lemma SevenBitTextLength(data: string)
    requires SevenBitText(data).Ok?
    ensures |SevenBitText(data).value| == |data| / 2 + (|data| / 2) / 7
  {
    var o := Unhexlify(data).value;
    UnhexlifyLength(data);
    assert |o| == |data| / 2;
    var u := Unpacked(o);
    assert forall j :: 0 <= j < |u| ==> u[j] != 0xFF;
    NoFillerNameEnd(u);
    DecodedChars(u);
    assert |Decoded(u)| == |u|;
  }

  /** The hex characters `smsFromData` hands over for `udl` septets:
      `((udl * 7) / 8) << 1`, plus 2 when `(udl * 7) % 8` is not zero. */
  function UserDataChars(udl: nat): nat {
    (udl * 7) / 8 * 2 + (if (udl * 7) % 8 != 0 then 2 else 0)
  }

  /** That is two characters for each of the fewest octets holding
      `7 * udl` bits. */
  lemma UserDataCharsIsCeiling(udl: nat)
    ensures UserDataChars(udl) % 2 == 0
    ensures var n := UserDataChars(udl) / 2; 8 * n >= 7 * udl && (n == 0 || 8 * (n - 1) < 7 * udl)
  {
  }

  /** Those octets unpack to exactly `udl` septets, or one more when
      `udl % 8 == 7` (the last septet then comes from the spare bits). */
  lemma UserDataSeptets(udl: nat)
    ensures var n := UserDataChars(udl) / 2;
      n + n / 7 == udl + (if udl % 8 == 7 then 1 else 0)
  {
    var q, r := udl / 8, udl % 8;
    assert 7 * udl == 8 * (7 * q) + 7 * r;
    ShiftByEight(7 * q, 7 * r);
    SevenRemainder(r);
    assert UserDataChars(udl) / 2 == 7 * q + r;
    ShiftBySeven(q, r);
  }

  lemma ShiftByEight(k: nat, c: nat)
    ensures (8 * k + c) / 8 == k + c / 8 && (8 * k + c) % 8 == c % 8
  {
  }

  lemma ShiftBySeven(k: nat, c: nat)
    ensures (7 * k + c) / 7 == k + c / 7
  {
  }

  /** `7 r` bits for `r < 8` septets take `r` octets. */
  lemma SevenRemainder(r: nat)
    requires r < 8
    ensures (7 * r) / 8 + (if (7 * r) % 8 != 0 then 1 else 0) == r
  {
  }
}
