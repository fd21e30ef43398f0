/** The serial line and the T=0 exchange of `sendAPDU` (ISO/IEC 7816-3
    section 10.3).

    The reader's transmit and receive lines are tied together, so every
    byte written comes back as an echo that is read and thrown away. After
    the five header bytes the card answers with procedure bytes: NULL (0x60)
    means "wait", the INS byte means "go on with the data phase". The status
    word SW1 SW2 ends the exchange, again possibly after NULL bytes.

    The port is an input queue and an output log. `None` in the queue is a
    quiet period longer than the one-second read timeout: that `read()`
    returns '' and the period is used up. An exhausted queue times out on
    every read. */
module Transport {
  import opened Wrappers
  import opened Hex

  type Queue = seq<Option<Byte>>

  /** What the line holds: bytes still to arrive and every byte written. */
  datatype Wire = Wire(input: Queue, written: seq<Byte>)

  datatype Outcome<+T> = Outcome(result: Result<T>, wire: Wire)

  /** The reply of `sendAPDU`: data and status word as hexadecimal text. */
  datatype Reply = Reply(data: string, sw: string)

  /** One `read()`: the next byte, or `None` when the read times out. */
  function ReadByte(w: Wire): (r: (Option<Byte>, Wire))
    ensures r.1.written == w.written
    ensures |r.1.input| == if w.input == [] then 0 else |w.input| - 1
    ensures r.0.Some? ==> w.input != [] && r.1.input == w.input[1..]
  {
    if w.input == [] then (None, w) else (w.input[0], w.(input := w.input[1..]))
  }

  /** One `write(chr(b))`. */
  function WriteByte(w: Wire, b: Byte): Wire {
    w.(written := w.written + [b])
  }

  class SerialPort {
    var input: Queue
    var written: seq<Byte>

    function State(): Wire
      reads this
    {
      Wire(input, written)
    }

    constructor (arriving: Queue)
      ensures State() == Wire(arriving, [])
    {
      input := arriving;
      written := [];
    }

    method Read() returns (x: Option<Byte>)
      modifies this
      ensures (x, State()) == ReadByte(old(State()))
    {
      if input == [] {
        x := None;
      } else {
        x := input[0];
        input := input[1..];
      }
    }

    method Write(b: Byte)
      modifies this
      ensures State() == WriteByte(old(State()), b)
    {
      written := written + [b];
    }
  }

  // ---------------------------------------------------------------------
  // The exchange, step by step

  /** `int(command[2k] + command[2k + 1], 16)`: an IndexError past the end of
      the command, a ValueError on a character that is not a hex digit. */
  function PairAt(cmd: string, k: nat): Result<Byte> {
    if 2 * k + 1 >= |cmd| then Err(OutOfRange)
    else if !IsHexDigit(cmd[2 * k]) || !IsHexDigit(cmd[2 * k + 1]) then Err(BadHex)
    else Ok(16 * DigitValue(cmd[2 * k]) + DigitValue(cmd[2 * k + 1]))
  }

  /** The queue after `n` reads that each use up one element (or none, once
      the queue is exhausted). */
  function Skip(q: Queue, n: nat): Queue {
    if n >= |q| then [] else q[n..]
  }

  /** `p` in front of a successful result. */
  function Prepended(p: seq<Byte>, o: Outcome<seq<Byte>>): Outcome<seq<Byte>> {
    if o.result.Ok? then Outcome(Ok(p + o.result.value), o.wire) else o
  }

  /** Sending the `count` bytes at pairs `from`, `from + 1`, ...: each is
      parsed, written and followed by one echo read whose value is ignored.
      The result lists the bytes sent; a parse failure stops the loop with
      the earlier bytes already on the line. */
  function SendPairs(cmd: string, from: nat, count: nat, w: Wire): (o: Outcome<seq<Byte>>)
    ensures o.result.Ok? ==> |o.result.value| == count
    ensures o.result.Ok? ==> forall k :: 0 <= k < count ==> PairAt(cmd, from + k) == Ok(o.result.value[k])
    ensures o.result.Ok? ==> o.wire.written == w.written + o.result.value
    ensures o.result.Ok? ==> o.wire.input == Skip(w.input, count)
    decreases count
  {
    if count == 0 then Outcome(Ok([]), w)
    else match PairAt(cmd, from)
      case Err(f) => Outcome(Err(f), w)
      case Ok(b) => Prepended([b], SendPairs(cmd, from + 1, count - 1, ReadByte(WriteByte(w, b)).1))
  }

  /** Waiting for the procedure byte: `Ok(true)` when the INS byte arrives,
      `Ok(false)` for any byte other than INS and NULL, NULL bytes skipped,
      a timeout raised. */
  function AwaitProcedure(ins: Byte, w: Wire): (o: Outcome<bool>)
    ensures o.wire.written == w.written
    decreases |w.input|
  {
    var (x, w1) := ReadByte(w);
    if x.None? then Outcome(Err(ReadTimeout), w1)
    else if x.value == ins then Outcome(Ok(true), w1)
    else if x.value != 0x60 then Outcome(Ok(false), w1)
    else AwaitProcedure(ins, w1)
  }

  /** Reading `n` data bytes from the card; a timeout is raised. */
  function ReceiveBytes(n: nat, w: Wire): (o: Outcome<seq<Byte>>)
    ensures o.result.Ok? ==> |o.result.value| == n
    ensures o.wire.written == w.written
  {
    if n == 0 then Outcome(Ok([]), w)
    else
      var (x, w1) := ReadByte(w);
      if x.None? then Outcome(Err(ReadTimeout), w1)
      else Prepended([x.value], ReceiveBytes(n - 1, w1))
  }

  /** Waiting for the status word: NULL bytes before SW1 are skipped, then
      SW2 is the next byte; a timeout is raised. */
  function AwaitStatus(w: Wire): (o: Outcome<(Byte, Byte)>)
    ensures o.wire.written == w.written
    ensures o.result.Ok? ==> o.result.value.0 != 0x60
    decreases |w.input|
  {
    var (x, w1) := ReadByte(w);
    if x.None? then Outcome(Err(ReadTimeout), w1)
    else if x.value == 0x60 then AwaitStatus(w1)
    else
      var (y, w2) := ReadByte(w1);
      if y.None? then Outcome(Err(ReadTimeout), w2)
      else Outcome(Ok((x.value, y.value)), w2)
  }

  /** The data phase: a ten-character command reads P3 bytes and returns
      them as upper-case hex (`"%02X"` per byte); any longer command writes
      its P3 body bytes, each with an echo read, and returns no data. */
  function DataPhase(cmd: string, p3: Byte, w: Wire): Outcome<string> {
    if |cmd| == 10 then
      var r := ReceiveBytes(p3, w);
      if r.result.Ok? then Outcome(Ok(HexUpper(r.result.value)), r.wire) else Outcome(Err(r.result.fault), r.wire)
    else
      var s := SendPairs(cmd, 5, p3, w);
      if s.result.Ok? then Outcome(Ok(""), s.wire) else Outcome(Err(s.result.fault), s.wire)
  }

  /** The status word as `sendAPDU` formats it: `"%02x%02x"`, lower case. */
  function StatusText(sw1: Byte, sw2: Byte): string {
    LowerHex(sw1) + LowerHex(sw2)
  }

  /** `sendAPDU(cmd, checkSW, refSW)` from the line's point of view: the
      reply or the exception, and what is left of the line afterwards. */
  function Exchange(cmd: string, checkSw: bool, refSw: string, w: Wire): Outcome<Reply> {
    var h := SendPairs(cmd, 0, 5, w);
    if h.result.Err? then Outcome(Err(h.result.fault), h.wire)
    else Answer(cmd, h.result.value, checkSw, refSw, h.wire)
  }

  /** After the header: the procedure byte decides whether the exchange
      goes on (INS) or returns ("", "") at once (any other byte but NULL). */
  function Answer(cmd: string, header: seq<Byte>, checkSw: bool, refSw: string, w: Wire): Outcome<Reply>
    requires |header| == 5
  {
    var p := AwaitProcedure(header[1], w);
    if p.result.Err? then Outcome(Err(p.result.fault), p.wire)
    else if !p.result.value then Outcome(Ok(Reply("", "")), p.wire)
    else Finish(cmd, header[4], checkSw, refSw, p.wire)
  }

  /** The data phase, the status word and the `checkSW` comparison. */
  function Finish(cmd: string, p3: Byte, checkSw: bool, refSw: string, w: Wire): Outcome<Reply> {
    var d := DataPhase(cmd, p3, w);
    if d.result.Err? then Outcome(Err(d.result.fault), d.wire)
    else
      var s := AwaitStatus(d.wire);
      if s.result.Err? then Outcome(Err(s.result.fault), s.wire)
      else
        var sw := StatusText(s.result.value.0, s.result.value.1);
        if checkSw && sw != refSw then Outcome(Err(StatusWordMismatch), s.wire)
        else Outcome(Ok(Reply(d.result.value, sw)), s.wire)
  }

  // ---------------------------------------------------------------------
  // What an exchange does

  /** Nothing in front of an outcome leaves it as it is. */
  lemma PrependedNothing(o: Outcome<seq<Byte>>)
    ensures Prepended([], o) == o
  {
    if o.result.Ok? {
      assert [] + o.result.value == o.result.value;
    }
  }

  /** `p` in front of `q` in front of an outcome is `p + q` in front of it. */
  lemma PrependedTwice(p: seq<Byte>, q: seq<Byte>, o: Outcome<seq<Byte>>)
    ensures Prepended(p, Prepended(q, o)) == Prepended(p + q, o)
  {
    if o.result.Ok? {
      assert p + (q + o.result.value) == (p + q) + o.result.value;
    }
  }

  /** `count` pairs from `from` on are hex. */
  predicate PairsParse(cmd: string, from: nat, count: nat) {
    forall j :: from <= j < from + count ==> PairAt(cmd, j).Ok?
  }

  /** The bytes those pairs stand for. */
  function PairBytes(cmd: string, from: nat, count: nat): (bs: seq<Byte>)
    requires PairsParse(cmd, from, count)
    ensures |bs| == count
  {
    seq(count, k requires 0 <= k < count => PairAt(cmd, from + k).value)
  }

  /** The first ten characters of the command are five hex pairs. */
  predicate HeaderParses(cmd: string) {
    PairsParse(cmd, 0, 5)
  }

  /** The five header bytes CLA INS P1 P2 P3. */
  function HeaderBytes(cmd: string): (h: seq<Byte>)
    requires HeaderParses(cmd)
    ensures |h| == 5
  {
    PairBytes(cmd, 0, 5)
  }

  /** Pairs that parse are all written, and one queue element is used up
      for each echo. */
  lemma {:induction false} SendPairsParsed(cmd: string, from: nat, count: nat, w: Wire)
    requires PairsParse(cmd, from, count)
    ensures SendPairs(cmd, from, count, w) ==
      Outcome(Ok(PairBytes(cmd, from, count)), Wire(Skip(w.input, count), w.written + PairBytes(cmd, from, count)))
    decreases count
  {
    if count > 0 {
      var b := PairAt(cmd, from).value;
      var w1 := ReadByte(WriteByte(w, b)).1;
      SendPairsParsed(cmd, from + 1, count - 1, w1);
      assert [b] + PairBytes(cmd, from + 1, count - 1) == PairBytes(cmd, from, count);
      assert Skip(w1.input, count - 1) == Skip(w.input, count);
    }
  }

  /** Once the header parses, the exchange is the card's answer on the
      line that follows the five echoes. */
  lemma ExchangeParsed(cmd: string, checkSw: bool, refSw: string, w: Wire)
    requires HeaderParses(cmd)
    ensures Exchange(cmd, checkSw, refSw, w) ==
      Answer(cmd, HeaderBytes(cmd), checkSw, refSw, Wire(Skip(w.input, 5), w.written + HeaderBytes(cmd)))
  {
    SendPairsParsed(cmd, 0, 5, w);
  }

  /** An exchange that returns at all got past the header: its ten
      characters were hex. */
  lemma ReplyMeansHeaderParsed(cmd: string, checkSw: bool, refSw: string, w: Wire)
    requires Exchange(cmd, checkSw, refSw, w).result.Ok?
    ensures HeaderParses(cmd)
  {
    var h := SendPairs(cmd, 0, 5, w);
    forall k | 0 <= k < 5 ensures PairAt(cmd, k).Ok? {
      assert PairAt(cmd, 0 + k) == Ok(h.result.value[k]);
    }
  }

  /** The five echo reads ignore the values they read: lines that differ
      only there give the same reply and leave the same line. */
  lemma EchoesIgnored(cmd: string, checkSw: bool, refSw: string, e1: Queue, e2: Queue, rest: Queue, written: seq<Byte>)
    requires HeaderParses(cmd) && |e1| == 5 && |e2| == 5
    ensures Exchange(cmd, checkSw, refSw, Wire(e1 + rest, written)) ==
      Exchange(cmd, checkSw, refSw, Wire(e2 + rest, written))
  {
    SendPairsParsed(cmd, 0, 5, Wire(e1 + rest, written));
    SendPairsParsed(cmd, 0, 5, Wire(e2 + rest, written));
    assert Skip(e1 + rest, 5) == rest == Skip(e2 + rest, 5);
  }

  function Nulls(n: nat): Queue {
    seq(n, _ => Some(0x60))
  }

  lemma {:induction false} AwaitProcedureSkipsNulls(ins: Byte, n: nat, rest: Queue, written: seq<Byte>)
    requires ins != 0x60
    ensures AwaitProcedure(ins, Wire(Nulls(n) + rest, written)) == AwaitProcedure(ins, Wire(rest, written))
  {
    if n > 0 {
      assert (Nulls(n) + rest)[1..] == Nulls(n - 1) + rest;
      AwaitProcedureSkipsNulls(ins, n - 1, rest, written);
    } else {
      assert Nulls(n) + rest == rest;
    }
  }

  /** Any run of NULL bytes before the procedure byte changes nothing, as
      long as INS is not itself 0x60 (INS is compared first). */
  lemma NullsBeforeProcedureIgnored(cmd: string, checkSw: bool, refSw: string, e: Queue, n: nat, rest: Queue, written: seq<Byte>)
    requires HeaderParses(cmd) && |e| == 5 && HeaderBytes(cmd)[1] != 0x60
    ensures Exchange(cmd, checkSw, refSw, Wire(e + Nulls(n) + rest, written)) ==
      Exchange(cmd, checkSw, refSw, Wire(e + rest, written))
  {
    var h := HeaderBytes(cmd);
    assert e + Nulls(n) + rest == e + (Nulls(n) + rest);
    ExchangeParsed(cmd, checkSw, refSw, Wire(e + (Nulls(n) + rest), written));
    ExchangeParsed(cmd, checkSw, refSw, Wire(e + rest, written));
    SkipPrefix(e, Nulls(n) + rest);
    SkipPrefix(e, rest);
    AnswerAfterNulls(cmd, h, checkSw, refSw, n, rest, written + h);
  }

  lemma SkipPrefix(e: Queue, q: Queue)
    ensures Skip(e + q, |e|) == q
  {
    if q == [] {
      assert e + q == e;
    }
  }

  lemma AnswerAfterNulls(cmd: string, h: seq<Byte>, checkSw: bool, refSw: string, n: nat, rest: Queue, written: seq<Byte>)
    requires |h| == 5 && h[1] != 0x60
    ensures Answer(cmd, h, checkSw, refSw, Wire(Nulls(n) + rest, written)) ==
      Answer(cmd, h, checkSw, refSw, Wire(rest, written))
  {
    AwaitProcedureSkipsNulls(h[1], n, rest, written);
  }

  /** A procedure byte other than INS and NULL ends the exchange with
      ("", ""), after the header only, whatever `checkSW` asks. */
  lemma UnexpectedProcedureByte(cmd: string, checkSw: bool, refSw: string, e: Queue, b: Byte, rest: Queue, written: seq<Byte>)
    requires HeaderParses(cmd) && |e| == 5 && b != HeaderBytes(cmd)[1] && b != 0x60
    ensures Exchange(cmd, checkSw, refSw, Wire(e + [Some(b)] + rest, written)) ==
      Outcome(Ok(Reply("", "")), Wire(rest, written + HeaderBytes(cmd)))
  {
    SendPairsParsed(cmd, 0, 5, Wire(e + [Some(b)] + rest, written));
    assert Skip(e + [Some(b)] + rest, 5) == [Some(b)] + rest;
    assert ([Some(b)] + rest)[1..] == rest;
  }

  /** Bytes arriving one after the other, with no quiet period between. */
  function Arriving(bs: seq<Byte>): (q: Queue)
    ensures |q| == |bs|
  {
    seq(|bs|, i requires 0 <= i < |bs| => Some(bs[i]))
  }

  /** What a card that takes a command sends back after the five echoes
      `e`: the INS byte, then `middle` (the data bytes, or one echo per body
      byte), then SW1 SW2. */
  function Answered(e: Queue, ins: Byte, middle: Queue, sw1: Byte, sw2: Byte): Queue {
    e + [Some(ins)] + middle + [Some(sw1), Some(sw2)]
  }

  lemma {:induction false} ReceiveArriving(bs: seq<Byte>, rest: Queue, written: seq<Byte>)
    ensures ReceiveBytes(|bs|, Wire(Arriving(bs) + rest, written)) == Outcome(Ok(bs), Wire(rest, written))
  {
    if bs != [] {
      assert (Arriving(bs) + rest)[1..] == Arriving(bs[1..]) + rest;
      ReceiveArriving(bs[1..], rest, written);
      assert [bs[0]] + bs[1..] == bs;
    } else {
      assert Arriving(bs) + rest == rest;
    }
  }

  /** A status word that arrives is read as it is. */
  lemma StatusArriving(sw1: Byte, sw2: Byte, rest: Queue, written: seq<Byte>)
    requires sw1 != 0x60
    ensures AwaitStatus(Wire([Some(sw1), Some(sw2)] + rest, written)) == Outcome(Ok((sw1, sw2)), Wire(rest, written))
  {
    var tail := [Some(sw1), Some(sw2)] + rest;
    assert tail[1..] == [Some(sw2)] + rest;
    assert ([Some(sw2)] + rest)[1..] == rest;
  }

  /** The three stages of an exchange without `checkSW` that completes:
      the header echoed, INS, the data phase and the status word. */
  lemma ExchangeCompletes(cmd: string, ins: Byte, p3: Byte, w: Wire, hw: Wire, w2: Wire, d: string, w3: Wire,
                          sw1: Byte, sw2: Byte, w4: Wire)
    requires HeaderParses(cmd) && HeaderBytes(cmd)[1] == ins && HeaderBytes(cmd)[4] == p3
    requires hw == Wire(Skip(w.input, 5), w.written + HeaderBytes(cmd))
    requires AwaitProcedure(ins, hw) == Outcome(Ok(true), w2)
    requires DataPhase(cmd, p3, w2) == Outcome(Ok(d), w3)
    requires AwaitStatus(w3) == Outcome(Ok((sw1, sw2)), w4)
    ensures Exchange(cmd, false, "", w) == Outcome(Ok(Reply(d, StatusText(sw1, sw2))), w4)
  {
    ExchangeParsed(cmd, false, "", w);
  }

  lemma FiveAt(cla: Byte, ins: Byte, p1: Byte, p2: Byte, p3: Byte, h: seq<Byte>)
    requires h == [cla, ins, p1, p2, p3]
    ensures h[1] == ins && h[4] == p3
  {
  }

  /** The card's INS after the five echoes. */
  lemma InsAfterEchoes(e: Queue, ins: Byte, more: Queue, written: seq<Byte>)
    requires |e| == 5
    ensures AwaitProcedure(ins, Wire(Skip(e + ([Some(ins)] + more), 5), written)) == Outcome(Ok(true), Wire(more, written))
  {
    assert Skip(e + ([Some(ins)] + more), 5) == [Some(ins)] + more;
  }

  /** A ten-character command with header CLA INS P1 P2 P3, whose card
      answers INS, P3 data bytes and a status word, returns the data as
      `2 * P3` upper-case hex characters and the status word, having
      written nothing but the header. */
  lemma ReadCommandReply(cmd: string, cla: Byte, ins: Byte, p1: Byte, p2: Byte, p3: Byte, e: Queue, data: seq<Byte>,
                         sw1: Byte, sw2: Byte, rest: Queue, written: seq<Byte>)
    requires |cmd| == 10 && HeaderParses(cmd) && HeaderBytes(cmd) == [cla, ins, p1, p2, p3] && |e| == 5
    requires |data| == p3 as int && sw1 != 0x60
    ensures Exchange(cmd, false, "", Wire(Answered(e, ins, Arriving(data), sw1, sw2) + rest, written)) ==
      Outcome(Ok(Reply(HexUpper(data), StatusText(sw1, sw2))), Wire(rest, written + [cla, ins, p1, p2, p3]))
  {
    var header := [cla, ins, p1, p2, p3];
    FiveAt(cla, ins, p1, p2, p3, HeaderBytes(cmd));
    var tail := [Some(sw1), Some(sw2)] + rest;
    var line := Answered(e, ins, Arriving(data), sw1, sw2) + rest;
    assert line == e + ([Some(ins)] + (Arriving(data) + tail));
    var hw := written + header;
    InsAfterEchoes(e, ins, Arriving(data) + tail, hw);
    ReceiveArriving(data, tail, hw);
    assert DataPhase(cmd, p3, Wire(Arriving(data) + tail, hw)) == Outcome(Ok(HexUpper(data)), Wire(tail, hw));
    StatusArriving(sw1, sw2, rest, hw);
    ExchangeCompletes(cmd, ins, p3, Wire(line, written), Wire(Skip(line, 5), hw), Wire(Arriving(data) + tail, hw),
      HexUpper(data), Wire(tail, hw), sw1, sw2, Wire(rest, hw));
  }

  /** A longer command with header CLA INS P1 P2 P3 and body bytes `body`,
      whose card answers INS, one echo per body byte and a status word,
      writes the header and the body, and returns no data and the status
      word. */
  lemma WriteCommandReply(cmd: string, cla: Byte, ins: Byte, p1: Byte, p2: Byte, p3: Byte, body: seq<Byte>,
                          e: Queue, echoes: Queue, sw1: Byte, sw2: Byte, rest: Queue, written: seq<Byte>)
    requires |cmd| != 10 && HeaderParses(cmd) && HeaderBytes(cmd) == [cla, ins, p1, p2, p3] && |e| == 5
    requires PairsParse(cmd, 5, p3) && PairBytes(cmd, 5, p3) == body
    requires |echoes| == p3 as int && sw1 != 0x60
    ensures Exchange(cmd, false, "", Wire(Answered(e, ins, echoes, sw1, sw2) + rest, written)) ==
      Outcome(Ok(Reply("", StatusText(sw1, sw2))), Wire(rest, written + [cla, ins, p1, p2, p3] + body))
  {
    var header := [cla, ins, p1, p2, p3];
    FiveAt(cla, ins, p1, p2, p3, HeaderBytes(cmd));
    var tail := [Some(sw1), Some(sw2)] + rest;
    var line := Answered(e, ins, echoes, sw1, sw2) + rest;
    assert line == e + ([Some(ins)] + (echoes + tail));
    var hw := written + header;
    InsAfterEchoes(e, ins, echoes + tail, hw);
    SendPairsParsed(cmd, 5, p3, Wire(echoes + tail, hw));
    assert Skip(echoes + tail, p3) == tail;
    assert DataPhase(cmd, p3, Wire(echoes + tail, hw)) == Outcome(Ok(""), Wire(tail, hw + body));
    StatusArriving(sw1, sw2, rest, hw + body);
    ExchangeCompletes(cmd, ins, p3, Wire(line, written), Wire(Skip(line, 5), hw), Wire(echoes + tail, hw),
      "", Wire(tail, hw + body), sw1, sw2, Wire(rest, hw + body));
  }

  predicate UpperHexText(s: string) {
    forall i :: 0 <= i < |s| ==> IsHexDigit(s[i]) && !('a' <= s[i] <= 'f')
  }

  predicate LowerHexText(s: string) {
    forall i :: 0 <= i < |s| ==> IsHexDigit(s[i]) && !('A' <= s[i] <= 'F')
  }

  lemma HexUpperIsUpper(bs: seq<Byte>)
    ensures UpperHexText(HexUpper(bs))
  {
  }

  /** The replies of the last stage: a four-character lower-case status
      word with, for a ten-character command, `2 * P3` upper-case hex
      characters of data and otherwise none. */
  lemma FinishShape(cmd: string, p3: Byte, checkSw: bool, refSw: string, w: Wire)
    requires Finish(cmd, p3, checkSw, refSw, w).result.Ok?
    ensures var r := Finish(cmd, p3, checkSw, refSw, w).result.value;
      |r.sw| == 4 && LowerHexText(r.sw) &&
      (|cmd| == 10 ==> |r.data| == 2 * (p3 as int) && UpperHexText(r.data)) &&
      (|cmd| != 10 ==> r.data == "")
  {
    if |cmd| == 10 {
      HexUpperIsUpper(ReceiveBytes(p3, w).result.value);
    }
  }

  /** Every reply is either the ("", "") of an unexpected procedure byte or
      what `FinishShape` describes. */
  lemma ReplyShape(cmd: string, checkSw: bool, refSw: string, w: Wire)
    requires HeaderParses(cmd) && Exchange(cmd, checkSw, refSw, w).result.Ok?
    ensures var r := Exchange(cmd, checkSw, refSw, w).result.value;
      (r.data == "" && r.sw == "") ||
      (|r.sw| == 4 && LowerHexText(r.sw) &&
       (|cmd| == 10 ==> |r.data| == 2 * (HeaderBytes(cmd)[4] as int) && UpperHexText(r.data)) &&
       (|cmd| != 10 ==> r.data == ""))
  {
    var h := HeaderBytes(cmd);
    var hw := Wire(Skip(w.input, 5), w.written + h);
    ExchangeParsed(cmd, checkSw, refSw, w);
    var p := AwaitProcedure(h[1], hw);
    if p.result.value {
      FinishShape(cmd, h[4], checkSw, refSw, p.wire);
    }
  }

  /** `checkSW` changes nothing on the line; it turns a reply whose status
      word differs from `refSW` into a raised error, and leaves every other
      outcome alone. */
  lemma CheckedExchange(cmd: string, refSw: string, w: Wire)
    ensures var u := Exchange(cmd, false, "", w);
      var c := Exchange(cmd, true, refSw, w);
      c.wire == u.wire &&
      c.result == if u.result.Ok? && u.result.value.sw != "" && u.result.value.sw != refSw
        then Err(StatusWordMismatch) else u.result
  {
  }

  /** Whatever happens later, the header goes out first. */
  lemma HeaderWrittenFirst(cmd: string, checkSw: bool, refSw: string, w: Wire)
    requires HeaderParses(cmd)
    ensures var written := Exchange(cmd, checkSw, refSw, w).wire.written;
      |written| >= |w.written| + 5 && written[..|w.written| + 5] == w.written + HeaderBytes(cmd)
  {
    SendPairsParsed(cmd, 0, 5, w);
    var hw := SendPairs(cmd, 0, 5, w).wire;
    var p := AwaitProcedure(HeaderBytes(cmd)[1], hw);
    if p.result.Ok? && p.result.value {
      FinishPrefix(cmd, HeaderBytes(cmd)[4], checkSw, refSw, p.wire);
    }
  }

  /** The data phase and the status word only append to what was written. */
  lemma FinishPrefix(cmd: string, p3: Byte, checkSw: bool, refSw: string, w: Wire)
    ensures var written := Finish(cmd, p3, checkSw, refSw, w).wire.written;
      |written| >= |w.written| && written[..|w.written|] == w.written
  {
    if |cmd| != 10 {
      SendPairsPrefix(cmd, 5, p3, w);
    }
  }

  /** Sending only ever appends to what was written. */
  lemma {:induction false} SendPairsPrefix(cmd: string, from: nat, count: nat, w: Wire)
    ensures var o := SendPairs(cmd, from, count, w);
      |o.wire.written| >= |w.written| && o.wire.written[..|w.written|] == w.written
    decreases count
  {
    if count > 0 && PairAt(cmd, from).Ok? {
      var w1 := ReadByte(WriteByte(w, PairAt(cmd, from).value)).1;
      SendPairsPrefix(cmd, from + 1, count - 1, w1);
      assert w1.written[..|w.written|] == w.written;
    }
  }

  /** Pairs whose text `unhexlify` reads as `bs` parse one by one to `bs`. */
  lemma {:induction false} PairsOfText(cmd: string, from: nat, count: nat, bs: seq<Byte>)
    requires 2 * (from + count) <= |cmd|
    requires Unhexlify(cmd[2 * from..2 * (from + count)]) == Some(bs)
    ensures PairsParse(cmd, from, count) && PairBytes(cmd, from, count) == bs
    decreases count, 1
  {
    if count > 0 {
      PairsOfTextCons(cmd, from, count, bs);
    } else {
      UnhexlifyLength(cmd[2 * from..2 * (from + count)]);
    }
  }

  lemma {:induction false} PairsOfTextCons(cmd: string, from: nat, count: nat, bs: seq<Byte>)
    requires count > 0 && 2 * (from + count) <= |cmd|
    requires Unhexlify(cmd[2 * from..2 * (from + count)]) == Some(bs)
    ensures PairsParse(cmd, from, count) && PairBytes(cmd, from, count) == bs
    decreases count, 0
  {
    PairsStep(cmd, from, count, bs);
    PairsOfText(cmd, from + 1, count - 1, bs[1..]);
    PairsCons(cmd, from, count, bs);
  }

  /** The first pair of the text parses to the first byte, and the rest of
      the text reads as the other bytes. */
  lemma PairsStep(cmd: string, from: nat, count: nat, bs: seq<Byte>)
    requires count > 0 && 2 * (from + count) <= |cmd|
    requires Unhexlify(cmd[2 * from..2 * (from + count)]) == Some(bs)
    ensures |bs| == count && PairAt(cmd, from) == Ok(bs[0])
    ensures 2 * ((from + 1) + (count - 1)) <= |cmd|
    ensures Unhexlify(cmd[2 * (from + 1)..2 * ((from + 1) + (count - 1))]) == Some(bs[1..])
  {
    var s := cmd[2 * from..2 * (from + count)];
    UnhexlifyLength(s);
    assert s[2..] == cmd[2 * (from + 1)..2 * ((from + 1) + (count - 1))];
    FirstPair(cmd, from, s, bs);
  }

  lemma FirstPair(cmd: string, from: nat, s: string, bs: seq<Byte>)
    requires 2 * from + 2 <= |cmd| && |s| >= 2
    requires s[0] == cmd[2 * from] && s[1] == cmd[2 * from + 1]
    requires Unhexlify(s) == Some(bs)
    ensures |bs| >= 1 && PairAt(cmd, from) == Ok(bs[0]) && Unhexlify(s[2..]) == Some(bs[1..])
  {
  }

  lemma PairsCons(cmd: string, from: nat, count: nat, bs: seq<Byte>)
    requires count > 0 && |bs| == count
    requires PairAt(cmd, from) == Ok(bs[0])
    requires PairsParse(cmd, from + 1, count - 1) && PairBytes(cmd, from + 1, count - 1) == bs[1..]
    ensures PairsParse(cmd, from, count) && PairBytes(cmd, from, count) == bs
  {
    forall j | from <= j < from + count
      ensures PairAt(cmd, j).Ok?
    {
      if j > from {
        assert from + 1 <= j < from + 1 + (count - 1);
      }
    }
    forall k | 0 <= k < count
      ensures PairBytes(cmd, from, count)[k] == bs[k]
    {
      if k > 0 {
        assert PairBytes(cmd, from + 1, count - 1)[k - 1] == bs[1..][k - 1];
      }
    }
  }

  /** A command whose first ten characters are the hex text of `hb` has
      `hb` as its header. */
  lemma HeaderOf(cmd: string, hb: seq<Byte>)
    requires |cmd| >= 10 && Unhexlify(cmd[..10]) == Some(hb)
    ensures HeaderParses(cmd) && HeaderBytes(cmd) == hb
  {
    assert cmd[2 * 0..2 * (0 + 5)] == cmd[..10];
    PairsOfText(cmd, 0, 5, hb);
  }

  /** The status word reads "9000" exactly for SW1 = 0x90 and SW2 = 0x00. */
  lemma StatusTextOk(sw1: Byte, sw2: Byte)
    ensures StatusText(sw1, sw2) == "9000" <==> sw1 == 0x90 && sw2 == 0x00
  {
    var t := StatusText(sw1, sw2);
    if t == "9000" {
      assert DigitValue(t[0]) == sw1 / 16 && DigitValue(t[1]) == sw1 % 16;
      assert DigitValue(t[2]) == sw2 / 16 && DigitValue(t[3]) == sw2 % 16;
    }
  }
}
