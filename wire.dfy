/** What the display receives: the log of calls made on the two device
    primitives, `SendByteToDevice` and `Flush`, and the framing of each
    display operation in that log. */
module Wire {
  import opened Wrappers
  import opened Protocol

  /** One call of a device primitive. */
  datatype Event = Send(value: Byte) | Flush

  /** The bytes sent, in order, ignoring flushes. */
  function Sends(log: seq<Event>): seq<Byte> {
    if log == [] then []
    else (if log[0].Send? then [log[0].value] else []) + Sends(log[1..])
  }

  /** The number of flushes in a log. */
  function Flushes(log: seq<Event>): nat {
    if log == [] then 0
    else (if log[0].Flush? then 1 else 0) + Flushes(log[1..])
  }

  lemma {:induction false} SendsAppend(a: seq<Event>, b: seq<Event>)
    ensures Sends(a + b) == Sends(a) + Sends(b)
    ensures Flushes(a + b) == Flushes(a) + Flushes(b)
  {
    if a == [] {
      assert a + b == b;
    } else {
      assert (a + b)[0] == a[0] && (a + b)[1..] == a[1..] + b;
      SendsAppend(a[1..], b);
    }
  }

  /** A control code framed as a command: marker, code, flush. */
  function CommandEvents(code: Byte): seq<Event> {
    [Send(CommandMarker), Send(code), Flush]
  }

  /** A command puts the marker and the code on the wire, with one flush. */
  lemma CommandShape(code: Byte)
    ensures Sends(CommandEvents(code)) == [CommandMarker, code]
    ensures Flushes(CommandEvents(code)) == 1
  {
    var e := CommandEvents(code);
    assert e[1..] == [Send(code), Flush];
    assert e[1..][1..] == [Flush];
    assert e[1..][1..][1..] == [];
    assert Sends(e[1..][1..]) == [] && Flushes(e[1..][1..]) == 1;
    assert Sends(e[1..]) == [code] && Flushes(e[1..]) == 1;
  }

  /** Raw data: every byte is sent and flushed on its own. */
  function TextEvents(bytes: seq<Byte>): seq<Event> {
    if bytes == [] then [] else [Send(bytes[0]), Flush] + TextEvents(bytes[1..])
  }

  lemma {:induction false} TextEventsAppend(a: seq<Byte>, b: seq<Byte>)
    ensures TextEvents(a + b) == TextEvents(a) + TextEvents(b)
  {
    if a == [] {
      assert a + b == b;
    } else {
      assert (a + b)[0] == a[0] && (a + b)[1..] == a[1..] + b;
      TextEventsAppend(a[1..], b);
    }
  }

  lemma {:induction false} TextEventsLength(bytes: seq<Byte>)
    ensures |TextEvents(bytes)| == 2 * |bytes|
  {
    if bytes != [] {
      TextEventsLength(bytes[1..]);
    }
  }

  /** Data framing, position by position: byte i of the data is event 2i,
      and its flush is event 2i + 1. */
  lemma {:induction false} TextEventsAt(bytes: seq<Byte>, i: nat)
    requires i < |bytes|
    ensures |TextEvents(bytes)| == 2 * |bytes|
    ensures TextEvents(bytes)[2 * i] == Send(bytes[i]) && TextEvents(bytes)[2 * i + 1] == Flush
  {
    TextEventsLength(bytes);
    if i > 0 {
      TextEventsAt(bytes[1..], i - 1);
    }
  }

  /** Data framing: the bytes sent are exactly the data, with one flush per
      byte. */
  lemma {:induction false} TextEventsShape(bytes: seq<Byte>)
    ensures |TextEvents(bytes)| == 2 * |bytes|
    ensures Sends(TextEvents(bytes)) == bytes
    ensures Flushes(TextEvents(bytes)) == |bytes|
  {
    TextEventsLength(bytes);
    if bytes != [] {
      var e := [Send(bytes[0]), Flush];
      TextEventsShape(bytes[1..]);
      SendsAppend(e, TextEvents(bytes[1..]));
      assert e[1..][1..] == [];
      assert Sends(e) == [bytes[0]];
      assert Flushes(e) == 1;
    }
  }

  /** One public display operation: a framed control code, or a text write
      to one row (line-address byte, then the data bytes). */
  datatype Op = Command(code: Byte) | LineWrite(line: LineIndex, text: seq<Byte>)

  /** The text writes the public interface can issue carry a non-empty
      ASCII text. */
  predicate WellFormed(op: Op) {
    op.LineWrite? ==> op.text != [] && AllAscii(op.text)
  }

  predicate AllWellFormed(ops: seq<Op>) {
    forall i :: 0 <= i < |ops| ==> WellFormed(ops[i])
  }

  /** The events of one operation. The line-address byte has neither marker
      nor flush of its own; only the data bytes after it are flushed. */
  function OpEvents(op: Op): seq<Event> {
    match op
    case Command(code) => CommandEvents(code)
    case LineWrite(line, text) => [Send(LineCodes[line])] + TextEvents(text)
  }

  /** A line write sends the address byte and then the text: 1 + |text|
      sends and |text| flushes. The address byte is neither preceded by the
      marker nor followed by a flush; the first text byte comes right after. */
  lemma LineWriteShape(line: LineIndex, text: seq<Byte>)
    requires text != []
    ensures Sends(OpEvents(LineWrite(line, text))) == [LineCodes[line]] + text
    ensures Flushes(OpEvents(LineWrite(line, text))) == |text|
    ensures |OpEvents(LineWrite(line, text))| == 1 + 2 * |text|
    ensures OpEvents(LineWrite(line, text))[0] == Send(LineCodes[line])
    ensures OpEvents(LineWrite(line, text))[1] == Send(text[0])
  {
    var head := [Send(LineCodes[line])];
    assert head[1..] == [];
    TextEventsShape(text);
    TextEventsAt(text, 0);
    SendsAppend(head, TextEvents(text));
  }

  /** The events of a sequence of operations. */
  function Log(ops: seq<Op>): seq<Event> {
    if ops == [] then [] else OpEvents(ops[0]) + Log(ops[1..])
  }

  /** The log of an operation put in front of a sequence. */
  lemma LogPrepend(op: Op, ops: seq<Op>)
    ensures Log([op] + ops) == OpEvents(op) + Log(ops)
  {
    assert ([op] + ops)[1..] == ops;
  }

  /** The log of two operation sequences, one after the other, is the first
      log followed by the second. */
  lemma {:induction false} LogAppend(a: seq<Op>, b: seq<Op>)
    ensures Log(a + b) == Log(a) + Log(b)
  {
    if a == [] {
      assert a + b == b;
    } else {
      calc {
        Log(a + b);
      == { assert a + b == [a[0]] + (a[1..] + b); }
        Log([a[0]] + (a[1..] + b));
      == { LogPrepend(a[0], a[1..] + b); }
        OpEvents(a[0]) + Log(a[1..] + b);
      == { LogAppend(a[1..], b); }
        OpEvents(a[0]) + (Log(a[1..]) + Log(b));
      }
    }
  }

  lemma AllWellFormedAppend(a: seq<Op>, b: seq<Op>)
    requires AllWellFormed(a) && AllWellFormed(b)
    ensures AllWellFormed(a + b)
  {
    forall i | 0 <= i < |a + b| ensures WellFormed((a + b)[i]) {
      if i < |a| {
        assert (a + b)[i] == a[i];
      } else {
        assert (a + b)[i] == b[i - |a|];
      }
    }
  }

  /** Performing one more well-formed operation extends the log by that
      operation's events and keeps the history well formed. */
  lemma LogSnoc(h: seq<Op>, op: Op)
    requires AllWellFormed(h) && WellFormed(op)
    ensures AllWellFormed(h + [op])
    ensures Log(h + [op]) == Log(h) + OpEvents(op)
  {
    AllWellFormedAppend(h, [op]);
    LogAppend(h, [op]);
    assert Log([op]) == OpEvents(op) + Log([]) by {
      assert [op][1..] == [];
    }
  }

  /** The data bytes at the head of a log: the longest prefix that reads
      as ASCII bytes each followed by its flush. */
  function DataBytes(log: seq<Event>): (r: seq<Byte>)
    ensures 2 * |r| <= |log|
  {
    if |log| >= 2 && log[0].Send? && log[0].value < 0x80 && log[1] == Flush then
      [log[0].value] + DataBytes(log[2..])
    else
      []
  }

  /** The data bytes are ASCII, and the events they span are their text
      framing. */
  lemma {:induction false} DataBytesFraming(log: seq<Event>)
    ensures AllAscii(DataBytes(log))
    ensures log[..2 * |DataBytes(log)|] == TextEvents(DataBytes(log))
  {
    if |log| >= 2 && log[0].Send? && log[0].value < 0x80 && log[1] == Flush {
      DataBytesFraming(log[2..]);
      var text := DataBytes(log[2..]);
      assert log[..2 * |text| + 2] == [log[0], log[1]] + log[2..][..2 * |text|];
      assert ([log[0].value] + text)[1..] == text;
    }
  }

  /** Reads the operation at the head of a log: a command frame (marker,
      code, flush), or a line-address byte followed by at least one data
      byte. Gives the operation and the number of events it spans. */
  function NextOp(log: seq<Event>): (r: Option<(Op, nat)>)
    ensures r.Some? ==> 0 < r.value.1 <= |log|
  {
    if |log| >= 3 && log[0] == Send(CommandMarker) && log[1].Send? && log[2] == Flush then
      Some((Command(log[1].value), 3))
    else if |log| > 0 && log[0].Send? && LineIndexOf(log[0].value).Some? then
      var text := DataBytes(log[1..]);
      if text == [] then None
      else Some((LineWrite(LineIndexOf(log[0].value).value, text), 1 + 2 * |text|))
    else None
  }

  /** Reads a log back into the operations that produced it, or None when
      the log is not the framing of any sequence of operations. */
  function Decode(log: seq<Event>): Option<seq<Op>>
    decreases |log|
  {
    if log == [] then Some([])
    else
      match NextOp(log)
      case None => None
      case Some((op, n)) =>
        match Decode(log[n..])
        case None => None
        case Some(rest) => Some([op] + rest)
  }

  /** A byte that can start an operation: the marker or a line address. */
  predicate StartsOp(rest: seq<Event>) {
    rest == [] || (rest[0].Send? && rest[0].value >= 0x80)
  }

  /** The log of a sequence of operations starts by sending a byte outside
      ASCII: the marker or a line address. */
  lemma LogHead(ops: seq<Op>)
    ensures StartsOp(Log(ops))
  {
    if ops != [] && ops[0].LineWrite? {
      LineIndexOfLineCode(ops[0].line);
    }
  }

  lemma AllAsciiTail(text: seq<Byte>)
    requires AllAscii(text) && text != []
    ensures text[0] < 0x80 && AllAscii(text[1..])
  {
    assert forall i :: 0 <= i < |text| - 1 ==> text[1..][i] == text[i + 1];
  }

  lemma DataBytesCons(b: Byte, log: seq<Event>)
    requires b < 0x80
    ensures DataBytes([Send(b), Flush] + log) == [b] + DataBytes(log)
  {
    assert ([Send(b), Flush] + log)[2..] == log;
  }

  lemma TextEventsCons(text: seq<Byte>, rest: seq<Event>)
    requires text != []
    ensures TextEvents(text) + rest == [Send(text[0]), Flush] + (TextEvents(text[1..]) + rest)
  {
  }

  /** Data ends where the next operation's first byte appears. */
  lemma {:induction false} DataBytesOfText(text: seq<Byte>, rest: seq<Event>)
    requires AllAscii(text) && StartsOp(rest)
    ensures DataBytes(TextEvents(text) + rest) == text
  {
    if text == [] {
      assert TextEvents(text) + rest == rest;
    } else {
      AllAsciiTail(text);
      DataBytesOfText(text[1..], rest);
      TextEventsCons(text, rest);
      DataBytesCons(text[0], TextEvents(text[1..]) + rest);
      assert [text[0]] + text[1..] == text;
    }
  }

  /** A line address followed by a non-empty run of data bytes is read as
      one line write spanning the address and the run. */
  lemma NextOpOfAddress(log: seq<Event>, line: LineIndex, text: seq<Byte>)
    requires log != [] && log[0] == Send(LineCodes[line])
    requires text != [] && DataBytes(log[1..]) == text
    ensures NextOp(log) == Some((LineWrite(line, text), 1 + 2 * |text|))
  {
    LineIndexOfLineCode(line);
  }

  /** A line write at the head of a log, followed by the log of the next
      operation (or nothing), is read back with its exact extent. */
  lemma NextOpOfLineWrite(line: LineIndex, text: seq<Byte>, rest: seq<Event>)
    requires text != [] && AllAscii(text) && StartsOp(rest)
    ensures NextOp(OpEvents(LineWrite(line, text)) + rest)
         == Some((LineWrite(line, text), |OpEvents(LineWrite(line, text))|))
  {
    var body := TextEvents(text) + rest;
    var log := [Send(LineCodes[line])] + body;
    assert OpEvents(LineWrite(line, text)) + rest == log;
    assert log[1..] == body;
    DataBytesOfText(text, rest);
    NextOpOfAddress(log, line, text);
    TextEventsLength(text);
  }

  /** The operation at the head of its own log, followed by the log of the
      next operation (or nothing), is read back with its exact extent. */
  lemma NextOpOfEvents(op: Op, rest: seq<Event>)
    requires WellFormed(op) && StartsOp(rest)
    ensures NextOp(OpEvents(op) + rest) == Some((op, |OpEvents(op)|))
  {
    if op.LineWrite? {
      NextOpOfLineWrite(op.line, op.text, rest);
    }
  }

  /** What NextOp reads is well formed and spans exactly its own events. */
  lemma NextOpSound(log: seq<Event>)
    requires NextOp(log).Some?
    ensures WellFormed(NextOp(log).value.0)
    ensures log[..NextOp(log).value.1] == OpEvents(NextOp(log).value.0)
  {
    if !(|log| >= 3 && log[0] == Send(CommandMarker) && log[1].Send? && log[2] == Flush) {
      DataBytesFraming(log[1..]);
      var n := 2 * |DataBytes(log[1..])|;
      assert log[..1 + n] == [log[0]] + log[1..][..n];
    }
  }

  /** A log that decodes starts with an operation NextOp reads, and the
      rest of it decodes too. */
  lemma DecodeUnstep(log: seq<Event>)
    requires log != [] && Decode(log).Some?
    ensures NextOp(log).Some?
    ensures Decode(log[NextOp(log).value.1..]).Some?
    ensures Decode(log).value == [NextOp(log).value.0] + Decode(log[NextOp(log).value.1..]).value
  {
  }

  /** Decoding one step: the head operation, then the rest. */
  lemma DecodeStep(log: seq<Event>, op: Op, n: nat, rest: seq<Op>)
    requires log != [] && NextOp(log) == Some((op, n))
    requires n <= |log| && Decode(log[n..]) == Some(rest)
    ensures Decode(log) == Some([op] + rest)
  {
  }

  /** The framing is unambiguous: decoding the log of well-formed operations
      gives those operations back. */
  lemma {:induction false} DecodeLog(ops: seq<Op>)
    requires AllWellFormed(ops)
    ensures Decode(Log(ops)) == Some(ops)
  {
    if ops != [] {
      var op, tail := ops[0], ops[1..];
      assert WellFormed(op);
      assert AllWellFormed(tail) by {
        forall i | 0 <= i < |tail| ensures WellFormed(tail[i]) {
          assert tail[i] == ops[i + 1];
        }
      }
      var rest := Log(tail);
      var log := OpEvents(op) + rest;
      DecodeLog(tail);
      LogHead(tail);
      NextOpOfEvents(op, rest);
      var n := |OpEvents(op)|;
      assert log[n..] == rest;
      DecodeStep(log, op, n, tail);
      assert Log(ops) == log;
      assert ops == [op] + tail;
    }
  }

  /** One well-formed operation spanning the head of a log, before
      well-formed operations whose log is the rest, has that whole log. */
  lemma LogOfHead(log: seq<Event>, op: Op, n: nat, tail: seq<Op>)
    requires n <= |log| && WellFormed(op) && log[..n] == OpEvents(op)
    requires AllWellFormed(tail) && Log(tail) == log[n..]
    ensures AllWellFormed([op] + tail) && Log([op] + tail) == log
  {
    LogPrepend(op, tail);
    AllWellFormedAppend([op], tail);
    assert log == log[..n] + log[n..];
  }

  /** Conversely, a log that decodes is exactly the log of what it decodes
      to, and what it decodes to is well formed. */
  lemma {:induction false} DecodeSound(log: seq<Event>)
    ensures Decode(log).Some? ==> AllWellFormed(Decode(log).value) && Log(Decode(log).value) == log
    decreases |log|
  {
    if log != [] && Decode(log).Some? {
      DecodeUnstep(log);
      var (op, n) := NextOp(log).value;
      NextOpSound(log);
      DecodeSound(log[n..]);
      LogOfHead(log, op, n, Decode(log[n..]).value);
    }
  }
}
