/** The abstract `Pertelian` display: the public operations, the protected
    helpers they are built from, and the two device primitives, with the
    device modelled as the log of primitive calls it has received. */
module Display {
  import opened Wrappers
  import opened Protocol
  import opened Wire

  /** The exceptions thrown by argument validation. */
  datatype Error =
    | ArgumentOutOfRange(paramName: string, actualValue: int, maxIndex: int)
    | Argument(message: string, paramName: string)

  /** The exception `Write(lineIndex, msg)` throws, if any. The row is
      checked first, then the text; `msg` is None for a null string. */
  function CheckWrite(lineIndex: int, msg: Option<string>): (r: Outcome<Error>)
    ensures r.Pass? <==> 0 <= lineIndex < |LineCodes| && msg.Some? && msg.value != []
    ensures (r.Fail? && r.error.ArgumentOutOfRange?) <==> (lineIndex < 0 || lineIndex >= |LineCodes|)
    ensures r.Fail? && r.error.ArgumentOutOfRange? ==>
      r.error == ArgumentOutOfRange("lineIndex", lineIndex, 3)
    ensures (r.Fail? && r.error.Argument?) <==>
      (0 <= lineIndex < |LineCodes| && (msg.None? || msg.value == []))
  {
    if lineIndex < 0 || lineIndex >= |LineCodes| then
      Fail(ArgumentOutOfRange("lineIndex", lineIndex, |LineCodes| - 1))
    else if msg.None? || msg.value == [] then
      Fail(Argument("msg cannot be null or empty", "msg"))
    else
      Pass
  }

  /** The commands Initialize sends, in order: 8-bit interface, cursor
      moves right without display shift, cursor moves on data write, cursor
      off, and finally the clear command. */
  const InitOps: seq<Op> :=
    [Command(0x38), Command(0x06), Command(0x10), Command(0x0C), Command(ClearCode)]

  /** Initialization is the five commands, one after the other. */
  lemma InitCommands()
    ensures AllWellFormed(InitOps)
    ensures Log(InitOps) == CommandEvents(0x38) + CommandEvents(0x06) + CommandEvents(0x10)
                          + CommandEvents(0x0C) + CommandEvents(ClearCode)
  {
    var h1 := [Command(0x38)];
    LogSnoc([], Command(0x38));
    assert [] + h1 == h1;
    var h2 := h1 + [Command(0x06)];
    LogSnoc(h1, Command(0x06));
    var h3 := h2 + [Command(0x10)];
    LogSnoc(h2, Command(0x10));
    var h4 := h3 + [Command(0x0C)];
    LogSnoc(h3, Command(0x0C));
    LogSnoc(h4, Command(ClearCode));
    assert h4 + [Command(ClearCode)] == InitOps;
  }

  /** Initialize's history, one command at a time, is the history before
      followed by the five commands. */
  lemma InitHistory(history0: seq<Op>)
    ensures history0 + [Command(0x38)] + [Command(0x06)] + [Command(0x10)] + [Command(0x0C)]
            + [Command(ClearCode)] == history0 + InitOps
  {
  }

  /** Initialize's log, one command at a time, is the log before followed by
      the framing of the five commands. */
  lemma InitLog(log0: seq<Event>)
    ensures log0 + CommandEvents(0x38) + CommandEvents(0x06) + CommandEvents(0x10)
            + CommandEvents(0x0C) + CommandEvents(ClearCode) == log0 + Log(InitOps)
  {
    InitCommands();
  }

  /** After the four set-up commands the log is still the framing of the
      history. */
  lemma InitSetup(log0: seq<Event>, history0: seq<Op>)
    requires AllWellFormed(history0) && log0 == Log(history0)
    ensures var h := history0 + [Command(0x38)] + [Command(0x06)] + [Command(0x10)] + [Command(0x0C)];
      AllWellFormed(h) &&
      log0 + CommandEvents(0x38) + CommandEvents(0x06) + CommandEvents(0x10)
      + CommandEvents(0x0C) == Log(h)
  {
    var h1 := history0 + [Command(0x38)];
    LogSnoc(history0, Command(0x38));
    var h2 := h1 + [Command(0x06)];
    LogSnoc(h1, Command(0x06));
    var h3 := h2 + [Command(0x10)];
    LogSnoc(h2, Command(0x10));
    LogSnoc(h3, Command(0x0C));
  }

  /** Initialization on the wire: each of the five codes after the marker
      and followed by its own flush, 15 events in all. */
  lemma InitSequence()
    ensures AllWellFormed(InitOps)
    ensures Log(InitOps) ==
      [Send(0xFE), Send(0x38), Flush, Send(0xFE), Send(0x06), Flush,
       Send(0xFE), Send(0x10), Flush, Send(0xFE), Send(0x0C), Flush,
       Send(0xFE), Send(0x01), Flush]
  {
    InitCommands();
  }

  /** The bytes initialization sends, and its five flushes. */
  lemma InitBytes()
    ensures AllWellFormed(InitOps)
    ensures Sends(Log(InitOps)) == [0xFE, 0x38, 0xFE, 0x06, 0xFE, 0x10, 0xFE, 0x0C, 0xFE, 0x01]
    ensures Flushes(Log(InitOps)) == 5
  {
    var a, b, c, d, e := CommandEvents(0x38), CommandEvents(0x06), CommandEvents(0x10),
                         CommandEvents(0x0C), CommandEvents(ClearCode);
    InitCommands();
    CommandShape(0x38);
    CommandShape(0x06);
    CommandShape(0x10);
    CommandShape(0x0C);
    CommandShape(ClearCode);
    SendsAppend(a, b);
    assert Sends(a + b) == [0xFE, 0x38, 0xFE, 0x06];
    SendsAppend(a + b, c);
    assert Sends(a + b + c) == [0xFE, 0x38, 0xFE, 0x06, 0xFE, 0x10];
    SendsAppend(a + b + c, d);
    assert Sends(a + b + c + d) == [0xFE, 0x38, 0xFE, 0x06, 0xFE, 0x10, 0xFE, 0x0C];
    SendsAppend(a + b + c + d, e);
  }

  /** Writing "AB" to row 1 sends 0xC0 unframed, then 0x41 and 0x42,
      each flushed; row -1 or 4 and the empty text are refused. */
  lemma WriteExamples()
    ensures OpEvents(LineWrite(1, AsciiBytes("AB"))) ==
      [Send(0xC0), Send(0x41), Flush, Send(0x42), Flush]
    ensures CheckWrite(1, Some("AB")) == Pass
    ensures CheckWrite(-1, Some("hi")).Fail? && CheckWrite(-1, Some("hi")).error.ArgumentOutOfRange?
    ensures CheckWrite(4, Some("hi")).Fail? && CheckWrite(4, Some("hi")).error.ArgumentOutOfRange?
    ensures CheckWrite(0, Some("")).Fail? && CheckWrite(0, Some("")).error.Argument?
  {
    var text := AsciiBytes("AB");
    assert text == [0x41, 0x42];
    assert TextEvents(text[1..][1..]) == [];
  }

  class Pertelian {
    /** The calls made on the device primitives, oldest first. */
    var log: seq<Event>
    /** The public operations performed so far, oldest first. */
    ghost var history: seq<Op>

    /** The device has received exactly the framing of the operations
        performed on it. */
    ghost predicate Valid()
      reads this
    {
      AllWellFormed(history) && log == Log(history)
    }

    constructor ()
      ensures Valid() && log == [] && history == []
    {
      log := [];
      history := [];
    }

    /** The wire log always reads back as the operations performed. */
    lemma LogDecodes()
      requires Valid()
      ensures Decode(log) == Some(history)
    {
      DecodeLog(history);
    }

    /** `SendByteToDevice`: one byte goes to the device. */
    method SendByteToDevice(value: Byte)
      modifies this
      ensures log == old(log) + [Send(value)] && history == old(history)
    {
      log := log + [Send(value)];
    }

    /** `Flush`: the device is flushed. */
    method Flush()
      modifies this
      ensures log == old(log) + [Wire.Flush] && history == old(history)
    {
      log := log + [Wire.Flush];
    }

    /** `WriteCode`: the marker, the code, then one flush; the command is
        recorded in the history. */
    method WriteCode(value: Byte)
      modifies this
      ensures log == old(log) + CommandEvents(value)
      ensures history == old(history) + [Command(value)]
    {
      SendByteToDevice(CommandMarker);
      SendByteToDevice(value);
      Flush();
      history := history + [Command(value)];
    }

    /** `Write(byte)`: one data byte and its flush. */
    method WriteByte(value: Byte)
      modifies this
      ensures log == old(log) + [Send(value), Wire.Flush] && history == old(history)
    {
      SendByteToDevice(value);
      Flush();
    }

    /** `Write(byte[])`: every byte in order, each flushed on its own. */
    method WriteBytes(bytes: array<Byte>)
      modifies this
      ensures log == old(log) + TextEvents(bytes[..]) && history == old(history)
    {
      var i := 0;
      while i < bytes.Length
        invariant 0 <= i <= bytes.Length
        invariant log == old(log) + TextEvents(bytes[..i])
        invariant history == old(history)
      {
        WriteByte(bytes[i]);
        assert bytes[..i + 1] == bytes[..i] + [bytes[i]];
        TextEventsAppend(bytes[..i], [bytes[i]]);
        assert TextEvents([bytes[i]]) == [Send(bytes[i]), Wire.Flush] by {
          assert [bytes[i]][1..] == [];
        }
        i := i + 1;
      }
      assert bytes[..] == bytes[..bytes.Length];
    }

    /** `Write(string)`: the ASCII encoding of the text, as data bytes. */
    method WriteString(s: string)
      modifies this
      ensures log == old(log) + TextEvents(AsciiBytes(s)) && history == old(history)
    {
      var encoded := AsciiBytes(s);
      var bytes := new Byte[|encoded|](i requires 0 <= i < |encoded| => encoded[i]);
      assert bytes[..] == encoded;
      WriteBytes(bytes);
    }

    /** `Write(lineIndex, msg)`: validates both arguments before anything is
        sent; then sends the row's address byte with no marker and no flush,
        followed by the text as data bytes. */
    method Write(lineIndex: int, msg: Option<string>) returns (r: Outcome<Error>)
      requires Valid()
      modifies this
      ensures Valid()
      ensures r == CheckWrite(lineIndex, msg)
      ensures r.Fail? ==> log == old(log) && history == old(history)
      ensures r.Pass? ==>
        log == old(log) + [Send(LineCodes[lineIndex])] + TextEvents(AsciiBytes(msg.value)) &&
        history == old(history) + [LineWrite(lineIndex, AsciiBytes(msg.value))]
    {
      if lineIndex < 0 || lineIndex >= |LineCodes| {
        return Fail(ArgumentOutOfRange("lineIndex", lineIndex, |LineCodes| - 1));
      }
      if msg.None? || msg.value == [] {
        return Fail(Argument("msg cannot be null or empty", "msg"));
      }
      ghost var log0, history0 := log, history;
      ghost var op := LineWrite(lineIndex, AsciiBytes(msg.value));
      SendByteToDevice(LineCodes[lineIndex]);
      WriteString(msg.value);
      history := history + [op];
      assert log == log0 + OpEvents(op);
      LogSnoc(history0, op);
      return Pass;
    }

    /** `EnableBacklight`: the command 0x03 to switch on, 0x02 to switch off. */
    method EnableBacklight(enable: bool)
      requires Valid()
      modifies this
      ensures Valid()
      ensures log == old(log) + CommandEvents(BacklightCode(enable))
      ensures history == old(history) + [Command(BacklightCode(enable))]
    {
      WriteCode(if enable then 0x03 else 0x02);
      LogSnoc(old(history), Command(BacklightCode(enable)));
    }

    /** `ClearDisplay`: the command 0x01. */
    method ClearDisplay()
      requires Valid()
      modifies this
      ensures Valid()
      ensures log == old(log) + CommandEvents(ClearCode)
      ensures history == old(history) + [Command(ClearCode)]
    {
      WriteCode(0x01);
      LogSnoc(old(history), Command(ClearCode));
    }

    /** `EnableDisplayAndCursor`: the command carrying the packed flags. */
    method EnableDisplayAndCursor(enableDisplay: bool, enableCursor: bool, blinkCursor: bool)
      requires Valid()
      modifies this
      ensures Valid()
      ensures log == old(log) + CommandEvents(DisplayFlagsCode(enableDisplay, enableCursor, blinkCursor))
      ensures history == old(history) + [Command(DisplayFlagsCode(enableDisplay, enableCursor, blinkCursor))]
    {
      WriteCode(DisplayFlagsCode(enableDisplay, enableCursor, blinkCursor));
      LogSnoc(old(history), Command(DisplayFlagsCode(enableDisplay, enableCursor, blinkCursor)));
    }

    /** `Initialize`: the five initialization commands, in order. */
    method Initialize()
      requires Valid()
      modifies this
      ensures Valid()
      ensures log == old(log) + Log(InitOps)
      ensures history == old(history) + InitOps
    {
      InitHistory(history);
      InitLog(log);
      InitSetup(log, history);
      WriteCode(0x38);
      WriteCode(0x06);
      WriteCode(0x10);
      WriteCode(0x0C);
      ClearDisplay();
    }
  }
}
