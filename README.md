# Pertelian display driver: command encoding

A Dafny model of the command-encoding layer of PertelianSharp, the driver
for the Pertelian serial character display. The abstract `Pertelian` class
turns display operations (write text to one of four rows, switch the
backlight, clear the screen, show or hide the display and cursor) into byte
sequences sent through two device primitives, `SendByteToDevice` and
`Flush`. `SerialPertelian` adds the device file and a dispose guard.

The device is modelled as the log of primitive calls it has received, a
sequence of `Send(b)` and `Flush` events. Every operation is a method of
class `Display.Pertelian` whose postcondition states exactly which events it
appends.

- `Protocol` (protocol.dfy) holds the constants and the pure code functions:
  the line-address table, the backlight code, the packing of the display and
  cursor flags, and the ASCII encoding of text.
- `Wire` (wire.dfy) holds the event log and the framing of each operation.
  A command is the marker 0xFE, the code, then a flush. A text write is the
  row's address byte, with no marker and no flush of its own, followed by
  each text byte with its own flush. `Decode` reads a log back into
  operations. Two lemmas show the framing is unambiguous despite the
  unmarked address byte: a well-formed operation sequence decodes back to
  itself, and every decodable log is the encoding of what it decodes to.
  This works because address bytes and the marker are all at least 0x80,
  while text bytes are ASCII.
- `Display` (display.dfy) holds class `Pertelian`. Its ghost `history`
  lists the public operations performed so far. `Valid()` states that the
  log is exactly the framing of that history; every public method requires
  it and keeps it, while the protected helpers only state what they append. The module also holds the validation of `Write(lineIndex, msg)` and
  the initialization sequence.
- `Serial` (serial.dfy) holds class `SerialPertelian`: its construction and
  the `_isDisposed` guard of `Dispose`.

The C# overloads of `Write` get distinct names: `Write(byte)` is
`WriteByte`, `Write(byte[])` is `WriteBytes`, `Write(string)` is
`WriteString`, and the public `Write(int, string)` keeps the name `Write`.
A null `msg` is `None` of `Wrappers.Option`. The exceptions thrown by
validation are `Fail` of `Wrappers.Outcome` carrying a `Display.Error`.

## Model

| member | source | states |
|---|---|---|
| `Protocol.LineCodeTable` | PertelianSharp/Pertelian.cs:11-17 | the table has exactly 4 entries, 0x80, 0xC0, 0x94 and 0xD4; they are pairwise distinct; all are at least 0x80 and none is the 0xFE marker |
| `Protocol.LineIndexOf` | PertelianSharp/Pertelian.cs:11-17 | an address byte gives back the row whose entry it is; a byte not in the table gives None |
| `Protocol.LineIndexOfLineCode` | PertelianSharp/Pertelian.cs:11-17 | every row is recovered from its own address byte, so the rows have distinct addresses |
| `Protocol.BacklightCode` | PertelianSharp/Pertelian.cs:85-88 | the backlight code has bit 0 set exactly when the backlight is switched on, and the fixed value 1 above it (0x03 on, 0x02 off) |
| `Protocol.DisplayFlagsCode` | PertelianSharp/Pertelian.cs:95-106 | the packed code always has bit 4 set; bits 3, 2 and 1 are the display, cursor and blink flags; bits 0 and 5 to 7 are clear; the code lies in 0x10..0x1E |
| `Protocol.DisplayFlagsRoundTrip` | PertelianSharp/Pertelian.cs:95-106 | the three flags are read back from the code, so distinct settings give distinct codes; all on gives 0x1E and all off gives 0x10 |
| `Protocol.AsciiByte` | PertelianSharp/Pertelian.cs:63 | each character becomes one byte below 0x80, its own code when it is ASCII |
| `Protocol.AsciiBytes` | PertelianSharp/Pertelian.cs:63 | the encoding has one byte per character, all below 0x80, and each ASCII character keeps its code |
| `Protocol.AsciiRoundTrip` | PertelianSharp/Pertelian.cs:63 | ASCII text decodes back from its encoding unchanged |
| `Wire.CommandShape` | PertelianSharp/Pertelian.cs:40-45 | a command sends the marker 0xFE and then the code, with exactly one flush |
| `Wire.TextEventsShape` | PertelianSharp/Pertelian.cs:47-58 | text framing is 2 events per byte: the byte, then its own flush; the bytes sent are the text, with one flush per byte |
| `Wire.LineWriteShape` | PertelianSharp/Pertelian.cs:81-82 | a line write sends the address byte and then the text bytes, one more send than there are text bytes, with one flush per text byte; the address byte has no marker before it and no flush after it |
| `Wire.DecodeLog` | PertelianSharp/Pertelian.cs:40-83 | decoding the log of any sequence of well-formed operations gives that sequence back, so the unmarked address byte does not make the framing ambiguous |
| `Wire.DecodeSound` | PertelianSharp/Pertelian.cs:40-83 | a log that decodes is exactly the log of the operations it decodes to |
| `Display.CheckWrite` | PertelianSharp/Pertelian.cs:69-79 | a row outside 0..3 fails with an out-of-range error naming `lineIndex`, its value and the largest row 3; otherwise a null or empty text fails with an argument error; the call passes exactly when both checks do |
| `Display.InitCommands` | PertelianSharp/Pertelian.cs:24-31 | initialization is the commands 0x38, 0x06, 0x10, 0x0C and 0x01, in that order |
| `Display.InitSequence` | PertelianSharp/Pertelian.cs:24-31 | initialization puts exactly 15 events on the wire: marker, code and flush for each of the five codes |
| `Display.InitBytes` | PertelianSharp/Pertelian.cs:24-31 | initialization sends the bytes FE 38 FE 06 FE 10 FE 0C FE 01 with 5 flushes |
| `Display.WriteExamples` | PertelianSharp/Pertelian.cs:67-83 | writing "AB" to row 1 sends 0xC0 unframed, then 0x41 and 0x42, each flushed; rows -1 and 4 and the empty text are refused |
| `Display.Pertelian.constructor` | PertelianSharp/Pertelian.cs:19-22 | a new display has received nothing |
| `Display.Pertelian.LogDecodes` | PertelianSharp/Pertelian.cs:24-106 | on a valid display, the log decodes to exactly the public operations performed on it |
| `Display.Pertelian.SendByteToDevice` | PertelianSharp/Pertelian.cs:33 | appends one send of the byte to the log |
| `Display.Pertelian.Flush` | PertelianSharp/Pertelian.cs:34 | appends one flush to the log |
| `Display.Pertelian.WriteCode` | PertelianSharp/Pertelian.cs:40-45 | appends exactly send 0xFE, send the code, flush, and records the command in the history |
| `Display.Pertelian.WriteByte` | PertelianSharp/Pertelian.cs:47-51 | appends exactly send the byte, flush |
| `Display.Pertelian.WriteBytes` | PertelianSharp/Pertelian.cs:53-59 | appends the text framing of the array's bytes, in order |
| `Display.Pertelian.WriteString` | PertelianSharp/Pertelian.cs:61-65 | appends the text framing of the string's ASCII encoding |
| `Display.Pertelian.Write` | PertelianSharp/Pertelian.cs:67-83 | returns the outcome of the validation; on failure nothing changes; on success it appends the row's address byte with no marker or flush, then the text framing of the message, and the log stays the framing of the history |
| `Display.Pertelian.EnableBacklight` | PertelianSharp/Pertelian.cs:85-88 | appends the command with the backlight code; the log stays the framing of the history |
| `Display.Pertelian.ClearDisplay` | PertelianSharp/Pertelian.cs:90-93 | appends the command 0x01; the log stays the framing of the history |
| `Display.Pertelian.EnableDisplayAndCursor` | PertelianSharp/Pertelian.cs:95-106 | appends the command carrying the packed display, cursor and blink flags; the log stays the framing of the history |
| `Display.Pertelian.Initialize` | PertelianSharp/Pertelian.cs:24-31 | appends the log of the five initialization commands and records them in the history; the log stays the framing of the history |
| `Serial.DisposeStep` | PertelianSharp/Pertelian.cs:124-132 | after a dispose the flag is set, and the handles already released stay released, in order |
| `Serial.DisposeIdempotent` | PertelianSharp/Pertelian.cs:124-132 | disposing twice is the same as disposing once |
| `Serial.DisposeRepeatedly` | PertelianSharp/Pertelian.cs:124-132 | any positive number of disposals of a fresh display releases the writer and then the stream, each exactly once |
| `Serial.SerialPertelian.constructor` | PertelianSharp/Pertelian.cs:115-121 | a new serial display has received exactly the initialization log and is not disposed |
| `Serial.SerialPertelian.Dispose` | PertelianSharp/Pertelian.cs:124-132 | the first call sets the flag and releases the writer, then the stream; later calls change nothing; the device log is untouched |

## Left out

- Opening the device file and the `BinaryWriter`/`Stream` transport (PertelianSharp/Pertelian.cs:112-118, 134-142) are I/O. The device is the event log, and a released handle is a `Resource` value appended to `released`. The constructor's `deviceFilePath` is unused.
- The busy-wait `delay()` after each flush (PertelianSharp/Pertelian.cs:145-153) only spends time. It sends nothing, so it is not modelled.
- Exceptions from the transport during a send or a flush are not modelled. Every primitive call succeeds.
- `Protocol.AsciiByte`: the byte for a non-ASCII character is assumed to be '?' (0x3F), the replacement the .NET ASCII encoding uses by default. The .NET encoding library is not part of this model. A Dafny `char` is one Unicode scalar value, so how that library treats UTF-16 surrogate pairs is not modelled either.
- C# inheritance and virtual dispatch are not modelled. `SerialPertelian` owns a `Pertelian` in its `display` field instead of extending it. The primitives `SendByteToDevice` and `Flush` are plain methods that append to the log.
- Operations on a disposed display are not refused. The source has no such guard: those calls reach the released writer, which raises a transport exception, and transport exceptions are not modelled.
- The initialization of a `SerialPertelian` does not release the device on failure. The source has no `try`/`finally` around `Initialize`, so the code is followed here.
- `Display.Error.ArgumentOutOfRange` records the largest valid row, 3 (`_lineCodes.Length - 1`), in place of the formatted message text.
