/** The command encoder of the Pertelian display: the constant bytes of the
    device protocol and the pure functions that compute control codes. */
module Protocol {
  import opened Wrappers

  /** One byte on the wire. */
  type Byte = b: int | 0 <= b < 256

  /** Every control code is preceded by this marker byte on the wire. */
  const CommandMarker: Byte := 0xFE

  /** Control code that clears the display. */
  const ClearCode: Byte := 0x01

  /** The line-address table `_lineCodes`: the byte that selects each of the
      four display rows, written as the source writes it. */
  const LineCodes: seq<Byte> := [0x80, 0x80 + 0x40, 0x80 + 0x14, 0x80 + 0x40 + 0x14]

  /** A row of the display, as an index into the line-address table. */
  type LineIndex = i: int | 0 <= i < |LineCodes|

  /** The table has four distinct entries, 0x80, 0xC0, 0x94 and 0xD4, and no
      entry is an ASCII byte or the command marker. */
  lemma LineCodeTable()
    ensures |LineCodes| == 4
    ensures LineCodes == [0x80, 0xC0, 0x94, 0xD4]
    ensures forall i, j :: 0 <= i < j < |LineCodes| ==> LineCodes[i] != LineCodes[j]
    ensures forall i :: 0 <= i < |LineCodes| ==> 0x80 <= LineCodes[i] && LineCodes[i] != CommandMarker
  {
  }

  /** The row a line-address byte selects, if it is one. */
  function LineIndexOf(b: Byte): (r: Option<LineIndex>)
    ensures r.Some? ==> LineCodes[r.value] == b
    ensures r.None? <==> b !in LineCodes
  {
    if b == LineCodes[0] then Some(0)
    else if b == LineCodes[1] then Some(1)
    else if b == LineCodes[2] then Some(2)
    else if b == LineCodes[3] then Some(3)
    else None
  }

  /** LineIndexOf inverts the table: every row is recovered from its byte,
      so no two rows share an address; no address is ASCII or the marker. */
  lemma LineIndexOfLineCode(i: LineIndex)
    ensures LineIndexOf(LineCodes[i]) == Some(i)
    ensures 0x80 <= LineCodes[i] && LineCodes[i] != CommandMarker
  {
  }

  /** The code sent by EnableBacklight: bit 0 carries the switch, the other
      bits are the fixed pattern 0000001. */
  function BacklightCode(enable: bool): (r: Byte)
    ensures r / 2 == 1
    ensures r % 2 == 1 <==> enable
  {
    if enable then 0x03 else 0x02
  }

  /** 2 to the power k. */
  function Pow2(k: nat): (r: nat)
    ensures r >= 1
  {
    if k == 0 then 1 else 2 * Pow2(k - 1)
  }

  /** Bit k of a byte, counting from the least significant bit 0. */
  predicate Bit(b: Byte, k: nat)
    requires k < 8
  {
    (b / Pow2(k)) % 2 == 1
  }

  /** A C# boolean converted with `b ? 1 : 0`. */
  function FlagValue(on: bool): bv32 {
    if on then 1 else 0
  }

  /** The `int` EnableDisplayAndCursor builds: the shifted flags OR-ed
      into 0, with bit 4 always set. */
  function PackFlags(enableDisplay: bool, enableCursor: bool, blinkCursor: bool): bv32 {
    var code: bv32 := 0;
    var code := code | (1 << 4);
    var code := code | (FlagValue(enableDisplay) << 3);
    var code := code | (FlagValue(enableCursor) << 2);
    code | (FlagValue(blinkCursor) << 1)
  }

  /** The packed flags as a number: 16 plus 8, 4 and 2 for the flags set. */
  lemma PackFlagsValue(enableDisplay: bool, enableCursor: bool, blinkCursor: bool)
    ensures (PackFlags(enableDisplay, enableCursor, blinkCursor) & 0xFF) as int
         == 0x10 + (if enableDisplay then 8 else 0) + (if enableCursor then 4 else 0)
                 + (if blinkCursor then 2 else 0)
  {
    if enableDisplay {
      if enableCursor {
        if blinkCursor {
          assert PackFlags(true, true, true) == 0x1E;
        } else {
          assert PackFlags(true, true, false) == 0x1C;
        }
      } else {
        if blinkCursor {
          assert PackFlags(true, false, true) == 0x1A;
        } else {
          assert PackFlags(true, false, false) == 0x18;
        }
      }
    } else {
      if enableCursor {
        if blinkCursor {
          assert PackFlags(false, true, true) == 0x16;
        } else {
          assert PackFlags(false, true, false) == 0x14;
        }
      } else {
        if blinkCursor {
          assert PackFlags(false, false, true) == 0x12;
        } else {
          assert PackFlags(false, false, false) == 0x10;
        }
      }
    }
  }

  /** The code sent by EnableDisplayAndCursor: the packed `int` cast to a
      byte (the cast keeps the low eight bits). Bit 4 is always set, bits
      3, 2 and 1 carry the display, cursor and blink flags, and bits 0 and
      5 to 7 are clear. */
  function DisplayFlagsCode(enableDisplay: bool, enableCursor: bool, blinkCursor: bool): (r: Byte)
    ensures Bit(r, 4)
    ensures Bit(r, 3) == enableDisplay && Bit(r, 2) == enableCursor && Bit(r, 1) == blinkCursor
    ensures !Bit(r, 0) && !Bit(r, 5) && !Bit(r, 6) && !Bit(r, 7)
    ensures 0x10 <= r <= 0x1E
  {
    PackFlagsValue(enableDisplay, enableCursor, blinkCursor);
    assert Pow2(1) == 2 && Pow2(2) == 4 && Pow2(3) == 8 && Pow2(4) == 16;
    assert Pow2(5) == 32 && Pow2(6) == 64 && Pow2(7) == 128;
    (PackFlags(enableDisplay, enableCursor, blinkCursor) & 0xFF) as int
  }

  /** The three flags read back from a display/cursor control code. */
  function DisplayFlagsOf(code: Byte): (bool, bool, bool) {
    (Bit(code, 3), Bit(code, 2), Bit(code, 1))
  }

  /** Packing is reversible, so distinct flag settings give distinct codes;
      all flags on gives 0x1E and all flags off gives 0x10. */
  lemma DisplayFlagsRoundTrip(enableDisplay: bool, enableCursor: bool, blinkCursor: bool)
    ensures DisplayFlagsOf(DisplayFlagsCode(enableDisplay, enableCursor, blinkCursor))
         == (enableDisplay, enableCursor, blinkCursor)
    ensures DisplayFlagsCode(true, true, true) == 0x1E
    ensures DisplayFlagsCode(false, false, false) == 0x10
  {
  }

  /** Every byte is an ASCII code. */
  predicate AllAscii(bytes: seq<Byte>) {
    forall i :: 0 <= i < |bytes| ==> bytes[i] < 0x80
  }

  /** The byte `Encoding.ASCII` gives one character: its own code when it is
      ASCII, the replacement '?' otherwise. */
  function AsciiByte(c: char): (b: Byte)
    ensures b < 0x80
    ensures c as int < 0x80 ==> b == c as int
  {
    if c as int < 0x80 then c as int else '?' as int
  }

  /** `Encoding.ASCII.GetBytes`: one byte per character, each below 0x80. */
  function AsciiBytes(s: string): (r: seq<Byte>)
    ensures |r| == |s|
    ensures forall i :: 0 <= i < |s| ==> r[i] < 0x80 && (s[i] as int < 0x80 ==> r[i] == s[i] as int)
  {
    if s == [] then [] else [AsciiByte(s[0])] + AsciiBytes(s[1..])
  }

  /** Characters for ASCII bytes, the inverse of AsciiBytes. */
  function AsciiString(bytes: seq<Byte>): (s: string)
    requires AllAscii(bytes)
  {
    if bytes == [] then [] else [bytes[0] as char] + AsciiString(bytes[1..])
  }

  /** Text made only of ASCII characters survives encoding unchanged. */
  lemma {:induction false} AsciiRoundTrip(s: string)
    requires forall i :: 0 <= i < |s| ==> s[i] as int < 0x80
    ensures AsciiString(AsciiBytes(s)) == s
  {
    if s != [] {
      AsciiRoundTrip(s[1..]);
    }
  }
}
