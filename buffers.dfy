/** The two constant tables: the 34-word OLED buffer that DMA replays into
    SPI1, and the eight LED words that the bit-banged driver sends. */
module Buffers {
  import Oled
  import BitBang

  /** The text of line 1 and line 2, sixteen characters each. */
  const LINE1: seq<Oled.CChar> := "ECE362 is the   "
  const LINE2: seq<Oled.CChar> := "class for you!  "

  /** The `display` table: a cursor command for line 1, sixteen characters,
      a cursor command for line 2, sixteen characters. */
  const DISPLAY: seq<Oled.UInt16> := [
    0x002,
    0x200 + 'E' as int, 0x200 + 'C' as int, 0x200 + 'E' as int, 0x200 + '3' as int,
    0x200 + '6' as int, 0x200 + '2' as int, 0x200 + ' ' as int, 0x200 + 'i' as int,
    0x200 + 's' as int, 0x200 + ' ' as int, 0x200 + 't' as int, 0x200 + 'h' as int,
    0x200 + 'e' as int, 0x200 + ' ' as int, 0x200 + ' ' as int, 0x200 + ' ' as int,
    0x0c0,
    0x200 + 'c' as int, 0x200 + 'l' as int, 0x200 + 'a' as int, 0x200 + 's' as int,
    0x200 + 's' as int, 0x200 + ' ' as int, 0x200 + 'f' as int, 0x200 + 'o' as int,
    0x200 + 'r' as int, 0x200 + ' ' as int, 0x200 + 'y' as int, 0x200 + 'o' as int,
    0x200 + 'u' as int, 0x200 + '!' as int, 0x200 + ' ' as int, 0x200 + ' ' as int
  ]

  /** Word 0 is the line-1 cursor command and word 17 the line-2 one; each
      other word is the word `spi_data` sends for the matching character of
      its line. */
  lemma DisplayWords()
    ensures |DISPLAY| == 34
    ensures DISPLAY[0] == Oled.DrValue(0x02) && DISPLAY[17] == Oled.DrValue(0xC0)
    ensures forall k :: 1 <= k < 17 ==> DISPLAY[k] == Oled.DataWord(LINE1[k - 1])
    ensures forall k :: 18 <= k < 34 ==> DISPLAY[k] == Oled.DataWord(LINE2[k - 18])
  {
    Line1Words();
    Line2Words();
  }

  lemma Line1Words()
    ensures forall k :: 1 <= k < 17 ==> DISPLAY[k] == Oled.DataWord(LINE1[k - 1])
  {
    forall k | 1 <= k < 17
      ensures DISPLAY[k] == Oled.DataWord(LINE1[k - 1])
    {
      // The split only keeps each proof obligation small.
      if k < 9 {
        assert DISPLAY[k] == Oled.DataWord(LINE1[k - 1]);
      } else {
        assert DISPLAY[k] == Oled.DataWord(LINE1[k - 1]);
      }
    }
  }

  lemma Line2Words()
    ensures forall k :: 18 <= k < 34 ==> DISPLAY[k] == Oled.DataWord(LINE2[k - 18])
  {
    forall k | 18 <= k < 34
      ensures DISPLAY[k] == Oled.DataWord(LINE2[k - 18])
    {
      // The split only keeps each proof obligation small.
      if k < 26 {
        assert DISPLAY[k] == Oled.DataWord(LINE2[k - 18]);
      } else {
        assert DISPLAY[k] == Oled.DataWord(LINE2[k - 18]);
      }
    }
  }

  /** The buffer holds exactly the words `spi1_display1(LINE1)` followed by
      `spi1_display2(LINE2)` would send. */
  lemma DisplayIsTwoLines()
    ensures DISPLAY == Oled.LineWords(0x02, LINE1) + Oled.LineWords(0xC0, LINE2)
  {
    DisplayWords();
    var a := Oled.LineWords(0x02, LINE1);
    var b := Oled.LineWords(0xC0, LINE2);
    assert DISPLAY[..17] == a by {
      forall k | 1 <= k < 17
        ensures DISPLAY[k] == a[k]
      {
        assert a[k] == Oled.Words(LINE1)[k - 1];
      }
    }
    assert DISPLAY[17..] == b by {
      forall k | 1 <= k < 17
        ensures DISPLAY[17 + k] == b[k]
      {
        assert b[k] == Oled.Words(LINE2)[k - 1];
      }
    }
    assert DISPLAY == DISPLAY[..17] + DISPLAY[17..];
  }

  /** The display controller reads the buffer as: cursor to line 1, the
      sixteen characters of line 1, cursor to line 2, the sixteen
      characters of line 2. Words 0 and 17 are the only commands. */
  lemma DisplayDecodes()
    ensures Oled.DecodeAll(DISPLAY)
      == [Oled.Command(0x02)] + Oled.AsData(LINE1) + [Oled.Command(0xC0)] + Oled.AsData(LINE2)
  {
    var a := Oled.LineWords(0x02, LINE1);
    var b := Oled.LineWords(0xC0, LINE2);
    DisplayIsTwoLines();
    Oled.DecodeAllAppend(a, b);
    Oled.LineDecodes(0x02, LINE1);
    Oled.LineDecodes(0xC0, LINE2);
    assert Oled.Decode(Oled.DrValue(0x02)) == Oled.Command(0x02);
    assert Oled.Decode(Oled.DrValue(0xC0)) == Oled.Command(0xC0);
  }

  /** The `msg` table: one word per LED digit, no segment lit. */
  const MSG: seq<bv16> := [0x0000, 0x0100, 0x0200, 0x0300, 0x0400, 0x0500, 0x0600, 0x0700]

  /** Word d carries the digit number d in bits 8 to 10 and nothing else. */
  lemma MsgAddressesDigits()
    ensures |MSG| == 8
    ensures forall d :: 0 <= d < 8 ==> MSG[d] as int == d * 0x100
  {
  }

  /** `msg` as `drive_bb` sends it: `main` ORs the segment byte of one
      character into each word. `font` is the external segment table,
      indexed by character code; its contents are a parameter. Each word
      keeps its digit number in the high byte and carries the segments of
      its character of "ECE 362 " in the low byte. */
  function LoadedMsg(font: seq<bv8>): (m: seq<bv16>)
    requires |font| > 'E' as int
    ensures |m| == 8
    ensures forall d :: 0 <= d < 8 ==> m[d] & 0xFF00 == MSG[d]
    ensures m[0] & 0x00FF == Segments(font, 'E') && m[1] & 0x00FF == Segments(font, 'C')
    ensures m[2] & 0x00FF == Segments(font, 'E') && m[3] & 0x00FF == Segments(font, ' ')
    ensures m[4] & 0x00FF == Segments(font, '3') && m[5] & 0x00FF == Segments(font, '6')
    ensures m[6] & 0x00FF == Segments(font, '2') && m[7] & 0x00FF == Segments(font, ' ')
  {
    [Or(MSG[0], Segments(font, 'E')), Or(MSG[1], Segments(font, 'C')),
     Or(MSG[2], Segments(font, 'E')), Or(MSG[3], Segments(font, ' ')),
     Or(MSG[4], Segments(font, '3')), Or(MSG[5], Segments(font, '6')),
     Or(MSG[6], Segments(font, '2')), Or(MSG[7], Segments(font, ' '))]
  }

  /** `digit |= segments` for a word whose low byte is clear and a segment
      byte: the two halves are kept apart. */
  function Or(digit: bv16, segments: bv16): (w: bv16)
    requires digit & 0x00FF == 0 && segments <= 0xFF
    ensures w & 0xFF00 == digit && w & 0x00FF == segments
  {
    digit | segments
  }

  /** `font[c]`, widened to a 16-bit word. */
  function Segments(font: seq<bv8>, c: char): (w: bv16)
    requires c as int < |font|
    ensures w <= 0xFF
  {
    font[c as int] as bv16
  }

  /** As written, the digit number of a word never reaches the wire: for
      every segment byte `f`, word d is sent as the same fifteen bits as `f`
      alone. */
  lemma MsgTraceIgnoresDigit(d: nat, f: bv16)
    requires d < 8
    ensures BitBang.WordTrace(MSG[d] | f) == BitBang.WordTrace(f)
  {
    assert ((MSG[d] | f) as bv32) & 0xF == (f as bv32) & 0xF;
    BitBang.SameTraceIffSameNibble((MSG[d] | f) as bv32, f as bv32);
  }

  /** As written, whatever the font holds, digits 0 and 2 (both 'E') and
      digits 3 and 7 (both ' ') are different words sent as identical
      pulses. */
  lemma LoadedMsgCollides(font: seq<bv8>)
    requires |font| > 'E' as int
    ensures LoadedMsg(font)[0] != LoadedMsg(font)[2]
    ensures BitBang.WordTrace(LoadedMsg(font)[0]) == BitBang.WordTrace(LoadedMsg(font)[2])
    ensures LoadedMsg(font)[3] != LoadedMsg(font)[7]
    ensures BitBang.WordTrace(LoadedMsg(font)[3]) == BitBang.WordTrace(LoadedMsg(font)[7])
  {
    var m := LoadedMsg(font);
    MsgTraceIgnoresDigit(0, Segments(font, 'E'));
    MsgTraceIgnoresDigit(2, Segments(font, 'E'));
    MsgTraceIgnoresDigit(3, Segments(font, ' '));
    MsgTraceIgnoresDigit(7, Segments(font, ' '));
    assert m[0] & 0xFF00 != m[2] & 0xFF00;
    assert m[3] & 0xFF00 != m[7] & 0xFF00;
  }

  /** Sent most significant bit first, each loaded word of a pass is
      latched by the receiver as itself, digit number and segments
      included. */
  lemma LoadedMsgMsbFirstLatched(font: seq<bv8>)
    requires |font| > 'E' as int
    ensures forall d :: 0 <= d < 8 ==>
      BitBang.Latch(BitBang.MsbFirstBits(LoadedMsg(font)[d] as bv32)) == LoadedMsg(font)[d] as bv32
  {
    var m := LoadedMsg(font);
    forall d | 0 <= d < 8
      ensures BitBang.Latch(BitBang.MsbFirstBits(m[d] as bv32)) == m[d] as bv32
    {
      BitBang.MsbFirstRoundTrip(m[d] as bv32);
      assert (m[d] as bv32) & 0xFFFF == m[d] as bv32;
    }
  }
}
