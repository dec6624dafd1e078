/** The SPI1 driver for the character OLED display. SPI1 is set up for
    10-bit frames; bit 9 of a frame is the register-select line (set for a
    character, clear for a command) and bits 0-7 carry the byte. Every value
    the driver stores into the data register is recorded, in order. */
module Oled {

  /** A C `char` on this target: eight bits, unsigned. */
  type CChar = c: char | c as int < 256

  /** A C `unsigned int`. */
  type UInt32 = x: int | 0 <= x < 0x1_0000_0000

  /** The contents of a 16-bit register. */
  type UInt16 = x: int | 0 <= x < 0x1_0000

  /** `data | 0x200`: bit 9 set, every other bit kept. */
  function WithSelect(data: UInt32): (r: UInt32)
    ensures (r / 0x200) % 2 == 1
    ensures r % 0x200 == data % 0x200 && r / 0x400 == data / 0x400
  {
    if (data / 0x200) % 2 == 1 then data else data + 0x200
  }

  /** The value `SPI1->DR = data` leaves in the 16-bit data register: the
      `unsigned int` argument is cut to its low sixteen bits. */
  function DrValue(data: UInt32): (w: UInt16)
    ensures data < 0x1_0000 ==> w == data
  {
    data % 0x1_0000
  }

  /** The word `spi_data` stores for the character `c`. */
  function DataWord(c: CChar): (w: UInt16)
    ensures w == 0x200 + c as int
  {
    DrValue(WithSelect(c as int))
  }

  /** The data words for a string, one per character. */
  function Words(text: seq<CChar>): (ws: seq<UInt16>)
    ensures |ws| == |text|
    ensures forall k :: 0 <= k < |text| ==> ws[k] == DataWord(text[k])
  {
    seq(|text|, k requires 0 <= k < |text| => DataWord(text[k]))
  }

  /** The words of consecutive strings concatenate. */
  lemma WordsAppend(a: seq<CChar>, b: seq<CChar>)
    ensures Words(a + b) == Words(a) + Words(b)
  {
  }

  /** What the display controller makes of one 10-bit frame. */
  datatype Frame = Command(code: int) | Data(ch: CChar)

  /** Reads a frame off the wire: bit 9 selects data or command and the
      low byte is the payload; bit 8 and bits above 9 are not looked at. */
  function Decode(w: UInt16): Frame
  {
    var low := w % 0x100;
    if (w / 0x200) % 2 == 1 then Data(low as char) else Command(low)
  }

  /** The frame a word stands for, as the driver intends it. */
  function Encode(f: Frame): (w: UInt16)
    requires f.Command? ==> 0 <= f.code < 0x100
  {
    match f
    case Command(code) => code
    case Data(ch) => DataWord(ch)
  }

  /** Every command byte and every character comes back off the wire as it
      was sent. */
  lemma DecodeEncode(f: Frame)
    requires f.Command? ==> 0 <= f.code < 0x100
    ensures Decode(Encode(f)) == f
  {
  }

  /** The frames a sequence of words stands for. */
  function DecodeAll(ws: seq<UInt16>): (fs: seq<Frame>)
    ensures |fs| == |ws|
    ensures forall k :: 0 <= k < |ws| ==> fs[k] == Decode(ws[k])
  {
    seq(|ws|, k requires 0 <= k < |ws| => Decode(ws[k]))
  }

  /** Decoding works word by word, so it distributes over concatenation. */
  lemma DecodeAllAppend(a: seq<UInt16>, b: seq<UInt16>)
    ensures DecodeAll(a + b) == DecodeAll(a) + DecodeAll(b)
  {
  }

  /** The characters of a string, as data frames. */
  function AsData(text: seq<CChar>): (fs: seq<Frame>)
    ensures |fs| == |text|
    ensures forall k :: 0 <= k < |text| ==> fs[k] == Data(text[k])
  {
    seq(|text|, k requires 0 <= k < |text| => Data(text[k]))
  }

  /** A string sent with `spi_data` arrives as exactly that string of
      characters, none of them taken for a command. */
  lemma WordsDecode(text: seq<CChar>)
    ensures DecodeAll(Words(text)) == AsData(text)
  {
    forall k | 0 <= k < |text|
      ensures Decode(Words(text)[k]) == Data(text[k])
    {
      DecodeEncode(Data(text[k]));
    }
  }

  /** Each data word fits the 10-bit frame, has the select bit set and bit 8
      clear, and carries the character in its low byte. */
  lemma DataWordFits(c: CChar)
    ensures DataWord(c) < 0x400
    ensures (DataWord(c) / 0x200) % 2 == 1 && (DataWord(c) / 0x100) % 2 == 0
    ensures DataWord(c) % 0x100 == c as int
  {
  }

  /** The command bytes `spi1_init_oled` sends, in order: function set,
      display off, clear, entry mode, home, display on. */
  const INIT_SEQUENCE: seq<UInt16> := [0x38, 0x08, 0x01, 0x06, 0x02, 0x0C]

  /** The start-up sequence reaches the controller as six commands and no
      characters. */
  lemma InitSequenceIsCommands()
    ensures DecodeAll(INIT_SEQUENCE)
      == [Command(0x38), Command(0x08), Command(0x01), Command(0x06), Command(0x02), Command(0x0C)]
  {
  }

  /** Length of a NUL-terminated string: the index of its first NUL. */
  function CStringLength(mem: seq<CChar>): (n: nat)
    requires '\0' in mem
    ensures n < |mem| && mem[n] == '\0'
    ensures forall k :: 0 <= k < n ==> mem[k] != '\0'
  {
    if mem[0] == '\0' then 0 else 1 + CStringLength(mem[1..])
  }

  /** The characters of a NUL-terminated string, without the terminator. */
  function CString(mem: seq<CChar>): (text: seq<CChar>)
    requires '\0' in mem
    ensures '\0' !in text
    ensures |text| < |mem| && mem[..|text|] == text && mem[|text|] == '\0'
  {
    mem[..CStringLength(mem)]
  }

  /** A string laid out in memory with its terminator, followed by any
      bytes at all, reads back as that string. */
  lemma CStringOfLayout(text: seq<CChar>, rest: seq<CChar>)
    requires '\0' !in text
    ensures '\0' in text + ['\0'] + rest
    ensures CString(text + ['\0'] + rest) == text
  {
    var mem := text + ['\0'] + rest;
    assert mem[|text|] == '\0';
    assert forall k :: 0 <= k < |text| ==> mem[k] == text[k];
    assert mem[..|text|] == text;
  }

  /** The words `spi1_display1`/`spi1_display2` send for one line: the
      cursor command, then the characters. */
  function LineWords(cmd: UInt32, text: seq<CChar>): (ws: seq<UInt16>)
    ensures |ws| == |text| + 1 && ws[0] == DrValue(cmd)
    ensures forall k :: 1 <= k < |ws| ==> ws[k] == 0x200 + text[k - 1] as int
  {
    [DrValue(cmd)] + Words(text)
  }

  /** A line reaches the controller as one command followed by the text,
      character for character. */
  lemma LineDecodes(cmd: UInt32, text: seq<CChar>)
    ensures DecodeAll(LineWords(cmd, text)) == [Decode(DrValue(cmd))] + AsData(text)
  {
    WordsDecode(text);
    assert DecodeAll(LineWords(cmd, text))[1..] == DecodeAll(Words(text));
  }

  /** The loop guard as the driver writes it: the character is compared
      with the ADDRESS of the string literal `"\0"`, not with a NUL
      character. */
  function GuardAsWritten(c: CChar, literalAddress: nat): (continues: bool)
    ensures literalAddress >= 0x100 ==> continues
    ensures c == '\0' ==> (continues <==> literalAddress != 0)
  {
    c as int != literalAddress
  }

  /** The words the display loop sends, as written, while walking memory
      from the string pointer onwards (`mem` is the window of memory
      modelled), before the guard first fails. */
  function SentAsWritten(mem: seq<CChar>, literalAddress: nat): (ws: seq<UInt16>)
    ensures |ws| <= |mem|
  {
    if mem == [] || !GuardAsWritten(mem[0], literalAddress) then []
    else [DataWord(mem[0])] + SentAsWritten(mem[1..], literalAddress)
  }

  /** A string literal lives in flash, far above 255, so no character ever
      equals its address: the loop as written sends every byte in memory,
      the terminator included. */
  lemma {:induction false} AsWrittenNeverStops(mem: seq<CChar>, literalAddress: nat)
    requires literalAddress >= 0x100
    ensures SentAsWritten(mem, literalAddress) == Words(mem)
    decreases |mem|
  {
    if mem != [] {
      AsWrittenNeverStops(mem[1..], literalAddress);
      assert Words(mem) == [DataWord(mem[0])] + Words(mem[1..]);
    }
  }

  /** The discrepancy: for a string followed by its terminator and more
      memory, the loop as written sends the text, then the word 0x200 for
      the NUL, then the bytes beyond it, where the text alone was meant. */
  lemma AsWrittenOverruns(text: seq<CChar>, rest: seq<CChar>, literalAddress: nat)
    requires '\0' !in text && literalAddress >= 0x100
    ensures '\0' in text + ['\0'] + rest
    ensures SentAsWritten(text + ['\0'] + rest, literalAddress)
         == Words(text) + [0x200] + Words(rest)
    ensures CString(text + ['\0'] + rest) == text
  {
    var mem := text + ['\0'] + rest;
    AsWrittenNeverStops(mem, literalAddress);
    CStringOfLayout(text, rest);
    WordsAppend(text, ['\0']);
    WordsAppend(text + ['\0'], rest);
    assert Words(['\0']) == [0x200];
  }

  /** The SPI1 transmitter: every value written to its data register. */
  class Spi1 {
    ghost var dr: seq<UInt16>

    constructor ()
      ensures dr == []
    {
      dr := [];
    }

    /** `spi_cmd`: wait for room (not modelled) and store the value. */
    method Cmd(data: UInt32)
      modifies this
      ensures dr == old(dr) + [DrValue(data)]
    {
      dr := dr + [DrValue(data)];
    }

    /** `spi_data`: a command with the register-select bit set. */
    method SendData(data: UInt32)
      modifies this
      ensures dr == old(dr) + [DrValue(WithSelect(data))]
    {
      Cmd(WithSelect(data));
    }

    /** `spi1_init_oled`, without its two delays. */
    method InitOled()
      modifies this
      ensures dr == old(dr) + INIT_SEQUENCE
    {
      Cmd(0x38);
      Cmd(0x08);
      Cmd(0x01);
      Cmd(0x06);
      Cmd(0x02);
      Cmd(0x0C);
    }

    /** The body shared by both display routines: the cursor command, then
        one data word per character up to the terminator. The guard tests
        for the NUL character; see `GuardAsWritten` for the guard as the
        source spells it. */
    method SendLine(cmd: UInt32, mem: seq<CChar>)
      requires '\0' in mem
      modifies this
      ensures dr == old(dr) + LineWords(cmd, CString(mem))
    {
      Cmd(cmd);
      var i := 0;
      while mem[i] != '\0'
        invariant 0 <= i <= CStringLength(mem)
        invariant dr == old(dr) + [DrValue(cmd)] + Words(mem[..i])
        decreases CStringLength(mem) - i
      {
        SendData(mem[i] as int);
        assert Words(mem[..i + 1]) == Words(mem[..i]) + [DataWord(mem[i])];
        i := i + 1;
      }
    }

    /** `spi1_display1`: write a string at the start of line 1. */
    method Display1(mem: seq<CChar>)
      requires '\0' in mem
      modifies this
      ensures dr == old(dr) + LineWords(0x02, CString(mem))
    {
      SendLine(0x02, mem);
    }

    /** `spi1_display2`: write a string at the start of line 2. */
    method Display2(mem: seq<CChar>)
      requires '\0' in mem
      modifies this
      ensures dr == old(dr) + LineWords(0xC0, CString(mem))
    {
      SendLine(0xC0, mem);
    }
  }
}
