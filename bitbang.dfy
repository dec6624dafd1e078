/** The bit-banged serial link to the LED array on GPIOB: PB12 is chip
    select (CS), PB13 the serial clock (SCK) and PB15 the serial data (SDI).
    The 16-bit output data register ODR is held as the levels of those three
    pins plus its other bits; `Word` gives the register value, and every pin
    update is proved to be the C read-modify-write on that value. The
    receiver samples SDI while SCK is high, so the model records the register
    once per clock pulse, at the moment SCK is raised. */
module BitBang {

  const CS: bv16 := 0x1000
  const SCK: bv16 := 0x2000
  const SDI: bv16 := 0x8000
  /** Every ODR bit but CS, SCK and SDI. */
  const OTHER_BITS: bv16 := 0x4FFF

  /** GPIOB->ODR: the levels of the three serialiser pins and the other bits
      (only their positions in OTHER_BITS matter). */
  datatype Odr = Odr(cs: bool, sck: bool, sdi: bool, others: bv16)

  /** The three pin bits of the register for the given levels. */
  function PinBits(cs: bool, sck: bool, sdi: bool): (p: bv16)
    ensures (p & CS != 0) == cs && (p & SCK != 0) == sck && (p & SDI != 0) == sdi
    ensures p & OTHER_BITS == 0
  {
    if cs then
      if sck then (if sdi then 0xB000 else 0x3000) else (if sdi then 0x9000 else 0x1000)
    else
      if sck then (if sdi then 0xA000 else 0x2000) else (if sdi then 0x8000 else 0x0000)
  }

  /** The register value. */
  function Word(o: Odr): (w: bv16)
    ensures (w & CS != 0) == o.cs && (w & SCK != 0) == o.sck && (w & SDI != 0) == o.sdi
    ensures w & OTHER_BITS == o.others & OTHER_BITS
  {
    (o.others & OTHER_BITS) | PinBits(o.cs, o.sck, o.sdi)
  }

  /** The pin levels of a register value. */
  function Decode(w: bv16): (o: Odr)
    ensures o.others & !OTHER_BITS == 0
  {
    Odr(w & CS != 0, w & SCK != 0, w & SDI != 0, w & OTHER_BITS)
  }

  /** Every register value is the word of its pin levels. */
  lemma WordDecode(w: bv16)
    ensures Word(Decode(w)) == w
  {
  }

  // The six single-pin updates the serialiser performs, each shown to be
  // the C statement on the register value.
  lemma SetCs(o: Odr) ensures Word(o.(cs := true)) == Word(o) | CS {}
  lemma ClearCs(o: Odr) ensures Word(o.(cs := false)) == Word(o) & !CS {}
  lemma SetSck(o: Odr) ensures Word(o.(sck := true)) == Word(o) | SCK {}
  lemma ClearSck(o: Odr) ensures Word(o.(sck := false)) == Word(o) & !SCK {}
  lemma SetSdi(o: Odr) ensures Word(o.(sdi := true)) == Word(o) | SDI {}
  lemma ClearSdi(o: Odr) ensures Word(o.(sdi := false)) == Word(o) & !SDI {}

  /** The register while SCK is high for one data bit. */
  function PulseOf(o: Odr, bit: bool): Odr
  {
    o.(sdi := bit, sck := true)
  }

  /** In register terms, bb_write_bit sets bit 0x8000 when the bit is 1 and
      clears it when it is 0, raises SCK (0x2000) and lowers it again, and
      touches no other bit. */
  lemma WriteBitIsBitwise(o: Odr, bit: bool)
    ensures bit ==> Word(PulseOf(o, bit)) == (Word(o) | SDI) | SCK
    ensures !bit ==> Word(PulseOf(o, bit)) == (Word(o) & !SDI) | SCK
  {
    SetSck(o.(sdi := bit));
    if bit {
      SetSdi(o);
    } else {
      ClearSdi(o);
    }
  }

  /** The clock pulses that send `bits` in order from the register `o`. */
  function Pulses(o: Odr, bits: seq<bool>): (p: seq<Odr>)
    ensures |p| == |bits|
  {
    seq(|bits|, k requires 0 <= k < |bits| => PulseOf(o, bits[k]))
  }

  /** What the receiver reads: the SDI level at each clock pulse. */
  function Received(pulses: seq<Odr>): (bits: seq<bool>)
    ensures |bits| == |pulses|
    ensures forall k :: 0 <= k < |pulses| ==> bits[k] == (Word(pulses[k]) & SDI != 0)
  {
    seq(|pulses|, k requires 0 <= k < |pulses| => pulses[k].sdi)
  }

  /** The receiver reads back exactly the bits that were clocked out; every
      pulse of one transfer has SCK high and CS and the other bits of the
      register it was sent from. */
  lemma ReceivedPulses(o: Odr, bits: seq<bool>)
    ensures Received(Pulses(o, bits)) == bits
    ensures forall k :: 0 <= k < |bits| ==>
      Pulses(o, bits)[k].sck && Pulses(o, bits)[k].cs == o.cs && Pulses(o, bits)[k].others == o.others
  {
  }

  /** Pulses of consecutive transfers from one register concatenate. */
  lemma PulsesAppend(o: Odr, a: seq<bool>, b: seq<bool>)
    ensures Pulses(o, a + b) == Pulses(o, a) + Pulses(o, b)
  {
  }

  /** The SDI level bb_write_bit drives for each argument: high exactly
      when the argument is non-zero. */
  function Levels(vals: seq<bv32>): (t: seq<bool>)
    ensures |t| == |vals|
  {
    seq(|vals|, k requires 0 <= k < |vals| => vals[k] != 0)
  }

  /** The arguments bb_write_halfword passes to bb_write_bit, as written:
      `halfword & k` for k = 0x1 to 0xF. */
  function AsWrittenArgs(halfword: bv32): (a: seq<bv32>)
    ensures |a| == 15
    ensures forall k :: 0 <= k < 15 ==> a[k] & 0xF == a[k]
  {
    [halfword & 0x1, halfword & 0x2, halfword & 0x3, halfword & 0x4, halfword & 0x5,
     halfword & 0x6, halfword & 0x7, halfword & 0x8, halfword & 0x9, halfword & 0xA,
     halfword & 0xB, halfword & 0xC, halfword & 0xD, halfword & 0xE, halfword & 0xF]
  }

  /** The arguments that send the sixteen bits of a halfword, most
      significant first. */
  function MsbFirstArgs(halfword: bv32): (a: seq<bv32>)
    ensures |a| == 16
  {
    [halfword & 0x8000, halfword & 0x4000, halfword & 0x2000, halfword & 0x1000,
     halfword & 0x0800, halfword & 0x0400, halfword & 0x0200, halfword & 0x0100,
     halfword & 0x0080, halfword & 0x0040, halfword & 0x0020, halfword & 0x0010,
     halfword & 0x0008, halfword & 0x0004, halfword & 0x0002, halfword & 0x0001]
  }

  /** The data bits bb_write_halfword sends for `halfword`, as written. */
  function BitTrace(halfword: bv32): (t: seq<bool>)
    ensures |t| == 15
    ensures t[0] == (halfword & 1 != 0) && t[14] == (halfword & 0xF != 0)
  {
    Levels(AsWrittenArgs(halfword))
  }

  /** Whether `halfword & mask` is non-zero, the test bb_write_bit makes. */
  predicate MaskHits(halfword: bv32, mask: bv32)
  {
    halfword & mask != 0
  }

  /** The k-th data bit bb_write_halfword sends, k = 1 to 15, is high
      exactly when `halfword & k` is non-zero. */
  lemma BitTraceIsMaskTest(halfword: bv32)
    ensures forall k: bv32 :: 1 <= k <= 15 ==> BitTrace(halfword)[k as int - 1] == MaskHits(halfword, k)
  {
    forall k: bv32 | 1 <= k <= 15
      ensures BitTrace(halfword)[k as int - 1] == MaskHits(halfword, k)
    {
      // Each branch states the same fact; the split only keeps each proof
      // obligation small.
      var a := AsWrittenArgs(halfword);
      if k <= 2 {
        assert a[k as int - 1] == halfword & k;
      } else if k <= 4 {
        assert a[k as int - 1] == halfword & k;
      } else if k <= 6 {
        assert a[k as int - 1] == halfword & k;
      } else if k <= 8 {
        assert a[k as int - 1] == halfword & k;
      } else if k <= 10 {
        assert a[k as int - 1] == halfword & k;
      } else if k <= 12 {
        assert a[k as int - 1] == halfword & k;
      } else {
        assert a[k as int - 1] == halfword & k;
      }
    }
  }

  /** The data bits of a halfword, most significant first. */
  function MsbFirstBits(halfword: bv32): (t: seq<bool>)
    ensures |t| == 16
  {
    Levels(MsbFirstArgs(halfword))
  }

  /** Four bits, the first one most significant. */
  function Nibble(b8: bool, b4: bool, b2: bool, b1: bool): (n: bv32)
    ensures n <= 0xF
  {
    (if b8 then 8 else 0) | (if b4 then 4 else 0) | (if b2 then 2 else 0) | (if b1 then 1 else 0)
  }

  /** The low nibble of a halfword, read back from its as-written trace: the
      masks 1, 2, 4 and 8 are the 1st, 2nd, 4th and 8th data bits. */
  function TraceNibble(t: seq<bool>): (n: bv32)
    requires |t| == 15
    ensures n <= 0xF
  {
    Nibble(t[7], t[3], t[1], t[0])
  }

  /** The as-written trace of a halfword determines its low nibble. */
  lemma TraceDeterminesNibble(h: bv32)
    ensures TraceNibble(BitTrace(h)) == h & 0xF
  {
    var t := BitTrace(h);
    NibbleAt0(h, t[7], t[3], t[1], t[0]);
  }

  /** The as-written trace depends on nothing but the low nibble: every mask
      lies within 0xF, so the higher bits of the halfword never reach the
      wire. */
  lemma TraceOnlyReadsNibble(h: bv32)
    ensures BitTrace(h) == BitTrace(h & 0xF)
  {
    assert AsWrittenArgs(h) == AsWrittenArgs(h & 0xF);
  }

  /** Two halfwords give the same as-written trace exactly when their low
      nibbles agree. */
  lemma SameTraceIffSameNibble(h1: bv32, h2: bv32)
    ensures BitTrace(h1) == BitTrace(h2) <==> h1 & 0xF == h2 & 0xF
  {
    TraceOnlyReadsNibble(h1);
    TraceOnlyReadsNibble(h2);
    TraceDeterminesNibble(h1);
    TraceDeterminesNibble(h2);
  }

  /** The LED words 0x0000 and 0x0100 (digit 0 and digit 1, no segment lit)
      are sent as the same pulses: the digit address in bits 8..10 never
      reaches the LED driver. */
  lemma DigitAddressLost(o: Odr)
    ensures Pulses(o, BitTrace(0x0100)) == Pulses(o, BitTrace(0x0000))
  {
    SameTraceIffSameNibble(0x0100, 0x0000);
  }

  /** The word a 16-bit shift register latches from sixteen bits, the first
      one most significant. */
  function Latch(bits: seq<bool>): (w: bv32)
    requires |bits| == 16
    ensures w <= 0xFFFF
  {
    (Nibble(bits[0], bits[1], bits[2], bits[3]) << 12) |
    (Nibble(bits[4], bits[5], bits[6], bits[7]) << 8) |
    (Nibble(bits[8], bits[9], bits[10], bits[11]) << 4) |
    Nibble(bits[12], bits[13], bits[14], bits[15])
  }

  lemma NibbleAt12(h: bv32, b8: bool, b4: bool, b2: bool, b1: bool)
    requires b8 == (h & 0x8000 != 0) && b4 == (h & 0x4000 != 0) && b2 == (h & 0x2000 != 0) && b1 == (h & 0x1000 != 0)
    ensures Nibble(b8, b4, b2, b1) << 12 == h & 0xF000
  {
  }

  lemma NibbleAt8(h: bv32, b8: bool, b4: bool, b2: bool, b1: bool)
    requires b8 == (h & 0x800 != 0) && b4 == (h & 0x400 != 0) && b2 == (h & 0x200 != 0) && b1 == (h & 0x100 != 0)
    ensures Nibble(b8, b4, b2, b1) << 8 == h & 0xF00
  {
  }

  lemma NibbleAt4(h: bv32, b8: bool, b4: bool, b2: bool, b1: bool)
    requires b8 == (h & 0x80 != 0) && b4 == (h & 0x40 != 0) && b2 == (h & 0x20 != 0) && b1 == (h & 0x10 != 0)
    ensures Nibble(b8, b4, b2, b1) << 4 == h & 0xF0
  {
  }

  lemma NibbleAt0(h: bv32, b8: bool, b4: bool, b2: bool, b1: bool)
    requires b8 == (h & 0x8 != 0) && b4 == (h & 0x4 != 0) && b2 == (h & 0x2 != 0) && b1 == (h & 0x1 != 0)
    ensures Nibble(b8, b4, b2, b1) == h & 0xF
  {
  }

  /** Sending a halfword most significant bit first loses nothing of its
      low sixteen bits: the receiver latches exactly the halfword. */
  lemma MsbFirstRoundTrip(h: bv32)
    ensures Latch(MsbFirstBits(h)) == h & 0xFFFF
  {
    MsbFirstNibble12(h);
    MsbFirstNibble8(h);
    MsbFirstNibble4(h);
    MsbFirstNibble0(h);
  }

  lemma MsbFirstNibble12(h: bv32)
    ensures Nibble(MsbFirstBits(h)[0], MsbFirstBits(h)[1], MsbFirstBits(h)[2], MsbFirstBits(h)[3]) << 12 == h & 0xF000
  {
    var t := MsbFirstBits(h);
    NibbleAt12(h, t[0], t[1], t[2], t[3]);
  }

  lemma MsbFirstNibble8(h: bv32)
    ensures Nibble(MsbFirstBits(h)[4], MsbFirstBits(h)[5], MsbFirstBits(h)[6], MsbFirstBits(h)[7]) << 8 == h & 0xF00
  {
    var t := MsbFirstBits(h);
    NibbleAt8(h, t[4], t[5], t[6], t[7]);
  }

  lemma MsbFirstNibble4(h: bv32)
    ensures Nibble(MsbFirstBits(h)[8], MsbFirstBits(h)[9], MsbFirstBits(h)[10], MsbFirstBits(h)[11]) << 4 == h & 0xF0
  {
    var t := MsbFirstBits(h);
    NibbleAt4(h, t[8], t[9], t[10], t[11]);
  }

  lemma MsbFirstNibble0(h: bv32)
    ensures Nibble(MsbFirstBits(h)[12], MsbFirstBits(h)[13], MsbFirstBits(h)[14], MsbFirstBits(h)[15]) == h & 0xF
  {
    var t := MsbFirstBits(h);
    NibbleAt0(h, t[12], t[13], t[14], t[15]);
  }

  /** The data bits of consecutive transfers, in order. */
  function Concat(frames: seq<seq<bool>>): (bits: seq<bool>)
    decreases |frames|
  {
    if frames == [] then [] else Concat(frames[..|frames| - 1]) + frames[|frames| - 1]
  }

  /** The as-written trace of each LED word. */
  function Frames(msg: seq<bv16>): (frames: seq<seq<bool>>)
    ensures |frames| == |msg|
    ensures forall d :: 0 <= d < |msg| ==> |frames[d]| == 15
  {
    seq(|msg|, d requires 0 <= d < |msg| => WordTrace(msg[d]))
  }

  /** The as-written trace of a 16-bit LED word, promoted to `int`. */
  function WordTrace(w: bv16): (t: seq<bool>)
    ensures |t| == 15
  {
    BitTrace(w as bv32)
  }

  /** The bits one pass of drive_bb sends: the as-written traces of the
      words in order. */
  function PassBits(msg: seq<bv16>): (bits: seq<bool>)
  {
    Concat(Frames(msg))
  }

  /** Fifteen-bit frames sit side by side: frame `d` occupies bits
      15 * d .. 15 * d + 14 of the concatenation. */
  lemma {:induction false} ConcatSlice(frames: seq<seq<bool>>, d: nat)
    requires forall k :: 0 <= k < |frames| ==> |frames[k]| == 15
    requires d < |frames|
    ensures |Concat(frames)| == 15 * |frames|
    ensures Concat(frames)[15 * d .. 15 * (d + 1)] == frames[d]
    decreases |frames|
  {
    var last := |frames| - 1;
    var init := frames[..last];
    ConcatLength(init);
    var prefix := Concat(init);
    assert Concat(frames) == prefix + frames[last];
    if d < last {
      ConcatSlice(init, d);
      SliceOfAppend(prefix, frames[last], 15 * d, 15 * (d + 1));
    } else {
      SliceOfAppend(prefix, frames[last], |prefix|, |prefix| + 15);
    }
  }

  lemma {:induction false} ConcatLength(frames: seq<seq<bool>>)
    requires forall k :: 0 <= k < |frames| ==> |frames[k]| == 15
    ensures |Concat(frames)| == 15 * |frames|
    decreases |frames|
  {
    if frames != [] {
      ConcatLength(frames[..|frames| - 1]);
    }
  }

  lemma SliceOfAppend<T>(a: seq<T>, b: seq<T>, i: nat, j: nat)
    requires i <= j <= |a| || |a| == i <= j == |a| + |b|
    ensures j <= |a| ==> (a + b)[i..j] == a[i..j]
    ensures i == |a| && j == |a| + |b| ==> (a + b)[i..j] == b
  {
  }

  /** Word `d` of a pass occupies data bits 15 * d .. 15 * d + 14, and it
      carries the as-written trace of that word. */
  lemma PassBitsSlice(msg: seq<bv16>, d: nat)
    requires d < |msg|
    ensures |PassBits(msg)| == 15 * |msg|
    ensures PassBits(msg)[15 * d .. 15 * (d + 1)] == BitTrace(msg[d] as bv32)
  {
    ConcatSlice(Frames(msg), d);
  }

  /** One more bit of a transfer extends its pulses by one. */
  lemma ClockStep(p0: seq<Odr>, before: seq<Odr>, o: Odr, cur: Odr, t: seq<bool>, i: nat)
    requires i < |t| && before == p0 + Pulses(o, t[..i])
    requires cur.cs == o.cs && cur.others == o.others
    ensures before + [PulseOf(cur, t[i])] == p0 + Pulses(o, t[..i + 1])
  {
    assert t[..i + 1] == t[..i] + [t[i]];
    PulsesAppend(o, t[..i], [t[i]]);
  }

  /** One more word of a pass extends its pulses by that word's frame. */
  lemma PassStep(p0: seq<Odr>, before: seq<Odr>, o: Odr, frames: seq<seq<bool>>, d: nat)
    requires d < |frames| && before == p0 + Pulses(o, Concat(frames[..d]))
    ensures before + Pulses(o, frames[d]) == p0 + Pulses(o, Concat(frames[..d + 1]))
  {
    assert frames[..d + 1][..d] == frames[..d];
    PulsesAppend(o, Concat(frames[..d]), frames[d]);
  }

  /** GPIOB as the serialiser drives it: the ODR register and its value at
      each SCK pulse so far, oldest first. */
  class GpioB {
    var odr: Odr
    ghost var pulses: seq<Odr>

    constructor (odr0: Odr)
      ensures odr == odr0 && pulses == []
    {
      odr := odr0;
      pulses := [];
    }

    /** bb_write_bit: SDI follows `val != 0`, SCK is raised (the receiver
        samples here) and lowered again; nothing else changes. */
    method WriteBit(val: bv32)
      modifies this
      ensures odr == old(odr).(sdi := val != 0, sck := false)
      ensures pulses == old(pulses) + [PulseOf(old(odr), val != 0)]
    {
      if val != 0 {
        odr := odr.(sdi := true);    // GPIOB->ODR |= SDI
      } else {
        odr := odr.(sdi := false);   // GPIOB->ODR &= ~SDI
      }
      odr := odr.(sck := true);      // GPIOB->ODR |= SCK
      pulses := pulses + [odr];
      odr := odr.(sck := false);     // GPIOB->ODR &= ~SCK
    }

    /** The bb_write_bit calls of bb_write_halfword, one per argument in
        order. */
    method ClockOut(vals: seq<bv32>)
      modifies this
      ensures pulses == old(pulses) + Pulses(old(odr), Levels(vals))
      ensures vals == [] ==> odr == old(odr)
      ensures vals != [] ==> odr == old(odr).(sck := false, sdi := vals[|vals| - 1] != 0)
    {
      ghost var o, p0 := odr, pulses;
      ghost var t := Levels(vals);
      for i := 0 to |vals|
        invariant pulses == p0 + Pulses(o, t[..i])
        invariant i == 0 ==> odr == o
        invariant i > 0 ==> odr == o.(sck := false, sdi := t[i - 1])
      {
        ghost var before := pulses;
        WriteBit(vals[i]);
        ClockStep(p0, before, o, odr, t, i);
      }
      assert t[..|vals|] == t;
    }

    /** bb_write_halfword as written: CS is lowered, fifteen bits are sent
        with the masks 0x1 to 0xF, and CS is raised again. */
    method WriteHalfword(halfword: bv32)
      modifies this
      ensures pulses == old(pulses) + Pulses(old(odr).(cs := false), BitTrace(halfword))
      ensures odr == old(odr).(cs := true, sck := false, sdi := halfword & 0xF != 0)
    {
      odr := odr.(cs := false);      // GPIOB->ODR &= ~CS
      ClockOut(AsWrittenArgs(halfword));
      odr := odr.(cs := true);       // GPIOB->ODR |= CS
    }

    /** The corrected serialiser: CS low, the sixteen bits of the halfword
        most significant first, CS high. */
    method WriteHalfwordMsbFirst(halfword: bv32)
      modifies this
      ensures pulses == old(pulses) + Pulses(old(odr).(cs := false), MsbFirstBits(halfword))
      ensures odr == old(odr).(cs := true, sck := false, sdi := halfword & 0x1 != 0)
    {
      odr := odr.(cs := false);      // GPIOB->ODR &= ~CS
      ClockOut(MsbFirstArgs(halfword));
      odr := odr.(cs := true);       // GPIOB->ODR |= CS
    }

    /** One pass of drive_bb's inner loop: the eight LED words in order, each
        through bb_write_halfword as written, all with CS low and the other
        register bits as they were. */
    method DriveOnePass(msg: seq<bv16>)
      requires |msg| == 8
      modifies this
      ensures pulses == old(pulses) + Pulses(old(odr).(cs := false), PassBits(msg))
      ensures odr == old(odr).(cs := true, sck := false, sdi := (msg[7] as bv32) & 0xF != 0)
    {
      ghost var o := odr.(cs := false);
      ghost var p0 := pulses;
      ghost var frames := Frames(msg);
      for d := 0 to 8
        invariant d == 0 ==> odr == old(odr)
        invariant d > 0 ==> odr == old(odr).(cs := true, sck := false, sdi := (msg[d - 1] as bv32) & 0xF != 0)
        invariant pulses == p0 + Pulses(o, Concat(frames[..d]))
      {
        ghost var before := pulses;
        WriteHalfword(msg[d] as bv32);
        PassStep(p0, before, o, frames, d);
      }
      assert frames[..8] == frames;
    }
  }
}
