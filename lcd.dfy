/**
 * The character-display driver of hdl/tools/lcd.c.  The driver talks to an HD44780-style display
 * over four data lines, a register-select line and an enable line, through two callbacks of the
 * microcontroller: set_pin and delay.  The model records every callback in a trace; each command
 * appends a fixed pattern to it.  The receiving side is modelled independently: it watches the
 * pins and latches the four data lines and the register select when the enable line falls, and
 * pairs the latched nibbles into bytes.  The lemmas show that the display receives exactly the
 * bytes the driver meant to send.
 */
module Lcd {

  /** One callback: set_pin(pin, state) or delay(milliseconds). */
  datatype Effect = SetPin(pin: int, state: int) | Delay(ms: nat)

  /** The LCDInfo record: the pin numbers and the two pin states, as ints. */
  datatype LcdInfo = LcdInfo(pinEn: int, pinRs: int, pinD4: int, pinD5: int, pinD6: int, pinD7: int,
                             pinSet: int, pinUnset: int)

  /** set_pin takes its arguments as uint8_t: an int is converted modulo 256. */
  function Narrow(x: int): int
  {
    x % 256
  }

  /** The state set_pin receives for a line driven high or low. */
  function Level(w: LcdInfo, high: bool): int
  {
    Narrow(if high then w.pinSet else w.pinUnset)
  }

  /** Bit k of a byte, as C's (data >> k) & 1 tests it. */
  predicate BitSet(data: bv8, k: nat)
    requires k < 8
  {
    (data >> k) & 1 != 0
  }

  /** The set_pin call that drives a line high or low. */
  function Drive(w: LcdInfo, pin: int, high: bool): Effect
  {
    SetPin(Narrow(pin), Level(w, high))
  }

  /** The first six calls of lcd_send_nibble: enable low, register select, and the data lines
    * d4..d7 from bits 0..3. */
  function NibbleSetup(w: LcdInfo, rs: bool, data: bv8): seq<Effect>
  {
    [Drive(w, w.pinEn, false)] + [Drive(w, w.pinRs, rs)]
    + [Drive(w, w.pinD4, BitSet(data, 0))] + [Drive(w, w.pinD5, BitSet(data, 1))]
    + [Drive(w, w.pinD6, BitSet(data, 2))] + [Drive(w, w.pinD7, BitSet(data, 3))]
  }

  /** The enable pulse that ends lcd_send_nibble: high, one millisecond, low. */
  function Pulse(w: LcdInfo): seq<Effect>
  {
    [Drive(w, w.pinEn, true)] + [Delay(1)] + [Drive(w, w.pinEn, false)]
  }

  /** The calls lcd_send_nibble makes. */
  function NibbleTrace(w: LcdInfo, rs: bool, data: bv8): seq<Effect>
  {
    NibbleSetup(w, rs, data) + Pulse(w)
  }

  /** The calls lcd_send_byte makes: the high nibble, then the low nibble. */
  function ByteTrace(w: LcdInfo, rs: bool, data: bv8): seq<Effect>
  {
    NibbleTrace(w, rs, (data & 0xf0) >> 4) + NibbleTrace(w, rs, data & 0x0f)
  }

  /** The calls of sending every byte of s in order. */
  function BytesTrace(w: LcdInfo, rs: bool, s: seq<bv8>): seq<Effect>
  {
    if s == [] then [] else BytesTrace(w, rs, s[..|s| - 1]) + ByteTrace(w, rs, s[|s| - 1])
  }

  /** The calls of lcd_init: the power-on wait and the 0011, 0011, 0011, 0010 handshake. */
  function InitTrace(w: LcdInfo): seq<Effect>
  {
    [Delay(20)] + NibbleTrace(w, false, 0x3) + [Delay(5)] + NibbleTrace(w, false, 0x3)
    + [Delay(1)] + NibbleTrace(w, false, 0x3) + NibbleTrace(w, false, 0x2)
  }

  // ---------------------------------------------------------------------------------------------
  // Command bytes

  /** lcd_set_caret_direction's byte: 000001·I/D·S. */
  function EntryModeCommand(inc: bool, shift: bool): (b: bv8)
    ensures b >> 2 == 1
    ensures BitSet(b, 1) == inc && BitSet(b, 0) == shift
  {
    0x04 | (if inc then 0x02 else 0) | (if shift then 0x01 else 0)
  }

  /** lcd_shift's byte: 0001·S/C·R/L·00. */
  function ShiftCommand(all: bool, right: bool): (b: bv8)
    ensures b >> 4 == 1
    ensures BitSet(b, 3) == all && BitSet(b, 2) == right && b & 0x03 == 0
  {
    0x10 | (if all then 0x08 else 0) | (if right then 0x04 else 0)
  }

  /** lcd_set_function's byte: 001·DL·N·F·00. */
  function FunctionCommand(bits8: bool, twoLines: bool, font: bool): (b: bv8)
    ensures b >> 5 == 1
    ensures BitSet(b, 4) == bits8 && BitSet(b, 3) == twoLines && BitSet(b, 2) == font && b & 0x03 == 0
  {
    0x20 | (if bits8 then 0x10 else 0) | (if twoLines then 0x08 else 0) | (if font then 0x04 else 0)
  }

  /** lcd_set_display's byte: 00001·D·C·B. */
  function DisplayCommand(on: bool, caretLine: bool, caretBox: bool): (b: bv8)
    ensures b >> 3 == 1
    ensures BitSet(b, 2) == on && BitSet(b, 1) == caretLine && BitSet(b, 0) == caretBox
  {
    0x08 | (if on then 0x04 else 0) | (if caretLine then 0x02 else 0) | (if caretBox then 0x01 else 0)
  }

  /** The position of the terminating NUL: the first zero byte. */
  function NulIndex(s: seq<bv8>): (k: nat)
    requires 0 in s
    ensures k < |s| && s[k] == 0 && forall j :: 0 <= j < k ==> s[j] != 0
  {
    if s[0] == 0 then 0 else 1 + NulIndex(s[1..])
  }

  // ---------------------------------------------------------------------------------------------
  // The receiving display

  /** The last state written to each pin. */
  type Pins = map<int, int>

  /** A nibble latched by the display, with the register select at that moment. */
  datatype Latch = Latch(rs: bool, nibble: bv8)

  predicate High(w: LcdInfo, pins: Pins, p: int)
  {
    Narrow(p) in pins && pins[Narrow(p)] == Narrow(w.pinSet)
  }

  /** The four data lines, d7 as the top bit. */
  function DataLines(w: LcdInfo, pins: Pins): bv8
  {
    (if High(w, pins, w.pinD7) then 0x08 else 0) | (if High(w, pins, w.pinD6) then 0x04 else 0)
    | (if High(w, pins, w.pinD5) then 0x02 else 0) | (if High(w, pins, w.pinD4) then 0x01 else 0)
  }

  /** One callback seen by the display: the pin takes its new state, and when the enable line
    * falls the data lines and register select are latched. */
  function Step(w: LcdInfo, pins: Pins, e: Effect): (Pins, seq<Latch>)
  {
    match e
    case Delay(_) => (pins, [])
    case SetPin(p, s) =>
      var falling := p == Narrow(w.pinEn) && High(w, pins, w.pinEn) && s != Narrow(w.pinSet);
      (pins[p := s], if falling then [Latch(High(w, pins, w.pinRs), DataLines(w, pins))] else [])
  }

  /** The pins after a run of callbacks and the nibbles latched during it. */
  function Run(w: LcdInfo, pins: Pins, t: seq<Effect>): (Pins, seq<Latch>)
    decreases |t|
  {
    if t == [] then (pins, []) else
      var first := Step(w, pins, t[0]);
      var rest := Run(w, first.0, t[1..]);
      (rest.0, first.1 + rest.1)
  }

  /** Latched nibbles paired into bytes, high nibble first; an unpaired last nibble is pending. */
  function Joined(ls: seq<Latch>): (bs: seq<(bool, bv8)>)
    ensures |bs| == |ls| / 2
  {
    if |ls| < 2 then [] else [(ls[0].rs, (ls[0].nibble << 4) | ls[1].nibble)] + Joined(ls[2..])
  }

  /** The pins are wired to six different lines and the two states differ. */
  predicate Wired(w: LcdInfo)
  {
    var en, rs, d4, d5, d6, d7 := Narrow(w.pinEn), Narrow(w.pinRs), Narrow(w.pinD4), Narrow(w.pinD5),
                                  Narrow(w.pinD6), Narrow(w.pinD7);
    && en != rs && en != d4 && en != d5 && en != d6 && en != d7
    && rs != d4 && rs != d5 && rs != d6 && rs != d7
    && d4 != d5 && d4 != d6 && d4 != d7 && d5 != d6 && d5 != d7 && d6 != d7
    && Narrow(w.pinSet) != Narrow(w.pinUnset)
  }

  lemma {:induction false} RunAppend(w: LcdInfo, pins: Pins, a: seq<Effect>, b: seq<Effect>)
    ensures Run(w, pins, a + b) == (Run(w, Run(w, pins, a).0, b).0, Run(w, pins, a).1 + Run(w, Run(w, pins, a).0, b).1)
    decreases |a|
  {
    if a == [] {
      assert a + b == b;
      assert [] + Run(w, pins, b).1 == Run(w, pins, b).1;
    } else {
      assert (a + b)[0] == a[0] && (a + b)[1..] == a[1..] + b;
      var first := Step(w, pins, a[0]);
      RunAppend(w, first.0, a[1..], b);
      var mid := Run(w, first.0, a[1..]);
      var last := Run(w, mid.0, b);
      assert first.1 + (mid.1 + last.1) == (first.1 + mid.1) + last.1;
    }
  }

  /** Running one more callback. */
  lemma RunSnoc(w: LcdInfo, pins: Pins, a: seq<Effect>, e: Effect)
    ensures var r := Run(w, pins, a);
            Run(w, pins, a + [e]) == (Step(w, r.0, e).0, r.1 + Step(w, r.0, e).1)
  {
    RunAppend(w, pins, a, [e]);
    var r := Run(w, pins, a);
    assert [e][1..] == [];
    assert Step(w, r.0, e).1 + [] == Step(w, r.0, e).1;
  }

  /** Driving a line other than enable latches nothing. */
  lemma StepData(w: LcdInfo, pins: Pins, pin: int, high: bool)
    requires Narrow(pin) != Narrow(w.pinEn)
    ensures Step(w, pins, Drive(w, pin, high)) == (pins[Narrow(pin) := Level(w, high)], [])
  {
  }

  /** Driving the enable line latches the data lines exactly when it falls from high to low. */
  lemma StepEnable(w: LcdInfo, pins: Pins, high: bool)
    requires Narrow(w.pinSet) != Narrow(w.pinUnset)
    ensures Step(w, pins, Drive(w, w.pinEn, high))
            == (pins[Narrow(w.pinEn) := Level(w, high)],
                if High(w, pins, w.pinEn) && !high then [Latch(High(w, pins, w.pinRs), DataLines(w, pins))] else [])
  {
  }

  /** The four data lines set from the low bits of data read back as those bits. */
  lemma DataLinesOfNibble(w: LcdInfo, pins: Pins, data: bv8)
    requires Narrow(w.pinSet) != Narrow(w.pinUnset)
    requires Narrow(w.pinD4) in pins && Narrow(w.pinD5) in pins && Narrow(w.pinD6) in pins && Narrow(w.pinD7) in pins
    requires pins[Narrow(w.pinD4)] == Level(w, BitSet(data, 0)) && pins[Narrow(w.pinD5)] == Level(w, BitSet(data, 1))
    requires pins[Narrow(w.pinD6)] == Level(w, BitSet(data, 2)) && pins[Narrow(w.pinD7)] == Level(w, BitSet(data, 3))
    ensures DataLines(w, pins) == data & 0x0f
  {
    assert High(w, pins, w.pinD4) == BitSet(data, 0);
    assert High(w, pins, w.pinD5) == BitSet(data, 1);
    assert High(w, pins, w.pinD6) == BitSet(data, 2);
    assert High(w, pins, w.pinD7) == BitSet(data, 3);
    assert ((if BitSet(data, 3) then 0x08 else 0) | (if BitSet(data, 2) then 0x04 else 0)
            | (if BitSet(data, 1) then 0x02 else 0) | (if BitSet(data, 0) then 0x01 else 0)) == data & 0x0f;
  }

  /** The pins after the line settings of a nibble. */
  function SetupPins(w: LcdInfo, pins: Pins, rs: bool, data: bv8): Pins
  {
    pins[Narrow(w.pinEn) := Level(w, false)][Narrow(w.pinRs) := Level(w, rs)]
        [Narrow(w.pinD4) := Level(w, BitSet(data, 0))][Narrow(w.pinD5) := Level(w, BitSet(data, 1))]
        [Narrow(w.pinD6) := Level(w, BitSet(data, 2))][Narrow(w.pinD7) := Level(w, BitSet(data, 3))]
  }

  /** After the line settings enable is low, register select is at rs and the data lines carry
    * the low four bits of data. */
  lemma SetupLevels(w: LcdInfo, pins: Pins, rs: bool, data: bv8)
    requires Wired(w)
    ensures var p := SetupPins(w, pins, rs, data);
            !High(w, p, w.pinEn) && High(w, p, w.pinRs) == rs && DataLines(w, p) == data & 0x0f
  {
    var p := SetupPins(w, pins, rs, data);
    assert High(w, p, w.pinRs) == rs;
    DataLinesOfNibble(w, p, data);
  }

  /** The line settings of a nibble, sent with enable low, latch nothing. */
  lemma SetupReceived(w: LcdInfo, pins: Pins, rs: bool, data: bv8)
    requires Wired(w) && !High(w, pins, w.pinEn)
    ensures Run(w, pins, NibbleSetup(w, rs, data)) == (SetupPins(w, pins, rs, data), [])
  {
    var e0, e1, e2 := Drive(w, w.pinEn, false), Drive(w, w.pinRs, rs), Drive(w, w.pinD4, BitSet(data, 0));
    var e3, e4, e5 := Drive(w, w.pinD5, BitSet(data, 1)), Drive(w, w.pinD6, BitSet(data, 2)), Drive(w, w.pinD7, BitSet(data, 3));
    var p1 := pins[Narrow(w.pinEn) := Level(w, false)];
    var p2 := p1[Narrow(w.pinRs) := Level(w, rs)];
    var p3 := p2[Narrow(w.pinD4) := Level(w, BitSet(data, 0))];
    var p4 := p3[Narrow(w.pinD5) := Level(w, BitSet(data, 1))];
    var p5 := p4[Narrow(w.pinD6) := Level(w, BitSet(data, 2))];
    var p6 := p5[Narrow(w.pinD7) := Level(w, BitSet(data, 3))];
    var a1 := [e0];
    assert Run(w, pins, a1).0 == p1 && Run(w, pins, a1).1 == [] by {
      RunSnoc(w, pins, [], e0);
      assert [] + [e0] == a1;
      StepEnable(w, pins, false);
      assert Step(w, pins, e0).0 == p1;
    }
    var a2 := a1 + [e1];
    assert Run(w, pins, a2).0 == p2 && Run(w, pins, a2).1 == [] by {
      RunSnoc(w, pins, a1, e1);
      StepData(w, p1, w.pinRs, rs);
    }
    var a3 := a2 + [e2];
    assert Run(w, pins, a3).0 == p3 && Run(w, pins, a3).1 == [] by {
      RunSnoc(w, pins, a2, e2);
      StepData(w, p2, w.pinD4, BitSet(data, 0));
    }
    var a4 := a3 + [e3];
    assert Run(w, pins, a4).0 == p4 && Run(w, pins, a4).1 == [] by {
      RunSnoc(w, pins, a3, e3);
      StepData(w, p3, w.pinD5, BitSet(data, 1));
    }
    var a5 := a4 + [e4];
    assert Run(w, pins, a5).0 == p5 && Run(w, pins, a5).1 == [] by {
      RunSnoc(w, pins, a4, e4);
      StepData(w, p4, w.pinD6, BitSet(data, 2));
    }
    var a6 := a5 + [e5];
    assert Run(w, pins, a6).0 == p6 && Run(w, pins, a6).1 == [] by {
      RunSnoc(w, pins, a5, e5);
      StepData(w, p5, w.pinD7, BitSet(data, 3));
    }
  }

  /** An enable pulse from low latches the data lines and register select once, changes only the
    * enable line and leaves it low. */
  lemma PulseReceived(w: LcdInfo, pins: Pins)
    requires Wired(w) && !High(w, pins, w.pinEn)
    ensures Run(w, pins, Pulse(w)).1 == [Latch(High(w, pins, w.pinRs), DataLines(w, pins))]
    ensures Run(w, pins, Pulse(w)).0 == pins[Narrow(w.pinEn) := Level(w, false)]
  {
    var en := Narrow(w.pinEn);
    var e6, e7, e8 := Drive(w, w.pinEn, true), Delay(1), Drive(w, w.pinEn, false);
    var p7 := pins[en := Level(w, true)];
    var a1 := [e6];
    assert Run(w, pins, a1).0 == p7 && Run(w, pins, a1).1 == [] by {
      RunSnoc(w, pins, [], e6);
      assert [] + [e6] == a1;
      StepEnable(w, pins, true);
      assert Step(w, pins, e6).0 == p7;
    }
    var a2 := a1 + [e7];
    assert Run(w, pins, a2).0 == p7 && Run(w, pins, a2).1 == [] by {
      RunSnoc(w, pins, a1, e7);
    }
    assert High(w, p7, w.pinEn);
    assert High(w, p7, w.pinRs) == High(w, pins, w.pinRs);
    assert DataLines(w, p7) == DataLines(w, pins);
    var latch := Latch(High(w, pins, w.pinRs), DataLines(w, pins));
    assert Run(w, pins, a2 + [e8]).0 == p7[en := Level(w, false)] && Run(w, pins, a2 + [e8]).1 == [latch] by {
      RunSnoc(w, pins, a2, e8);
      StepEnable(w, p7, false);
      assert Step(w, p7, e8).1 == [latch];
      assert Run(w, pins, a2 + [e8]).1 == [] + [latch];
    }
    assert p7[en := Level(w, false)] == pins[en := Level(w, false)];
  }

  /** Sending a nibble with the enable line low makes the display latch that nibble and the
    * register select once, and leaves the enable line low. */
  lemma NibbleReceived(w: LcdInfo, pins: Pins, rs: bool, data: bv8)
    requires Wired(w) && !High(w, pins, w.pinEn)
    ensures Run(w, pins, NibbleTrace(w, rs, data)).1 == [Latch(rs, data & 0x0f)]
    ensures !High(w, Run(w, pins, NibbleTrace(w, rs, data)).0, w.pinEn)
  {
    var setup := NibbleSetup(w, rs, data);
    var p6 := Run(w, pins, setup).0;
    SetupReceived(w, pins, rs, data);
    SetupLevels(w, pins, rs, data);
    PulseReceived(w, p6);
    RunAppend(w, pins, setup, Pulse(w));
  }

  /** The nibbles lcd_send_byte sends are the high and the low half of the byte, and they pair
    * back into it. */
  lemma SplitByte(rs: bool, data: bv8)
    ensures ((data & 0xf0) >> 4) & 0x0f == data >> 4 && (data & 0x0f) & 0x0f == data & 0x0f
    ensures Joined([Latch(rs, data >> 4), Latch(rs, data & 0x0f)]) == [(rs, data)]
  {
    var ls := [Latch(rs, data >> 4), Latch(rs, data & 0x0f)];
    assert ls[2..] == [];
    assert ((data >> 4) << 4) | (data & 0x0f) == data;
  }

  /** Sending a byte makes the display latch its high and then its low nibble, which pair back
    * into the byte. */
  lemma ByteReceived(w: LcdInfo, pins: Pins, rs: bool, data: bv8)
    requires Wired(w) && !High(w, pins, w.pinEn)
    ensures Run(w, pins, ByteTrace(w, rs, data)).1 == [Latch(rs, data >> 4), Latch(rs, data & 0x0f)]
    ensures Joined(Run(w, pins, ByteTrace(w, rs, data)).1) == [(rs, data)]
    ensures !High(w, Run(w, pins, ByteTrace(w, rs, data)).0, w.pinEn)
  {
    var n1, n2 := NibbleTrace(w, rs, (data & 0xf0) >> 4), NibbleTrace(w, rs, data & 0x0f);
    SplitByte(rs, data);
    NibbleReceived(w, pins, rs, (data & 0xf0) >> 4);
    var mid := Run(w, pins, n1).0;
    NibbleReceived(w, mid, rs, data & 0x0f);
    RunAppend(w, pins, n1, n2);
  }

  /** Two latched nibbles carrying byte b, after latches that carry the bytes of s, carry the
    * bytes of s + [b]. */
  lemma JoinedSnoc(ls: seq<Latch>, rs: bool, s: seq<bv8>, b: bv8, more: seq<Latch>)
    requires |ls| == 2 * |s| && forall i :: 0 <= i < |s| ==> Joined(ls)[i] == (rs, s[i])
    requires |more| == 2 && Joined(more) == [(rs, b)]
    ensures |ls + more| == 2 * |s + [b]|
    ensures forall i :: 0 <= i < |s + [b]| ==> Joined(ls + more)[i] == (rs, (s + [b])[i])
  {
    JoinedAppend(ls, more);
  }

  lemma {:induction false} JoinedAppend(a: seq<Latch>, b: seq<Latch>)
    requires |a| % 2 == 0
    ensures Joined(a + b) == Joined(a) + Joined(b)
  {
    if |a| >= 2 {
      assert (a + b)[2..] == a[2..] + b;
      JoinedAppend(a[2..], b);
    } else {
      assert a + b == b;
    }
  }

  /** Sending a string byte by byte makes the display receive exactly those bytes, in order, each
    * with the given register select. */
  lemma {:induction false} BytesReceived(w: LcdInfo, pins: Pins, rs: bool, s: seq<bv8>)
    requires Wired(w) && !High(w, pins, w.pinEn)
    ensures var r := Run(w, pins, BytesTrace(w, rs, s));
            && |r.1| == 2 * |s| && !High(w, r.0, w.pinEn)
            && forall i :: 0 <= i < |s| ==> Joined(r.1)[i] == (rs, s[i])
  {
    if s != [] {
      var init, last := s[..|s| - 1], s[|s| - 1];
      BytesReceived(w, pins, rs, init);
      var r0 := Run(w, pins, BytesTrace(w, rs, init));
      RunAppend(w, pins, BytesTrace(w, rs, init), ByteTrace(w, rs, last));
      ByteReceived(w, r0.0, rs, last);
      JoinedSnoc(r0.1, rs, init, last, Run(w, r0.0, ByteTrace(w, rs, last)).1);
      assert init + [last] == s;
    }
  }

  /** A delay changes no pin and latches nothing. */
  lemma RunDelay(w: LcdInfo, pins: Pins, a: seq<Effect>, ms: nat)
    ensures Run(w, pins, a + [Delay(ms)]) == Run(w, pins, a)
  {
    RunSnoc(w, pins, a, Delay(ms));
    assert Run(w, pins, a).1 + [] == Run(w, pins, a).1;
  }

  /** A nibble after a run that leaves enable low adds its latch. */
  lemma RunNibble(w: LcdInfo, pins: Pins, a: seq<Effect>, data: bv8)
    requires Wired(w) && !High(w, Run(w, pins, a).0, w.pinEn)
    ensures Run(w, pins, a + NibbleTrace(w, false, data)).1 == Run(w, pins, a).1 + [Latch(false, data & 0x0f)]
    ensures !High(w, Run(w, pins, a + NibbleTrace(w, false, data)).0, w.pinEn)
  {
    RunAppend(w, pins, a, NibbleTrace(w, false, data));
    NibbleReceived(w, Run(w, pins, a).0, false, data);
  }

  /** lcd_init makes the display latch 0011 three times and then 0010, all as commands. */
  lemma InitReceived(w: LcdInfo, pins: Pins)
    requires Wired(w) && !High(w, pins, w.pinEn)
    ensures Run(w, pins, InitTrace(w)).1 == [Latch(false, 0x3), Latch(false, 0x3), Latch(false, 0x3), Latch(false, 0x2)]
    ensures !High(w, Run(w, pins, InitTrace(w)).0, w.pinEn)
  {
    var n3, n2 := NibbleTrace(w, false, 0x3), NibbleTrace(w, false, 0x2);
    var l3, l2 := Latch(false, 0x3), Latch(false, 0x2);
    RunDelay(w, pins, [], 20);
    assert [] + [Delay(20)] == [Delay(20)];
    var a0 := [Delay(20)];
    RunNibble(w, pins, a0, 0x3);
    var a1 := a0 + n3;
    RunDelay(w, pins, a1, 5);
    var a2 := a1 + [Delay(5)];
    RunNibble(w, pins, a2, 0x3);
    var a3 := a2 + n3;
    RunDelay(w, pins, a3, 1);
    var a4 := a3 + [Delay(1)];
    RunNibble(w, pins, a4, 0x3);
    var a5 := a4 + n3;
    RunNibble(w, pins, a5, 0x2);
  }

  // ---------------------------------------------------------------------------------------------
  // The driver

  lemma Associate(a: seq<Effect>, b: seq<Effect>, c: seq<Effect>)
    ensures a + b + c == a + (b + c)
  {
  }

  /** The display behind an LCDInfo record, with the calls made so far. */
  class Display {
    const info: LcdInfo
    var trace: seq<Effect>

    constructor(info: LcdInfo)
      ensures this.info == info && trace == []
    {
      this.info := info;
      trace := [];
    }

    /** The set_pin callback. */
    method Pin(pin: int, state: int)
      modifies this
      ensures trace == old(trace) + [SetPin(Narrow(pin), Narrow(state))]
    {
      trace := trace + [SetPin(Narrow(pin), Narrow(state))];
    }

    /** The delay callback. */
    method Wait(ms: nat)
      modifies this
      ensures trace == old(trace) + [Delay(ms)]
    {
      trace := trace + [Delay(ms)];
    }

    /** lcd_send_nibble */
    method SendNibble(rs: bool, data: bv8)
      modifies this
      ensures trace == old(trace) + NibbleTrace(info, rs, data)
    {
      assert (data & 1 != 0) == BitSet(data, 0);
      Pin(info.pinEn, info.pinUnset);
      ghost var sent := [Drive(info, info.pinEn, false)];
      Pin(info.pinRs, if rs then info.pinSet else info.pinUnset);
      assert trace == old(trace) + (sent + [Drive(info, info.pinRs, rs)]) by {
        Associate(old(trace), sent, [Drive(info, info.pinRs, rs)]);
      }
      sent := sent + [Drive(info, info.pinRs, rs)];
      Pin(info.pinD4, if data & 1 != 0 then info.pinSet else info.pinUnset);
      assert trace == old(trace) + (sent + [Drive(info, info.pinD4, BitSet(data, 0))]) by {
        Associate(old(trace), sent, [Drive(info, info.pinD4, BitSet(data, 0))]);
      }
      sent := sent + [Drive(info, info.pinD4, BitSet(data, 0))];
      Pin(info.pinD5, if (data >> 1) & 1 != 0 then info.pinSet else info.pinUnset);
      assert trace == old(trace) + (sent + [Drive(info, info.pinD5, BitSet(data, 1))]) by {
        Associate(old(trace), sent, [Drive(info, info.pinD5, BitSet(data, 1))]);
      }
      sent := sent + [Drive(info, info.pinD5, BitSet(data, 1))];
      Pin(info.pinD6, if (data >> 2) & 1 != 0 then info.pinSet else info.pinUnset);
      assert trace == old(trace) + (sent + [Drive(info, info.pinD6, BitSet(data, 2))]) by {
        Associate(old(trace), sent, [Drive(info, info.pinD6, BitSet(data, 2))]);
      }
      sent := sent + [Drive(info, info.pinD6, BitSet(data, 2))];
      Pin(info.pinD7, if (data >> 3) & 1 != 0 then info.pinSet else info.pinUnset);
      assert trace == old(trace) + (sent + [Drive(info, info.pinD7, BitSet(data, 3))]) by {
        Associate(old(trace), sent, [Drive(info, info.pinD7, BitSet(data, 3))]);
      }
      ghost var setup := trace;
      Pin(info.pinEn, info.pinSet);
      Wait(1);
      Pin(info.pinEn, info.pinUnset);
      assert trace == old(trace) + NibbleTrace(info, rs, data) by {
        assert trace == setup + Pulse(info);
        Associate(old(trace), NibbleSetup(info, rs, data), Pulse(info));
      }
    }

    /** lcd_send_byte */
    method SendByte(rs: bool, data: bv8)
      modifies this
      ensures trace == old(trace) + ByteTrace(info, rs, data)
    {
      SendNibble(rs, (data & 0xf0) >> 4);
      SendNibble(rs, data & 0x0f);
    }

    /** lcd_init */
    method Init()
      modifies this
      ensures trace == old(trace) + InitTrace(info)
    {
      ghost var n3, n2 := NibbleTrace(info, false, 0x3), NibbleTrace(info, false, 0x2);
      Wait(20);
      SendNibble(false, 0x3);
      Associate(old(trace), [Delay(20)], n3);
      Wait(5);
      Associate(old(trace), [Delay(20)] + n3, [Delay(5)]);
      SendNibble(false, 0x3);
      Associate(old(trace), [Delay(20)] + n3 + [Delay(5)], n3);
      Wait(1);
      Associate(old(trace), [Delay(20)] + n3 + [Delay(5)] + n3, [Delay(1)]);
      SendNibble(false, 0x3);
      Associate(old(trace), [Delay(20)] + n3 + [Delay(5)] + n3 + [Delay(1)], n3);
      SendNibble(false, 0x2);
      Associate(old(trace), [Delay(20)] + n3 + [Delay(5)] + n3 + [Delay(1)] + n3, n2);
    }

    /** lcd_clear: the clear command 00000001, then two milliseconds. */
    method Clear()
      modifies this
      ensures trace == old(trace) + ByteTrace(info, false, 0x01) + [Delay(2)]
    {
      SendByte(false, 0x01);
      Wait(2);
    }

    /** lcd_return: the return-home command 00000010, then two milliseconds. */
    method Return()
      modifies this
      ensures trace == old(trace) + ByteTrace(info, false, 0x02) + [Delay(2)]
    {
      SendByte(false, 0x02);
      Wait(2);
    }

    /** lcd_set_caret_direction */
    method SetCaretDirection(inc: bool, shift: bool)
      modifies this
      ensures trace == old(trace) + ByteTrace(info, false, EntryModeCommand(inc, shift))
    {
      var byte: bv8 := 0x04;
      if inc {
        byte := byte | (1 << 1);
      }
      if shift {
        byte := byte | 1;
      }
      SendByte(false, byte);
    }

    /** lcd_shift */
    method Shift(all: bool, right: bool)
      modifies this
      ensures trace == old(trace) + ByteTrace(info, false, ShiftCommand(all, right))
    {
      var byte: bv8 := 0x10;
      if all {
        byte := byte | (1 << 3);
      }
      if right {
        byte := byte | (1 << 2);
      }
      SendByte(false, byte);
    }

    /** lcd_set_function */
    method SetFunction(bits8: bool, twoLines: bool, font: bool)
      modifies this
      ensures trace == old(trace) + ByteTrace(info, false, FunctionCommand(bits8, twoLines, font))
    {
      var byte: bv8 := 0x20;
      if bits8 {
        byte := byte | (1 << 4);
      }
      if twoLines {
        byte := byte | (1 << 3);
      }
      if font {
        byte := byte | (1 << 2);
      }
      SendByte(false, byte);
    }

    /** lcd_set_display */
    method SetDisplay(on: bool, caretLine: bool, caretBox: bool)
      modifies this
      ensures trace == old(trace) + ByteTrace(info, false, DisplayCommand(on, caretLine, caretBox))
    {
      var byte: bv8 := 0x08;
      if on {
        byte := byte | (1 << 2);
      }
      if caretLine {
        byte := byte | (1 << 1);
      }
      if caretBox {
        byte := byte | 1;
      }
      SendByte(false, byte);
    }

    /** lcd_puts: every byte before the terminating NUL, as data, in order. */
    method Puts(str: seq<bv8>)
      requires 0 in str
      modifies this
      ensures trace == old(trace) + BytesTrace(info, true, str[..NulIndex(str)])
    {
      var i := 0;
      while str[i] != 0
        invariant 0 <= i <= NulIndex(str)
        invariant trace == old(trace) + BytesTrace(info, true, str[..i])
        decreases NulIndex(str) - i
      {
        SendByte(true, str[i]);
        assert trace == old(trace) + BytesTrace(info, true, str[..i + 1]) by {
          Associate(old(trace), BytesTrace(info, true, str[..i]), ByteTrace(info, true, str[i]));
          assert str[..i + 1][..i] == str[..i];
        }
        i := i + 1;
      }
    }
  }
}
