/** The bit-banged LED protocol shared by src/m7/led_task.cc and
    src/m7/rgb_task.cc: a byte goes out as eight bits, most significant
    first; a colour goes out as its green, red and blue bytes in that order;
    a reset (latch) pulse ends a frame. */
module LedWire {

  /** One event on the LED data line. */
  datatype Signal = Bit(on: bool) | Reset

  datatype Color = Color(red: bv8, green: bv8, blue: bv8)

  predicate AllBits(s: seq<Signal>) {
    forall k :: 0 <= k < |s| ==> s[k].Bit?
  }

  /** `1 << i` for the eight bit positions of a byte. */
  function Mask(i: nat): bv8
    requires i < 8
  {
    match i
    case 0 => 0x01 case 1 => 0x02 case 2 => 0x04 case 3 => 0x08
    case 4 => 0x10 case 5 => 0x20 case 6 => 0x40 case _ => 0x80
  }

  /** Bit `i` (0 = least significant) of `b`: `b & (1 << i)` is non-zero. */
  predicate BitSet(b: bv8, i: nat)
    requires i < 8
  {
    b & Mask(i) != 0
  }

  /** SendByte: eight bits, bit 7 first down to bit 0. */
  function SendByte(b: bv8): (s: seq<Signal>)
    ensures |s| == 8 && AllBits(s)
  {
    [Bit(BitSet(b, 7)), Bit(BitSet(b, 6)), Bit(BitSet(b, 5)), Bit(BitSet(b, 4)),
     Bit(BitSet(b, 3)), Bit(BitSet(b, 2)), Bit(BitSet(b, 1)), Bit(BitSet(b, 0))]
  }

  /** Position k of SendByte(b) carries bit 7-k of b: most significant bit first. */
  lemma SendByteMsbFirst(b: bv8, k: nat)
    requires k < 8
    ensures SendByte(b)[k] == Bit(b & Mask(7 - k) != 0)
  {
    var s := SendByte(b);
    // One case per bit position, split in halves so each case stays small.
    if k < 4 {
      assert s[k] == Bit(BitSet(b, 7 - k)) by {
        if k < 2 { assert k == 0 || k == 1; } else { assert k == 2 || k == 3; }
      }
    } else {
      assert s[k] == Bit(BitSet(b, 7 - k)) by {
        if k < 6 { assert k == 4 || k == 5; } else { assert k == 6 || k == 7; }
      }
    }
  }

  /** Decoding what SendByte emits gives the byte back. */
  lemma ByteRoundTrip(b: bv8)
    ensures DecodeByte(SendByte(b)) == b
  {
    var d := DecodeByte(SendByte(b));
    forall i | 0 <= i < 8 ensures BitSet(d, i) == BitSet(b, i) {
      SendByteMsbFirst(b, 7 - i);
      DecodedBit(SendByte(b), 7 - i);
    }
    SameBits(d, b);
  }

  /** Two bytes that agree on every bit are equal. */
  lemma SameBits(a: bv8, c: bv8)
    requires forall i :: 0 <= i < 8 ==> BitSet(a, i) == BitSet(c, i)
    ensures a == c
  {
    assert BitSet(a, 0) == BitSet(c, 0) && BitSet(a, 1) == BitSet(c, 1);
    assert BitSet(a, 2) == BitSet(c, 2) && BitSet(a, 3) == BitSet(c, 3);
    assert BitSet(a, 4) == BitSet(c, 4) && BitSet(a, 5) == BitSet(c, 5);
    assert BitSet(a, 6) == BitSet(c, 6) && BitSet(a, 7) == BitSet(c, 7);
  }

  function Weight(s: Signal, w: bv8): bv8 {
    if s == Bit(true) then w else 0
  }

  /** What a receiver latches from eight bits sent most significant first. */
  function DecodeByte(s: seq<Signal>): bv8
    requires |s| == 8
  {
    Weight(s[0], 0x80) | Weight(s[1], 0x40) | Weight(s[2], 0x20) | Weight(s[3], 0x10) |
    Weight(s[4], 0x08) | Weight(s[5], 0x04) | Weight(s[6], 0x02) | Weight(s[7], 0x01)
  }

  /** Decoding is injective on 8-bit frames, so it inverts SendByte exactly. */
  lemma EncodeDecodeByte(s: seq<Signal>)
    requires |s| == 8 && AllBits(s)
    ensures SendByte(DecodeByte(s)) == s
  {
    var b := DecodeByte(s);
    forall k | 0 <= k < 8 ensures SendByte(b)[k] == s[k] {
      SendByteMsbFirst(b, k);
      DecodedBit(s, k);
    }
  }

  /** Bit 7-k of the decoded byte is the bit received at position k. */
  lemma DecodedBit(s: seq<Signal>, k: nat)
    requires |s| == 8 && AllBits(s) && k < 8
    ensures BitSet(DecodeByte(s), 7 - k) == s[k].on
  {
    var w := [Weight(s[0], 0x80), Weight(s[1], 0x40), Weight(s[2], 0x20), Weight(s[3], 0x10),
              Weight(s[4], 0x08), Weight(s[5], 0x04), Weight(s[6], 0x02), Weight(s[7], 0x01)];
    assert DecodeByte(s) == w[0] | w[1] | w[2] | w[3] | w[4] | w[5] | w[6] | w[7];
    assert s[k] == Bit(true) || s[k] == Bit(false);
  }

  /** SendColor(r, g, b): 24 bits, the green byte, then red, then blue. */
  function SendColor(c: Color): (s: seq<Signal>)
    ensures |s| == 24 && AllBits(s)
    ensures s[0..8] == SendByte(c.green) && s[8..16] == SendByte(c.red) && s[16..24] == SendByte(c.blue)
  {
    var s := SendByte(c.green) + SendByte(c.red) + SendByte(c.blue);
    assert s[0..8] == SendByte(c.green);
    assert s[8..16] == SendByte(c.red);
    assert s[16..24] == SendByte(c.blue);
    s
  }

  /** Decoding what SendColor emits gives the colour back. */
  lemma ColorRoundTrip(c: Color)
    ensures DecodeColor(SendColor(c)) == c
  {
    ByteRoundTrip(c.red);
    ByteRoundTrip(c.green);
    ByteRoundTrip(c.blue);
  }

  /** What a green-red-blue LED latches from 24 bits. */
  function DecodeColor(s: seq<Signal>): Color
    requires |s| == 24
  {
    Color(DecodeByte(s[8..16]), DecodeByte(s[0..8]), DecodeByte(s[16..24]))
  }

  /** The same colour sent to each of the three chained LEDs. */
  function SendToAll(c: Color): (s: seq<Signal>)
    ensures |s| == 72 && AllBits(s)
    ensures s[0..24] == SendColor(c) && s[24..48] == SendColor(c) && s[48..72] == SendColor(c)
  {
    var one := SendColor(c);
    var two := one + one;
    var s := two + one;
    assert s[0..24] == one;
    assert s[24..48] == one;
    assert s[48..72] == one;
    s
  }

  /** Colour shown by the three LEDs after a 72-bit frame, one per LED. */
  function DecodeFrame(s: seq<Signal>): seq<Color>
    requires |s| == 72
  {
    [DecodeColor(s[0..24]), DecodeColor(s[24..48]), DecodeColor(s[48..72])]
  }

  /** A frame of one colour sent three times shows that colour on all three LEDs. */
  lemma FrameRoundTrip(c: Color)
    ensures DecodeFrame(SendToAll(c)) == [c, c, c]
  {
    ColorRoundTrip(c);
  }
}
