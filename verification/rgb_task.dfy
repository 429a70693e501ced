/** The RGB task (src/m7/rgb_task.cc): each time the runtime configuration
    can be read, the 0xRRGGBB running-state colour is split into its three
    bytes and sent to the three LEDs, followed by a reset pulse. */
module RgbTask {
  import opened Wrappers
  import opened LedWire

  /** The part of the runtime configuration this task reads (an unsigned int). */
  datatype RuntimeConfig = RuntimeConfig(runningStateColor: bv32)

  /** Split a colour word: red is bits 16-23, green bits 8-15, blue bits 0-7. */
  function Unpack(word: bv32): Color {
    Color(((word >> 16) & 0xFF) as bv8, ((word >> 8) & 0xFF) as bv8, (word & 0xFF) as bv8)
  }

  /** Build the 0xRRGGBB word of a colour. */
  function Pack(c: Color): bv32 {
    (c.red as bv32 << 16) | (c.green as bv32 << 8) | (c.blue as bv32)
  }

  /** Unpacking a packed colour gives the colour back. */
  lemma UnpackPack(c: Color)
    ensures Unpack(Pack(c)) == c
  {
  }

  /** Only the low 24 bits matter: repacking an unpacked word gives the word
      with bits 24-31 cleared, and words agreeing on bits 0-23 unpack alike. */
  lemma PackUnpack(word: bv32, other: bv32)
    ensures Pack(Unpack(word)) == word & 0xFF_FFFF
    ensures word & 0xFF_FFFF == other & 0xFF_FFFF ==> Unpack(word) == Unpack(other)
  {
  }

  /** One iteration: no signals when the configuration read fails; otherwise
      the unpacked colour three times, then a reset. */
  function Cycle(config: Option<RuntimeConfig>): (s: seq<Signal>)
    ensures config.None? <==> s == []
    ensures config.Some? ==>
      && |s| == 73 && s[72] == Reset
      && var c := Unpack(config.value.runningStateColor);
         s[..72] == SendToAll(c) && DecodeFrame(s[..72]) == [c, c, c]
  {
    match config
    case None => []
    case Some(cfg) =>
      var c := Unpack(cfg.runningStateColor);
      var s := SendColor(c) + SendColor(c) + SendColor(c) + [Reset];
      assert s[..72] == SendToAll(c);
      FrameRoundTrip(c);
      s
  }
}
