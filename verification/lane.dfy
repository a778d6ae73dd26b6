/** Transfer of the pixel buffer to the LED matrix (`escrever_no_buffer`).
    Each `pio_sm_put_blocking` call hands one byte to the output lane;
    here the flush is the sequence of those bytes, in call order. */
module Lane {
  import opened Pixels

  /** Number of bytes one flush pushes: three channels per LED. */
  const FrameBytes: nat := 3 * LedCount

  /** Channel `c` of a pixel in wire order: 0 is green, 1 red, 2 blue. */
  function Channel(px: Pixel, c: nat): u8
    requires c < 3
  {
    if c == 0 then px.green else if c == 1 then px.red else px.blue
  }

  /** The bytes the flush loop pushes from pixel `i` on. Byte `p` of the
      result is channel `p % 3` of pixel `i + p / 3`. */
  function FlushFrom(leds: seq<Pixel>, i: nat): (bytes: seq<u8>)
    requires ValidBuffer(leds)
    requires i <= LedCount
    ensures |bytes| == 3 * (LedCount - i)
    ensures forall p | 0 <= p < |bytes| :: bytes[p] == Channel(leds[i + p / 3], p % 3)
    decreases LedCount - i
  {
    if i == LedCount then []
    else
      var rest := FlushFrom(leds, i + 1);
      PrependPixel(leds, i, rest);
      [leds[i].green, leds[i].red, leds[i].blue] + rest
  }

  /** One step of the flush loop: pushing pixel `i`'s three channels in
      front of the bytes of pixels i+1.. keeps byte `p` at channel
      `p % 3` of pixel `i + p / 3`. */
  lemma {:induction false} PrependPixel(leds: seq<Pixel>, i: nat, rest: seq<u8>)
    requires ValidBuffer(leds)
    requires i < LedCount
    requires |rest| == 3 * (LedCount - i - 1)
    requires forall p | 0 <= p < |rest| :: rest[p] == Channel(leds[i + 1 + p / 3], p % 3)
    ensures forall p | 0 <= p < 3 + |rest| ::
      ([leds[i].green, leds[i].red, leds[i].blue] + rest)[p] == Channel(leds[i + p / 3], p % 3)
  {
    var bytes := [leds[i].green, leds[i].red, leds[i].blue] + rest;
    forall p | 0 <= p < |bytes|
      ensures bytes[p] == Channel(leds[i + p / 3], p % 3)
    {
      if p >= 3 {
        var q := p - 3;
        assert bytes[p] == rest[q];
        DivModShift(q);
      }
    }
  }

  /** Adding one whole pixel's worth of bytes moves to the next pixel
      and keeps the channel. */
  lemma DivModShift(q: nat)
    ensures (q + 3) / 3 == q / 3 + 1
    ensures (q + 3) % 3 == q % 3
  {
  }

  /** `escrever_no_buffer`: the whole buffer as 75 bytes, green, red and
      blue of pixel 0, then of pixel 1, and so on up to pixel 24. */
  function Flush(leds: seq<Pixel>): (bytes: seq<u8>)
    requires ValidBuffer(leds)
    ensures |bytes| == FrameBytes
    ensures forall p | 0 <= p < FrameBytes :: bytes[p] == Channel(leds[p / 3], p % 3)
  {
    FlushFrom(leds, 0)
  }

  /** The pixel layout of a flushed frame, read back from the bytes. */
  ghost function Unflush(bytes: seq<u8>): (leds: seq<Pixel>)
    requires |bytes| == FrameBytes
    ensures ValidBuffer(leds)
  {
    seq(LedCount, i requires 0 <= i < LedCount => Pixel(bytes[3 * i], bytes[3 * i + 1], bytes[3 * i + 2]))
  }

  /** A dark buffer flushes to 75 zero bytes. */
  lemma {:induction false} FlushDark(leds: seq<Pixel>)
    requires ValidBuffer(leds)
    requires forall j | 0 <= j < LedCount :: leds[j] == Off
    ensures forall p | 0 <= p < FrameBytes :: Flush(leds)[p] == 0
  {
    forall p | 0 <= p < FrameBytes
      ensures Flush(leds)[p] == 0
    {
      assert leds[p / 3] == Off;
    }
  }

  /** Byte 3i is pixel i's green, byte 3i+1 its red, byte 3i+2 its blue. */
  lemma {:induction false} FlushIsGrb(leds: seq<Pixel>, i: nat)
    requires ValidBuffer(leds)
    requires i < LedCount
    ensures Flush(leds)[3 * i] == leds[i].green
    ensures Flush(leds)[3 * i + 1] == leds[i].red
    ensures Flush(leds)[3 * i + 2] == leds[i].blue
  {
    var bytes := Flush(leds);
    assert (3 * i) / 3 == i && (3 * i + 1) / 3 == i && (3 * i + 2) / 3 == i;
    assert bytes[3 * i] == Channel(leds[i], 0);
    assert bytes[3 * i + 1] == Channel(leds[i], 1);
    assert bytes[3 * i + 2] == Channel(leds[i], 2);
  }

  /** A flushed frame determines the buffer it came from. */
  lemma {:induction false} UnflushFlush(leds: seq<Pixel>)
    requires ValidBuffer(leds)
    ensures Unflush(Flush(leds)) == leds
  {
    var back := Unflush(Flush(leds));
    forall i | 0 <= i < LedCount
      ensures back[i] == leds[i]
    {
      FlushIsGrb(leds, i);
    }
  }

  /** Every 75-byte frame is the flush of some buffer. */
  lemma {:induction false} FlushUnflush(bytes: seq<u8>)
    requires |bytes| == FrameBytes
    ensures Flush(Unflush(bytes)) == bytes
  {
    var again := Flush(Unflush(bytes));
    forall p {:trigger again[p]} | 0 <= p < FrameBytes
      ensures again[p] == bytes[p]
    {
      FlushUnflushByte(bytes, p);
    }
  }

  /** Byte `p` survives reading a frame back and flushing it again. */
  lemma {:induction false} FlushUnflushByte(bytes: seq<u8>, p: nat)
    requires |bytes| == FrameBytes
    requires p < FrameBytes
    ensures Flush(Unflush(bytes))[p] == bytes[p]
  {
    var leds := Unflush(bytes);
    assert Flush(leds)[p] == Channel(leds[p / 3], p % 3);
    UnflushByte(bytes, p);
  }

  /** Byte `p` of a frame is channel `p % 3` of the pixel read back at
      `p / 3`. */
  lemma {:induction false} UnflushByte(bytes: seq<u8>, p: nat)
    requires |bytes| == FrameBytes
    requires p < FrameBytes
    ensures Channel(Unflush(bytes)[p / 3], p % 3) == bytes[p]
  {
    var i, c := p / 3, p % 3;
    assert p == 3 * i + c;
    var px := Unflush(bytes)[i];
    assert px == Pixel(bytes[3 * i], bytes[3 * i + 1], bytes[3 * i + 2]);
    if c == 0 {
      assert Channel(px, c) == bytes[3 * i];
    } else if c == 1 {
      assert Channel(px, c) == bytes[3 * i + 1];
    } else {
      assert Channel(px, c) == bytes[3 * i + 2];
    }
  }

  /** Two buffers flush to the same bytes only if they are equal. */
  lemma {:induction false} FlushInjective(a: seq<Pixel>, b: seq<Pixel>)
    requires ValidBuffer(a) && ValidBuffer(b)
    ensures Flush(a) == Flush(b) <==> a == b
  {
    if Flush(a) == Flush(b) {
      UnflushFlush(a);
      UnflushFlush(b);
    }
  }
}
