/** Drawing a digit (`manipulacao_matriz`): clear the buffer, light the
    digit's glyph in blue, and flush the buffer to the matrix. */
module Drawing {
  import opened Pixels
  import opened Glyphs
  import opened Lane

  /** Channel value of a lit LED (`INTENSIDADE_COR_LED`). */
  const Intensity: u8 := 200

  /** The colour of a lit LED: red 0, green 0, blue 200. */
  const Lit: Pixel := Pixel(0, 0, Intensity)

  /** `leds` shows digit `d`: the LEDs of the glyph are lit and every
      other LED is dark. */
  ghost predicate Shows(leds: seq<Pixel>, d: int)
    requires IsDigit(d)
  {
    && ValidBuffer(leds)
    && forall j | 0 <= j < LedCount :: leds[j] == if j in Positions(d) then Lit else Off
  }

  /** The painting loop of `manipulacao_matriz` from step `i` on: LED
      `coordenadas_numero[d][i]`, then the next one, up to entry
      `quantidade[d] - 1`, is set to the lit colour. An LED not named in
      the rest of the glyph keeps its colour. */
  function PaintFrom(leds: seq<Pixel>, d: int, i: nat): (leds': seq<Pixel>)
    requires ValidBuffer(leds)
    requires IsDigit(d)
    requires i <= |Positions(d)|
    ensures ValidBuffer(leds')
    ensures forall j | 0 <= j < LedCount ::
      leds'[j] == if j in Positions(d)[i..] then Lit else leds[j]
    decreases |Positions(d)| - i
  {
    TableWellFormed();
    assert RowWellFormed(d);
    if i == Quantity[d] then leds
    else
      var lit := SetPixel(leds, Coordinates[d][i], 0, 0, Intensity);
      var leds' := PaintFrom(lit, d, i + 1);
      assert Positions(d)[i..] == [Coordinates[d][i]] + Positions(d)[i + 1..];
      leds'
  }

  /** The whole painting loop: the glyph's LEDs lit, the others as they
      were. */
  function Paint(leds: seq<Pixel>, d: int): (leds': seq<Pixel>)
    requires ValidBuffer(leds)
    requires IsDigit(d)
    ensures ValidBuffer(leds')
    ensures forall j | 0 <= j < LedCount :: leds'[j] == if j in Positions(d) then Lit else leds[j]
  {
    assert Positions(d)[0..] == Positions(d);
    PaintFrom(leds, d, 0)
  }

  /** Painting a glyph over a cleared buffer shows exactly that digit. */
  lemma {:induction false} PaintClearedShows(leds: seq<Pixel>, d: int)
    requires ValidBuffer(leds)
    requires IsDigit(d)
    ensures Shows(Paint(Clear(leds), d), d)
  {
    var cleared := Clear(leds);
    var drawn := Paint(cleared, d);
    forall j | 0 <= j < LedCount
      ensures drawn[j] == if j in Positions(d) then Lit else Off
    {
      assert cleared[j] == Off;
    }
  }

  /** What a render leaves behind: the new buffer and the bytes it sent
      to the LED lane. */
  datatype Frame = Frame(leds: seq<Pixel>, emitted: seq<u8>)

  /** `manipulacao_matriz` for digit `d`: clear, paint the glyph, flush.
      The buffer then shows `d` and nothing else, and the bytes sent
      are one whole frame that reads back as that buffer. */
  function Render(leds: seq<Pixel>, d: int): (f: Frame)
    requires ValidBuffer(leds)
    requires IsDigit(d)
    ensures Shows(f.leds, d)
    ensures f.emitted == Flush(f.leds)
  {
    var drawn := Paint(Clear(leds), d);
    PaintClearedShows(leds, d);
    Frame(drawn, Flush(drawn))
  }

  /** The bytes a render sends are one whole frame, and reading them
      back gives exactly the picture of the digit. */
  lemma {:induction false} RenderSendsPicture(leds: seq<Pixel>, d: int)
    requires ValidBuffer(leds)
    requires IsDigit(d)
    ensures |Render(leds, d).emitted| == FrameBytes
    ensures Shows(Unflush(Render(leds, d).emitted), d)
  {
    var f := Render(leds, d);
    UnflushFlush(f.leds);
  }

  /** A digit has exactly one picture: two buffers that both show `d`
      are equal. */
  lemma {:induction false} ShowsUnique(a: seq<Pixel>, b: seq<Pixel>, d: int)
    requires IsDigit(d)
    requires Shows(a, d) && Shows(b, d)
    ensures a == b
  {
    forall j | 0 <= j < LedCount
      ensures a[j] == b[j]
    {
    }
  }

  /** A render does not depend on what the buffer held before. */
  lemma {:induction false} RenderForgetsBuffer(a: seq<Pixel>, b: seq<Pixel>, d: int)
    requires ValidBuffer(a) && ValidBuffer(b)
    requires IsDigit(d)
    ensures Render(a, d) == Render(b, d)
  {
    ShowsUnique(Render(a, d).leds, Render(b, d).leds, d);
  }

  /** Rendering the same digit twice gives the same buffer and sends
      the same bytes as rendering it once. */
  lemma {:induction false} RenderIdempotent(leds: seq<Pixel>, d: int)
    requires ValidBuffer(leds)
    requires IsDigit(d)
    ensures Render(Render(leds, d).leds, d) == Render(leds, d)
  {
    RenderForgetsBuffer(Render(leds, d).leds, leds, d);
  }

  /** The bytes of a render: for each LED in index order, green 0, red 0
      and blue 200 when it belongs to the glyph, three zeros otherwise. */
  lemma {:induction false} RenderBytes(leds: seq<Pixel>, d: int, i: nat)
    requires ValidBuffer(leds)
    requires IsDigit(d)
    requires i < LedCount
    ensures var bytes := Render(leds, d).emitted;
      && bytes[3 * i] == 0
      && bytes[3 * i + 1] == 0
      && bytes[3 * i + 2] == if i in Positions(d) then Intensity else 0
  {
    var f := Render(leds, d);
    FlushIsGrb(f.leds, i);
  }
}
