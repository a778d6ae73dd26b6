/** The pixel buffer of the 5x5 LED matrix: 25 pixels of three 8-bit
    channels, stored in the green-red-blue order the LEDs expect.
    The buffer is a value here; the source's global array `leds` is
    threaded through the functions instead of being mutated in place. */
module Pixels {

  /** An unsigned 8-bit value (`uint8_t`). */
  type u8 = x: int | 0 <= x < 0x100

  /** Number of LEDs in the matrix (`CONTADOR_LED`). */
  const LedCount: nat := 25

  /** One LED; the fields follow the struct's memory order G, R, B. */
  datatype Pixel = Pixel(green: u8, red: u8, blue: u8)

  /** The colour of a dark LED. */
  const Off: Pixel := Pixel(0, 0, 0)

  /** A buffer has exactly one pixel per LED; it is never resized. */
  predicate ValidBuffer(leds: seq<Pixel>) {
    |leds| == LedCount
  }

  /** The buffer with every LED dark (the zero-initialised global). */
  function Blank(): (leds: seq<Pixel>)
    ensures ValidBuffer(leds)
  {
    seq(LedCount, _ => Off)
  }

  /** `atribuir_cor_ao_led`: writes channels r, g, b into the pixel at
      `index`. The source does not check the index, so an index outside
      the buffer is excluded by the precondition. */
  function SetPixel(leds: seq<Pixel>, index: nat, r: u8, g: u8, b: u8): (leds': seq<Pixel>)
    requires ValidBuffer(leds)
    requires index < LedCount
    ensures ValidBuffer(leds')
    ensures leds'[index].red == r && leds'[index].green == g && leds'[index].blue == b
    ensures forall j | 0 <= j < LedCount && j != index :: leds'[j] == leds[j]
  {
    leds[index := Pixel(g, r, b)]
  }

  /** The loop of `limpar_o_buffer` from position `i` on: pixels
      i, i+1, ..., 24 are set to (0, 0, 0) in ascending order. Pixels
      before `i` are left alone. */
  function ClearFrom(leds: seq<Pixel>, i: nat): (leds': seq<Pixel>)
    requires ValidBuffer(leds)
    requires i <= LedCount
    ensures ValidBuffer(leds')
    ensures forall j | 0 <= j < i :: leds'[j] == leds[j]
    ensures forall j | i <= j < LedCount :: leds'[j] == Off
    decreases LedCount - i
  {
    if i == LedCount then leds
    else ClearFrom(SetPixel(leds, i, 0, 0, 0), i + 1)
  }

  /** `limpar_o_buffer`: every pixel becomes (0, 0, 0). */
  function Clear(leds: seq<Pixel>): (leds': seq<Pixel>)
    requires ValidBuffer(leds)
    ensures ValidBuffer(leds')
    ensures forall j | 0 <= j < LedCount :: leds'[j] == Off
  {
    ClearFrom(leds, 0)
  }

  /** Clearing forgets the previous contents: the result is the blank
      buffer whatever the buffer held before. */
  lemma {:induction false} ClearIsBlank(leds: seq<Pixel>)
    requires ValidBuffer(leds)
    ensures Clear(leds) == Blank()
  {
    var c := Clear(leds);
    assert forall j | 0 <= j < LedCount :: c[j] == Blank()[j];
  }

  /** Clearing twice gives the same buffer as clearing once. */
  lemma {:induction false} ClearIdempotent(leds: seq<Pixel>)
    requires ValidBuffer(leds)
    ensures Clear(Clear(leds)) == Clear(leds)
  {
    ClearIsBlank(leds);
    ClearIsBlank(Clear(leds));
  }
}
