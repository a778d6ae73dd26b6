/** The two decisions of the button interrupt handler: whether a press
    is far enough from the last accepted one to count (on a 32-bit
    microsecond clock), and how it moves the digit. */
module Debounce {
  import opened Glyphs

  /** Timestamps are kept modulo 2^32. */
  const TimeModulus: nat := 0x1_0000_0000

  /** An unsigned 32-bit value (`uint32_t`). */
  type u32 = x: int | 0 <= x < TimeModulus

  /** GPIO of button A, which counts up (`PINO_BOTAO_A`). */
  const PinA: nat := 5

  /** GPIO of button B, which counts down (`PINO_BOTAO_B`). */
  const PinB: nat := 6

  /** Presses closer than this to the last accepted one are bounce. */
  const DebounceWindowUs: nat := 200000

  /** The 64-bit microsecond clock stored into a `uint32_t`: the low 32
      bits, which lose whole multiples of 2^32 microseconds. */
  function Ticks(clockUs: nat): (t: u32)
    ensures clockUs < TimeModulus ==> t == clockUs
    ensures (clockUs - t) % TimeModulus == 0
  {
    clockUs % TimeModulus
  }

  /** `now - last` on `uint32_t`: the time from `last` forward to `now`
      on a clock that wraps at 2^32, i.e. the one 32-bit value that,
      added to `last` modulo 2^32, gives `now`. */
  function Elapsed(now: u32, last: u32): (e: u32)
    ensures (last + e) % TimeModulus == now
    ensures last <= now ==> e == now - last
  {
    if last <= now then now as int - last as int else now as int - last as int + TimeModulus
  }

  /** The debounce test of the handler; the comparison is strict. */
  function Accepts(last: u32, now: u32): (accepted: bool)
    ensures accepted <==> (now - last) % TimeModulus > DebounceWindowUs
  {
    Elapsed(now, last) > DebounceWindowUs
  }

  /** The digit update of the handler, written as the source writes it:
      button A adds one and resets to 0 above 9, button B subtracts one
      and resets to 9 below 0, any other pin leaves the digit alone. */
  function NextDigit(d: int, pin: nat): (d': int)
    requires IsDigit(d)
    ensures IsDigit(d')
    ensures pin == PinA ==> d' == (d + 1) % DigitCount
    ensures pin == PinB ==> d' == (d + DigitCount - 1) % DigitCount
    ensures pin != PinA && pin != PinB ==> d' == d
  {
    if pin == PinA then
      var up := d + 1;
      if up > 9 then 0 else up
    else if pin == PinB then
      var down := d - 1;
      if down < 0 then 9 else down
    else d
  }

  /** Accepting depends only on the real time since the last accepted
      press, taken modulo 2^32: a press `delay` us later is accepted
      exactly when `delay mod 2^32` exceeds the window. */
  lemma AcceptsAfterDelay(lastClockUs: nat, delay: nat)
    ensures Accepts(Ticks(lastClockUs), Ticks(lastClockUs + delay)) <==> delay % TimeModulus > DebounceWindowUs
  {
    var last, now := Ticks(lastClockUs), Ticks(lastClockUs + delay);
    var qLast, qNow, qDelay := lastClockUs / TimeModulus, (lastClockUs + delay) / TimeModulus, delay / TimeModulus;
    assert lastClockUs == qLast * TimeModulus + last;
    assert lastClockUs + delay == qNow * TimeModulus + now;
    assert delay == qDelay * TimeModulus + delay % TimeModulus;
    var k := qDelay - qNow + qLast;
    assert now as int - last as int == delay % TimeModulus + k * TimeModulus;
    assert Elapsed(now, last) == delay % TimeModulus;
  }

  /** A press at most the window after the last accepted one is bounce. */
  lemma BounceRejected(lastClockUs: nat, delay: nat)
    requires delay <= DebounceWindowUs
    ensures !Accepts(Ticks(lastClockUs), Ticks(lastClockUs + delay))
  {
    AcceptsAfterDelay(lastClockUs, delay);
  }

  /** With nothing accepted yet (recorded time 0), a press within the
      first window after boot is bounce. */
  lemma EarlyPressRejected(clockUs: nat)
    requires clockUs <= DebounceWindowUs
    ensures !Accepts(0, Ticks(clockUs))
  {
    BounceRejected(0, clockUs);
  }

  /** A press more than the window, and less than a clock lap, after the
      last accepted one is a new press. */
  lemma SpacedAccepted(lastClockUs: nat, delay: nat)
    requires DebounceWindowUs < delay < TimeModulus
    ensures Accepts(Ticks(lastClockUs), Ticks(lastClockUs + delay))
  {
    AcceptsAfterDelay(lastClockUs, delay);
  }

  /** A press a whole clock lap plus 100000 us after the last accepted
      one looks like bounce to the 32-bit comparison. */
  lemma LapAliases(lastClockUs: nat)
    ensures !Accepts(Ticks(lastClockUs), Ticks(lastClockUs + TimeModulus + 100000))
  {
    AcceptsAfterDelay(lastClockUs, TimeModulus + 100000);
  }

  /** The step a press asks for: +1 on A, -1 on B, none elsewhere. */
  function Delta(pin: nat): int {
    if pin == PinA then 1 else if pin == PinB then -1 else 0
  }

  /** The digit reached from `d` after `n` net steps on the cyclic dial
      0..9 (negative `n` counts down). */
  ghost function Advance(d: int, n: int): (d': int)
    ensures IsDigit(d')
  {
    (d + n) % DigitCount
  }

  /** Zero steps leave a digit where it is. */
  lemma AdvanceNone(d: int)
    requires IsDigit(d)
    ensures Advance(d, 0) == d
  {
  }

  /** The handler's digit update is one step of the dial: applying it
      and then `n` more steps is `Delta(pin) + n` steps in all. */
  lemma NextDigitAdvances(d: int, pin: nat, n: int)
    requires IsDigit(d)
    ensures Advance(NextDigit(d, pin), n) == Advance(d, Delta(pin) + n)
  {
    if pin == PinA {
      AddMod(d, 1, n);
    } else if pin == PinB {
      AddMod(d, DigitCount - 1, n);
      assert (d + DigitCount - 1 + n) % DigitCount == (d + -1 + n) % DigitCount;
    }
  }

  /** Reducing an intermediate sum modulo 10 does not change the final
      position on the dial. */
  lemma AddMod(d: int, a: int, n: int)
    ensures ((d + a) % DigitCount + n) % DigitCount == (d + a + n) % DigitCount
  {
  }

  /** Ten steps up, or ten steps down, go once round the dial. */
  lemma AdvanceFullTurn(d: int)
    requires IsDigit(d)
    ensures Advance(d, DigitCount) == d
    ensures Advance(d, -(DigitCount as int)) == d
  {
  }
}
