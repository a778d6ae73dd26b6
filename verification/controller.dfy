/** The button interrupt handler (`gpio_irq_handler`) and the program's
    start-up sequence (`main`), over the whole observable state: the
    shown digit, the time of the last accepted press, the pixel buffer
    and every byte sent to the LED lane so far. Each interrupt is one
    atomic call of `HandleEvent`; the clock reading is its argument. */
module Controller {
  import opened Pixels
  import opened Glyphs
  import opened Lane
  import opened Drawing
  import opened Debounce

  /** Everything the core owns: `numero_na_matriz`, `tempo_passado`,
      `leds`, and the bytes pushed to the LED lane so far. */
  datatype Machine = Machine(digit: int, lastTime: u32, leds: seq<Pixel>, output: seq<u8>)

  /** The digit stays a decimal digit and the buffer keeps its size. */
  predicate Valid(m: Machine) {
    IsDigit(m.digit) && ValidBuffer(m.leds)
  }

  /** What the user sees agrees with the state: the buffer shows the
      digit, and the last frame sent to the matrix is that buffer. */
  ghost predicate Consistent(m: Machine) {
    && Valid(m)
    && Shows(m.leds, m.digit)
    && |m.output| >= FrameBytes
    && m.output[|m.output| - FrameBytes..] == Flush(m.leds)
  }

  /** `manipulacao_matriz` on the machine: render the current digit and
      append the frame to the lane output. */
  function Redraw(m: Machine): (m': Machine)
    requires Valid(m)
    ensures Consistent(m')
    ensures m'.digit == m.digit && m'.lastTime == m.lastTime
    ensures m'.output == m.output + Flush(m'.leds)
  {
    var f := Render(m.leds, m.digit);
    var out := m.output + f.emitted;
    SuffixOfAppend(m.output, f.emitted);
    m.(leds := f.leds, output := out)
  }

  /** The last `|b|` bytes of `a + b` are `b`. */
  lemma {:induction false} SuffixOfAppend(a: seq<u8>, b: seq<u8>)
    ensures (a + b)[|a + b| - |b|..] == b
  {
  }

  /** `gpio_irq_handler` for a press on `pin` when the clock reads
      `clockUs`. A press more than 200000 us after the last accepted one
      (on either button) is accepted: its time is recorded, the digit
      moves up (A) or down (B) cyclically, and the digit is redrawn.
      Any other press changes nothing at all. */
  function HandleEvent(m: Machine, pin: nat, clockUs: nat): (m': Machine)
    requires Valid(m)
    ensures Valid(m')
    ensures !Accepts(m.lastTime, Ticks(clockUs)) ==> m' == m
    ensures Accepts(m.lastTime, Ticks(clockUs)) ==>
      && m'.lastTime == Ticks(clockUs)
      && m'.digit == NextDigit(m.digit, pin)
      && m'.output == m.output + Flush(m'.leds)
      && |m'.output| == |m.output| + FrameBytes
  {
    var now := Ticks(clockUs);
    if Elapsed(now, m.lastTime) > DebounceWindowUs then
      var m1 := m.(lastTime := now, digit := NextDigit(m.digit, pin));
      var m' := Redraw(m1);
      assert m1.output == m.output;
      m'
    else m
  }

  /** `main` up to the configuration of the buttons: the buffer as
      found at boot (`boot`; zero in C, but any contents will do) is
      cleared by the PIO set-up loop and again by `limpar_o_buffer`,
      then flushed, so the matrix first receives one all-dark frame. No
      press has been accepted yet: digit 0, recorded time 0. */
  function PowerOn(boot: seq<Pixel>): (m: Machine)
    requires ValidBuffer(boot)
    ensures Valid(m)
    ensures m.digit == 0 && m.lastTime == 0
    ensures |m.output| == FrameBytes
    ensures forall p | 0 <= p < FrameBytes :: m.output[p] == 0
  {
    var cleared := Clear(Clear(boot));
    FlushDark(cleared);
    Machine(0, 0, cleared, Flush(cleared))
  }

  /** The rest of `main` before its endless blink loop: digit 0 is
      rendered and flushed. The matrix has then received the dark frame
      followed by the frame of 0, and the state is consistent. */
  function Startup(boot: seq<Pixel>): (m: Machine)
    requires ValidBuffer(boot)
    ensures Consistent(m)
    ensures m.digit == 0 && m.lastTime == 0
    ensures |m.output| == 2 * FrameBytes
    ensures forall p | 0 <= p < FrameBytes :: m.output[p] == 0
  {
    var m0 := PowerOn(boot);
    var m := Redraw(m0);
    ZeroPrefix(m0.output, Flush(m.leds));
    m
  }

  /** Appending to a run of zero bytes keeps that run in front. */
  lemma {:induction false} ZeroPrefix(zeros: seq<u8>, more: seq<u8>)
    requires forall p | 0 <= p < |zeros| :: zeros[p] == 0
    ensures forall p | 0 <= p < |zeros| :: (zeros + more)[p] == 0
  {
  }

  /** An edge on a button at a clock reading. */
  datatype Event = Event(pin: nat, clockUs: nat)

  /** A run of handler invocations, one after another. */
  function Run(m: Machine, events: seq<Event>): (m': Machine)
    requires Valid(m)
    ensures Valid(m')
    ensures m.output <= m'.output
    decreases |events|
  {
    if events == [] then m
    else Run(HandleEvent(m, events[0].pin, events[0].clockUs), events[1..])
  }

  /** Every event of the run passes the debounce test in turn. */
  ghost predicate AllAccepted(last: u32, events: seq<Event>)
    decreases |events|
  {
    events == [] ||
    (Accepts(last, Ticks(events[0].clockUs)) && AllAccepted(Ticks(events[0].clockUs), events[1..]))
  }

  /** The net number of steps a run asks for: +1 per A press, -1 per B
      press, 0 for any other pin. */
  ghost function Net(events: seq<Event>): int
    decreases |events|
  {
    if events == [] then 0 else Delta(events[0].pin) + Net(events[1..])
  }

  /** An accepted press leaves the matrix showing the new digit, and
      the frame it sent last is that picture. */
  lemma {:induction false} AcceptedPressRedraws(m: Machine, pin: nat, clockUs: nat)
    requires Valid(m)
    requires Accepts(m.lastTime, Ticks(clockUs))
    ensures Consistent(HandleEvent(m, pin, clockUs))
  {
  }

  /** The invariant `Consistent` holds after every handler call. */
  lemma {:induction false} HandleEventKeepsConsistent(m: Machine, pin: nat, clockUs: nat)
    requires Consistent(m)
    ensures Consistent(HandleEvent(m, pin, clockUs))
  {
  }

  /** ... and so after every run, in particular every run from start-up. */
  lemma {:induction false} RunKeepsConsistent(m: Machine, events: seq<Event>)
    requires Consistent(m)
    ensures Consistent(Run(m, events))
    decreases |events|
  {
    if events != [] {
      HandleEventKeepsConsistent(m, events[0].pin, events[0].clockUs);
      RunKeepsConsistent(HandleEvent(m, events[0].pin, events[0].clockUs), events[1..]);
    }
  }

  /** One step of a run is one handler call. */
  lemma {:induction false} RunStep(m: Machine, events: seq<Event>)
    requires Valid(m) && events != []
    ensures Run(m, events) == Run(HandleEvent(m, events[0].pin, events[0].clockUs), events[1..])
  {
  }

  /** The last event of a non-empty run. */
  function LastEvent(events: seq<Event>): Event
    requires events != []
  {
    events[|events| - 1]
  }

  /** The last event of a one-event run is its first. */
  lemma {:induction false} LastOfSingle(events: seq<Event>)
    requires |events| == 1
    ensures LastEvent(events) == events[0]
  {
  }

  /** Dropping the first of two or more events keeps the last one. */
  lemma {:induction false} LastOfTail(events: seq<Event>)
    requires |events| >= 2
    ensures LastEvent(events[1..]) == LastEvent(events)
  {
  }

  /** An accepted press records its time and moves the digit. */
  lemma {:induction false} AcceptedStep(m: Machine, pin: nat, clockUs: nat)
    requires Valid(m) && Accepts(m.lastTime, Ticks(clockUs))
    ensures HandleEvent(m, pin, clockUs).digit == NextDigit(m.digit, pin)
    ensures HandleEvent(m, pin, clockUs).lastTime == Ticks(clockUs)
  {
  }

  /** A digit `r` reached by `n` steps after a press is `Delta(pin) + n`
      steps from the digit before the press. */
  lemma PressThenSteps(d: int, pin: nat, n: int, r: int, total: int)
    requires IsDigit(d)
    requires r == Advance(NextDigit(d, pin), n) && total == Delta(pin) + n
    ensures r == Advance(d, total)
  {
    NextDigitAdvances(d, pin, n);
  }

  /** When every press of a run is accepted, the digit moves by the net
      count modulo 10. */
  lemma {:induction false} RunAccepted(m: Machine, events: seq<Event>)
    requires Valid(m)
    requires AllAccepted(m.lastTime, events)
    ensures Run(m, events).digit == Advance(m.digit, Net(events))
    decreases |events|
  {
    if events == [] {
      AdvanceNone(m.digit);
    } else {
      var e, rest := events[0], events[1..];
      var m1 := HandleEvent(m, e.pin, e.clockUs);
      RunStep(m, events);
      AcceptedStep(m, e.pin, e.clockUs);
      RunAccepted(m1, rest);
      assert Net(events) == Delta(e.pin) + Net(rest);
      PressThenSteps(m.digit, e.pin, Net(rest), Run(m1, rest).digit, Net(events));
    }
  }

  /** ... and the time recorded at the end is that of the last press. */
  lemma {:induction false} RunAcceptedTime(m: Machine, events: seq<Event>)
    requires Valid(m) && events != []
    requires AllAccepted(m.lastTime, events)
    ensures Run(m, events).lastTime == Ticks(LastEvent(events).clockUs)
    decreases |events|
  {
    var e, rest := events[0], events[1..];
    var m1 := HandleEvent(m, e.pin, e.clockUs);
    RunStep(m, events);
    AcceptedStep(m, e.pin, e.clockUs);
    if |events| == 1 {
      LastOfSingle(events);
      assert rest == [];
    } else {
      RunAcceptedTime(m1, rest);
      LastOfTail(events);
    }
  }

  /** Every event of the run comes from the same pin. */
  predicate AllFrom(events: seq<Event>, pin: nat) {
    forall k | 0 <= k < |events| :: events[k].pin == pin
  }

  /** A run of presses all on A steps up once each; all on B, down once
      each. */
  lemma {:induction false} NetOfOnePin(events: seq<Event>, pin: nat)
    requires AllFrom(events, pin)
    ensures pin == PinA ==> Net(events) == |events|
    ensures pin == PinB ==> Net(events) == -|events|
    decreases |events|
  {
    if events != [] {
      NetOfOnePin(events[1..], pin);
    }
  }

  /** Ten accepted presses of A, or ten of B, bring back the digit the
      run started from. */
  lemma {:induction false} TenPressesReturn(m: Machine, events: seq<Event>, pin: nat)
    requires Valid(m)
    requires pin == PinA || pin == PinB
    requires |events| == 10 && AllFrom(events, pin)
    requires AllAccepted(m.lastTime, events)
    ensures Run(m, events).digit == m.digit
  {
    RunAccepted(m, events);
    NetOfOnePin(events, pin);
    AdvanceFullTurn(m.digit);
  }

  /** Two presses, on either button, less than the window apart (or
      exactly at it) give one accepted transition: the second is
      dropped and changes nothing. */
  lemma {:induction false} BounceSuppressed(m: Machine, pin1: nat, t: nat, pin2: nat, delay: nat)
    requires Valid(m)
    requires Accepts(m.lastTime, Ticks(t))
    requires delay <= DebounceWindowUs
    ensures var m1 := HandleEvent(m, pin1, t);
      && m1 != m
      && HandleEvent(m1, pin2, t + delay) == m1
  {
    BounceRejected(t, delay);
  }

  /** Two presses more than the window apart (and less than a clock
      lap) are both accepted. */
  lemma {:induction false} SpacedPressesAccepted(m: Machine, pin1: nat, t: nat, pin2: nat, delay: nat)
    requires Valid(m)
    requires Accepts(m.lastTime, Ticks(t))
    requires DebounceWindowUs < delay < TimeModulus
    ensures var m1 := HandleEvent(m, pin1, t);
      && m1 != m
      && var m2 := HandleEvent(m1, pin2, t + delay);
      && m2 != m1
      && m2.digit == NextDigit(m1.digit, pin2)
      && m2.lastTime == Ticks(t + delay)
  {
    SpacedAccepted(t, delay);
  }

  /** Because only 32 bits of the clock are kept, a press that comes
      2^32 + 100000 us (about 71.6 minutes) after the last accepted one
      is taken for bounce and dropped. */
  lemma {:induction false} LongSilenceAliases(m: Machine, pin1: nat, t: nat, pin2: nat)
    requires Valid(m)
    requires Accepts(m.lastTime, Ticks(t))
    ensures var m1 := HandleEvent(m, pin1, t);
      HandleEvent(m1, pin2, t + TimeModulus + 100000) == m1
  {
    LapAliases(t);
  }

  /** A buffer that shows digit `d` shows any digit equal to it. */
  lemma {:induction false} ShowsSame(leds: seq<Pixel>, d: int, d': int)
    requires IsDigit(d) && Shows(leds, d) && d' == d
    ensures Shows(leds, d')
  {
  }

  /** Right after start-up the display shows 0. */
  lemma {:induction false} StartupShowsZero(boot: seq<Pixel>)
    requires ValidBuffer(boot)
    ensures Shows(Startup(boot).leds, 0)
  {
    var m := Startup(boot);
    ShowsSame(m.leds, m.digit, 0);
  }

  /** Presses during the first 200 ms after boot are ignored. */
  lemma {:induction false} StartupIgnoresEarlyPress(boot: seq<Pixel>, pin: nat, clockUs: nat)
    requires ValidBuffer(boot)
    requires clockUs <= DebounceWindowUs
    ensures HandleEvent(Startup(boot), pin, clockUs) == Startup(boot)
  {
    var m := Startup(boot);
    EarlyPressRejected(clockUs);
    assert !Accepts(m.lastTime, Ticks(clockUs));
  }

  /** The wrap-around upwards is visible on the matrix: an accepted A
      press at 9 shows the glyph of 0. */
  lemma {:induction false} WrapUpShown(m: Machine, clockUs: nat)
    requires Valid(m) && m.digit == 9
    requires Accepts(m.lastTime, Ticks(clockUs))
    ensures Shows(HandleEvent(m, PinA, clockUs).leds, 0)
  {
    var up := HandleEvent(m, PinA, clockUs);
    AcceptedPressRedraws(m, PinA, clockUs);
    AcceptedStep(m, PinA, clockUs);
    ShowsSame(up.leds, up.digit, 0);
  }

  /** ... and downwards: an accepted B press at 0 shows the glyph of 9. */
  lemma {:induction false} WrapDownShown(m: Machine, clockUs: nat)
    requires Valid(m) && m.digit == 0
    requires Accepts(m.lastTime, Ticks(clockUs))
    ensures Shows(HandleEvent(m, PinB, clockUs).leds, 9)
  {
    var down := HandleEvent(m, PinB, clockUs);
    AcceptedPressRedraws(m, PinB, clockUs);
    AcceptedStep(m, PinB, clockUs);
    ShowsSame(down.leds, down.digit, 9);
  }
}
