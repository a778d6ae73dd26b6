# One-digit LED matrix with debounced buttons

A Dafny model of the firmware in `Tarefa_Interrupcoes.c`. The firmware shows
one decimal digit on a 5x5 matrix of GRB LEDs. Button A (GPIO 5) counts the
digit up and button B (GPIO 6) counts it down, cyclically. Presses are
debounced against a single 32-bit microsecond timestamp shared by both
buttons. Each accepted press redraws the digit: the pixel buffer is cleared,
the glyph's LEDs are set to blue 200, and the 25 pixels are pushed to the LED
lane as 75 bytes in green-red-blue order.

The model is functional. The global pixel buffer is a `seq<Pixel>` of length
25 that is passed through pure functions. The bytes that `pio_sm_put_blocking`
would push are returned as a `seq<u8>`. The interrupt handler is a function
from a `Machine` (digit, last accepted time, buffer, every byte sent so far)
and an event (pin, clock reading) to the next `Machine`.

Modules, one per file:

- `Pixels` (`pixels.dfy`): the buffer, `atribuir_cor_ao_led` and `limpar_o_buffer`.
- `Glyphs` (`glyphs.dfy`): the constant tables `quantidade` and `coordenadas_numero`, and their consistency.
- `Lane` (`lane.dfy`): `escrever_no_buffer` as a byte sequence, and reading a frame back.
- `Drawing` (`render.dfy`): `manipulacao_matriz`.
- `Debounce` (`debounce.dfy`): the 32-bit time arithmetic, the debounce test and the digit update of `gpio_irq_handler`.
- `Controller` (`controller.dfy`): the handler and start-up over the whole state, runs of events, and end-to-end properties.

A debounced button is expected to accept any two presses more than
200000 us apart. The handler compares 32-bit differences, so it does this
only when the second press comes less than 2^32 us (about 71.6 minutes)
after the first. `Debounce.AcceptsAfterDelay` states the exact rule, and
`Controller.LongSilenceAliases` shows a press that is dropped after a long
silence.

## Model

| member | source | states |
|---|---|---|
| Pixels.SetPixel | Tarefa_Interrupcoes.c:83-87 | the pixel at `index` gets red r, green g and blue b; every other pixel keeps its value; the buffer keeps 25 pixels |
| Pixels.ClearFrom | Tarefa_Interrupcoes.c:90-93 | the clearing loop from step i: pixels before i are untouched, pixels i..24 become (0,0,0) |
| Pixels.Clear | Tarefa_Interrupcoes.c:90-93 | after clearing, all 25 pixels are (0,0,0) |
| Pixels.ClearIsBlank | Tarefa_Interrupcoes.c:90-93 | clearing gives the all-dark buffer whatever the buffer held before |
| Pixels.ClearIdempotent | Tarefa_Interrupcoes.c:90-93 | clearing twice equals clearing once |
| Glyphs.TableWellFormed | Tarefa_Interrupcoes.c:33-45 | there are ten counts and ten 13-wide rows; each count is 8..13; exactly the first `quantidade[d]` entries of row d are listed and the rest is zero padding; every listed LED is < 25; the listed LEDs ascend strictly |
| Glyphs.Positions | Tarefa_Interrupcoes.c:33-45 | the LEDs of digit d number between 8 and 13, are all < 25, and are in strictly ascending order |
| Glyphs.IncreasingIsDistinct | Tarefa_Interrupcoes.c:34-45 | a row whose neighbours ascend is ordered pairwise and has no repeated LED |
| Glyphs.GlyphsDistinct | Tarefa_Interrupcoes.c:34-45 | no glyph lists an LED twice |
| Lane.FlushFrom | Tarefa_Interrupcoes.c:98-102 | the flush loop from pixel i pushes 3*(25-i) bytes; byte p is channel p mod 3 (G, R, B) of pixel i + p div 3 |
| Lane.Flush | Tarefa_Interrupcoes.c:96-103 | a flush pushes exactly 75 bytes; byte p is channel p mod 3 of pixel p div 3 |
| Lane.FlushIsGrb | Tarefa_Interrupcoes.c:99-101 | bytes 3i, 3i+1 and 3i+2 are the green, red and blue of pixel i |
| Lane.FlushDark | Tarefa_Interrupcoes.c:108-109 | an all-dark buffer flushes to 75 zero bytes |
| Lane.UnflushFlush | Tarefa_Interrupcoes.c:96-103 | reading a flushed frame back gives the buffer that was flushed |
| Lane.FlushUnflush | Tarefa_Interrupcoes.c:96-103 | every 75-byte frame is the flush of the buffer read back from it |
| Lane.FlushInjective | Tarefa_Interrupcoes.c:96-103 | two buffers send the same bytes if and only if they are equal |
| Drawing.PaintFrom | Tarefa_Interrupcoes.c:163-164 | the painting loop from entry i: an LED named in the rest of the glyph is lit blue 200; every other LED keeps its colour |
| Drawing.Paint | Tarefa_Interrupcoes.c:163-164 | after the painting loop, the glyph's LEDs are lit and the others are as before |
| Drawing.PaintClearedShows | Tarefa_Interrupcoes.c:161-164 | painting over a cleared buffer lights exactly the glyph's LEDs and leaves every other LED dark |
| Drawing.Render | Tarefa_Interrupcoes.c:160-167 | after rendering d, pixel i is (R 0, G 0, B 200) if i is among the first `quantidade[d]` entries of row d and (0,0,0) otherwise; the bytes sent are the flush of that buffer |
| Drawing.RenderSendsPicture | Tarefa_Interrupcoes.c:160-167 | a render sends one 75-byte frame, and reading it back shows the digit |
| Drawing.RenderBytes | Tarefa_Interrupcoes.c:160-167 | LED i is sent as green 0, red 0, then blue 200 if it is in the glyph and 0 if not |
| Drawing.ShowsUnique | Tarefa_Interrupcoes.c:160-167 | two buffers that both show digit d are equal |
| Drawing.RenderForgetsBuffer | Tarefa_Interrupcoes.c:160-167 | the buffer and bytes of a render do not depend on what the buffer held before |
| Drawing.RenderIdempotent | Tarefa_Interrupcoes.c:160-167 | rendering the same digit twice gives the same buffer and the same bytes as rendering it once |
| Debounce.Ticks | Tarefa_Interrupcoes.c:126 | storing the microsecond clock in a `uint32_t` drops only whole multiples of 2^32 us, and keeps any reading below 2^32 unchanged |
| Debounce.Elapsed | Tarefa_Interrupcoes.c:130 | unsigned 32-bit `now - last` is the 32-bit value that, added to `last` modulo 2^32, gives `now`; without wrap-around it is the plain difference |
| Debounce.Accepts | Tarefa_Interrupcoes.c:130 | the handler's test `tempo_atual - tempo_passado > 200000`: a press passes exactly when the difference of the two 32-bit times, taken modulo 2^32, exceeds 200000; equality fails |
| Debounce.AcceptsAfterDelay | Tarefa_Interrupcoes.c:126-130 | a press `delay` us after the last accepted one passes the test if and only if delay mod 2^32 > 200000 |
| Debounce.BounceRejected | Tarefa_Interrupcoes.c:130 | a press at most 200000 us after the last accepted one fails the test; the comparison is strict |
| Debounce.EarlyPressRejected | Tarefa_Interrupcoes.c:130 | while the recorded time is still its initial 0, a press at most 200000 us after boot fails the test |
| Debounce.SpacedAccepted | Tarefa_Interrupcoes.c:130 | a press more than 200000 us and less than 2^32 us after the last accepted one passes the test |
| Debounce.LapAliases | Tarefa_Interrupcoes.c:126-130 | a press 2^32 + 100000 us after the last accepted one fails the test |
| Debounce.NextDigit | Tarefa_Interrupcoes.c:132-140 | the digit stays in 0..9; pin A maps d to (d+1) mod 10, so 9 goes to 0; pin B maps d to (d+9) mod 10, so 0 goes to 9; any other pin leaves d unchanged |
| Debounce.NextDigitAdvances | Tarefa_Interrupcoes.c:132-140 | the digit update is one step on the cyclic dial: +1 for A, -1 for B, 0 otherwise |
| Debounce.AdvanceFullTurn | Tarefa_Interrupcoes.c:132-140 | ten steps up, or ten steps down, return to the starting digit |
| Controller.Redraw | Tarefa_Interrupcoes.c:141 | the redraw in the handler keeps the digit and time; afterwards the buffer shows the digit and the frame of that buffer has been appended to the output |
| Controller.HandleEvent | Tarefa_Interrupcoes.c:124-143 | a rejected press changes nothing: digit, timestamp, buffer and output stay the same; an accepted press stores the new time (one timestamp for both pins), updates the digit as `NextDigit` does, appends exactly one 75-byte frame of the new buffer, and keeps the digit in 0..9 |
| Controller.Run | Tarefa_Interrupcoes.c:124-143 | one handler call per event, in order: the digit stays in 0..9, the buffer keeps 25 pixels, and the bytes already sent stay a prefix of the output (the lane output only grows) |
| Controller.AcceptedPressRedraws | Tarefa_Interrupcoes.c:130-141 | after an accepted press, even from a pin other than A or B, the buffer shows the digit and the last frame sent is that buffer |
| Controller.HandleEventKeepsConsistent | Tarefa_Interrupcoes.c:124-143 | every handler call keeps the invariant: the digit is in 0..9, the buffer shows it, and the last frame sent is the buffer |
| Controller.RunKeepsConsistent | Tarefa_Interrupcoes.c:124-143 | the invariant survives any sequence of handler calls |
| Controller.RunAccepted | Tarefa_Interrupcoes.c:130-140 | when every press of a run is accepted, the final digit is the start digit moved by (number of A presses - number of B presses) mod 10 |
| Controller.RunAcceptedTime | Tarefa_Interrupcoes.c:130-131 | when every press of a run is accepted, the stored time is that of the last press |
| Controller.TenPressesReturn | Tarefa_Interrupcoes.c:132-140 | ten accepted presses of A, or ten of B, bring back the starting digit |
| Controller.BounceSuppressed | Tarefa_Interrupcoes.c:130-131 | two presses on any pins at most 200000 us apart give one transition; the second press changes nothing |
| Controller.SpacedPressesAccepted | Tarefa_Interrupcoes.c:130-140 | two presses more than 200000 us apart, within one clock lap, are both accepted, and the second moves the digit again |
| Controller.LongSilenceAliases | Tarefa_Interrupcoes.c:126-130 | a press 2^32 + 100000 us after an accepted one is dropped, because only 32 bits of the clock are kept |
| Controller.PowerOn | Tarefa_Interrupcoes.c:106-109 | after the PIO clearing loop, `limpar_o_buffer` and the first flush: digit 0, time 0, and exactly 75 zero bytes sent |
| Controller.Startup | Tarefa_Interrupcoes.c:106-114 | after start-up the state is consistent with digit 0 and time 0; 150 bytes have been sent, and the first 75 are zero |
| Controller.StartupShowsZero | Tarefa_Interrupcoes.c:106-114 | after start-up the buffer holds exactly the glyph of 0 and every other LED is dark |
| Controller.StartupIgnoresEarlyPress | Tarefa_Interrupcoes.c:30 | with the stored time starting at 0, a press at most 200000 us after boot changes nothing |
| Controller.WrapUpShown | Tarefa_Interrupcoes.c:132-141 | one accepted A press at 9 leaves the matrix showing the glyph of 0 |
| Controller.WrapDownShown | Tarefa_Interrupcoes.c:136-141 | one accepted B press at 0 leaves the matrix showing the glyph of 9 |

## Left out

- PIO set-up (`inicializacao_maquina_pio`, lines 58-73): these are SDK calls that choose a state machine and set an 800 kHz floating-point clock, and `ws2818b.pio.h` is not part of this model. Only its buffer-clearing loop (lines 75-79) is modelled, as the first `Clear` in `Controller.PowerOn`.
- GPIO set-up and interrupt registration (`inicializacao_dos_pinos`, lines 145-158): these are SDK calls. Presses enter the model as explicit `Event(pin, clockUs)` values.
- The red-LED blink loop (lines 116-121): it is I/O with sleeps and touches no modelled state.
- The clock read `to_us_since_boot(get_absolute_time())` (line 126) is an argument `clockUs: nat`. The 64-bit counter is taken as unbounded, because it would wrap only after about 584,000 years. Its truncation to `uint32_t` is modelled by `Debounce.Ticks`.
- `pio_sm_put_blocking` is modelled as appending one byte to the output sequence. The lane's waveform timing and blocking behaviour are not modelled.
- `volatile` and preemption: each handler call is one atomic step. The model does not cover an interrupt that arrives while `main` is still drawing, between enabling the interrupts (line 111) and the first render (line 114).
- The handler's `evento` argument (the edge mask) is unused by the source and is not modelled.
- Pixels.SetPixel: requires `index < 25`. In C, a larger index writes past the array, which is undefined behaviour. Every call in the source passes an index below 25: the loop bound at line 91, and the table entries that `Glyphs.TableWellFormed` proves to be below 25.
- Flushing does not change the buffer. In the functional model this holds by construction: `Lane.Flush` is a pure function of the buffer.
