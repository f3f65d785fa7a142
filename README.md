# HX711 load-cell driver — Dafny model

This project models the integer core of the HX711 driver in `src/main.c`, which
runs on a Raspberry Pi Pico. The HX711 is a 24-bit ADC. It pulls DOUT low when a
conversion is ready. The host then clocks SCK 24 times and samples one bit of
the two's-complement code after each rising edge, most significant bit first.
One more pulse selects channel A at gain 128 for the next conversion.

The model has four modules:

- `CInt` (CInt.dfy) gives the C semantics the driver relies on, written out
  on unbounded integers. It covers `uint32_t`, `int32_t` and `int64_t`, the
  casts between them, `<<`, `&` and `|`, and C's division, which truncates
  toward zero.
- `Frame` (Frame.dfy) covers one conversion. It shows how the MSB-first
  shift-and-or loop assembles the sampled levels, how bit 23 is extended
  into bits 24–31, and that the result is the frame's 24-bit
  two's-complement value.
- `Averaging` (Averaging.dfy) covers the arithmetic of the average: a
  running total and a C-style quotient, with its bounds.
- `Hx711` (Hx711.dfy) models the two GPIO lines as a class, `Lines`, and the
  driver functions as methods that change it:
  - SCK is an output, and `sck` is its level.
  - DOUT is an input. Its successive reads return the script `dout`.
    `doutReads` counts the reads made so far.
  - `bus` records every SCK write (`Sck(level)`) and every DOUT read
    (`Dout(value)`) in the order they happen. This keeps track of where each
    read falls among the clock edges.

  The methods are proved against specification functions over the script.
  `ReadyAt` is where the busy-wait ends. `FrameCode` is the 24-bit code that
  is shifted in. `Readings` holds the signed values of n consecutive frames.
  `FrameEvents` is the exact bus activity of one frame read. Other lemmas
  take the SCK levels (`Clocks`) and the DOUT samples (`Samples`) out of
  that activity and count them. Lemmas then connect these functions to what
  a sensor transmits: a transmitted sequence of values is read back value
  for value, and averaging a steady signal gives that signal back.

## Model

| member | source | states |
|---|---|---|
| Hx711.Lines.PutSck | src/main.c:49 | writing SCK sets the line to that level and records the write on the bus; nothing else changes |
| Hx711.Lines.GetDout | src/main.c:78 | reading DOUT returns the next level the sensor presents, consumes exactly that read and records it on the bus |
| Hx711.Init | src/main.c:46-53 | SCK becomes an output driven low (one low write and no read), and DOUT becomes an input |
| Hx711.Reset | src/main.c:55-60 | exactly one pulse on SCK (high, then low) and no read, leaving SCK low |
| Hx711.IsReady | src/main.c:62-65 | ready if and only if the one DOUT read it makes returns 0; that read is its only bus activity |
| Hx711.BusyBeforeReady | src/main.c:69-71 | every DOUT read before the one that ends the wait is nonzero, so the wait keeps going |
| Hx711.ReadyFirstZero | src/main.c:69-71 | the wait ends at the first read that returns 0, and only there |
| Hx711.WaitReady | src/main.c:69-72 | the wait consumes the reads up to and including the first 0 and no more, with no clock edge between them |
| Hx711.PollsActivity | src/main.c:69-71 | the wait writes no SCK level and samples exactly the reads it consumes, in order |
| Hx711.ShiftIn24 | src/main.c:74-81 | for each of 24 bits, SCK goes high, DOUT is read, then SCK goes low; SCK ends low. `data` is the MSB-first assembly of the low bits of those 24 reads |
| Hx711.BitClocksAt | src/main.c:76-79 | in the data loop's activity, read i of DOUT sits between the rising and the falling edge of pulse i, so every bit is sampled while SCK is high |
| Hx711.BitClocksPulses | src/main.c:74-81 | the data loop for n bits writes exactly n pulses |
| Hx711.BitClocksSamples | src/main.c:74-81 | the data loop for n bits samples exactly the next n reads, in order |
| Frame.ShiftInStep | src/main.c:78 | one shift-and-or step on `data` loses no bit while data < 2^23, and it adds exactly the low bit of the read (0 or 1) |
| Frame.AssembleLowBits | src/main.c:78 | only the low bit of each read matters: assembling the reads gives the same value as assembling their low bits |
| Frame.AssembleIsWeightedSum | src/main.c:74-81 | MSB-first shifting gives the sum of bit_i * 2^(n-1-i) over the sampled bits |
| Hx711.FrameCodeIsWeightedSum | src/main.c:74-81 | the 24-bit code of a frame is the sum of bit_i * 2^(23-i) over its 24 sampled bits, and lies in [0, 2^24) |
| Frame.AssembleToBits | src/main.c:74-81 | shifting in the bits of a code, most significant first, gives the code back |
| Frame.ToBitsAssemble | src/main.c:74-81 | the assembled value determines every sampled bit, so no bit is lost or reordered |
| Frame.ExtendCopiesSignBit | src/main.c:88-91 | the extension keeps bits 0 to 23 and sets bits 24 to 31 to 0xFF exactly when bit 23 is set |
| Frame.ExtendByMask | src/main.c:88-91 | on a 24-bit frame, the test `data & 0x800000u` is nonzero exactly when the frame is at least 2^23, and OR-ing `0xFF000000u` adds 0xFF * 2^24 |
| Frame.ExtensionIsSignedFrame | src/main.c:88-93 | the extended word reinterpreted as `int32_t` is the frame when bit 23 is clear, and the frame minus 2^24 when it is set |
| Frame.SignedFrameOfEncode | src/main.c:88-93 | every value in [-2^23, 2^23) is recovered from its 24-bit two's-complement code |
| Frame.EncodeOfSignedFrame | src/main.c:88-93 | every 24-bit code is recovered from its signed value |
| Frame.SignedFrameExamples | src/main.c:88-93 | 0x800000 gives -8388608, 0x7FFFFF gives 8388607, 0xFFFFFF gives -1, and 0 gives 0 |
| CInt.ConversionsKeepBits | src/main.c:93 | the `int32_t`/`uint32_t` casts keep the value modulo 2^32, and a word cast to `int32_t` and back is unchanged |
| Hx711.ReadRaw24 | src/main.c:67-94 | one read's bus activity is exactly the polls up to the ready read, then the 24 data bits (each read inside its own pulse), then the gain pulse last; SCK ends low and the next read is the first after the frame. The returned word, as `int32_t`, is the frame's signed value |
| Hx711.FrameActivity | src/main.c:67-86 | a frame read writes exactly 25 pulses (SCK high 25 times, low at the end) and samples exactly the reads from the start to the end of the frame, none skipped and none twice |
| Hx711.ReadsTransmittedCode | src/main.c:67-94 | when the sensor signals ready after any number of busy reads and then shifts out a code, the frame read is that code, and it ends right after the code's 24 bits |
| Hx711.PulsesCount | src/main.c:74-86 | n pulses drive SCK high exactly n times and end with SCK low |
| Hx711.SumFrames | src/main.c:96-100 | after `samples` frames are read in order, the `int64_t` total is the running sum of their signed values, and the bus shows each frame's read in turn. A count below 1 leaves SCK and the bus as they were |
| Hx711.AddFrame | src/main.c:98-99 | one turn of the loop reads the next frame, adds its signed value to the total and its activity to the bus, and leaves SCK low |
| Hx711.FramesPulses | src/main.c:96-100 | reading n frames writes exactly 25 * n pulses |
| Hx711.FramesSamples | src/main.c:96-100 | reading n frames samples exactly the reads from the start to the end of the last frame, in order |
| Hx711.TotalIsSum | src/main.c:97-100 | the running total of the loop is the sum of the readings |
| Hx711.TotalBounds | src/main.c:97-100 | n readings add up to between -2^23 * n and (2^23 - 1) * n, so the `int64_t` total never overflows for an `int` count |
| Averaging.SumFitsInt64 | src/main.c:97-100 | fewer than 2^31 values in the 24-bit signed range add up to well inside the `int64_t` range |
| Hx711.ReadingsInRange | src/main.c:96-100 | every reading lies in [-2^23, 2^23) |
| CInt.TruncDivIsCDivision | src/main.c:101 | the quotient modelled for `sum / samples` is C's: the one quotient whose remainder is smaller than the divisor and has the dividend's sign |
| CInt.TruncDivBetween | src/main.c:101 | a truncating quotient by a positive divisor stays between any bounds that enclose the dividend |
| CInt.NarrowingKeepsInRange | src/main.c:101 | `(int32_t)` of an `int64_t` keeps its value modulo 2^32, and leaves any value already in range unchanged |
| Averaging.MeanWithinRange | src/main.c:96-101 | the average lies between the smallest and the largest value averaged |
| Averaging.MeanOfConstant | src/main.c:96-101 | averaging a constant returns exactly that constant |
| Hx711.MeanInFrameRange | src/main.c:96-101 | the average of n frames lies in the 24-bit signed range, so the `int32_t` cast of the quotient loses nothing |
| Hx711.QuotientOfTotal | src/main.c:101 | the C quotient of the total by a positive count is the mean of the readings. By a negative count (no frame read) it is 0. Either way it lies within `int32_t` |
| Hx711.ReadAverageRaw | src/main.c:96-102 | for samples > 0, it returns the C-truncated mean of the next `samples` readings; the bus shows each frame's read in turn, and SCK ends low. For samples < 0, it reads nothing, leaves SCK and the bus as they were, and returns 0 |
| Hx711.ReadingsOfTransmission | src/main.c:67-100 | reading a transmission of 24-bit signed values frame by frame gives back every value, in order |
| Hx711.AverageOfSteadySignal | src/main.c:67-101 | averaging n frames of a sensor that transmits the same value v every time returns exactly v |

## Left out

- The floating-point side is not modelled: `hx711_raw_to_volt`, `hx711_get_grams`, the `HX711_*` scale constants and the tare offset (src/main.c:27-37, 43, 104-115, 189).
- micro-ROS is not modelled: the transport, node, publisher, timer, executor, agent ping, timer callback, LED heartbeat and `main` (src/main.c:117-200). These are I/O through foreign libraries.
- `sleep_us` and `tight_loop_contents` are not modelled, because microsecond timing is outside an integer model. The bus keeps the order of SCK writes and DOUT reads, but not the delays between them.
- `gpio_init` is not modelled, because it is a Pico SDK call. Init records only the pin directions and the SCK level. The pin numbers (GPIO 2 and 3) are fixed by the two-line class.
- Hx711.WaitReady: the busy-wait on DOUT is proved only when the sensor eventually reads 0. Hx711.ReadRaw24 also needs the 24 reads after it (the `FrameReady` precondition). A sensor that never becomes ready, where the C loop spins forever, is not modelled.
- Hx711.ReadAverageRaw: `samples == 0` divides by zero in C, which is undefined behaviour. The method requires `samples != 0`. Negative counts are modelled: the loop does not run and the result is 0.
- Hx711.Lines.GetDout: `gpio_get` returns any natural number from a finite script, not a `bool`. This keeps the `& 0x1` of src/main.c:78 meaningful, and readiness compares the whole value with 0 as src/main.c:64 does.
- The comment at src/main.c:92 mentions an XOR with 0x800000. The code does no XOR, and the model follows the code.
