/**
 * The HX711 driver: the two GPIO lines it owns and the operations that
 * drive SCK and sample DOUT to pull conversions out of the sensor.
 */
module Hx711 {
  import opened CInt
  import opened Frame
  import opened Averaging

  /** One action on the interface: a write of SCK, or a read of DOUT and the value it returned. */
  datatype Event = Sck(high: bool) | Dout(value: nat)

  /**
   * The two lines of the interface. SCK is driven by the driver; DOUT is
   * driven by the sensor: `dout` is what its successive reads return, and
   * `doutReads` counts the reads made so far, so the next one returns
   * `dout[doutReads]`. `bus` records every SCK write and every DOUT read,
   * oldest first, so the order of clock edges and samples is kept.
   */
  class Lines {
    var sckIsOutput: bool
    var doutIsInput: bool
    var sck: bool
    var bus: seq<Event>
    const dout: seq<nat>
    var doutReads: nat

    /** Lines before configuration, with the sensor about to present `script` on DOUT. */
    constructor (script: seq<nat>)
      ensures !sckIsOutput && !doutIsInput && !sck
      ensures bus == [] && dout == script && doutReads == 0
    {
      sckIsOutput, doutIsInput, sck := false, false, false;
      bus, dout, doutReads := [], script, 0;
    }

    /** `gpio_set_dir(HX711_SCK_PIN, GPIO_OUT)`. */
    method SetSckOutput()
      modifies this`sckIsOutput
      ensures sckIsOutput
    {
      sckIsOutput := true;
    }

    /** `gpio_set_dir(HX711_DOUT_PIN, GPIO_IN)`. */
    method SetDoutInput()
      modifies this`doutIsInput
      ensures doutIsInput
    {
      doutIsInput := true;
    }

    /** `gpio_put(HX711_SCK_PIN, level)`. */
    method PutSck(level: bool)
      modifies this`sck, this`bus
      ensures sck == level
      ensures bus == old(bus) + [Sck(level)]
    {
      sck := level;
      bus := bus + [Sck(level)];
    }

    /** `gpio_get(HX711_DOUT_PIN)`: the next level the sensor presents. */
    method GetDout() returns (v: nat)
      requires doutReads < |dout|
      modifies this`doutReads, this`bus
      ensures v == dout[old(doutReads)]
      ensures doutReads == old(doutReads) + 1
      ensures bus == old(bus) + [Dout(v)]
    {
      v := dout[doutReads];
      doutReads := doutReads + 1;
      bus := bus + [Dout(v)];
    }
  }

  /** The SCK levels written in a stretch of bus activity, in order. */
  function Clocks(events: seq<Event>): (levels: seq<bool>)
    ensures |levels| <= |events|
  {
    if events == [] then []
    else
      var e := events[|events| - 1];
      Clocks(events[..|events| - 1]) + (if e.Sck? then [e.high] else [])
  }

  /** The DOUT values read in a stretch of bus activity, in order. */
  function Samples(events: seq<Event>): (values: seq<nat>)
    ensures |values| <= |events|
  {
    if events == [] then []
    else
      var e := events[|events| - 1];
      Samples(events[..|events| - 1]) + (if e.Dout? then [e.value] else [])
  }

  /** The clock levels of two stretches of activity are those of each, in order. */
  lemma {:induction false} ClocksAppend(a: seq<Event>, b: seq<Event>)
    ensures Clocks(a + b) == Clocks(a) + Clocks(b)
    decreases |b|
  {
    if b == [] {
      assert a + b == a;
    } else {
      var n := |b| - 1;
      assert (a + b)[..|a + b| - 1] == a + b[..n];
      assert (a + b)[|a + b| - 1] == b[n];
      ClocksAppend(a, b[..n]);
    }
  }

  /** The samples of two stretches of activity are those of each, in order. */
  lemma {:induction false} SamplesAppend(a: seq<Event>, b: seq<Event>)
    ensures Samples(a + b) == Samples(a) + Samples(b)
    decreases |b|
  {
    if b == [] {
      assert a + b == a;
    } else {
      var n := |b| - 1;
      assert (a + b)[..|a + b| - 1] == a + b[..n];
      assert (a + b)[|a + b| - 1] == b[n];
      SamplesAppend(a, b[..n]);
    }
  }

  /** One data bit on the bus: a rising edge, the sample of v, a falling edge. */
  lemma BitActivity(v: nat)
    ensures Clocks([Sck(true), Dout(v), Sck(false)]) == [true, false]
    ensures Samples([Sck(true), Dout(v), Sck(false)]) == [v]
  {
    var rise, sample := [Sck(true)], [Sck(true), Dout(v)];
    assert rise[..0] == [];
    assert Clocks(rise) == [true] && Samples(rise) == [];
    assert sample[..1] == rise;
    assert Clocks(sample) == [true] && Samples(sample) == [v];
    assert [Sck(true), Dout(v), Sck(false)][..2] == sample;
  }

  /** A bare pulse on the bus: a rising edge and a falling edge, and no sample. */
  lemma PulseActivity()
    ensures Clocks([Sck(true), Sck(false)]) == [true, false]
    ensures Samples([Sck(true), Sck(false)]) == []
  {
    assert [Sck(true), Sck(false)][..1] == [Sck(true)];
    assert [Sck(true)][..0] == [];
  }

  /** The SCK writes of n clock pulses: high then low, n times. */
  function Pulses(n: nat): (writes: seq<bool>)
    ensures |writes| == 2 * n
  {
    seq(2 * n, i requires 0 <= i < 2 * n => i % 2 == 0)
  }

  /** One more pulse adds one high write and one low write at the end. */
  lemma PulsesStep(n: nat)
    ensures Pulses(n + 1) == Pulses(n) + [true, false]
  {
    assert forall i :: 0 <= i < 2 * n ==> Pulses(n + 1)[i] == Pulses(n)[i];
  }

  /** How many of the writes drive SCK high. */
  function HighCount(writes: seq<bool>): nat
  {
    multiset(writes)[true]
  }

  /** n pulses drive SCK high exactly n times, and the last write leaves it low. */
  lemma {:induction false} PulsesCount(n: nat)
    ensures HighCount(Pulses(n)) == n
    ensures n > 0 ==> !Pulses(n)[2 * n - 1]
  {
    if n > 0 {
      PulsesCount(n - 1);
      PulsesStep(n - 1);
      assert multiset(Pulses(n)) == multiset(Pulses(n - 1)) + multiset{true, false};
    }
  }

  /** Pulses in two runs are the pulses of one run. */
  lemma PulsesAdd(m: nat, n: nat)
    ensures Pulses(m + n) == Pulses(m) + Pulses(n)
  {
    assert forall i :: 0 <= i < 2 * n ==> Pulses(m + n)[2 * m + i] == Pulses(n)[i];
  }

  /**
   * Index of the first DOUT read from position p on that returns 0: the
   * observation that ends the wait (the length of the script when none does).
   */
  function ReadyAt(s: seq<nat>, p: nat): (k: nat)
    requires p <= |s|
    ensures p <= k <= |s|
    ensures k < |s| ==> s[k] == 0
    decreases |s| - p
  {
    if p == |s| || s[p] == 0 then p else ReadyAt(s, p + 1)
  }

  /** Every DOUT read before the ready observation is nonzero: the wait goes on. */
  lemma {:induction false} BusyBeforeReady(s: seq<nat>, p: nat, j: nat)
    requires p <= |s| && p <= j < ReadyAt(s, p)
    ensures s[j] != 0
    decreases j - p
  {
    if j > p {
      BusyBeforeReady(s, p + 1, j);
    }
  }

  /** The first 0 from position p on is where the wait ends. */
  lemma {:induction false} ReadyFirstZero(s: seq<nat>, p: nat, k: nat)
    requires p <= k < |s| && s[k] == 0
    requires forall j :: p <= j < k ==> s[j] != 0
    ensures ReadyAt(s, p) == k
    decreases k - p
  {
    if p < k {
      ReadyFirstZero(s, p + 1, k);
    }
  }

  /**
   * The value the shift loop builds from the n DOUT reads starting at
   * position a: each step doubles it and adds the low bit of the next read.
   */
  function AssembleAt(s: seq<nat>, a: nat, n: nat): (data: nat)
    requires a + n <= |s|
    ensures data < Pow2(n)
  {
    if n == 0 then 0 else 2 * AssembleAt(s, a, n - 1) + s[a + n - 1] % 2
  }

  /** Assembling reads where they stand in the script is assembling the run of them cut out. */
  lemma {:induction false} AssembleAtIsAssemble(s: seq<nat>, a: nat, n: nat)
    requires a + n <= |s|
    ensures AssembleAt(s, a, n) == Assemble(s[a..a + n])
  {
    if n > 0 {
      AssembleAtIsAssemble(s, a, n - 1);
      assert s[a..a + n][..n - 1] == s[a..a + n - 1];
    }
  }

  /**
   * Reading from position p, the sensor becomes ready and then presents
   * the 24 bits of a frame.
   */
  predicate FrameReady(s: seq<nat>, p: nat)
  {
    p <= |s| && ReadyAt(s, p) + 1 + FRAME_BITS <= |s|
  }

  /** The position of the first read after the frame. */
  function FrameEnd(s: seq<nat>, p: nat): (e: nat)
    requires FrameReady(s, p)
    ensures p < e <= |s|
  {
    ReadyAt(s, p) + 1 + FRAME_BITS
  }

  /** The 24 DOUT levels shifted in after the ready observation. */
  function FrameLevels(s: seq<nat>, p: nat): (levels: seq<nat>)
    requires FrameReady(s, p)
    ensures |levels| == FRAME_BITS
  {
    s[ReadyAt(s, p) + 1..FrameEnd(s, p)]
  }

  /** The unsigned 24-bit code of the frame read from position p. */
  function FrameCode(s: seq<nat>, p: nat): (code: nat)
    requires FrameReady(s, p)
    ensures code < 0x100_0000
  {
    Pow2Constants();
    AssembleAt(s, ReadyAt(s, p) + 1, FRAME_BITS)
  }

  /**
   * The code of a frame is the sum of bit_i * 2^(23-i) over the low bits of
   * its 24 reads, oldest first, and lies below 2^24.
   */
  lemma FrameCodeIsWeightedSum(s: seq<nat>, p: nat)
    requires FrameReady(s, p)
    ensures FrameCode(s, p) == WeightedSum(FrameLevels(s, p)) < 0x100_0000
  {
    AssembleAtIsAssemble(s, ReadyAt(s, p) + 1, FRAME_BITS);
    AssembleIsWeightedSum(FrameLevels(s, p));
  }

  /** Reading from position p, the sensor presents n frames in a row (any n <= 0 needs none). */
  predicate HasFrames(s: seq<nat>, p: nat, n: int)
    decreases n, 0
  {
    n <= 0 || (HasFrames(s, p, n - 1) && FrameReady(s, FramesEnd(s, p, n - 1)))
  }

  /** The position of the first read after n frames read from position p. */
  function FramesEnd(s: seq<nat>, p: nat, n: int): (e: nat)
    requires HasFrames(s, p, n)
    ensures p <= e
    ensures p <= |s| ==> e <= |s|
    decreases n, 1
  {
    if n <= 0 then p else FrameEnd(s, FramesEnd(s, p, n - 1))
  }

  /** The signed readings of the first n frames from position p, in the order they are read. */
  function Readings(s: seq<nat>, p: nat, n: int): (xs: seq<int>)
    requires HasFrames(s, p, n)
    ensures |xs| == if n <= 0 then 0 else n
    decreases n
  {
    if n <= 0 then [] else Readings(s, p, n - 1) + [SignedFrame(FrameCode(s, FramesEnd(s, p, n - 1)))]
  }

  /** Every reading lies in the 24-bit signed range. */
  lemma {:induction false} ReadingsInRange(s: seq<nat>, p: nat, n: int)
    requires HasFrames(s, p, n)
    ensures forall i :: 0 <= i < |Readings(s, p, n)| ==> -0x80_0000 <= Readings(s, p, n)[i] < 0x80_0000
    decreases n
  {
    if n > 0 {
      ReadingsInRange(s, p, n - 1);
    }
  }

  /**
   * The average of n frames lies in the 24-bit signed range, so narrowing
   * it to `int32_t` loses nothing.
   */
  lemma MeanInFrameRange(s: seq<nat>, p: nat, n: int)
    requires n > 0 && HasFrames(s, p, n)
    ensures -0x80_0000 <= Mean(Readings(s, p, n)) < 0x80_0000
  {
    var xs := Readings(s, p, n);
    ReadingsInRange(s, p, n);
    MeanWithinRange(xs);
    assert -0x80_0000 <= Min(xs) && Max(xs) < 0x80_0000;
  }

  /**
   * The C quotient of the total of n frames by n: their mean when n is
   * positive, 0 when n is negative (no frame is read), and in either case
   * inside the `int32_t` range.
   */
  lemma QuotientOfTotal(s: seq<nat>, p: nat, n: int, total: int)
    requires n != 0 && HasFrames(s, p, n)
    requires total == Total(s, p, n)
    ensures n > 0 ==> TruncDiv(total, n) == Mean(Readings(s, p, n))
    ensures n < 0 ==> TruncDiv(total, n) == 0
    ensures -0x80_0000 <= TruncDiv(total, n) < 0x80_0000
  {
    TotalIsSum(s, p, n);
    if n > 0 {
      MeanInFrameRange(s, p, n);
    } else {
      TruncDivOfZero(n);
    }
  }

  /** The running total of the signed readings of the first n frames, added in order. */
  function Total(s: seq<nat>, p: nat, n: int): int
    requires HasFrames(s, p, n)
    decreases n
  {
    if n <= 0 then 0 else Total(s, p, n - 1) + SignedFrame(FrameCode(s, FramesEnd(s, p, n - 1)))
  }

  /** The running total is the sum of the readings. */
  lemma {:induction false} TotalIsSum(s: seq<nat>, p: nat, n: int)
    requires HasFrames(s, p, n)
    ensures Total(s, p, n) == Sum(Readings(s, p, n))
    decreases n
  {
    if n > 0 {
      TotalIsSum(s, p, n - 1);
      SumAppend(Readings(s, p, n - 1), SignedFrame(FrameCode(s, FramesEnd(s, p, n - 1))));
    }
  }

  /** n readings in the 24-bit signed range total between -2^23 * n and (2^23 - 1) * n. */
  lemma {:induction false} TotalBounds(s: seq<nat>, p: nat, n: int)
    requires HasFrames(s, p, n) && n >= 0
    ensures -0x80_0000 * n <= Total(s, p, n) <= 0x7F_FFFF * n
    decreases n
  {
    if n > 0 {
      TotalBounds(s, p, n - 1);
    }
  }

  /** Frame i+1 starts where frame i ends: reading it adds its signed value to the total and its activity to the bus. */
  lemma NextFrame(s: seq<nat>, p: nat, i: nat)
    requires HasFrames(s, p, i + 1)
    ensures HasFrames(s, p, i) && FrameReady(s, FramesEnd(s, p, i))
    ensures FramesEnd(s, p, i + 1) == FrameEnd(s, FramesEnd(s, p, i))
    ensures Total(s, p, i + 1) == Total(s, p, i) + SignedFrame(FrameCode(s, FramesEnd(s, p, i)))
    ensures FramesEvents(s, p, i + 1) == FramesEvents(s, p, i) + FrameEvents(s, FramesEnd(s, p, i))
  {
  }

  /** A count below 1 reads no frame: it is the same as a count of 0. */
  lemma NoFrames(s: seq<nat>, p: nat, n: int)
    ensures n <= 0 ==> HasFrames(s, p, n) && HasFrames(s, p, 0)
    ensures n <= 0 ==> FramesEnd(s, p, n) == FramesEnd(s, p, 0) == p
    ensures n <= 0 ==> Total(s, p, n) == Total(s, p, 0) == 0
    ensures n <= 0 ==> FramesEvents(s, p, n) == FramesEvents(s, p, 0) == []
  {
  }

  lemma {:induction false} HasFramesFewer(s: seq<nat>, p: nat, m: int, n: int)
    requires m <= n && HasFrames(s, p, n)
    ensures HasFrames(s, p, m)
    decreases n - m
  {
    if m < n {
      HasFramesFewer(s, p, m, n - 1);
    }
  }

  /**
   * When the sensor signals ready after some busy observations and then
   * shifts out a code most significant bit first, the frame read is that
   * code and the next read is the first one after it.
   */
  lemma ReadsTransmittedCode(pre: seq<nat>, busy: seq<nat>, code: nat, rest: seq<nat>)
    requires forall j :: 0 <= j < |busy| ==> busy[j] != 0
    requires code < 0x100_0000
    ensures FrameReady(pre + busy + [0] + ToBits(code, FRAME_BITS) + rest, |pre|)
    ensures FrameCode(pre + busy + [0] + ToBits(code, FRAME_BITS) + rest, |pre|) == code
    ensures FrameEnd(pre + busy + [0] + ToBits(code, FRAME_BITS) + rest, |pre|) == |pre| + |busy| + 1 + FRAME_BITS
  {
    var s := pre + busy + [0] + ToBits(code, FRAME_BITS) + rest;
    var k := |pre| + |busy|;
    assert s[k] == 0;
    forall j | |pre| <= j < k
      ensures s[j] != 0
    {
      assert s[j] == busy[j - |pre|];
    }
    ReadyFirstZero(s, |pre|, k);
    assert FrameLevels(s, |pre|) == ToBits(code, FRAME_BITS);
    AssembleAtIsAssemble(s, k + 1, FRAME_BITS);
    Pow2Constants();
    AssembleToBits(code, FRAME_BITS);
  }

  /** The wait ends at the same read when more DOUT reads are appended after it. */
  lemma ReadyAtExtend(s: seq<nat>, t: seq<nat>, p: nat)
    requires p <= |s| && ReadyAt(s, p) < |s|
    ensures ReadyAt(s + t, p) == ReadyAt(s, p)
  {
    var k := ReadyAt(s, p);
    forall j | p <= j < k
      ensures (s + t)[j] != 0
    {
      BusyBeforeReady(s, p, j);
    }
    ReadyFirstZero(s + t, p, k);
  }

  /** Reads already in the script assemble alike when more reads follow them. */
  lemma {:induction false} AssembleAtExtend(s: seq<nat>, t: seq<nat>, a: nat, n: nat)
    requires a + n <= |s|
    ensures AssembleAt(s + t, a, n) == AssembleAt(s, a, n)
  {
    if n > 0 {
      AssembleAtExtend(s, t, a, n - 1);
    }
  }

  /** A frame the script presents is still the same frame when more reads follow. */
  lemma FrameExtend(s: seq<nat>, t: seq<nat>, p: nat)
    requires FrameReady(s, p)
    ensures FrameReady(s + t, p)
    ensures FrameEnd(s + t, p) == FrameEnd(s, p)
    ensures FrameCode(s + t, p) == FrameCode(s, p)
  {
    ReadyAtExtend(s, t, p);
    AssembleAtExtend(s, t, ReadyAt(s, p) + 1, FRAME_BITS);
  }

  /** The first n frames of a script and their readings do not depend on what follows them. */
  lemma {:induction false} FramesExtend(s: seq<nat>, t: seq<nat>, p: nat, n: int)
    requires HasFrames(s, p, n)
    ensures HasFrames(s + t, p, n)
    ensures FramesEnd(s + t, p, n) == FramesEnd(s, p, n)
    ensures Readings(s + t, p, n) == Readings(s, p, n)
    decreases n
  {
    if n > 0 {
      FramesExtend(s, t, p, n - 1);
      FrameExtend(s, t, FramesEnd(s, p, n - 1));
    }
  }

  /**
   * What DOUT presents when the sensor transmits the values vs, each as
   * soon as it is asked: a 0 that signals ready, then the value's 24-bit
   * code, most significant bit first.
   */
  function Transmission(vs: seq<int>): (s: seq<nat>)
    ensures |s| == |vs| * (1 + FRAME_BITS)
  {
    if vs == [] then []
    else Transmission(vs[..|vs| - 1]) + [0] + ToBits(Encode24(vs[|vs| - 1]), FRAME_BITS)
  }

  /** A script that ends after n frames gains one more frame when a code is transmitted after it. */
  lemma AppendFrame(pre: seq<nat>, n: nat, code: nat)
    requires code < 0x100_0000
    requires HasFrames(pre, 0, n) && FramesEnd(pre, 0, n) == |pre|
    ensures HasFrames(pre + [0] + ToBits(code, FRAME_BITS), 0, n + 1)
    ensures FramesEnd(pre + [0] + ToBits(code, FRAME_BITS), 0, n + 1) == |pre| + 1 + FRAME_BITS
    ensures Readings(pre + [0] + ToBits(code, FRAME_BITS), 0, n + 1) == Readings(pre, 0, n) + [SignedFrame(code)]
  {
    var s := pre + [0] + ToBits(code, FRAME_BITS);
    assert pre + ([0] + ToBits(code, FRAME_BITS)) == s;
    FramesExtend(pre, [0] + ToBits(code, FRAME_BITS), 0, n);
    assert pre + [] + [0] + ToBits(code, FRAME_BITS) + [] == s;
    ReadsTransmittedCode(pre, [], code, []);
  }

  /**
   * Reading a transmission frame by frame gives back every transmitted
   * value in the 24-bit signed range, in order: the driver loses, adds and
   * reorders nothing.
   */
  lemma {:induction false} ReadingsOfTransmission(vs: seq<int>)
    requires forall i :: 0 <= i < |vs| ==> -0x80_0000 <= vs[i] < 0x80_0000
    ensures HasFrames(Transmission(vs), 0, |vs|)
    ensures FramesEnd(Transmission(vs), 0, |vs|) == |Transmission(vs)|
    ensures Readings(Transmission(vs), 0, |vs|) == vs
  {
    if vs != [] {
      var n := |vs| - 1;
      var init, last := vs[..n], vs[n];
      assert init + [last] == vs;
      ReadingsOfTransmission(init);
      AppendFrame(Transmission(init), n, Encode24(last));
      SignedFrameOfEncode(last);
    }
  }

  /**
   * Averaging n frames from a sensor that transmits the same value v each
   * time gives v back exactly.
   */
  lemma AverageOfSteadySignal(v: int, n: nat)
    requires -0x80_0000 <= v < 0x80_0000 && n > 0
    ensures HasFrames(Transmission(seq(n, _ => v)), 0, n)
    ensures Mean(Readings(Transmission(seq(n, _ => v)), 0, n)) == v
  {
    var vs := seq(n, _ => v);
    ReadingsOfTransmission(vs);
    MeanOfConstant(vs, v);
  }


  /** A run of reads cut in two. */
  lemma SliceSplit(s: seq<nat>, a: nat, b: nat, c: nat)
    requires a <= b <= c <= |s|
    ensures s[a..c] == s[a..b] + s[b..c]
    ensures b + 1 == c ==> s[b..c] == [s[b]]
  {
  }

  /** The reads of the wait for ready: DOUT read at positions a to b - 1, with no clock edge. */
  function Polls(s: seq<nat>, a: nat, b: nat): (events: seq<Event>)
    requires a <= b <= |s|
    ensures |events| == b - a
  {
    seq(b - a, j requires 0 <= j < b - a => Dout(s[a + j]))
  }

  lemma PollsStep(s: seq<nat>, a: nat, b: nat)
    requires a <= b < |s|
    ensures Polls(s, a, b + 1) == Polls(s, a, b) + [Dout(s[b])]
  {
    assert forall j :: 0 <= j < b - a ==> Polls(s, a, b + 1)[j] == Polls(s, a, b)[j];
  }

  /** The wait writes no clock level and samples exactly the reads it consumes. */
  lemma {:induction false} PollsActivity(s: seq<nat>, a: nat, b: nat)
    requires a <= b <= |s|
    ensures Clocks(Polls(s, a, b)) == []
    ensures Samples(Polls(s, a, b)) == s[a..b]
    decreases b - a
  {
    if a < b {
      PollsStep(s, a, b - 1);
      PollsActivity(s, a, b - 1);
      ClocksAppend(Polls(s, a, b - 1), [Dout(s[b - 1])]);
      SamplesAppend(Polls(s, a, b - 1), [Dout(s[b - 1])]);
      SliceSplit(s, a, b - 1, b);
    }
  }

  /**
   * The bus activity of the data loop for n bits read from position a:
   * for each bit, SCK driven high, then the read of DOUT, then SCK driven
   * low, so every bit is sampled while SCK is high.
   */
  function BitClocks(s: seq<nat>, a: nat, n: nat): (events: seq<Event>)
    requires a + n <= |s|
    ensures |events| == 3 * n
  {
    if n == 0 then [] else BitClocks(s, a, n - 1) + [Sck(true), Dout(s[a + n - 1]), Sck(false)]
  }

  /** Each bit's three events stand at positions 3i to 3i+2, with the read of position a+i in the middle. */
  lemma {:induction false} BitClocksAt(s: seq<nat>, a: nat, n: nat, i: nat)
    requires a + n <= |s| && i < n
    ensures BitClocks(s, a, n)[3 * i] == Sck(true)
    ensures BitClocks(s, a, n)[3 * i + 1] == Dout(s[a + i])
    ensures BitClocks(s, a, n)[3 * i + 2] == Sck(false)
  {
    if i < n - 1 {
      BitClocksAt(s, a, n - 1, i);
    }
  }

  /** The data loop for n bits gives exactly n pulses. */
  lemma {:induction false} BitClocksPulses(s: seq<nat>, a: nat, n: nat)
    requires a + n <= |s|
    ensures Clocks(BitClocks(s, a, n)) == Pulses(n)
  {
    if n > 0 {
      var prev, bit := BitClocks(s, a, n - 1), [Sck(true), Dout(s[a + n - 1]), Sck(false)];
      BitClocksPulses(s, a, n - 1);
      ClocksAppend(prev, bit);
      BitActivity(s[a + n - 1]);
      PulsesStep(n - 1);
    }
  }

  /** The data loop for n bits samples the n reads from position a, in order. */
  lemma {:induction false} BitClocksSamples(s: seq<nat>, a: nat, n: nat)
    requires a + n <= |s|
    ensures Samples(BitClocks(s, a, n)) == s[a..a + n]
  {
    if n > 0 {
      var prev, bit := BitClocks(s, a, n - 1), [Sck(true), Dout(s[a + n - 1]), Sck(false)];
      BitClocksSamples(s, a, n - 1);
      SamplesAppend(prev, bit);
      BitActivity(s[a + n - 1]);
      SliceSplit(s, a, a + n - 1, a + n);
    }
  }

  /**
   * The bus activity of one frame read from position p: the polls up to
   * and including the ready read, the 24 data bits, then the pulse that
   * selects channel A at gain 128.
   */
  function FrameEvents(s: seq<nat>, p: nat): seq<Event>
    requires FrameReady(s, p)
  {
    var k := ReadyAt(s, p);
    Polls(s, p, k + 1) + BitClocks(s, k + 1, FRAME_BITS) + [Sck(true), Sck(false)]
  }

  /**
   * A frame read writes exactly 25 pulses (SCK high 25 times, and low at
   * the end) and samples exactly the reads from p to the end of the
   * frame, none skipped and none twice.
   */
  lemma FrameActivity(s: seq<nat>, p: nat)
    requires FrameReady(s, p)
    ensures Clocks(FrameEvents(s, p)) == Pulses(25)
    ensures HighCount(Clocks(FrameEvents(s, p))) == 25 && !Clocks(FrameEvents(s, p))[49]
    ensures Samples(FrameEvents(s, p)) == s[p..FrameEnd(s, p)]
  {
    PartsPulses(s, p, ReadyAt(s, p));
    FrameSamples(s, p);
    PulsesCount(25);
  }

  /** The sample half of FrameActivity. */
  lemma FrameSamples(s: seq<nat>, p: nat)
    requires FrameReady(s, p)
    ensures Samples(FrameEvents(s, p)) == s[p..FrameEnd(s, p)]
  {
    PartsSamples(s, p, ReadyAt(s, p));
  }

  /** The clock half of FrameActivity, for the frame whose ready read is at position k. */
  lemma PartsPulses(s: seq<nat>, p: nat, k: nat)
    requires p <= k && k + 1 + FRAME_BITS <= |s|
    ensures Clocks(Polls(s, p, k + 1) + BitClocks(s, k + 1, FRAME_BITS) + [Sck(true), Sck(false)]) == Pulses(25)
  {
    var polls, bits, gain := Polls(s, p, k + 1), BitClocks(s, k + 1, FRAME_BITS), [Sck(true), Sck(false)];
    PollsActivity(s, p, k + 1);
    BitClocksPulses(s, k + 1, FRAME_BITS);
    ClocksAppend(polls, bits);
    ClocksAppend(polls + bits, gain);
    PulseActivity();
    PulsesStep(0);
    PulsesAdd(24, 1);
  }

  /** The sample half of FrameActivity, for the frame whose ready read is at position k. */
  lemma PartsSamples(s: seq<nat>, p: nat, k: nat)
    requires p <= k && k + 1 + FRAME_BITS <= |s|
    ensures Samples(Polls(s, p, k + 1) + BitClocks(s, k + 1, FRAME_BITS) + [Sck(true), Sck(false)]) == s[p..k + 1 + FRAME_BITS]
  {
    var polls, bits, gain := Polls(s, p, k + 1), BitClocks(s, k + 1, FRAME_BITS), [Sck(true), Sck(false)];
    PollsActivity(s, p, k + 1);
    BitClocksSamples(s, k + 1, FRAME_BITS);
    SamplesAppend(polls, bits);
    SamplesAppend(polls + bits, gain);
    PulseActivity();
    SliceSplit(s, p, k + 1, k + 1 + FRAME_BITS);
  }

  /** The bus activity of n frames read one after another from position p. */
  function FramesEvents(s: seq<nat>, p: nat, n: int): seq<Event>
    requires HasFrames(s, p, n)
    decreases n
  {
    if n <= 0 then [] else FramesEvents(s, p, n - 1) + FrameEvents(s, FramesEnd(s, p, n - 1))
  }

  /** Reading n frames writes exactly 25 * n pulses. */
  lemma {:induction false} FramesPulses(s: seq<nat>, p: nat, n: int)
    requires HasFrames(s, p, n) && 0 <= n
    ensures Clocks(FramesEvents(s, p, n)) == Pulses(25 * n)
    decreases n
  {
    if n > 0 {
      var e := FramesEnd(s, p, n - 1);
      var prev, frame := FramesEvents(s, p, n - 1), FrameEvents(s, e);
      FramesPulses(s, p, n - 1);
      PartsPulses(s, e, ReadyAt(s, e));
      ClocksAppend(prev, frame);
      PulsesAdd(25 * (n - 1), 25);
      assert Clocks(FramesEvents(s, p, n)) == Clocks(prev + frame) == Pulses(25 * (n - 1)) + Pulses(25);
    } else {
      assert Pulses(0) == [];
    }
  }

  /** Activity sampling the reads from p to e, then activity sampling those from e to f, samples those from p to f. */
  lemma SamplesJoin(s: seq<nat>, a: seq<Event>, b: seq<Event>, p: nat, e: nat, f: nat)
    requires p <= e <= f <= |s|
    requires Samples(a) == s[p..e] && Samples(b) == s[e..f]
    ensures Samples(a + b) == s[p..f]
  {
    SamplesAppend(a, b);
    SliceSplit(s, p, e, f);
  }

  /** Reading n frames samples exactly the reads from p to the end of the last frame, in order. */
  lemma {:induction false} FramesSamples(s: seq<nat>, p: nat, n: int)
    requires HasFrames(s, p, n) && 0 <= n && p <= |s|
    ensures Samples(FramesEvents(s, p, n)) == s[p..FramesEnd(s, p, n)]
    decreases n
  {
    if n > 0 {
      var e := FramesEnd(s, p, n - 1);
      FramesSamples(s, p, n - 1);
      FrameSamples(s, e);
      SamplesJoin(s, FramesEvents(s, p, n - 1), FrameEvents(s, e), p, e, FrameEnd(s, e));
    } else {
      assert FramesEvents(s, p, n) == [] && s[p..FramesEnd(s, p, n)] == [];
    }
  }

  /** `hx711_init`: SCK becomes an output driven low, DOUT an input. */
  method Init(g: Lines)
    modifies g`sckIsOutput, g`doutIsInput, g`sck, g`bus
    ensures g.sckIsOutput && g.doutIsInput && !g.sck
    ensures g.bus == old(g.bus) + [Sck(false)]
  {
    g.SetSckOutput();
    g.PutSck(false);
    g.SetDoutInput();
  }

  /** `hx711_reset`: one high pulse on SCK, which ends low. */
  method Reset(g: Lines)
    modifies g`sck, g`bus
    ensures !g.sck
    ensures g.bus == old(g.bus) + [Sck(true), Sck(false)]
  {
    g.PutSck(true);
    g.PutSck(false);
  }

  /** `hx711_is_ready`: one read of DOUT; a conversion is ready when it reads 0. */
  method IsReady(g: Lines) returns (ready: bool)
    requires g.doutReads < |g.dout|
    modifies g`doutReads, g`bus
    ensures ready <==> g.dout[old(g.doutReads)] == 0
    ensures g.doutReads == old(g.doutReads) + 1
    ensures g.bus == old(g.bus) + [Dout(g.dout[old(g.doutReads)])]
  {
    var v := g.GetDout();
    ready := v == 0;
  }

  /**
   * The wait at the head of `hx711_read_raw24`: reads DOUT, without a
   * clock edge, until a read returns 0, so the next read is the first data bit.
   */
  method WaitReady(g: Lines)
    requires g.doutReads <= |g.dout| && ReadyAt(g.dout, g.doutReads) < |g.dout|
    modifies g`doutReads, g`bus
    ensures g.doutReads == ReadyAt(g.dout, old(g.doutReads)) + 1
    ensures g.bus == old(g.bus) + Polls(g.dout, old(g.doutReads), g.doutReads)
  {
    ghost var start := g.doutReads;
    ghost var k := ReadyAt(g.dout, start);
    if start < k {
      BusyBeforeReady(g.dout, start, start);
    }
    PollsStep(g.dout, start, start);
    var ready := IsReady(g);
    while !ready
      invariant start < g.doutReads <= k + 1
      invariant ready <==> g.doutReads == k + 1
      invariant g.bus == old(g.bus) + Polls(g.dout, start, g.doutReads)
      decreases k + 1 - g.doutReads
    {
      if g.doutReads < k {
        BusyBeforeReady(g.dout, start, g.doutReads);
      }
      PollsStep(g.dout, start, g.doutReads);
      ready := IsReady(g);
    }
  }

  /**
   * The data loop of `hx711_read_raw24`: 24 clock pulses, each with a read
   * of DOUT while SCK is high whose low bit is shifted into `data`, most
   * significant bit first.
   */
  method ShiftIn24(g: Lines) returns (data: u32)
    requires g.doutReads + 24 <= |g.dout|
    modifies g`doutReads, g`sck, g`bus
    ensures data == AssembleAt(g.dout, old(g.doutReads), 24)
    ensures g.doutReads == old(g.doutReads) + 24
    ensures g.bus == old(g.bus) + BitClocks(g.dout, old(g.doutReads), 24)
    ensures !g.sck
  {
    ghost var start := g.doutReads;
    data := 0;
    for i := 0 to 24
      invariant g.doutReads == start + i
      invariant data == AssembleAt(g.dout, start, i)
      invariant g.bus == old(g.bus) + BitClocks(g.dout, start, i)
      invariant i > 0 ==> !g.sck
    {
      g.PutSck(true);
      var v := g.GetDout();
      Pow2UpTo23(i);
      ShiftInStep(data, v);
      data := BitOr(Shl1(data), BitAnd(v, 1));
      g.PutSck(false);
    }
  }

  /**
   * `hx711_read_raw24`: waits until DOUT reads 0, clocks in 24 bits most
   * significant first, gives one more pulse to select channel A at gain
   * 128, and returns the frame sign-extended from bit 23 as a 32-bit word.
   */
  method ReadRaw24(g: Lines) returns (word: u32)
    requires FrameReady(g.dout, g.doutReads)
    modifies g`doutReads, g`sck, g`bus
    ensures ToInt32(word) == SignedFrame(FrameCode(g.dout, old(g.doutReads)))
    ensures g.doutReads == FrameEnd(g.dout, old(g.doutReads))
    ensures g.bus == old(g.bus) + FrameEvents(g.dout, old(g.doutReads))
    ensures !g.sck
  {
    ghost var start, code := g.doutReads, FrameCode(g.dout, old(g.doutReads));
    WaitReady(g);
    var data := ShiftIn24(g);
    assert data == code;

    // The extra pulse that selects channel A, gain 128, for the next conversion.
    g.PutSck(true);
    g.PutSck(false);
    assert g.bus == old(g.bus) + FrameEvents(g.dout, start);

    ExtendByMask(data);
    if BitAnd(data, SIGN_MASK) != 0 {
      data := BitOr(data, EXTEND_MASK);
    }
    assert ToInt32(data) == SignedFrame(code);
    word := ToUint32(ToInt32(data));
  }

  /**
   * The loop of `hx711_read_average_raw`: reads `samples` frames and adds
   * their signed values into an `int64_t` total, which cannot overflow. A
   * count below 1 leaves the lines as they were.
   */
  method SumFrames(g: Lines, samples: i32) returns (sum: i64)
    requires HasFrames(g.dout, g.doutReads, samples)
    modifies g`doutReads, g`sck, g`bus
    ensures sum == Total(g.dout, old(g.doutReads), samples)
    ensures g.doutReads == FramesEnd(g.dout, old(g.doutReads), samples)
    ensures g.bus == old(g.bus) + FramesEvents(g.dout, old(g.doutReads), samples)
    ensures samples > 0 ==> !g.sck
    ensures samples <= 0 ==> g.sck == old(g.sck)
  {
    ghost var start := g.doutReads;
    sum := 0;
    var i: i32 := 0;
    while i < samples
      invariant 0 <= i <= (if samples > 0 then samples else 0)
      invariant HasFrames(g.dout, start, i)
      invariant g.doutReads == FramesEnd(g.dout, start, i)
      invariant sum == Total(g.dout, start, i)
      invariant g.bus == old(g.bus) + FramesEvents(g.dout, start, i)
      invariant i > 0 ==> !g.sck
      invariant i == 0 ==> g.sck == old(g.sck)
    {
      HasFramesFewer(g.dout, start, i + 1, samples);
      sum := AddFrame(g, start, i as nat, old(g.bus), sum);
      i := i + 1;
    }
    NoFrames(g.dout, start, samples);
  }

  /**
   * One turn of the loop of `hx711_read_average_raw`: frame i is read, its
   * signed value is added to the total, and its activity to the bus.
   */
  method AddFrame(g: Lines, ghost start: nat, ghost i: nat, ghost bus0: seq<Event>, sum: i64) returns (total: i64)
    requires i < 0x8000_0000 && HasFrames(g.dout, start, i + 1)
    requires g.doutReads == FramesEnd(g.dout, start, i) && sum == Total(g.dout, start, i)
    requires g.bus == bus0 + FramesEvents(g.dout, start, i)
    modifies g`doutReads, g`sck, g`bus
    ensures total == Total(g.dout, start, i + 1)
    ensures g.doutReads == FramesEnd(g.dout, start, i + 1)
    ensures g.bus == bus0 + FramesEvents(g.dout, start, i + 1)
    ensures !g.sck
  {
    NextFrame(g.dout, start, i);
    TotalBounds(g.dout, start, i + 1);
    var word := ReadRaw24(g);
    total := sum + ToInt32(word);
  }

  /**
   * `hx711_read_average_raw`: the total of `samples` frames divided, C
   * style, by `samples`: the mean of the readings. A negative count reads
   * nothing, leaves the lines as they were and returns 0; a zero count
   * would divide by zero.
   */
  method ReadAverageRaw(g: Lines, samples: i32) returns (avg: i32)
    requires samples != 0
    requires HasFrames(g.dout, g.doutReads, samples)
    modifies g`doutReads, g`sck, g`bus
    ensures samples > 0 ==> avg == Mean(Readings(g.dout, old(g.doutReads), samples))
    ensures samples < 0 ==> avg == 0
    ensures g.doutReads == FramesEnd(g.dout, old(g.doutReads), samples)
    ensures g.bus == old(g.bus) + FramesEvents(g.dout, old(g.doutReads), samples)
    ensures samples > 0 ==> !g.sck
    ensures samples < 0 ==> g.sck == old(g.sck)
  {
    ghost var start := g.doutReads;
    var sum := SumFrames(g, samples);
    QuotientOfTotal(g.dout, start, samples as int, sum);
    var q: i64 := TruncDiv(sum, samples as int);
    NarrowingKeepsInRange(q);
    avg := Int64ToInt32(q);
  }
}
