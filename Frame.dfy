/**
 * One HX711 conversion as the driver receives it: 24 DOUT samples, most
 * significant bit first, shifted into a `uint32_t`, then sign-extended from
 * bit 23 and reinterpreted as `int32_t`.
 */
module Frame {
  import opened CInt

  /** Data bits per conversion. */
  const FRAME_BITS: nat := 24
  /** `0x800000u`: bit 23, the sign of the 24-bit two's-complement code. */
  const SIGN_MASK: nat := 0x80_0000
  /** `0xFF000000u`: bits 24 to 31, filled when the code is negative. */
  const EXTEND_MASK: nat := 0xFF00_0000

  /**
   * The value the shift-and-or loop builds from the DOUT levels, oldest
   * first: each step doubles what was built and appends the low bit of the
   * next read.
   */
  function Assemble(levels: seq<nat>): (data: nat)
    ensures data < Pow2(|levels|)
  {
    if levels == [] then 0
    else 2 * Assemble(levels[..|levels| - 1]) + levels[|levels| - 1] % 2
  }

  /** Reference reading of a frame: the bit of read i weighs 2^(n-1-i). */
  function WeightedSum(levels: seq<nat>): nat
  {
    if levels == [] then 0
    else (levels[0] % 2) * Pow2(|levels| - 1) + WeightedSum(levels[1..])
  }

  lemma {:induction false} WeightedSumAppend(levels: seq<nat>, v: nat)
    ensures WeightedSum(levels + [v]) == 2 * WeightedSum(levels) + v % 2
  {
    if levels != [] {
      var s := levels + [v];
      assert s[1..] == levels[1..] + [v];
      WeightedSumAppend(levels[1..], v);
      assert Pow2(|s| - 1) == 2 * Pow2(|levels| - 1);
      assert (levels[0] % 2) * Pow2(|s| - 1) == 2 * ((levels[0] % 2) * Pow2(|levels| - 1));
    }
  }

  /** Shifting in MSB first gives the sum of bit_i * 2^(n-1-i) over the levels. */
  lemma {:induction false} AssembleIsWeightedSum(levels: seq<nat>)
    ensures Assemble(levels) == WeightedSum(levels)
  {
    if levels != [] {
      var n := |levels| - 1;
      AssembleIsWeightedSum(levels[..n]);
      WeightedSumAppend(levels[..n], levels[n]);
      assert levels[..n] + [levels[n]] == levels;
    }
  }

  /**
   * One step of the loop in C terms, `(data << 1) | (v & 0x1)`: while data
   * is below 2^23 nothing is shifted out, and only the low bit of the read
   * enters.
   */
  lemma ShiftInStep(data: u32, v: nat)
    requires data < 0x80_0000
    ensures BitAnd(v, 1) < 2
    ensures BitOr(Shl1(data), BitAnd(v, 1)) == 2 * data + v % 2
  {
    AndOne(v);
    OrLowBit(data, v % 2);
  }

  /** The low bit of every read: the 0/1 levels the loop actually uses. */
  function LowBits(levels: seq<nat>): (bits: seq<nat>)
    ensures |bits| == |levels|
    ensures forall i :: 0 <= i < |levels| ==> bits[i] == levels[i] % 2
  {
    seq(|levels|, i requires 0 <= i < |levels| => levels[i] % 2)
  }

  /** Only the low bit of each read matters: reads with equal low bits assemble alike. */
  lemma {:induction false} AssembleLowBits(levels: seq<nat>)
    ensures Assemble(LowBits(levels)) == Assemble(levels)
  {
    if levels != [] {
      var n := |levels| - 1;
      assert LowBits(levels)[..n] == LowBits(levels[..n]);
      AssembleLowBits(levels[..n]);
    }
  }

  /** The n DOUT levels the converter shifts out for a code, most significant first. */
  function ToBits(code: nat, n: nat): (bits: seq<nat>)
    ensures |bits| == n
  {
    if n == 0 then [] else ToBits(code / 2, n - 1) + [code % 2]
  }

  /** Reading back what the converter shifts out for a code gives that code. */
  lemma {:induction false} AssembleToBits(code: nat, n: nat)
    requires code < Pow2(n)
    ensures Assemble(ToBits(code, n)) == code
  {
    if n > 0 {
      var bits := ToBits(code, n);
      assert bits[..n - 1] == ToBits(code / 2, n - 1);
      AssembleToBits(code / 2, n - 1);
    }
  }

  /** The assembled value determines every sampled bit: no read is lost or reordered. */
  lemma {:induction false} ToBitsAssemble(levels: seq<nat>)
    ensures ToBits(Assemble(levels), |levels|) == LowBits(levels)
  {
    if levels != [] {
      var n := |levels| - 1;
      var data := Assemble(levels);
      assert data / 2 == Assemble(levels[..n]) && data % 2 == levels[n] % 2;
      ToBitsAssemble(levels[..n]);
      assert LowBits(levels) == LowBits(levels[..n]) + [levels[n] % 2];
    }
  }

  /**
   * `if (data & 0x800000u) data |= 0xFF000000u;` on a 24-bit frame: the low
   * 24 bits are kept and bits 24 to 31 become copies of bit 23.
   */
  function Extend(frame: nat): u32
    requires frame < 0x100_0000
  {
    Pow2Constants();
    AndSingleBit(frame, 23);
    if BitAnd(frame, SIGN_MASK) != 0 then
      OrDisjoint(frame, 0xFF, 24);
      BitOr(frame, EXTEND_MASK)
    else
      frame
  }

  /** The extension keeps bits 0 to 23 and makes bits 24 to 31 copies of bit 23. */
  lemma ExtendCopiesSignBit(frame: nat)
    requires frame < 0x100_0000
    ensures Extend(frame) % 0x100_0000 == frame
    ensures Extend(frame) / 0x100_0000 == if frame >= 0x80_0000 then 0xFF else 0
  {
    Pow2Constants();
    AndSingleBit(frame, 23);
    if frame >= 0x80_0000 {
      OrDisjoint(frame, 0xFF, 24);
    }
  }

  /**
   * The two masks of the extension in closed form: on a 24-bit frame,
   * `frame & 0x800000u` is nonzero exactly when the frame reaches 2^23, and
   * OR-ing `0xFF000000u` into it adds 0xFF * 2^24.
   */
  lemma ExtendByMask(frame: nat)
    requires frame < 0x100_0000
    ensures BitAnd(frame, SIGN_MASK) != 0 <==> frame >= 0x80_0000
    ensures BitOr(frame, EXTEND_MASK) == frame + 0xFF00_0000
  {
    Pow2Constants();
    AndSingleBit(frame, 23);
    OrDisjoint(frame, 0xFF, 24);
  }

  /**
   * The signed reading of a 24-bit frame: its two's-complement value, the
   * code itself when bit 23 is clear and the code minus 2^24 when it is set.
   */
  function SignedFrame(frame: nat): (x: i32)
    requires frame < 0x100_0000
    ensures -0x80_0000 <= x < 0x80_0000
  {
    if frame >= 0x80_0000 then frame - 0x100_0000 else frame
  }

  /**
   * What the driver computes, the masked extension reinterpreted with
   * `(int32_t)`, is the signed reading of the frame.
   */
  lemma ExtensionIsSignedFrame(frame: nat)
    requires frame < 0x100_0000
    ensures ToInt32(Extend(frame)) == SignedFrame(frame)
  {
    ExtendCopiesSignBit(frame);
  }

  /** The 24-bit two's-complement code of a value, as the converter transmits it. */
  function Encode24(v: int): (frame: nat)
    ensures frame < 0x100_0000
  {
    v % 0x100_0000
  }

  /** Every value of the 24-bit signed range survives encoding and decoding. */
  lemma SignedFrameOfEncode(v: int)
    requires -0x80_0000 <= v < 0x80_0000
    ensures SignedFrame(Encode24(v)) == v
  {
  }

  /** Every frame survives decoding and re-encoding. */
  lemma EncodeOfSignedFrame(frame: nat)
    requires frame < 0x100_0000
    ensures Encode24(SignedFrame(frame)) == frame
  {
  }

  /** The extreme and the all-ones codes. */
  lemma SignedFrameExamples()
    ensures SignedFrame(0x80_0000) == -8388608
    ensures SignedFrame(0x7F_FFFF) == 8388607
    ensures SignedFrame(0xFF_FFFF) == -1
    ensures SignedFrame(0) == 0
  {
  }
}
