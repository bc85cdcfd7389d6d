/**
 * The intensity reducer: channelAverage, normalise, denormalise and
 * prepareImage (botox/botox.cpp, botox/botox.h).
 *
 * Raw images are byte buffers holding `channels` bytes per pixel; the
 * reducer folds those bytes into one `u_char` per pixel and maps it to a
 * real sample in [0, 1]. Floating point samples are modelled as `real`.
 */
module Reduction {
  import opened Pixels

  /** An unsigned 8-bit sample (`u_char`). */
  type byte = b: int | 0 <= b < 256

  /** std::numeric_limits<u_char>::lowest() and ::max(). */
  const U_CHAR_LOWEST: int := 0
  const U_CHAR_MAX: int := 255

  /** The sample written into carved cells when no other value is given. */
  const DEFAULT_MASK_VALUE: real := -1.0

  /**
   * C++ `/` on `int`: the quotient is truncated toward zero, so the
   * remainder is smaller than the divisor and takes the dividend's sign.
   */
  function TruncDiv(a: int, b: int): (q: int)
    requires b > 0
    ensures 0 <= a ==> 0 <= q <= a
    ensures a <= 0 ==> a <= q <= 0
    ensures 0 <= a ==> 0 <= a - q * b < b
    ensures a <= 0 ==> -b < a - q * b <= 0
  {
    if a >= 0 then QuotientBound(a, b); a / b
    else QuotientBound(-a, b); -((-a) / b)
  }

  lemma QuotientBound(a: int, b: int)
    requires 0 <= a && 0 < b
    ensures 0 <= a / b <= a
  {
    MulMonotone(1, b, a / b);
  }

  /** The implicit conversion of an `int` back to `u_char`: reduction modulo 256. */
  function ToByte(v: int): byte {
    v % 256
  }

  /**
   * One iteration of channelAverage's loop,
   * `average += (sample - average) / (channels + 1)`: both operands are
   * promoted to `int`, divided with truncation, and the sum is narrowed back
   * to `u_char`.
   */
  function Step(average: byte, sample: byte, channels: nat): byte {
    ToByte(average + TruncDiv(sample - average, channels + 1))
  }

  /**
   * The narrowing in Step never wraps: the new value moves from `average`
   * toward `sample` without passing it.
   */
  lemma StepNeverWraps(average: byte, sample: byte, channels: nat)
    ensures Step(average, sample, channels) == average + TruncDiv(sample - average, channels + 1)
    ensures average <= sample ==> average <= Step(average, sample, channels) <= sample
    ensures sample <= average ==> sample <= Step(average, sample, channels) <= average
  {
    var q := TruncDiv(sample - average, channels + 1);
    assert 0 <= average + q < 256;
  }

  /** The `channels` bytes of pixel number `frame` lie inside `input`. */
  predicate FrameInBuffer(input: seq<byte>, frame: int, channels: nat) {
    0 <= frame && (frame + 1) * channels <= |input|
  }

  /** The bytes of an in-buffer frame start at frame * channels, a valid offset. */
  lemma FrameBytes(input: seq<byte>, frame: int, channels: nat)
    requires FrameInBuffer(input, frame, channels)
    ensures 0 <= frame * channels && frame * channels + channels <= |input|
  {
    MulMonotone(0, frame, channels);
  }

  /** The running value of channelAverage after its first `k` iterations. */
  function AverageAfter(input: seq<byte>, frame: int, channels: nat, k: nat): byte
    requires FrameInBuffer(input, frame, channels) && k <= channels
  {
    FrameBytes(input, frame, channels);
    if k == 0 then 0
    else Step(AverageAfter(input, frame, channels, k - 1), input[frame * channels + k - 1], channels)
  }

  /** channelAverage(input, frame, channels): the value after all channels. */
  function PixelAverage(input: seq<byte>, frame: int, channels: nat): byte
    requires FrameInBuffer(input, frame, channels)
  {
    AverageAfter(input, frame, channels, channels)
  }

  /** The largest of the first `k` channel bytes of pixel `frame` (0 when k == 0). */
  function MaxSample(input: seq<byte>, frame: int, channels: nat, k: nat): byte
    requires FrameInBuffer(input, frame, channels) && k <= channels
  {
    FrameBytes(input, frame, channels);
    if k == 0 then 0
    else
      var m := MaxSample(input, frame, channels, k - 1);
      var s := input[frame * channels + k - 1];
      if s < m then m else s
  }

  /** The running average never exceeds the largest channel byte read so far. */
  lemma {:induction false} AverageAtMostMaxSample(input: seq<byte>, frame: int, channels: nat, k: nat)
    requires FrameInBuffer(input, frame, channels) && k <= channels
    ensures AverageAfter(input, frame, channels, k) <= MaxSample(input, frame, channels, k)
  {
    FrameBytes(input, frame, channels);
    if k > 0 {
      AverageAtMostMaxSample(input, frame, channels, k - 1);
      StepNeverWraps(AverageAfter(input, frame, channels, k - 1), input[frame * channels + k - 1], channels);
    }
  }

  /**
   * channelAverage reads only bytes frame*channels .. frame*channels+channels-1:
   * two buffers that agree there give the same average.
   */
  lemma {:induction false} AverageReadsOnlyItsFrame(a: seq<byte>, b: seq<byte>, frame: int, channels: nat, k: nat)
    requires FrameInBuffer(a, frame, channels) && FrameInBuffer(b, frame, channels) && k <= channels
    requires a[frame * channels .. frame * channels + channels] == b[frame * channels .. frame * channels + channels]
    ensures AverageAfter(a, frame, channels, k) == AverageAfter(b, frame, channels, k)
  {
    FrameBytes(a, frame, channels);
    FrameBytes(b, frame, channels);
    if k > 0 {
      AverageReadsOnlyItsFrame(a, b, frame, channels, k - 1);
      assert a[frame * channels + k - 1] == a[frame * channels .. frame * channels + channels][k - 1];
    }
  }

  /**
   * The reduction is not the arithmetic mean: each step divides by
   * channels + 1 rather than by the number of samples seen, so a white
   * three-channel pixel reduces to 147 and a one-channel pixel to half its value.
   */
  lemma AverageIsNotTheMean(s: byte)
    ensures PixelAverage([255, 255, 255], 0, 3) == 147
    ensures PixelAverage([s], 0, 1) == s / 2
  {
    assert AverageAfter([255, 255, 255], 0, 3, 1) == 63;
    assert AverageAfter([255, 255, 255], 0, 3, 2) == 111;
    assert TruncDiv(s - 0, 2) == s / 2;
    assert AverageAfter([s], 0, 1, 1) == Step(0, s, 1);
  }

  /** channelAverage(input, frame, channels) over a read-only byte array. */
  method ChannelAverage(input: array<byte>, frame: int, channels: nat) returns (average: byte)
    requires FrameInBuffer(input[..], frame, channels)
    ensures average == PixelAverage(input[..], frame, channels)
    ensures average <= MaxSample(input[..], frame, channels, channels)
  {
    FrameBytes(input[..], frame, channels);
    average := 0;
    var i := 0;
    while i < channels
      invariant 0 <= i <= channels
      invariant average == AverageAfter(input[..], frame, channels, i)
    {
      average := ToByte(average + TruncDiv(input[i + frame * channels] - average, channels + 1));
      i := i + 1;
    }
    AverageAtMostMaxSample(input[..], frame, channels, channels);
  }

  /** normalise: maps the u_char range linearly onto [0, 1]. */
  function Normalise(v: real): (r: real)
    ensures U_CHAR_LOWEST as real <= v <= U_CHAR_MAX as real ==> 0.0 <= r <= 1.0
  {
    (v - U_CHAR_LOWEST as real) / ((U_CHAR_MAX - U_CHAR_LOWEST) as real)
  }

  /** The per-cell map of denormalise: scale by the u_char maximum, without clamping. */
  function Denormalised(v: real): real {
    U_CHAR_MAX as real * v
  }

  /** denormalise undoes normalise, and normalise undoes denormalise. */
  lemma NormaliseRoundTrip(v: real)
    ensures Denormalised(Normalise(v)) == v
    ensures Normalise(Denormalised(v)) == v
  {
  }

  /**
   * Every normalised byte lies in [0, 1], so the default sentinel -1 can
   * never be mistaken for a reduced sample.
   */
  lemma SentinelIsNotASample(b: byte)
    ensures 0.0 <= Normalise(b as real) <= 1.0
    ensures Normalise(b as real) != DEFAULT_MASK_VALUE
  {
  }

  /** Every pixel of an image of `n` pixels has its bytes inside `input`. */
  lemma AllFramesInBuffer(input: seq<byte>, n: int, channels: nat)
    requires n * channels <= |input|
    ensures forall i :: 0 <= i < n ==> FrameInBuffer(input, i, channels)
  {
    forall i | 0 <= i < n
      ensures FrameInBuffer(input, i, channels)
    {
      MulMonotone(i + 1, n, channels);
    }
  }

  /**
   * The reduced image: channelAverage of each of the first `n` pixels,
   * one byte per pixel in the pixel order of `input`.
   */
  function Reduce(input: seq<byte>, channels: nat, n: nat): (reduced: seq<byte>)
    requires n * channels <= |input|
    ensures |reduced| == n
  {
    if n == 0 then []
    else
      MulMonotone(n - 1, n, channels);
      AllFramesInBuffer(input, n, channels);
      Reduce(input, channels, n - 1) + [PixelAverage(input, n - 1, channels)]
  }

  /** Cell `f` of the reduced image is the channel average of pixel `f`. */
  lemma {:induction false} ReducedAt(input: seq<byte>, channels: nat, n: nat, f: int)
    requires n * channels <= |input| && 0 <= f < n
    ensures FrameInBuffer(input, f, channels)
    ensures Reduce(input, channels, n)[f] == PixelAverage(input, f, channels)
  {
    AllFramesInBuffer(input, n, channels);
    if f < n - 1 {
      MulMonotone(n - 1, n, channels);
      ReducedAt(input, channels, n - 1, f);
    }
  }

  /**
   * What prepareImage leaves in `out`: the carved cells (those addressed
   * by a mask pixel) hold `holeValue`, every other cell the normalised
   * channel average of its pixel.
   */
  predicate Prepared(out: seq<real>, reduced: seq<byte>, width: int, mask: seq<Pixel>, holeValue: real)
    requires |out| == |reduced|
  {
    forall i :: 0 <= i < |out| ==>
      out[i] == if Covers(mask, width, i) then holeValue else Normalise(reduced[i] as real)
  }

  /**
   * prepareImage(input, width, channels, mask, output, holeValue): grey-scale
   * and normalise every cell of `output`, then carve the mask pixels. The
   * source names the stride parameter `height`; its caller passes the
   * column count, so it is the row width here. As in the header, the
   * hole value defaults to DEFAULT_MASK_VALUE.
   */
  method PrepareImage(input: array<byte>, width: int, channels: nat, mask: seq<Pixel>,
                      output: array<real>, holeValue: real := DEFAULT_MASK_VALUE)
    requires output.Length * channels <= input.Length
    requires Addressable(mask, width, output.Length)
    modifies output
    ensures Prepared(output[..], Reduce(input[..], channels, output.Length), width, mask, holeValue)
  {
    ghost var reduced := Reduce(input[..], channels, output.Length);
    AllFramesInBuffer(input[..], output.Length, channels);
    var i := 0;
    while i < output.Length
      invariant 0 <= i <= output.Length
      invariant forall k :: 0 <= k < i ==> output[k] == Normalise(reduced[k] as real)
    {
      ReducedAt(input[..], channels, output.Length, i);
      var average := ChannelAverage(input, i, channels);
      output[i] := Normalise(average as real);
      i := i + 1;
    }
    var j := 0;
    while j < |mask|
      invariant 0 <= j <= |mask|
      invariant forall k :: 0 <= k < output.Length ==>
        output[k] == if Covers(mask[..j], width, k) then holeValue
                     else Normalise(reduced[k] as real)
    {
      var pixel := mask[j];
      assert mask[..j + 1] == mask[..j] + [pixel];
      forall k | 0 <= k < output.Length
        ensures Covers(mask[..j + 1], width, k) <==> Covers(mask[..j], width, k) || Index(pixel, width) == k
      {
        if Index(pixel, width) == k {
          assert pixel in mask[..j + 1];
        }
      }
      output[Index(pixel, width)] := holeValue;
      j := j + 1;
    }
    assert mask[..j] == mask;
  }

  /**
   * denormalise(input, output): output[i] = 255 * input[i] for every cell
   * of `output`. The two buffers may be the same array, as in the only
   * caller, which denormalises a buffer onto itself.
   */
  method Denormalise(input: array<real>, output: array<real>)
    requires output.Length <= input.Length
    modifies output
    ensures forall i :: 0 <= i < output.Length ==> output[i] == Denormalised(old(input[i]))
  {
    var i := 0;
    while i < output.Length
      invariant 0 <= i <= output.Length
      invariant forall k :: 0 <= k < i ==> output[k] == Denormalised(old(input[k]))
      invariant forall k :: i <= k < input.Length ==> input[k] == old(input[k])
    {
      output[i] := U_CHAR_MAX as real * input[i];
      i := i + 1;
    }
  }
}
