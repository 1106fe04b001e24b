/** The index and length handling of the waveform augmentation transforms of
    music2vec/argument.py. Each transform is a configuration value fixed at
    construction; applying it to a sample either returns the transformed sample
    or raises. Random choices of the source are parameters of the call. */
module Argument {
  import opened Errors
  import opened Primitives

  // ---------------------------------------------------------------------------
  // Crop

  /** Crop(length, *, start=0): take `length` samples from index `start`. */
  datatype Crop = Crop(length: int, nameonly start: int := 0) {

    /** `start` beyond the sample raises IndexError, checked before the sign of
        either argument; a negative `start` or `length` then raises ValueError;
        otherwise the result is the Python slice data[start:start+length]. */
    function Apply<T>(data: seq<T>): (r: Result<seq<T>>)
      ensures start > |data| ==> r == Err(IndexError(StartOutOfRange))
      ensures start <= |data| && (start < 0 || length < 0) ==> r == Err(ValueError(StartOrLengthNegative))
      ensures r.Ok? <==> 0 <= start <= |data| && 0 <= length
      ensures r.Ok? ==> r.value == data[start..Min(start + length, |data|)]
    {
      if start > |data| then Err(IndexError(StartOutOfRange))
      else if start < 0 || length < 0 then Err(ValueError(StartOrLengthNegative))
      else
        SliceFrom(data, start, start + length);
        Ok(Slice(data, start, start + length))
    }
  }

  /** A successful crop is never padded: it holds min(length, |data| - start)
      samples, all `length` of them exactly when the sample reaches that far,
      and none when `start` is the end of the sample. */
  lemma CropLength<T>(c: Crop, data: seq<T>)
    requires c.Apply(data).Ok?
    ensures |c.Apply(data).value| == Min(c.length, |data| - c.start) <= c.length
    ensures |c.Apply(data).value| == c.length <==> c.start + c.length <= |data|
    ensures c.start == |data| ==> c.Apply(data).value == []
  {
  }

  /** Each sample of a crop is the sample at the same offset from `start`. */
  lemma CropAt<T>(c: Crop, data: seq<T>, i: nat)
    requires c.Apply(data).Ok? && i < |c.Apply(data).value|
    ensures c.start + i < |data| && c.Apply(data).value[i] == data[c.start + i]
  {
  }

  /** Crop(length=4, start=1) on [0, 1, 2, 3, 4, 5] gives [1, 2, 3, 4]. */
  lemma CropExample()
    ensures Crop(4, start := 1).Apply([0, 1, 2, 3, 4, 5]) == Ok([1, 2, 3, 4])
  {
    assert [0, 1, 2, 3, 4, 5][1..5] == [1, 2, 3, 4];
  }

  // ---------------------------------------------------------------------------
  // RandomCrop

  /** RandomCrop(length=None): `None` stands for 0. */
  datatype RandomCrop = RandomCrop(length: int := 0) {

    /** Draws `start` from [0, |len - length|) and only then checks `length`;
        the draw, `draw` here, raises when that range is empty, so a crop of the
        whole sample fails as well as a negative or too large `length`.
        Otherwise it delegates to Crop(length, start), which cannot fail. */
    function Apply<T>(data: seq<T>, draw: int): (r: Result<seq<T>>)
      requires Drawable(draw, 0, Abs(|data| - length))
      ensures r.Ok? <==> 0 <= length < |data|
      ensures length == |data| ==> r == Err(ValueError(EmptyDrawRange))
      ensures length < 0 ==> r == Err(ValueError(LengthNegative))
      ensures |data| < length ==> r == Err(ValueError(LengthTooLarge))
      ensures r.Ok? ==> 0 <= draw && draw + length < |data| && r.value == data[draw..draw + length]
    {
      var start :- RandInt(0, Abs(|data| - length), draw);
      if length < 0 then Err(ValueError(LengthNegative))
      else if |data| - length < 0 then Err(ValueError(LengthTooLarge))
      else Crop(length, start := start).Apply(data)
    }

    /** The intended behaviour: check `length` first, then draw `start` from
        [0, |data| - length], so that every window of `length` samples,
        including the whole sample and the last window, can be returned. */
    function ApplyIntended<T>(data: seq<T>, draw: int): (r: Result<seq<T>>)
      requires Drawable(draw, 0, |data| - length + 1)
      ensures r.Ok? <==> 0 <= length <= |data|
      ensures length < 0 ==> r == Err(ValueError(LengthNegative))
      ensures |data| < length ==> r == Err(ValueError(LengthTooLarge))
      ensures r.Ok? ==> 0 <= draw && draw + length <= |data| && r.value == data[draw..draw + length]
    {
      if length < 0 then Err(ValueError(LengthNegative))
      else if |data| < length then Err(ValueError(LengthTooLarge))
      else
        var start := RandInt(0, |data| - length + 1, draw).value;
        Crop(length, start := start).Apply(data)
    }
  }

  /** A successful random crop is the crop at the drawn start, and has exactly
      `length` samples. */
  lemma RandomCropIsCrop<T>(rc: RandomCrop, data: seq<T>, draw: int)
    requires Drawable(draw, 0, Abs(|data| - rc.length))
    requires rc.Apply(data, draw).Ok?
    ensures rc.Apply(data, draw) == Crop(rc.length, start := draw).Apply(data)
    ensures |rc.Apply(data, draw).value| == rc.length
  {
    CropLength(Crop(rc.length, start := draw), data);
  }

  /** As written, a crop as long as the sample always raises. */
  lemma RandomCropRejectsWholeSample<T>(data: seq<T>, draw: int)
    ensures RandomCrop(|data|).Apply(data, draw) == Err(ValueError(EmptyDrawRange))
  {
  }

  /** As written, the start of the last window, |data| - length, is never a
      possible draw, so the last sample is never part of a random crop. */
  lemma RandomCropMissesLastWindow<T>(data: seq<T>, length: int)
    requires 0 <= length < |data|
    ensures !Drawable(|data| - length, 0, Abs(|data| - length))
    ensures forall draw :: Drawable(draw, 0, Abs(|data| - length)) ==>
      RandomCrop(length).Apply(data, draw).Ok? && draw + length <= |data| - 1
  {
    forall draw | Drawable(draw, 0, Abs(|data| - length))
      ensures RandomCrop(length).Apply(data, draw).Ok? && draw + length <= |data| - 1
    {
      assert RandInt(0, Abs(|data| - length), draw) == Ok(draw);
    }
  }

  /** With the intended draw range, every window start is admitted and yields
      that window; in particular a crop as long as the sample returns it. */
  lemma RandomCropIntendedReachesEveryWindow<T>(data: seq<T>, length: nat, s: nat)
    requires s + length <= |data|
    ensures Drawable(s, 0, |data| - length + 1)
    ensures RandomCrop(length).ApplyIntended(data, s) == Ok(data[s..s + length])
    ensures RandomCrop(|data|).ApplyIntended(data, 0) == Ok(data)
  {
    assert data[0..|data|] == data;
  }

  // ---------------------------------------------------------------------------
  // Mask

  /** `int(x)` in Python: truncation toward zero. */
  function Trunc(x: real): (n: int)
    ensures x >= 0.0 ==> 0 <= n && n as real <= x < n as real + 1.0
    ensures x < 0.0 ==> n <= 0 && n as real - 1.0 < x <= n as real
  {
    if x >= 0.0 then x.Floor else -((-x).Floor)
  }

  /** `s` with samples [start, start + n) replaced by n zeros, as the slice
      assignment s[start:start+n] = zeros(n) leaves it. */
  function Masked(s: seq<real>, start: nat, n: nat): (r: seq<real>)
    requires start + n <= |s|
    ensures |r| == |s|
    ensures r[..start] == s[..start] && r[start + n..] == s[start + n..]
    ensures forall k :: start <= k < start + n ==> r[k] == 0.0
  {
    s[..start] + seq(n, _ => 0.0) + s[start + n..]
  }

  /** Masking keeps the length, zeroes exactly the span and nothing else. */
  lemma MaskedAt(s: seq<real>, start: nat, n: nat, k: nat)
    requires start + n <= |s| && k < |s|
    ensures |Masked(s, start, n)| == |s|
    ensures Masked(s, start, n)[k] == if start <= k < start + n then 0.0 else s[k]
  {
    var z := seq(n, _ => 0.0);
    if k < start {
      assert Masked(s, start, n)[k] == s[..start][k];
    } else if k < start + n {
      assert Masked(s, start, n)[k] == z[k - start];
    } else {
      assert Masked(s, start, n)[k] == s[start + n..][k - start - n];
    }
  }

  /** Mask(mask_rate=0.3): zero a span of int(len * mask_rate) samples. */
  datatype Mask = Mask(maskRate: real := 0.3) {

    /** int(sample_length * mask_rate): the product rounded toward zero. */
    function MaskLength(sampleLength: nat): (r: int)
      ensures var x := sampleLength as real * maskRate;
        if x >= 0.0 then 0 <= r && r as real <= x < r as real + 1.0
        else r <= 0 && r as real - 1.0 < x <= r as real
    {
      Trunc(sampleLength as real * maskRate)
    }

    /** Zeroes data[maskStart .. maskStart + MaskLength(data.Length)) in place and
        returns the same buffer. The draw of `maskStart` from
        [0, len - mask_length) raises when that range is empty, and a mask
        length below zero (a rate of at most -1/len on a non-empty sample) makes
        numpy.zeros raise; on either error the buffer is left untouched. A rate
        in (-1/len, 0) truncates to a mask length of zero. */
    method Apply(data: array<real>, maskStart: int) returns (r: Result<array<real>>)
      requires Drawable(maskStart, 0, data.Length - MaskLength(data.Length))
      modifies data
      ensures r.Ok? <==> 0 <= MaskLength(data.Length) < data.Length
      ensures data.Length - MaskLength(data.Length) <= 0 ==> r == Err(ValueError(EmptyDrawRange))
      ensures MaskLength(data.Length) < 0 ==> r == Err(ValueError(NegativeDimension))
      ensures r.Ok? ==> r.value == data
      ensures r.Ok? ==> 0 <= maskStart && maskStart + MaskLength(data.Length) < data.Length
      ensures r.Ok? ==> data[..] == Masked(old(data[..]), maskStart, MaskLength(data.Length))
      ensures r.Err? ==> data[..] == old(data[..])
    {
      var sampleLength := data.Length;
      var maskLength := MaskLength(sampleLength);
      var drawn := RandInt(0, sampleLength - maskLength, maskStart);
      if drawn.Err? {
        return Err(drawn.error);
      }
      if maskLength < 0 {
        return Err(ValueError(NegativeDimension));
      }
      var i := maskStart;
      while i < maskStart + maskLength
        invariant maskStart <= i <= maskStart + maskLength
        invariant forall k :: 0 <= k < data.Length ==>
          data[k] == if maskStart <= k < i then 0.0 else old(data[k])
      {
        data[i] := 0.0;
        i := i + 1;
      }
      ghost var was := old(data[..]);
      forall k | 0 <= k < sampleLength
        ensures data[..][k] == Masked(was, maskStart, maskLength)[k]
      {
        MaskedAt(was, maskStart, maskLength, k);
      }
      return Ok(data);
    }
  }

  /** A rate in [0, 1) on a non-empty sample gives a mask shorter than the
      sample, so the draw range is non-empty and the span fits; a rate of 1 or
      more leaves no room for the draw. */
  lemma MaskLengthBounds(m: Mask, n: nat)
    requires n > 0
    ensures 0.0 <= m.maskRate < 1.0 ==> 0 <= m.MaskLength(n) < n
    ensures m.maskRate >= 1.0 ==> m.MaskLength(n) >= n
    ensures m.maskRate < 0.0 ==> m.MaskLength(n) <= 0
  {
    var x := n as real * m.maskRate;
    if 0.0 <= m.maskRate < 1.0 {
      assert x < n as real;
    } else if m.maskRate >= 1.0 {
      assert x >= n as real;
    }
  }

  /** Mask(mask_rate=0.5) applied to a buffer of four ones zeroes exactly two
      adjacent samples, at any start the draw allows, and leaves the other two
      at one. */
  method MaskFourOnes(start: int) returns (after: seq<real>)
    requires Drawable(start, 0, 4 - Mask(0.5).MaskLength(4))
    ensures |after| == 4
    ensures forall k :: 0 <= k < 4 ==> after[k] == if start <= k < start + 2 then 0.0 else 1.0
  {
    assert Mask(0.5).MaskLength(4) == 2;
    var a := new real[4](_ => 1.0);
    var r := Mask(0.5).Apply(a, start);
    assert r.Ok?;
    after := a[..];
    forall k | 0 <= k < 4
      ensures after[k] == if start <= k < start + 2 then 0.0 else 1.0
    {
      MaskedAt([1.0, 1.0, 1.0, 1.0], start, 2, k);
    }
  }

  // ---------------------------------------------------------------------------
  // TimeStreach

  /** TimeStreach(rate_width): the stretch rate drawn at construction is kept
      only through whether it exceeds 1, which is all the length handling uses. */
  datatype TimeStreach = TimeStreach(speedUp: bool) {

    /** Reconciles `stretched`, the time-stretched `data`, with the length of
        `data`: a sped-up (shorter) result is wrap-padded back to that length,
        which raises when it is longer than `data` or empty while `data` is not;
        otherwise the result is cut to its first |data| samples. */
    function Apply(data: seq<real>, stretched: seq<real>): (r: Result<seq<real>>)
      ensures speedUp ==> (r.Ok? <==> |stretched| <= |data| && (stretched == [] ==> data == []))
      ensures speedUp && |stretched| > |data| ==> r == Err(ValueError(NegativePadWidth))
      ensures speedUp && stretched == [] && data != [] ==> r == Err(ValueError(EmptyAxisWrap))
      ensures speedUp && r.Ok? ==> |r.value| == |data| && r.value[..|stretched|] == stretched
      ensures !speedUp ==> r.Ok? && r.value == stretched[..Min(|stretched|, |data|)]
    {
      var sampleLength := |data|;
      if speedUp then PadWrap(stretched, sampleLength - |stretched|)
      else Ok(Slice(stretched, 0, sampleLength))
    }
  }

  /** Sped up, the output is `stretched` repeated cyclically: sample i is
      sample i mod |stretched| of `stretched`, and the output is the prefix of
      |data| samples of `stretched` written out |data| times. */
  lemma TimeStreachWraps(data: seq<real>, stretched: seq<real>)
    requires TimeStreach(true).Apply(data, stretched).Ok? && stretched != []
    ensures TimeStreach(true).Apply(data, stretched).value == Repeat(stretched, |data|)[..|data|]
    ensures forall i :: 0 <= i < |data| ==>
      TimeStreach(true).Apply(data, stretched).value[i] == stretched[i % |stretched|]
  {
    MulAtLeast(|stretched|, |data|);
    WrapIsRepeatPrefix(stretched, |data|, |data|);
    forall i | 0 <= i < |data|
      ensures TimeStreach(true).Apply(data, stretched).value[i] == stretched[i % |stretched|]
    {
    }
  }

  /** Whenever it succeeds, and always when not sped up with `stretched` at
      least as long as `data`, the output has exactly the length of `data`. */
  lemma TimeStreachLength(t: TimeStreach, data: seq<real>, stretched: seq<real>)
    requires t.Apply(data, stretched).Ok?
    requires !t.speedUp ==> |data| <= |stretched|
    ensures |t.Apply(data, stretched).value| == |data|
  {
  }
}
