# music2vec waveform augmentation: index and length handling

A Dafny model of the waveform transforms in `music2vec/argument.py` that work on
positions and lengths: `Crop`, `RandomCrop`, `Mask`, and how `TimeStreach` fixes the
length of its output. Each transform is a datatype holding the configuration its
constructor stores, for example `Crop(length, start := 0)` and `Mask(0.3)`. Applying
a transform to a sample gives a `Result`. That is either the new sample or the
Python exception the call raises (`IndexError` or `ValueError`, each with a reason).
`Mask` is the only transform that writes to its input. It is a method that zeroes
a span of an `array<real>` in place and returns that same array. The others are
functions on `seq`. In the source the crops return views that share their input's
memory; the model does not capture that sharing (see "## Left out").

Random draws are inputs to the call:

- the `start` of `RandomCrop`;
- the `mask_start` of `Mask`.

`numpy.random.randint(low, high)` becomes `Primitives.RandInt`. It raises when
`low >= high`. Otherwise it returns the caller's draw, and a precondition demands
that draw lie in `[low, high)`. `TimeStreach` is given the output of the external
time-stretch routine as the sequence `stretched`. Its stretch rate is kept only as
the flag `speedUp`, meaning `rate > 1`.

Files:

- `errors.dfy`: `Result`, and the exception kinds and reasons.
- `primitives.dfy`: Python slicing `s[lo:hi]`, `numpy.random.randint`, and
  `numpy.pad(s, (0, k), 'wrap')`. The wrap padding is proved equal to a prefix of `s`
  repeated.
- `argument.dfy`: the four transforms and the lemmas about them.

Three behaviours of the code are easy to miss:

- A `RandomCrop` whose length equals the sample's length raises `ValueError`. The
  draw range `[0, 0)` is empty, so `randint` fails first. The code itself suggests
  equal lengths were meant to work, in two places:
  - the check `len(data) - self.length < 0` at music2vec/argument.py:117 accepts
    equal lengths;
  - the docstring promises an array "with shape (length)".

  See "## Findings".
- `Mask` has no check of its own. A rate that leaves no room (`mask_length >= len`)
  fails inside `randint`. A mask length below zero makes `numpy.zeros` raise; on a
  non-empty sample that takes a rate of at most `-1/len`. A rate in `(-1/len, 0)`
  truncates to a mask length of zero, and the buffer comes back unchanged.
- `TimeStreach` does not always return `len(sample)` samples. When not sped up, it
  returns `min(|stretched|, len)` samples. When sped up, it raises if `stretched` is
  longer than the sample (a negative pad width). It also raises if `stretched` is
  empty while the sample is not, since 'wrap' mode cannot extend an empty array.

## Model

| member | source | states |
|---|---|---|
| `Argument.Crop.Apply` | music2vec/argument.py:93-98 | `start > len` raises IndexError whatever `length` is, because that check comes first. If `start <= len` and `start` or `length` is negative, it raises ValueError. It succeeds exactly when `0 <= start <= len` and `length >= 0`, and then returns `data[start .. min(start+length, len)]`. |
| `Argument.CropLength` | music2vec/argument.py:98 | A successful crop is never padded. It has `min(length, len - start)` samples, all `length` of them exactly when `start + length <= len`, and none when `start == len`. |
| `Argument.CropAt` | music2vec/argument.py:98 | Sample i of a crop is sample `start + i` of the input. |
| `Argument.CropExample` | music2vec/argument.py:86-98 | `Crop(length=4, start=1)` on `[0,1,2,3,4,5]` returns `[1,2,3,4]`. |
| `Primitives.SliceFrom` | music2vec/argument.py:98 | The Python slice `s[lo:hi]`, with `0 <= lo <= len` and `lo <= hi`, is `s[lo .. min(hi, len)]` and has `min(hi - lo, len - lo)` elements. |
| `Primitives.Slice` | music2vec/argument.py:98 | Python's `s[lo:hi]`. It is the run of `s` from the normalised lower bound to the normalised upper bound, and empty when the upper comes first. A negative bound counts from the end, and both bounds are clamped to `[0, len]`. With `0 <= lo <= hi <= len` it is `s[lo..hi]`. With `lo >= len`, or `0 <= hi <= lo`, it is empty. The transforms only ever pass non-negative bounds: `start` and `start + length` here, and `0` and `sample_length` at line 30. |
| `Primitives.RandInt` | music2vec/argument.py:114 | `randint(low, high)` fails with ValueError exactly when `low >= high`. Otherwise it returns a value in `[low, high)`. |
| `Argument.RandomCrop.Apply` | music2vec/argument.py:113-119 | Succeeds exactly when `0 <= length < len`. `length == len` raises ValueError (empty draw range), a negative `length` raises ValueError, and so does `len < length`. On success it returns exactly `data[start .. start+length]` with `start + length < len`. |
| `Argument.RandomCropIsCrop` | music2vec/argument.py:114-119 | A successful random crop equals `Crop(length, start)` at the drawn start and has exactly `length` samples. |
| `Argument.RandomCropRejectsWholeSample` | music2vec/argument.py:114 | As written, `RandomCrop(len(data))` raises ValueError on every sample, the empty one included. |
| `Argument.RandomCropMissesLastWindow` | music2vec/argument.py:114 | As written, the last window's start `len - length` is never a possible draw. Every possible draw succeeds and stops before the last sample. |
| `Argument.RandomCrop.ApplyIntended` | music2vec/argument.py:101-119 | Corrected crop: it fails only for `length < 0` or `len < length`. Otherwise it returns `data[start .. start+length]` for any start in `[0, len - length]`. |
| `Argument.RandomCropIntendedReachesEveryWindow` | music2vec/argument.py:101-119 | In the corrected crop every window start is a possible draw and gives that window. A crop as long as the sample returns the whole sample. |
| `Argument.Trunc` | music2vec/argument.py:66 | `int(x)` truncates toward zero. For `x >= 0` the result is the largest integer `<= x`. For `x < 0` it is the smallest integer `>= x`. |
| `Argument.Mask.MaskLength` | music2vec/argument.py:66 | `int(sample_length * mask_rate)` rounds the product toward zero: the largest integer not above it when it is non-negative, the smallest integer not below it when it is negative. |
| `Argument.MaskLengthBounds` | music2vec/argument.py:65-69 | On a non-empty sample, a rate in `[0, 1)` gives `0 <= mask_length < len`, so the draw range is non-empty and the span fits. A rate `>= 1` gives `mask_length >= len`. A negative rate gives `mask_length <= 0`. |
| `Argument.Masked` | music2vec/argument.py:71 | The result of `s[a:a+n] = zeros(n)` has the length of `s`, keeps `s` before `a` and from `a+n` on, and is zero in `[a, a+n)`. |
| `Argument.MaskedAt` | music2vec/argument.py:71 | The slice assignment `s[a:a+n] = zeros(n)` keeps the length, zeroes indices `[a, a+n)` and keeps every other index. |
| `Argument.Mask.Apply` | music2vec/argument.py:63-73 | Succeeds exactly when `0 <= mask_length < len`. An empty draw range or a negative mask length raises ValueError and leaves the buffer unchanged. On success it returns the input buffer itself. Then `mask_start + mask_length < len`, and the contents are the old contents with `[mask_start, mask_start + mask_length)` zeroed. |
| `Argument.MaskFourOnes` | music2vec/argument.py:63-73 | Running `Mask(0.5).Apply` on a buffer of four ones zeroes exactly two adjacent samples at any start the draw allows, and keeps the other two at one. |
| `Primitives.PadWrap` | music2vec/argument.py:24-28 | `numpy.pad(s, (0, k), 'wrap')` raises for `k < 0`, and for `k > 0` when `s` is empty. It succeeds otherwise, with `len(s) + k` elements. The first `len(s)` elements are `s`, and every later element repeats the one `len(s)` places before it. |
| `Primitives.Wrap` | music2vec/argument.py:24-28 | Reading `s` cyclically for n elements gives n elements. The first `min(n, len(s))` are those of `s`, and each later one repeats the element `len(s)` places before it. |
| `Primitives.RepeatAt` | music2vec/argument.py:24-28 | Element i of `s` written out k times is `s[i mod len(s)]`. |
| `Primitives.WrapIsRepeatPrefix` | music2vec/argument.py:24-28 | Reading `s` cyclically for n elements gives the first n elements of any long enough repetition of `s`. |
| `Argument.TimeStreach.Apply` | music2vec/argument.py:18-32 | Sped up, it succeeds exactly when `len(stretched) <= len(data)` and `stretched` is non-empty unless `data` is empty. It then returns `len(data)` samples, the first `len(stretched)` of which are `stretched`. A longer `stretched` raises ValueError (negative pad width), and so does an empty `stretched` with a non-empty `data`. Not sped up, it returns the first `min(len(stretched), len(data))` samples of `stretched`. |
| `Argument.TimeStreachWraps` | music2vec/argument.py:23-28 | Sped up and successful with a non-empty `stretched`, output sample i is `stretched[i mod len(stretched)]`. The output is the length-`len(data)` prefix of `stretched` repeated. |
| `Argument.TimeStreachLength` | music2vec/argument.py:18-32 | A successful call returns exactly `len(data)` samples when sped up, and also when not sped up with `stretched` at least as long as `data`. |

## Left out

- `PitchShift` (music2vec/argument.py:35-50) is not modelled. It is a call into the external pitch-shift routine, plus a floating-point draw truncated by `int()` in its constructor.
- `ToConstantQ` (music2vec/argument.py:122-162) is not modelled. Everything in it is floating-point work and calls into external code: the mel-spectrogram, the dB conversion, interpolation, min-max scaling to 8 bits, and image resizing and normalisation. It also hard-codes 4 channels (lines 135 and 142) and ignores `self.channel` (line 130).
- The time-stretch routine itself (line 22) is external. Its output is an input of `TimeStreach.Apply`.
- The construction-time draw of the stretch rate (line 16) is left out. Only whether `rate > 1` is kept.
- Random draws from numpy's global generator (lines 67, 114) become parameters of the call. Which value is drawn, and how likely it is, is not modelled.
- `Argument.Mask.Apply`: `int(len * mask_rate)` is computed on exact reals rather than on 64-bit floats. A product that is a whole number exactly can round just below it in floating point, and then Python's mask is one sample shorter.
- `Argument.Mask.Apply`: only one-dimensional buffers of reals are modelled. The source reads `data.shape[-1]` and slices the first axis, which agree only in one dimension.
- `Argument.Crop.Apply`: in the source, `data` is a numpy array and `data[start:start+length]` (line 98) is a view that shares the input's memory. The model returns a fresh sequence and does not capture this sharing. A later in-place `Mask` on the crop would also zero the caller's original sample.
- `Argument.RandomCrop.Apply`: it delegates to `Crop` (line 119), so its result is likewise a view of the input's memory in the source. The model does not capture that aliasing.
- Concurrent `Mask` calls on a shared buffer are not modelled.

## Findings

| source | as written | input that shows it | evidently intended | confidence | as-written member | corrected member |
|---|---|---|---|---|---|---|
| music2vec/argument.py:114 | `start` is drawn from `[0, abs(len(data) - length))`, an exclusive upper bound, before `length` is checked | `RandomCrop(3)` on a 3-sample input: `randint(0, 0)` raises ValueError, though the later check `len(data) - length < 0` accepts equal lengths; on any input the last window, start `len - length`, is never drawn | check `length` first, then draw `start` from `[0, len - length]`, so equal lengths return the whole sample and every window is possible | medium, not executed | `Argument.RandomCropRejectsWholeSample` | `Argument.RandomCrop.ApplyIntended` |
