/** The Python and numpy primitives the transforms are built from: slicing,
    numpy.random.randint with the random choice lifted into a parameter, and
    numpy.pad in 'wrap' mode on a one-dimensional array. */
module Primitives {
  import opened Errors

  function Min(a: int, b: int): (r: int) {
    if a <= b then a else b
  }

  function Abs(x: int): (r: nat) {
    if x < 0 then -x else x
  }

  // ---------------------------------------------------------------------------
  // Slicing `s[lo:hi]` with step 1

  /** Python's normalisation of one slice bound against a sequence of length n:
      a negative bound counts from the end, and the result is clamped to [0, n]. */
  function Bound(i: int, n: nat): (b: nat)
    ensures b <= n
  {
    if i < 0 then (if i + n < 0 then 0 else i + n)
    else if i > n then n
    else i
  }

  /** `s[lo:hi]` as Python evaluates it: the run of `s` between the two
      normalised bounds, empty when the upper one comes first. */
  function Slice<T>(s: seq<T>, lo: int, hi: int): (r: seq<T>)
    ensures |r| == if Bound(lo, |s|) <= Bound(hi, |s|) then Bound(hi, |s|) - Bound(lo, |s|) else 0
    ensures forall i :: 0 <= i < |r| ==> r[i] == s[Bound(lo, |s|) + i]
    ensures lo >= |s| || hi <= -|s| || (0 <= hi <= lo) ==> r == []
    ensures 0 <= lo <= hi <= |s| ==> r == s[lo..hi]
    ensures -|s| <= lo <= hi < 0 ==> r == s[|s| + lo..|s| + hi]
  {
    var a, b := Bound(lo, |s|), Bound(hi, |s|);
    if a <= b then s[a..b] else []
  }

  /** With a bound in range at the front, a slice never extends the sequence:
      it stops at the end of `s` and is shorter than asked when `hi` overshoots. */
  lemma SliceFrom<T>(s: seq<T>, lo: int, hi: int)
    requires 0 <= lo <= |s| && lo <= hi
    ensures Slice(s, lo, hi) == s[lo..Min(hi, |s|)]
    ensures |Slice(s, lo, hi)| == Min(hi - lo, |s| - lo)
  {
  }

  // ---------------------------------------------------------------------------
  // numpy.random.randint(low, high)

  /** `draw` is a value numpy.random.randint(low, high) may return; any value is
      admitted when the range is empty, since the call raises then. */
  predicate Drawable(draw: int, low: int, high: int) {
    low < high ==> low <= draw < high
  }

  /** numpy.random.randint(low, high) with the random choice given as `draw`. */
  function RandInt(low: int, high: int, draw: int): (r: Result<int>)
    requires Drawable(draw, low, high)
    ensures r.Ok? <==> low < high
    ensures r.Ok? ==> low <= r.value < high && r.value == draw
    ensures r.Err? ==> r.error == ValueError(EmptyDrawRange)
  {
    if low >= high then Err(ValueError(EmptyDrawRange)) else Ok(draw)
  }

  // ---------------------------------------------------------------------------
  // numpy.pad(s, (0, after), 'wrap')

  /** The first n elements of `s` read cyclically: `s` itself (cut to n), then
      every element repeating the one |s| places before it. */
  function Wrap<T>(s: seq<T>, n: nat): (r: seq<T>)
    requires |s| > 0
    ensures |r| == n
    ensures r[..Min(n, |s|)] == s[..Min(n, |s|)]
    ensures forall i :: |s| <= i < n ==> r[i] == r[i - |s|]
  {
    var w := seq(n, i requires 0 <= i < n => s[i % |s|]);
    assert forall i :: 0 <= i < Min(n, |s|) ==> w[i] == s[i] by {
      forall i | 0 <= i < Min(n, |s|) ensures w[i] == s[i] {
        assert i % |s| == i;
      }
    }
    assert forall i :: |s| <= i < n ==> w[i] == w[i - |s|] by {
      forall i | |s| <= i < n ensures w[i] == w[i - |s|] {
        ModShift(i, |s|);
      }
    }
    w
  }

  /** `s` written out k times in a row: the reference for wrap padding. */
  function Repeat<T>(s: seq<T>, k: nat): (r: seq<T>)
    ensures |r| == k * |s|
  {
    if k == 0 then [] else s + Repeat(s, k - 1)
  }

  lemma MulAtLeast(d: int, m: int)
    requires d >= 1 && m > 0
    ensures d * m >= m
  {
    assert d * m == (d - 1) * m + m;
    assert (d - 1) * m >= 0;
  }

  /** A quotient-remainder decomposition determines the remainder. */
  lemma ModOf(x: int, m: int, q: int, r: int)
    requires 0 < m && 0 <= r < m && x == q * m + r
    ensures x % m == r
  {
    var q', r' := x / m, x % m;
    assert x == q' * m + r';
    assert (q - q') * m == r' - r by {
      assert q * m - q' * m == (q - q') * m;
    }
    if q > q' {
      MulAtLeast(q - q', m);
    } else if q < q' {
      MulAtLeast(q' - q, m);
    }
  }

  lemma ModShift(i: int, m: int)
    requires 0 < m <= i
    ensures (i - m) % m == i % m
  {
    var q, r := (i - m) / m, (i - m) % m;
    assert i - m == q * m + r;
    assert i == (q + 1) * m + r;
    ModOf(i, m, q + 1, r);
  }

  /** Element i of the repetition is element i mod |s| of `s`. */
  lemma {:induction false} RepeatAt<T>(s: seq<T>, k: nat, i: nat)
    requires |s| > 0 && i < k * |s|
    ensures Repeat(s, k)[i] == s[i % |s|]
  {
    var m := |s|;
    assert Repeat(s, k) == s + Repeat(s, k - 1);
    if i < m {
      ModOf(i, m, 0, i);
    } else {
      assert (k - 1) * m == k * m - m;
      RepeatAt(s, k - 1, i - m);
      ModShift(i, m);
    }
  }

  /** Reading `s` cyclically for n elements gives the first n elements of any
      repetition of `s` that is long enough. */
  lemma WrapIsRepeatPrefix<T>(s: seq<T>, n: nat, k: nat)
    requires |s| > 0 && n <= k * |s|
    ensures Wrap(s, n) == Repeat(s, k)[..n]
  {
    forall i | 0 <= i < n
      ensures Wrap(s, n)[i] == Repeat(s, k)[..n][i]
    {
      RepeatAt(s, k, i);
    }
  }

  /** numpy.pad(s, (0, after), 'wrap'): a negative width raises, a positive width
      cannot extend an empty array, and otherwise the array is extended by
      `after` elements that repeat its own content from the beginning. */
  function PadWrap<T>(s: seq<T>, after: int): (r: Result<seq<T>>)
    ensures r.Ok? <==> after >= 0 && (s == [] ==> after == 0)
    ensures after < 0 ==> r == Err(ValueError(NegativePadWidth))
    ensures after > 0 && s == [] ==> r == Err(ValueError(EmptyAxisWrap))
    ensures r.Ok? ==> |r.value| == |s| + after && r.value[..|s|] == s
    ensures r.Ok? ==> forall i :: |s| <= i < |r.value| ==> r.value[i] == r.value[i - |s|]
  {
    if after < 0 then Err(ValueError(NegativePadWidth))
    else if s == [] then (if after == 0 then Ok(s) else Err(ValueError(EmptyAxisWrap)))
    else Ok(Wrap(s, |s| + after))
  }
}
