/** Integer index wrapping (`wrapi` in src/moremath.h). */
module MoreMath {
  import opened CInt

  /**
   * wrapi(input, min, max) as written: below `min` it counts back from `max`,
   * otherwise forward from `min`, in steps of the range `max - min`, with
   * C's truncating `%`. The source divides by `max - min`, so the two bounds
   * must differ, and its signed subtractions must not overflow.
   */
  function Wrapi(input: int, min: int, max: int): (r: int)
    requires max != min
    requires IsInt32(input) && IsInt32(min) && IsInt32(max)
    requires IsInt32(max - min) && IsInt32(min - input) && IsInt32(input - min)
    ensures max > min && input >= min ==> min <= r < max
    ensures max > min && input < min ==> min < r <= max
  {
    if input < min then max - CRem(min - input, max - min)
    else min + CRem(input - min, max - min)
  }

  /** The example in the header comment: wrapping 7 into [0, 4) gives 3. */
  lemma WrapiExample()
    ensures Wrapi(7, 0, 4) == 3
  {
  }

  /** An input already in [min, max) comes back unchanged. */
  lemma WrapiKeepsInRange(input: int, min: int, max: int)
    requires min <= input < max
    requires IsInt32(input) && IsInt32(min) && IsInt32(max) && IsInt32(max - min)
    ensures Wrapi(input, min, max) == input
  {
    DivModUnique(input - min, max - min, 0, input - min);
  }

  /** Both branches land on a value congruent to the input modulo the range. */
  lemma WrapiCongruent(input: int, min: int, max: int)
    requires max > min
    requires IsInt32(input) && IsInt32(min) && IsInt32(max)
    requires IsInt32(max - min) && IsInt32(min - input) && IsInt32(input - min)
    ensures (Wrapi(input, min, max) - input) % (max - min) == 0
  {
    var n := max - min;
    if input < min {
      var d := min - input;
      var q := d / n;
      DivModSplit(d, n);
      assert Wrapi(input, min, max) - input == q * n + n;
      assert q * n + n == (q + 1) * n;
      MultipleMod(q + 1, n);
    } else {
      var d := input - min;
      var q := d / n;
      DivModSplit(d, n);
      assert Wrapi(input, min, max) - input == -(q * n);
      assert -(q * n) == (-q) * n;
      MultipleMod(-q, n);
    }
  }

  /**
   * Below `min`, when `min - input` is a whole number of ranges, wrapi
   * returns `max` itself, outside the [min, max) its example implies.
   */
  lemma WrapiReturnsMax(input: int, min: int, max: int)
    requires max > min && input < min
    requires IsInt32(input) && IsInt32(min) && IsInt32(max)
    requires IsInt32(max - min) && IsInt32(min - input)
    requires (min - input) % (max - min) == 0
    ensures Wrapi(input, min, max) == max
  {
  }

  /** The input that shows it: wrapping -4 into [0, 4) gives 4. */
  lemma WrapiBoundaryExample()
    ensures Wrapi(-4, 0, 4) == 4
  {
  }

  /**
   * The evidently intended index wrap: the representative of `input` in
   * [min, max) modulo the range (floor modulo, so it also works below min).
   */
  function WrapiCorrected(input: int, min: int, max: int): (r: int)
    requires max > min
    ensures min <= r < max
    ensures (r - input) % (max - min) == 0
  {
    var n := max - min;
    var d := input - min;
    var q := d / n;
    DivModSplit(d, n);
    assert min + d % n - input == (-q) * n;
    MultipleMod(-q, n);
    min + d % n
  }

  /** The corrected wrap agrees with wrapi everywhere except where wrapi returns `max`. */
  lemma WrapiCorrectedAgrees(input: int, min: int, max: int)
    requires max > min
    requires IsInt32(input) && IsInt32(min) && IsInt32(max)
    requires IsInt32(max - min) && IsInt32(min - input) && IsInt32(input - min)
    ensures Wrapi(input, min, max) == max ==> WrapiCorrected(input, min, max) == min
    ensures Wrapi(input, min, max) != max ==> WrapiCorrected(input, min, max) == Wrapi(input, min, max)
  {
    var n := max - min;
    var w := Wrapi(input, min, max);
    var c := WrapiCorrected(input, min, max);
    WrapiCongruent(input, min, max);
    CongruentInWindow(w, c, input, n);
    assert min <= w <= max && min <= c < max;
  }

  /** Two values congruent to the same x modulo n differ by a multiple of n; if they are less than n + 1 apart, by 0 or n. */
  lemma CongruentInWindow(w: int, c: int, x: int, n: int)
    requires n > 0
    requires (w - x) % n == 0 && (c - x) % n == 0
    requires -n < w - c <= n
    ensures w == c || w == c + n
  {
    var a, b := (w - x) / n, (c - x) / n;
    DivModSplit(w - x, n);
    DivModSplit(c - x, n);
    assert w - c == a * n - b * n;
    assert a * n - b * n == (a - b) * n;
    if a - b >= 2 {
      MulAtLeast(a - b - 1, n);
    } else if a - b <= -1 {
      MulAtLeast(b - a, n);
    }
  }
}
