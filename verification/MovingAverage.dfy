/** The moving average of lib.rs: a circular buffer with a running total, over integers that do not overflow. */
module MovingAverage {

  function Zeros(n: nat): (z: seq<int>)
    ensures |z| == n && forall k | 0 <= k < n :: z[k] == 0
  {
    seq(n, _ => 0)
  }

  function Sum(s: seq<int>): int {
    if s == [] then 0 else s[0] + Sum(s[1..])
  }

  /** The last n inputs, oldest first, after n zeros. */
  function Window(inputs: seq<int>, n: nat): (w: seq<int>)
    ensures |w| == n
  {
    (Zeros(n) + inputs)[|inputs|..]
  }

  /** Position k counts back to an input, or to the zeros before the first. */
  lemma WindowAt(inputs: seq<int>, n: nat, k: nat)
    requires k < n
    ensures Window(inputs, n)[k] == if |inputs| + k < n then 0 else inputs[|inputs| - n + k]
  {}

  /** Integer division as Rust does it, towards zero. */
  function Quotient(x: int, n: nat): int
    requires n > 0
  {
    if x < 0 then -((-x) / n) else x / n
  }

  /** The average is exact up to its fraction, which is cut off towards zero. */
  lemma Truncates(x: int, n: nat)
    requires n > 0
    ensures if x < 0 then x <= Quotient(x, n) * n < x + n else x - n < Quotient(x, n) * n <= x
  {
    var m: nat := if x < 0 then -x else x;
    assert m == m / n * n + m % n;
  }

  lemma {:induction false} SumSnoc(s: seq<int>, x: int)
    ensures Sum(s + [x]) == Sum(s) + x
  {
    if s == [] {
      assert s + [x] == [x];
    } else {
      assert (s + [x])[1..] == s[1..] + [x];
      SumSnoc(s[1..], x);
    }
  }

  lemma {:induction false} SumZeros(n: nat)
    ensures Sum(Zeros(n)) == 0
  {
    if n == 0 {
    } else {
      assert Zeros(n)[1..] == Zeros(n - 1);
      SumZeros(n - 1);
    }
  }

  lemma WindowSlides(inputs: seq<int>, n: nat, x: int)
    requires n > 0
    ensures Window(inputs + [x], n) == Window(inputs, n)[1..] + [x]
    ensures Sum(Window(inputs + [x], n)) == Sum(Window(inputs, n)) - Window(inputs, n)[0] + x
  {
    assert Zeros(n) + (inputs + [x]) == (Zeros(n) + inputs) + [x];
    SumSnoc(Window(inputs, n)[1..], x);
  }

  /** The buffer read from index i, going round. */
  function Rotated(b: seq<int>, i: nat): (r: seq<int>)
    requires i <= |b|
    ensures |r| == |b|
  {
    b[i..] + b[..i]
  }

  /** Overwriting the entry at the index and moving on drops the oldest and appends the newest. */
  lemma Overwrite(b: seq<int>, i: nat, x: int)
    requires i < |b|
    ensures (i + 1) % |b| < |b|
    ensures Rotated(b[i := x], (i + 1) % |b|) == Rotated(b, i)[1..] + [x]
  {
    if i + 1 == |b| {
      assert (i + 1) % |b| == 0;
      assert b[..i] + [x] == b[i := x];
    } else {
      assert (i + 1) % |b| == i + 1;
      assert b[i := x][..i + 1] == b[..i] + [x];
    }
  }

  class MovingAverage {
    const data: array<int>
    var total: int
    var index: nat
    ghost var inputs: seq<int>

    /** The buffer holds the window starting at index and going round; the total is the window's sum. */
    ghost predicate Valid()
      reads this, data
    {
      && index < data.Length
      && Rotated(data[..], index) == Window(inputs, data.Length)
      && total == Sum(Window(inputs, data.Length))
    }

    constructor (size: nat)
      requires size > 0
      ensures Valid() && fresh(data) && data.Length == size && inputs == []
    {
      data := new int[size](_ => 0);
      total, index, inputs := 0, 0, [];
      new;
      SumZeros(size);
      assert data[..] == Zeros(size);
      assert Rotated(data[..], 0) == data[..];
      assert Window([], size) == Zeros(size);
    }

    method Update(x: int)
      requires Valid()
      modifies this, data
      ensures Valid() && inputs == old(inputs) + [x]
    {
      hide Sum;
      WindowSlides(inputs, data.Length, x);
      Overwrite(data[..], index, x);
      ghost var was := data[..];
      assert Rotated(was, index)[0] == data[index];
      total := total - data[index];
      total := total + x;
      data[index] := x;
      assert data[..] == was[index := x];
      index := (index + 1) % data.Length;
      inputs := inputs + [x];
    }

    method Avg() returns (avg: int)
      requires Valid()
      ensures avg == Quotient(Sum(Window(inputs, data.Length)), data.Length)
    {
      avg := Quotient(total, data.Length);
    }
  }

  lemma {:induction false} SumBounds(s: seq<int>, lo: int, hi: int)
    requires forall k | 0 <= k < |s| :: lo <= s[k] <= hi
    ensures lo * |s| <= Sum(s) <= hi * |s|
  {
    if s == [] {
    } else {
      SumBounds(s[1..], lo, hi);
    }
  }

  lemma MulMono(a: int, b: int, n: nat)
    requires a <= b
    ensures a * n <= b * n
  {
  }

  lemma DivBounds(x: nat, n: nat, m: int)
    requires n > 0
    ensures x >= m * n ==> x / n >= m
    ensures x <= m * n ==> x / n <= m
  {
    var q := x / n;
    assert q * n <= x < q * n + n;
    if q + 1 <= m {
      MulMono(q + 1, m, n);
    }
    if m + 1 <= q {
      MulMono(m + 1, q, n);
    }
  }

  lemma QuotientBounds(x: int, n: nat, lo: int, hi: int)
    requires n > 0 && lo * n <= x <= hi * n
    ensures lo <= Quotient(x, n) <= hi
  {
    if x < 0 {
      DivBounds(-x, n, -lo);
      DivBounds(-x, n, -hi);
    } else {
      DivBounds(x, n, lo);
      DivBounds(x, n, hi);
    }
  }

  /** The average never leaves the range of the last n inputs, so n equal inputs in a row make it exactly that input. */
  lemma AverageWithin(inputs: seq<int>, n: nat, lo: int, hi: int)
    requires n > 0 && forall k | 0 <= k < n :: lo <= Window(inputs, n)[k] <= hi
    ensures lo <= Quotient(Sum(Window(inputs, n)), n) <= hi
  {
    SumBounds(Window(inputs, n), lo, hi);
    QuotientBounds(Sum(Window(inputs, n)), n, lo, hi);
  }

  lemma {:induction false} NonNegativeSum(s: seq<int>)
    requires forall k | 0 <= k < |s| :: s[k] >= 0
    ensures Sum(s) >= 0
  {
    if s == [] {
    } else {
      NonNegativeSum(s[1..]);
    }
  }

  /** For unsigned inputs the subtraction in update never goes below zero. */
  lemma SubtractionSafe(inputs: seq<int>, n: nat)
    requires n > 0 && forall k | 0 <= k < |inputs| :: inputs[k] >= 0
    ensures 0 <= Window(inputs, n)[0] <= Sum(Window(inputs, n))
  {
    var rest := Window(inputs, n)[1..];
    NonNegativeSum(rest);
  }
}
