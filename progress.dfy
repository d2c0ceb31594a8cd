/** Integer arithmetic of the console progress bar (Term/Progress.cs). */
module Progress {
  import opened Wrappers
  import opened Machine
  import Strings

  /** The exceptions the arithmetic can raise. */
  datatype ProgressError =
    | DivideByZero              // integer division by a zero total
    | Overflow                  // int.MinValue / -1
    | OutOfRange(param: string) // an argument check of `Bar` failed, naming the argument

  /**
   * Percentage done as the source computes it: the product `current * 100` wraps at 32
   * bits and the quotient is truncated toward zero.
   */
  function PercentComplete(current: int, total: int): (r: Result<int, ProgressError>)
    requires IsInt32(current) && IsInt32(total)
    ensures r == Err(DivideByZero) <==> total == 0
    ensures r.Ok? ==> IsInt32(r.value)
  {
    if total == 0 then Err(DivideByZero)
    else
      var product := Wrap32(current * 100);
      if product == -TwoTo31 && total == -1 then Err(Overflow)
      else
        QuotInt32(product, total);
        Ok(Quot(product, total))
  }

  /** The same percentage computed without the 32-bit wrap of the product. */
  function PercentCompleteWide(current: int, total: int): (r: Result<int, ProgressError>)
    requires IsInt32(current) && IsInt32(total)
    ensures r == Err(DivideByZero) <==> total == 0
    ensures 0 <= current <= total && total > 0 ==> r.Ok? && 0 <= r.value <= 100 && (r.value == 100 <==> current == total)
  {
    if total == 0 then Err(DivideByZero)
    else
      if 0 <= current <= total then
        ShareBounds(current, total, 100);
        Ok(Quot(current * 100, total))
      else
        Ok(Quot(current * 100, total))
  }

  /** Within the range where `current * 100` fits an `int`, both computations agree, and the share lies in 0..100. */
  lemma PercentInRange(current: int, total: int)
    requires 0 <= current <= total < TwoTo31 && 0 < total && current * 100 < TwoTo31
    ensures PercentComplete(current, total) == PercentCompleteWide(current, total)
    ensures PercentComplete(current, total) == Ok(current * 100 / total)
    ensures 0 <= current * 100 / total <= 100
  {
    ShareBounds(current, total, 100);
  }

  /** Past 21474836 items the product wraps: a finished count reports a negative share. */
  lemma PercentCompleteWrapsAtScale()
    ensures PercentComplete(21474837, 21474837) == Ok(-99)
    ensures PercentCompleteWide(21474837, 21474837) == Ok(100)
  {
    assert Wrap32(21474837 * 100) == -2147483596;
  }

  /** Truncation toward zero: a negative count gives the share rounded up, not down. */
  lemma PercentTruncatesTowardZero()
    ensures PercentComplete(-1, 3) == Ok(-33)
  {
  }

  /** `current * width / total` with 1 <= current <= total lies in 0..width, and is `width` exactly when `current == total`. */
  lemma ShareBounds(current: int, total: int, width: nat)
    requires 0 <= current <= total && 0 < total
    ensures 0 <= current * width / total <= width
    ensures width > 0 ==> (current * width / total == width <==> current == total)
  {
    var a := current * width;
    var d := a / total;
    DivisionBounds(a, total);
    MultiplyMonotone(current, total, width);
    QuotientAtMost(a, total, d, width);
    if current == total {
      QuotientAtLeast(a, total, d, width);
    } else if width > 0 {
      MultiplyMonotone(current + 1, total, width);
      assert (current + 1) * width == a + width;
      QuotientBelow(a, total, d, width);
    }
  }

  lemma QuotientAtMost(a: nat, t: nat, d: nat, w: nat)
    requires t > 0 && t * d <= a <= t * w
    ensures d <= w
  {
    if d > w {
      MultiplyMonotone(w + 1, d, t);
    }
  }

  lemma QuotientAtLeast(a: nat, t: nat, d: nat, w: nat)
    requires a == t * w && a < t * (d + 1)
    ensures w <= d
  {
    if w > d {
      MultiplyMonotone(d + 1, w, t);
    }
  }

  lemma QuotientBelow(a: nat, t: nat, d: nat, w: nat)
    requires t * d <= a && a + w <= t * w && w > 0
    ensures d < w
  {
    if d >= w {
      MultiplyMonotone(w, d, t);
    }
  }

  /** Number of completed cells as the source computes it (the product wraps at 32 bits). */
  function DoneWidth(current: int, total: int, width: int): int
    requires total != 0
  {
    Quot(Wrap32(current * width), total)
  }

  /** `Repeat` with a negative count gives the empty string, like a count of zero. */
  function Cells(s: string, count: int): string
  {
    Strings.Repeated(s, if count < 0 then 0 else count)
  }

  /**
   * The progress bar: the argument checks in the source's order, then `completed` repeated
   * for the done share of `width` followed by `pending` for the rest.
   */
  function Bar(current: int, total: int, width: int, completed: string, pending: string := " "): (r: Result<string, ProgressError>)
    requires IsInt32(current) && IsInt32(total) && IsInt32(width)
    ensures r.Err? <==> current < 1 || total < 1 || width < 1 || current > total
    ensures current < 1 ==> r == Err(OutOfRange("current"))
    ensures 1 <= current && total < 1 ==> r == Err(OutOfRange("total"))
    ensures 1 <= current && 1 <= total && width < 1 ==> r == Err(OutOfRange("width"))
    ensures 1 <= current && 1 <= total && 1 <= width && current > total ==> r == Err(OutOfRange("current"))
  {
    if current < 1 then Err(OutOfRange("current"))
    else if total < 1 then Err(OutOfRange("total"))
    else if width < 1 then Err(OutOfRange("width"))
    else if current > total then Err(OutOfRange("current"))
    else
      var done := DoneWidth(current, total, width);
      Ok(Cells(completed, done) + Cells(pending, Wrap32(width - done)))
  }

  /**
   * Under the argument checks, and while `current * width` fits an `int`, the done share lies
   * in 0..width and is all of it exactly when `current == total`; done and pending cells add
   * up to `width`, so with one-character strings the bar is `width` characters long.
   */
  lemma BarShape(current: int, total: int, width: int, completed: string, pending: string)
    requires 1 <= current <= total && 1 <= width && IsInt32(total) && IsInt32(width)
    requires current * width < TwoTo31
    ensures var done := DoneWidth(current, total, width);
      && 0 <= done <= width
      && (done == width <==> current == total)
      && Bar(current, total, width, completed, pending)
           == Ok(Strings.Repeated(completed, done) + Strings.Repeated(pending, width - done))
    ensures |completed| == 1 && |pending| == 1 ==> |Bar(current, total, width, completed, pending).value| == width
  {
    DoneShare(current, total, width);
    var done := DoneWidth(current, total, width);
    assert Wrap32(width - done) == width - done;
    if |completed| == 1 && |pending| == 1 {
      SingleCells(completed, done);
      SingleCells(pending, width - done);
    }
  }

  /** `n` copies of a one-character string are `n` characters long. */
  lemma SingleCells(s: string, n: nat)
    requires |s| == 1
    ensures |Strings.Repeated(s, n)| == n
  {
    Strings.RepeatedLength(s, n);
  }

  /** While the product fits an `int`, the done share is the exact quotient, in 0..width. */
  lemma DoneShare(current: int, total: int, width: int)
    requires 1 <= current <= total && 1 <= width && current * width < TwoTo31
    ensures var done := DoneWidth(current, total, width);
      && done == current * width / total && 0 <= done <= width && (done == width <==> current == total)
  {
    ShareBounds(current, total, width);
    var product := current * width;
    MultiplyMonotone(1, current, width);
    assert Wrap32(product) == product;
  }

  /** Without `pending` the rest of the bar is spaces: a one-character `completed` gives a bar exactly `width` long. */
  lemma DefaultPending(current: int, total: int, width: int, completed: string)
    requires 1 <= current <= total && 1 <= width && IsInt32(total) && IsInt32(width)
    requires current * width < TwoTo31
    ensures var done := DoneWidth(current, total, width);
      && 0 <= done <= width
      && Bar(current, total, width, completed) == Ok(Strings.Repeated(completed, done) + Strings.Repeated(" ", width - done))
      && (|completed| == 1 ==> |Bar(current, total, width, completed).value| == width)
  {
    BarShape(current, total, width, completed, " ");
  }
}
