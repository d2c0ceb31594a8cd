/** Extension helpers on strings (Extensions/StringExtensions.cs). */
module Strings {

  /**
   * Bounds-checked character access: the flag says whether `index` lies in the string, and
   * the character is the one at `index`, or NUL when it does not.
   */
  function TryGet(s: string, index: int): (r: (bool, char))
    ensures r.0 <==> 0 <= index < |s|
    ensures r.0 ==> r.1 == s[index]
    ensures !r.0 ==> r.1 == '\0'
  {
    if index < 0 || index >= |s| then (false, '\0') else (true, s[index])
  }

  /** `s` written `n` times one after the other. */
  function Repeated(s: string, n: nat): string
  {
    if n == 0 then [] else Repeated(s, n - 1) + s
  }

  /** The repetition has length `|s| * n`. */
  lemma {:induction false} RepeatedLength(s: string, n: nat)
    ensures |Repeated(s, n)| == |s| * n
  {
    if n > 0 {
      RepeatedLength(s, n - 1);
    }
  }

  /** Repeating a one-character string gives `n` copies of that character. */
  lemma {:induction false} RepeatedChar(c: char, n: nat)
    ensures |Repeated([c], n)| == n
    ensures forall k :: 0 <= k < n ==> Repeated([c], n)[k] == c
  {
    if n > 0 {
      RepeatedChar(c, n - 1);
    }
  }

  /** Repeating `a` times and then `b` times is repeating `a + b` times. */
  lemma {:induction false} RepeatedAdd(s: string, a: nat, b: nat)
    ensures Repeated(s, a) + Repeated(s, b) == Repeated(s, a + b)
  {
    if b > 0 {
      RepeatedAdd(s, a, b - 1);
      assert Repeated(s, a) + Repeated(s, b) == (Repeated(s, a) + Repeated(s, b - 1)) + s;
    }
  }

  /**
   * The repetition loop: appends `s` once per pass while the counter is below `count`;
   * a count of zero or less never enters the loop and gives the empty string.
   */
  method Repeat(s: string, count: int) returns (r: string)
    ensures count <= 0 ==> r == []
    ensures count >= 0 ==> r == Repeated(s, count)
    ensures count >= 0 ==> |r| == |s| * count
  {
    r := [];
    var i := 0;
    while i < count
      invariant (count <= 0 ==> i == 0) && (count >= 0 ==> 0 <= i <= count)
      invariant r == Repeated(s, i)
    {
      r := r + s;
      i := i + 1;
    }
    if count >= 0 {
      RepeatedLength(s, count);
    }
  }
}
