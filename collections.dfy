/**
 * The indexed iterators of Extensions/CollectionExtensions.cs: pairing each element with its
 * position, filtering by a predicate that is told the element's position in the source, and
 * filtering and mapping in one pass. The source is a finite sequence and the delegates are
 * pure functions.
 */
module Collections {

  /** The positions `Where` keeps: those `i` whose element satisfies `pred(s[i], i)`, in order. */
  function Positions<T>(s: seq<T>, pred: (T, int) -> bool): (ps: seq<int>)
    ensures forall j :: 0 <= j < |ps| ==> 0 <= ps[j] < |s|
    ensures forall j, k :: 0 <= j < k < |ps| ==> ps[j] < ps[k]
  {
    if s == [] then []
    else
      var n := |s| - 1;
      Positions(s[..n], pred) + (if pred(s[n], n) then [n] else [])
  }

  /** The elements `Where` yields, defined one element at a time from the front to the back. */
  function Kept<T>(s: seq<T>, pred: (T, int) -> bool): seq<T>
  {
    if s == [] then []
    else
      var n := |s| - 1;
      Kept(s[..n], pred) + (if pred(s[n], n) then [s[n]] else [])
  }

  /** The results `SelectWhere` yields, defined like `Kept`. */
  function Chosen<T, U>(s: seq<T>, pred: (T, int) -> bool, selector: (T, int) -> U): seq<U>
  {
    if s == [] then []
    else
      var n := |s| - 1;
      Chosen(s[..n], pred, selector) + (if pred(s[n], n) then [selector(s[n], n)] else [])
  }

  /** The index-free filter, as a reference definition. */
  function Filter<T>(s: seq<T>, pred: T -> bool): seq<T>
  {
    if s == [] then [] else (if pred(s[0]) then [s[0]] else []) + Filter(s[1..], pred)
  }

  /** The index-free map, as a reference definition. */
  function Map<T, U>(s: seq<T>, f: T -> U): (r: seq<U>)
    ensures |r| == |s| && forall i :: 0 <= i < |s| ==> r[i] == f(s[i])
  {
    if s == [] then [] else [f(s[0])] + Map(s[1..], f)
  }

  /** The predicate is asked at the element's position in the source: `i` is kept exactly when `pred(s[i], i)`. */
  lemma {:induction false} PositionsExact<T>(s: seq<T>, pred: (T, int) -> bool)
    ensures forall i :: i in Positions(s, pred) <==> 0 <= i < |s| && pred(s[i], i)
  {
    if s != [] {
      var n := |s| - 1;
      PositionsExact(s[..n], pred);
      forall i | 0 <= i < n
        ensures s[..n][i] == s[i]
      {
      }
    }
  }

  /** `Where` yields, in order, the elements at the kept positions and nothing else. */
  lemma {:induction false} KeptAtPositions<T>(s: seq<T>, pred: (T, int) -> bool)
    ensures var ps := Positions(s, pred);
      |Kept(s, pred)| == |ps| && forall j :: 0 <= j < |ps| ==> Kept(s, pred)[j] == s[ps[j]]
  {
    if s != [] {
      var n := |s| - 1;
      KeptAtPositions(s[..n], pred);
    }
  }

  /** `SelectWhere` yields, in order, the selector applied to each kept element and its position. */
  lemma {:induction false} ChosenAtPositions<T, U>(s: seq<T>, pred: (T, int) -> bool, selector: (T, int) -> U)
    ensures var ps := Positions(s, pred);
      |Chosen(s, pred, selector)| == |ps|
      && forall j :: 0 <= j < |ps| ==> Chosen(s, pred, selector)[j] == selector(s[ps[j]], ps[j])
  {
    if s != [] {
      var n := |s| - 1;
      ChosenAtPositions(s[..n], pred, selector);
    }
  }

  /** Filtering and mapping in one pass is mapping the selector, with the original positions, over what `Where` keeps. */
  lemma ChosenIsMappedKept<T, U>(s: seq<T>, pred: (T, int) -> bool, selector: (T, int) -> U)
    ensures var ps, kept := Positions(s, pred), Kept(s, pred);
      && |Chosen(s, pred, selector)| == |kept| == |ps|
      && forall j :: 0 <= j < |ps| ==> Chosen(s, pred, selector)[j] == selector(kept[j], ps[j])
  {
    KeptAtPositions(s, pred);
    ChosenAtPositions(s, pred, selector);
  }

  /** With the index ignored by both delegates, `Chosen` is the plain filter followed by the plain map. */
  lemma {:induction false} IgnoringIndex<T, U>(s: seq<T>, pred: (T, int) -> bool, p: T -> bool, selector: (T, int) -> U, f: T -> U)
    requires forall x, i :: pred(x, i) == p(x)
    requires forall x, i :: selector(x, i) == f(x)
    ensures Chosen(s, pred, selector) == Map(Filter(s, p), f)
  {
    if s != [] {
      var n := |s| - 1;
      IgnoringIndex(s[..n], pred, p, selector, f);
      FilterSnoc(s[..n], s[n], p);
      assert s[..n] + [s[n]] == s;
      MapAppend(Filter(s[..n], p), if p(s[n]) then [s[n]] else [], f);
    }
  }

  lemma {:induction false} FilterSnoc<T>(s: seq<T>, x: T, p: T -> bool)
    ensures Filter(s + [x], p) == Filter(s, p) + (if p(x) then [x] else [])
  {
    if s != [] {
      FilterSnoc(s[1..], x, p);
      assert (s + [x])[1..] == s[1..] + [x];
    }
  }

  lemma MapAppend<T, U>(a: seq<T>, b: seq<T>, f: T -> U)
    ensures Map(a + b, f) == Map(a, f) + Map(b, f)
  {
  }

  /** `ToIndex`: each element with its position, as many pairs as elements. */
  method ToIndex<T>(source: seq<T>) returns (out: seq<(T, int)>)
    ensures |out| == |source|
    ensures forall i :: 0 <= i < |source| ==> out[i] == (source[i], i)
  {
    out := [];
    var index := 0;
    while index < |source|
      invariant 0 <= index <= |source| && |out| == index
      invariant forall i :: 0 <= i < index ==> out[i] == (source[i], i)
    {
      out := out + [(source[index], index)];
      index := index + 1;
    }
  }

  /** `Where` with the position: the counter advances for every element, kept or not. */
  method Where<T>(source: seq<T>, pred: (T, int) -> bool) returns (out: seq<T>)
    ensures out == Kept(source, pred)
  {
    out := [];
    var index := 0;
    while index < |source|
      invariant 0 <= index <= |source|
      invariant out == Kept(source[..index], pred)
    {
      assert source[..index + 1][..index] == source[..index];
      if pred(source[index], index) {
        out := out + [source[index]];
      }
      index := index + 1;
    }
    assert source[..index] == source;
  }

  /** `SelectWhere` with positions for both delegates: the selector sees the same position the predicate did. */
  method SelectWhere<T, U>(source: seq<T>, pred: (T, int) -> bool, selector: (T, int) -> U) returns (out: seq<U>)
    ensures out == Chosen(source, pred, selector)
  {
    out := [];
    var index := 0;
    while index < |source|
      invariant 0 <= index <= |source|
      invariant out == Chosen(source[..index], pred, selector)
    {
      assert source[..index + 1][..index] == source[..index];
      if pred(source[index], index) {
        out := out + [selector(source[index], index)];
      }
      index := index + 1;
    }
    assert source[..index] == source;
  }

  /** The delegate the index-free overloads pass on: the position is dropped. */
  function IgnoreIndex<T, U>(f: T -> U): (T, int) -> U
  {
    (item: T, _: int) => f(item)
  }

  /** `SelectWhere` with index-free delegates: the plain filter, then the plain map. */
  method SelectWhereUnindexed<T, U>(source: seq<T>, pred: T -> bool, selector: T -> U) returns (out: seq<U>)
    ensures out == Map(Filter(source, pred), selector)
  {
    out := SelectWhere(source, IgnoreIndex(pred), IgnoreIndex(selector));
    IgnoringIndex(source, IgnoreIndex(pred), pred, IgnoreIndex(selector), selector);
  }

  /** `SelectWhere` with an indexed predicate and an index-free selector: the selector applied to what `Where` keeps. */
  method SelectWhereIndexedFilter<T, U>(source: seq<T>, pred: (T, int) -> bool, selector: T -> U) returns (out: seq<U>)
    ensures out == Map(Kept(source, pred), selector)
  {
    out := SelectWhere(source, pred, IgnoreIndex(selector));
    ChosenIsMappedKept(source, pred, IgnoreIndex(selector));
  }

  /** `SelectWhere` with an index-free predicate and an indexed selector: the selector sees each kept element's position. */
  method SelectWhereIndexedMap<T, U>(source: seq<T>, pred: T -> bool, selector: (T, int) -> U) returns (out: seq<U>)
    ensures var ps := Positions(source, IgnoreIndex(pred));
      && |out| == |ps|
      && forall j :: 0 <= j < |ps| ==> pred(source[ps[j]]) && out[j] == selector(source[ps[j]], ps[j])
  {
    out := SelectWhere(source, IgnoreIndex(pred), selector);
    ChosenAtPositions(source, IgnoreIndex(pred), selector);
    PositionsExact(source, IgnoreIndex(pred));
  }
}
