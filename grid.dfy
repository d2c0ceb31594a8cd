/**
 * The two-dimensional grid of Types/Collections/Grid.cs: a flat array addressed row after
 * row, cell (x, y) at index x + y * Width. `default(T)`, which the runtime supplies, is given
 * to the constructors as `blank`.
 */
module Grids {
  import opened Wrappers
  import opened Machine

  /** The exceptions the grid can raise. */
  datatype GridError = LengthMismatch | IndexOutOfRange

  /**
   * Lies in [0, width * height) when (x, y) is in bounds, hence also in [0, height * width):
   * y * width + x < (y + 1) * width <= height * width.
   */
  lemma IndexInRange(width: int, height: int, x: int, y: int)
    requires 0 <= x < width && 0 <= y < height
    ensures 0 <= x + y * width < width * height
  {
    MultiplyMonotone(y + 1, height, width);
    assert (y + 1) * width == y * width + width;
  }

  /** Two cells in bounds with the same flat index are the same cell. */
  lemma IndexInjective(width: int, x1: int, y1: int, x2: int, y2: int)
    requires 0 <= x1 < width && 0 <= x2 < width && 0 <= y1 && 0 <= y2
    requires x1 + y1 * width == x2 + y2 * width
    ensures x1 == x2 && y1 == y2
  {
    if y1 < y2 {
      RowBefore(width, x1, y1, y2);
    } else if y2 < y1 {
      RowBefore(width, x2, y2, y1);
    }
  }

  /** A cell of an earlier row comes before every cell of row `y`. */
  lemma RowBefore(width: int, x: int, y: int, later: int)
    requires 0 <= x < width && 0 <= y < later
    ensures x + y * width < later * width
  {
    MultiplyMonotone(y + 1, later, width);
    assert (y + 1) * width == y * width + width;
  }

  class Grid<T> {
    const width: int
    const height: int
    /** `default(T)`, what `Clear` writes. */
    const blank: T
    const data: array<T>

    /** The array holds one cell per position, so every position in bounds has its cell (both constructors ensure it). */
    ghost predicate Valid()
    {
      && data.Length == width * height
      && forall x, y :: IsInBounds(x, y) ==> 0 <= IndexOf(x, y) < data.Length
    }

    /** The second half of `Valid` follows from the first. */
    lemma CellsInRange()
      requires data.Length == width * height
      ensures Valid()
    {
      forall x, y | IsInBounds(x, y) ensures 0 <= IndexOf(x, y) < data.Length {
        IndexInRange(width, height, x, y);
      }
    }

    /** `Grid(width, height)`: every cell holds `default(T)`. */
    constructor (width: int, height: int, blank: T)
      requires 0 <= width * height
      ensures this.width == width && this.height == height && this.blank == blank
      ensures Valid() && fresh(data)
      ensures forall i :: 0 <= i < data.Length ==> data[i] == blank
    {
      this.width := width;
      this.height := height;
      this.blank := blank;
      data := new T[width * height](_ => blank);
      new;
      CellsInRange();
    }

    /** `Grid(width, height, data)` once the length is known to match; the array is shared, not copied. */
    constructor WithData(width: int, height: int, data: array<T>, blank: T)
      requires data.Length == width * height
      ensures this.width == width && this.height == height && this.blank == blank
      ensures this.data == data && Valid()
    {
      this.width := width;
      this.height := height;
      this.blank := blank;
      this.data := data;
      new;
      CellsInRange();
    }

    /** `Grid(width, height, data)`: raises `ArgumentException` unless the array has exactly width * height cells. */
    static method Create(width: int, height: int, data: array<T>, blank: T) returns (r: Result<Grid<T>, GridError>)
      ensures r.Err? <==> data.Length != width * height
      ensures r.Err? ==> r.error == LengthMismatch
      ensures r.Ok? ==> r.value.width == width && r.value.height == height && r.value.data == data && r.value.Valid()
    {
      if data.Length != width * height {
        return Err(LengthMismatch);
      }
      var g := new Grid.WithData(width, height, data, blank);
      return Ok(g);
    }

    /** The flat index of (x, y); nothing checks that (x, y) is in bounds. */
    function IndexOf(x: int, y: int): int
    {
      x + y * width
    }

    predicate IsInBounds(x: int, y: int)
    {
      x >= 0 && x < width && y >= 0 && y < height
    }

    /**
     * The indexer's getter: it fails only when the flat index leaves the array, so every cell
     * in bounds can be read, and so can some positions that are not.
     */
    function Get(x: int, y: int): (r: Result<T, GridError>)
      requires Valid()
      reads data
      ensures r.Err? <==> !(0 <= IndexOf(x, y) < data.Length)
      ensures r.Err? ==> r.error == IndexOutOfRange
      ensures r.Ok? ==> r.value == data[IndexOf(x, y)]
      ensures IsInBounds(x, y) ==> r.Ok?
    {
      if 0 <= IndexOf(x, y) < data.Length then Ok(data[IndexOf(x, y)]) else Err(IndexOutOfRange)
    }

    /** The indexer's setter: the same check as the getter, then one cell is overwritten. */
    method Set(x: int, y: int, value: T) returns (r: Result<(), GridError>)
      requires Valid()
      modifies data
      ensures r.Err? <==> !(0 <= IndexOf(x, y) < data.Length)
      ensures r.Err? ==> r.error == IndexOutOfRange && unchanged(data)
      ensures r.Ok? ==> data[..] == old(data[..])[IndexOf(x, y) := value]
    {
      var i := IndexOf(x, y);
      if !(0 <= i < data.Length) {
        return Err(IndexOutOfRange);
      }
      data[i] := value;
      return Ok(());
    }

    /** `TryGet`: the cell when (x, y) is in bounds, otherwise `false` and `default(T)`. */
    function TryGet(x: int, y: int): (r: (bool, T))
      requires Valid()
      reads data
      ensures r.0 <==> IsInBounds(x, y)
      ensures r.0 ==> Get(x, y) == Ok(r.1)
      ensures !r.0 ==> r.1 == blank
    {
      if IsInBounds(x, y) then (true, data[IndexOf(x, y)]) else (false, blank)
    }

    /**
     * `TrySet`: in bounds the one cell is written and every other cell in bounds keeps its
     * value; out of bounds nothing changes.
     */
    method TrySet(x: int, y: int, value: T) returns (ok: bool)
      requires Valid()
      modifies data
      ensures ok <==> IsInBounds(x, y)
      ensures ok ==> data[..] == old(data[..])[IndexOf(x, y) := value] && TryGet(x, y) == (true, value)
      ensures ok ==> forall u, v :: IsInBounds(u, v) && (u, v) != (x, y) ==> TryGet(u, v) == old(TryGet(u, v))
      ensures !ok ==> unchanged(data)
    {
      if !IsInBounds(x, y) {
        return false;
      }
      data[IndexOf(x, y)] := value;
      forall u, v | IsInBounds(u, v) && (u, v) != (x, y) ensures data[IndexOf(u, v)] == old(data[IndexOf(u, v)]) {
        if IndexOf(u, v) == IndexOf(x, y) {
          IndexInjective(width, u, v, x, y);
        }
      }
      return true;
    }

    /** `Clear`: every cell holds `default(T)` again. */
    method Clear()
      modifies data
      ensures forall i :: 0 <= i < data.Length ==> data[i] == blank
    {
      forall i | 0 <= i < data.Length {
        data[i] := blank;
      }
    }

    /** `Fill(value)`: every cell holds `value`; the grid itself is returned. */
    method Fill(value: T) returns (g: Grid<T>)
      modifies data
      ensures g == this
      ensures forall i :: 0 <= i < data.Length ==> data[i] == value
    {
      var i := 0;
      while i < data.Length
        invariant 0 <= i <= data.Length
        invariant forall j :: 0 <= j < i ==> data[j] == value
      {
        data[i] := value;
        i := i + 1;
      }
      return this;
    }

    /** `Fill(factory)`: row after row, cell (x, y) gets `factory(x, y)`; the grid itself is returned. */
    method FillWith(factory: (int, int) -> T) returns (g: Grid<T>)
      requires Valid()
      modifies data
      ensures g == this
      ensures forall x, y :: IsInBounds(x, y) ==> TryGet(x, y) == (true, factory(x, y))
      ensures width <= 0 || height <= 0 ==> data[..] == old(data[..])
    {
      var y := 0;
      while y < height
        invariant 0 <= y && (y <= height || y == 0)
        invariant forall u, v :: 0 <= u < width && 0 <= v < y ==> data[IndexOf(u, v)] == factory(u, v)
        invariant width <= 0 || height <= 0 ==> data[..] == old(data[..])
      {
        var x := 0;
        while x < width
          invariant 0 <= x && (x <= width || x == 0)
          invariant width <= 0 || height <= 0 ==> data[..] == old(data[..])
          invariant forall u, v :: 0 <= u < width && 0 <= v < y ==> data[IndexOf(u, v)] == factory(u, v)
          invariant forall u :: 0 <= u < x ==> data[IndexOf(u, y)] == factory(u, y)
        {
          WriteKeepsEarlier(x, y);
          data[IndexOf(x, y)] := factory(x, y);
          x := x + 1;
        }
        y := y + 1;
      }
      return this;
    }

    /** The cells filled before (x, y), in row order, all have smaller flat indices. */
    lemma WriteKeepsEarlier(x: int, y: int)
      requires 0 <= x < width && 0 <= y
      ensures forall u, v :: 0 <= u < width && 0 <= v < y ==> IndexOf(u, v) < IndexOf(x, y)
      ensures forall u :: 0 <= u < x ==> IndexOf(u, y) < IndexOf(x, y)
    {
      forall u, v | 0 <= u < width && 0 <= v < y ensures IndexOf(u, v) < IndexOf(x, y) {
        RowBefore(width, u, v, y);
      }
    }
  }

  /**
   * The indexer does not check each coordinate: one past the end of a row reads the first
   * cell of the next row, though (Width, 0) is out of bounds.
   */
  lemma RowOverflowAliases<T>(g: Grid<T>)
    requires g.Valid() && g.width >= 1 && g.height >= 2
    ensures !g.IsInBounds(g.width, 0) && g.IsInBounds(0, 1)
    ensures g.Get(g.width, 0) == g.Get(0, 1) && g.Get(g.width, 0).Ok?
  {
    assert g.IsInBounds(0, 1);
  }
}
