/** Sizing a terminal to its container (public/app.js:539-570). Cells are
    taken as 8.5 by 16 pixels; the container loses 20 pixels of padding on
    every side and a 24-pixel status bar. The column count is clamped to
    80..200 and the row count to 10..50, and the terminal is resized only
    when that changes its size. A hidden container (zero offset size) is not
    measured at all. */
module TerminalFit {
  import opened Wrappers

  datatype Size = Size(cols: int, rows: int)

  const MinCols: int := 80
  const MaxCols: int := 200
  const MinRows: int := 10
  const MaxRows: int := 50

  function Clamp(lo: int, x: int, hi: int): (r: int)
    requires lo <= hi
    ensures lo <= r <= hi
    ensures lo <= x <= hi ==> r == x
    ensures x < lo ==> r == lo
    ensures x > hi ==> r == hi
  {
    if x < lo then lo else if x > hi then hi else x
  }

  /** `Math.floor(width / 8.5)`: with a positive divisor Dafny's division is
      the floor, and `width / 8.5 == 2 * width / 17`. */
  function CellColumns(width: int): (n: int)
    ensures n * 17 <= 2 * width < (n + 1) * 17
  {
    2 * width / 17
  }

  /** `Math.floor(height / 16)`. */
  function CellRows(height: int): (n: int)
    ensures n * 16 <= height < (n + 1) * 16
  {
    height / 16
  }

  /** The size the container calls for. */
  function Target(clientWidth: int, clientHeight: int): (s: Size)
    ensures MinCols <= s.cols <= MaxCols && MinRows <= s.rows <= MaxRows
  {
    var containerWidth := clientWidth - 20 * 2;
    var containerHeight := clientHeight - 20 * 2 - 24;
    Size(Clamp(MinCols, CellColumns(containerWidth), MaxCols),
         Clamp(MinRows, CellRows(containerHeight), MaxRows))
  }

  /** `fitTerminal`: the resize it performs, if any. */
  function Fit(offsetWidth: int, offsetHeight: int, clientWidth: int, clientHeight: int, current: Size): (r: Option<Size>)
    ensures offsetWidth <= 0 || offsetHeight <= 0 ==> r == None
    ensures r.Some? ==> r.value != current
    ensures r.Some? ==> MinCols <= r.value.cols <= MaxCols && MinRows <= r.value.rows <= MaxRows
    ensures offsetWidth > 0 && offsetHeight > 0 && current != Target(clientWidth, clientHeight) ==>
      r == Some(Target(clientWidth, clientHeight))
  {
    if offsetWidth > 0 && offsetHeight > 0 then
      var t := Target(clientWidth, clientHeight);
      if current != t then Some(t) else None
    else None
  }

  /** Between the clamps, the column count is exactly the number of 8.5-pixel
      cells that fit in the padded width: they fit, and one more would not. */
  lemma ColumnsFit(clientWidth: int, clientHeight: int)
    ensures var w := clientWidth - 40;
      var c := Target(clientWidth, clientHeight).cols;
      && (MinCols < c < MaxCols ==> c * 17 <= 2 * w < (c + 1) * 17)
      && (c == MinCols <==> 2 * w < (MinCols + 1) * 17)
      && (c == MaxCols <==> 2 * w >= MaxCols * 17)
  {
  }

  /** Between the clamps, the row count is the number of 16-pixel rows that
      fit under the padding and the status bar. */
  lemma RowsFit(clientWidth: int, clientHeight: int)
    ensures var h := clientHeight - 64;
      var r := Target(clientWidth, clientHeight).rows;
      && (MinRows < r < MaxRows ==> r * 16 <= h < (r + 1) * 16)
      && (r == MinRows <==> h < (MinRows + 1) * 16)
      && (r == MaxRows <==> h >= MaxRows * 16)
  {
  }

  /** A larger container never gives a smaller terminal. */
  lemma TargetMonotone(w1: int, h1: int, w2: int, h2: int)
    requires w1 <= w2 && h1 <= h2
    ensures Target(w1, h1).cols <= Target(w2, h2).cols
    ensures Target(w1, h1).rows <= Target(w2, h2).rows
  {
  }

  /** Fitting twice at the same container size resizes at most once. */
  lemma FitSettles(ow: int, oh: int, cw: int, ch: int, current: Size)
    ensures var r := Fit(ow, oh, cw, ch, current);
      r.Some? ==> Fit(ow, oh, cw, ch, r.value) == None
  {
  }
}
