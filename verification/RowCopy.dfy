/** The loop that draws a decoded image on the screen, with its meaning cell by cell; line numbers
    are those of ext/Aga.Controls/GifDecoder.cs. */
module RowCopy {
  import opened Bits
  import opened RowPlacement

  /** An image of iw by ih pixels at (ix, iy) on a screen of width by height cells. */
  datatype Geometry = Geometry(ix: nat, iy: nat, iw: nat, ih: nat, interlace: bool, width: nat, height: nat)

  /** A decoded image: pixel indices row by row as transmitted, and the active colour table. */
  datatype Picture = Picture(g: Geometry, indices: seq<byte>, colours: seq<int>)

  /** The number of cells of a rectangle. */
  function Area(w: int, h: int): nat
    requires w >= 0 && h >= 0
  {
    Times(0, h, w);
    w * h
  }

  predicate WellSized(p: Picture) {
    Area(p.g.iw, p.g.ih) <= |p.indices| && |p.colours| == 256
  }

  /** The source row that goes to this line of the image, of the first `rows`; -1 if none does. */
  function RowFor(g: Geometry, line: int, rows: nat): (row: int)
    ensures -1 <= row < rows
    ensures row >= 0 ==> LineOf(g.interlace, g.ih, row) == line
  {
    if rows == 0 then -1
    else if LineOf(g.interlace, g.ih, rows - 1) == line then rows - 1
    else RowFor(g, line, rows - 1)
  }

  function PixelIndex(p: Picture, row: nat, column: nat): (k: nat)
    requires WellSized(p) && row < p.g.ih && column < p.g.iw
    ensures k < |p.indices|
  {
    RowMajor(row, column, p.g.iw, p.g.ih);
    row * p.g.iw + column
  }

  /** What screen cell (x, y), showing `old`, shows once the first `rows` source rows are drawn: the
      colour of its pixel, if the image covers the cell with a colour that is not zero. */
  function Drawn(p: Picture, x: nat, y: nat, rows: nat, was: int): int
    requires WellSized(p) && rows <= p.g.ih
  {
    var row := RowFor(p.g, y - p.g.iy, rows);
    if row >= 0 && p.g.ix <= x < p.g.ix + p.g.iw then
      var colour := p.colours[p.indices[PixelIndex(p, row, x - p.g.ix)]];
      if colour != 0 then colour else was
    else was
  }

  /** Cell (x, y) of `after` is as drawing over `before` leaves it. */
  predicate CellDrawn(p: Picture, before: seq<int>, after: seq<int>, rows: nat, x: nat, y: nat)
    requires WellSized(p) && rows <= p.g.ih && x < p.g.width && y < p.g.height
    requires |before| == |after| && p.g.width * p.g.height <= |before|
  {
    RowMajor(y, x, p.g.width, p.g.height);
    after[y * p.g.width + x] == Drawn(p, x, y, rows, before[y * p.g.width + x])
  }

  /** All screen cells are drawn, and what follows them in the array is unchanged. */
  predicate ScreenDrawn(p: Picture, before: seq<int>, after: seq<int>, rows: nat)
    requires WellSized(p) && rows <= p.g.ih
  {
    var cells := p.g.width * p.g.height;
    && cells <= |before| == |after| && before[cells..] == after[cells..]
    && (forall x, y | 0 <= x < p.g.width && 0 <= y < p.g.height :: CellDrawn(p, before, after, rows, x, y))
  }

  lemma RowMajor(row: nat, column: nat, width: nat, height: nat)
    requires row < height && column < width
    ensures 0 <= row * width <= row * width + column < row * width + width <= width * height
  {
    Times(row, height - 1, width);
  }

  lemma Times(a: int, b: int, n: nat)
    ensures a <= b ==> a * n <= b * n
    ensures (b + 1) * n == b * n + n
  {
  }

  /** Cells of different rows are in disjoint stretches of the array. */
  lemma RowsApart(x: nat, y: nat, line: nat, width: nat)
    requires x < width && y != line
    ensures y * width + x < line * width || line * width + width <= y * width + x
  {
    if y < line {
      Times(y, line - 1, width);
      Times(y + 1, line, width);
    } else {
      Times(line + 1, y, width);
      Times(line, line, width);
    }
  }

  /** One row drawn: cells [lo, hi) of the array take the colours of pixels sx, sx + 1, ... */
  predicate Stretch(p: Picture, before: seq<int>, after: seq<int>, lo: nat, hi: nat, sx: nat)
    requires WellSized(p) && |before| == |after| && hi <= |before|
    requires sx <= |p.indices| && sx + hi - lo <= |p.indices|
  {
    forall k | 0 <= k < |before| :: after[k] ==
      if lo <= k < hi && p.colours[p.indices[sx + k - lo]] != 0 then p.colours[p.indices[sx + k - lo]] else before[k]
  }

  method CopyStretch(ghost p: Picture, pixels: array<byte>, act: array<int>, dest: array<int>, dx0: nat,
                     dlim: nat, sx0: nat)
    requires WellSized(p) && act[..] == p.colours && p.indices <= pixels[..]
    requires dest != act && dlim <= dest.Length && sx0 <= |p.indices| && sx0 + dlim - dx0 <= |p.indices|
    modifies dest
    ensures Stretch(p, old(dest[..]), dest[..], dx0, dlim, sx0)
  {
    var dx, sx := dx0, sx0;
    while dx < dlim
      invariant dx0 <= dx && (dx <= dlim || dx == dx0) && sx == sx0 + dx - dx0
      invariant dx0 <= dlim ==> Stretch(p, old(dest[..]), dest[..], dx0, dx, sx0)
      invariant dx == dx0 ==> dest[..] == old(dest[..])
    {
      var index := pixels[sx];
      sx := sx + 1;
      assert index == p.indices[sx0 + dx - dx0];
      var c := act[index];
      assert c == p.colours[index];
      if c != 0 {
        dest[dx] := c;
      }
      dx := dx + 1;
    }
  }

  /** No row before `rows` goes to the line of row `rows`. */
  lemma {:induction false} LineIsNew(g: Geometry, row: nat, rows: nat)
    requires rows <= row < g.ih
    ensures RowFor(g, LineOf(g.interlace, g.ih, row), rows) == -1
    decreases rows
  {
    hide LineOf;
    if rows > 0 {
      LinesDiffer(g.interlace, g.ih, rows - 1, row);
      LineIsNew(g, row, rows - 1);
    }
  }

  /** Drawing the next row, clipped at the right edge, keeps every cell as it is to be. */
  lemma CellStep(p: Picture, before: seq<int>, mid: seq<int>, after: seq<int>, row: nat, x: nat, y: nat, line: nat)
    requires WellSized(p) && row < p.g.ih && x < p.g.width && y < p.g.height
    requires |before| == |mid| == |after| && p.g.width * p.g.height <= |before|
    requires line == p.g.iy + LineOf(p.g.interlace, p.g.ih, row)
    requires CellDrawn(p, before, mid, row, x, y)
    requires var k, lo := y * p.g.width + x, line * p.g.width + p.g.ix;
             0 <= k < |before| && after[k] ==
               (if lo <= k < lo + p.g.iw && k < line * p.g.width + p.g.width
                then
                  PixelBound(p, row, k - lo);
                  var c := p.colours[p.indices[row * p.g.iw + k - lo]];
                  if c != 0 then c else mid[k]
                else mid[k])
    ensures CellDrawn(p, before, after, row + 1, x, y)
  {
    if y == line {
      LineIsNew(p.g, row, row);
    } else {
      RowsApart(x, y, line, p.g.width);
      assert RowFor(p.g, y - p.g.iy, row + 1) == RowFor(p.g, y - p.g.iy, row);
    }
  }

  lemma PixelBound(p: Picture, row: nat, column: nat)
    requires WellSized(p) && row < p.g.ih && column < p.g.iw
    ensures 0 <= row * p.g.iw + column < |p.indices|
  {
    RowMajor(row, column, p.g.iw, p.g.ih);
  }

  lemma RowStep(p: Picture, before: seq<int>, mid: seq<int>, after: seq<int>, row: nat, line: nat, hi: nat)
    requires WellSized(p) && row < p.g.ih && line < p.g.height && ScreenDrawn(p, before, mid, row)
    requires line == p.g.iy + LineOf(p.g.interlace, p.g.ih, row)
    requires |mid| == |after| && hi <= |mid| && 0 <= row * p.g.iw <= |p.indices|
    requires 0 <= line * p.g.width
    requires var lo, edge := line * p.g.width + p.g.ix, line * p.g.width + p.g.width;
             hi == (if edge < lo + p.g.iw then edge else lo + p.g.iw) &&
             row * p.g.iw + hi - lo <= |p.indices| && Stretch(p, mid, after, lo, hi, row * p.g.iw)
    ensures ScreenDrawn(p, before, after, row + 1)
  {
    var cells, rows := p.g.width * p.g.height, row + 1;
    if p.g.width > 0 {
      RowMajor(line, 0, p.g.width, p.g.height);
    }
    forall x, y | 0 <= x < p.g.width && 0 <= y < p.g.height
      ensures CellDrawn(p, before, after, rows, x, y)
    {
      RowMajor(y, x, p.g.width, p.g.height);
      CellStep(p, before, mid, after, row, x, y, line);
    }
  }

  lemma NothingDrawn(p: Picture, before: seq<int>)
    requires WellSized(p) && p.g.width * p.g.height <= |before|
    ensures ScreenDrawn(p, before, before, 0)
    ensures p.g.interlace ==> PassState(p.g.ih, 0, 1, 8, 0)
  {
  }

  lemma PlainLine(height: nat, row: nat)
    ensures LineOf(false, height, row) == row
  {
  }

  lemma RowOffScreen(p: Picture, before: seq<int>, after: seq<int>, row: nat)
    requires WellSized(p) && row < p.g.ih && ScreenDrawn(p, before, after, row)
    requires p.g.height <= p.g.iy + LineOf(p.g.interlace, p.g.ih, row)
    ensures ScreenDrawn(p, before, after, row + 1)
  {
    var rows := row + 1;
    forall x, y | 0 <= x < p.g.width && 0 <= y < p.g.height
      ensures CellDrawn(p, before, after, rows, x, y)
    {
      RowMajor(y, x, p.g.width, p.g.height);
      assert CellDrawn(p, before, after, row, x, y);
    }
  }

  /** Lines 255-308: draws the image over the screen contents in `dest`. */
  method CopyRows(g: Geometry, ghost p: Picture, pixels: array<byte>, act: array<int>, dest: array<int>)
    requires WellSized(p) && act[..] == p.colours && p.indices <= pixels[..]
    requires dest != act && dest as object != pixels && p.g == g && g.width * g.height <= dest.Length
    modifies dest
    ensures ScreenDrawn(p, old(dest[..]), dest[..], p.g.ih)
  {
    NothingDrawn(p, dest[..]);
    hide LineOf, CellDrawn, Drawn;
    var pass, inc, iline := 1, 8, 0;
    var i := 0;
    while i < g.ih
      invariant i <= g.ih && act[..] == p.colours && p.indices <= pixels[..]
      invariant g.interlace ==> PassState(g.ih, i, pass, inc, iline)
      invariant ScreenDrawn(p, old(dest[..]), dest[..], i)
    {
      PlainLine(g.ih, i);
      var line := i;
      if g.interlace {
        ghost var pass0, inc0, iline0 := pass, inc, iline;
        if iline >= g.ih {
          pass := pass + 1;
          if pass == 2 {
            iline := 4;
          } else if pass == 3 {
            iline, inc := 2, 4;
          } else if pass == 4 {
            iline, inc := 1, 2;
          }
        }
        PassStep(g.ih, i, pass0, inc0, iline0, pass, inc, iline);
        line := iline;
        iline := iline + inc;
      }
      line := line + g.iy;
      if line < g.height {
        DrawLine(g, p, pixels, act, dest, i, line, old(dest[..]));
      } else {
        RowOffScreen(p, old(dest[..]), dest[..], i);
      }
      i := i + 1;
    }
  }

  /** Lines 288-306: draws one source row, clipped at the right edge of the screen. */
  method DrawLine(g: Geometry, ghost p: Picture, pixels: array<byte>, act: array<int>, dest: array<int>, i: nat,
                  line: nat, ghost before: seq<int>)
    requires p.g == g && WellSized(p) && act[..] == p.colours && p.indices <= pixels[..]
    requires dest != act && dest as object != pixels && i < p.g.ih && line < p.g.height
    requires line == p.g.iy + LineOf(p.g.interlace, p.g.ih, i)
    requires ScreenDrawn(p, before, dest[..], i)
    modifies dest
    ensures ScreenDrawn(p, before, dest[..], i + 1)
  {
    RowBounds(p, i, line);
    ghost var mid := dest[..];
    var k := line * g.width;
    var dx := k + g.ix;
    var dlim := dx + g.iw;
    if k + g.width < dlim {
      dlim := k + g.width;
    }
    var sx := i * g.iw;
    CopyStretch(p, pixels, act, dest, dx, dlim, sx);
    RowStep(p, before, mid, dest[..], i, line, dlim);
  }

  lemma RowBounds(p: Picture, row: nat, line: nat)
    requires WellSized(p) && row < p.g.ih && line < p.g.height
    ensures 0 <= row * p.g.iw && row * p.g.iw + p.g.iw <= |p.indices|
    ensures 0 <= line * p.g.width && line * p.g.width + p.g.width <= p.g.width * p.g.height
  {
    Times(row, p.g.ih - 1, p.g.iw);
    Times(line, p.g.height - 1, p.g.width);
  }

  /** What cell (x, y), showing `was`, shows when every pixel is drawn at its own place in the
      deinterlaced image. */
  function AtItsPlace(p: Picture, x: nat, y: nat, was: int): int
    requires WellSized(p)
  {
    var g := p.g;
    if g.iy <= y < g.iy + g.ih && g.ix <= x < g.ix + g.iw then
      var row := if g.interlace then RowOf(g.ih, y - g.iy) else y - g.iy;
      if row < g.ih then
        var colour := p.colours[p.indices[PixelIndex(p, row, x - g.ix)]];
        if colour != 0 then colour else was
      else was
    else was
  }

  /** Where the line order is that of Appendix E (or plain), a cell shows the colour of the pixel at
      its own place in the deinterlaced image exactly when the image covers the cell and that
      colour is not zero; otherwise it shows what it showed before. */
  lemma DeinterlacedCell(p: Picture, x: nat, y: nat, was: int)
    requires WellSized(p) && !(p.g.interlace && TooLow(p.g.ih))
    ensures Drawn(p, x, y, p.g.ih, was) == AtItsPlace(p, x, y, was)
    ensures p.g.interlace && p.g.iy <= y < p.g.iy + p.g.ih ==> RowOf(p.g.ih, y - p.g.iy) < p.g.ih
  {
    var g := p.g;
    if g.iy <= y < g.iy + g.ih {
      var row := if g.interlace then RowOf(g.ih, y - g.iy) else y - g.iy;
      if g.interlace { LineOfRow(g.ih, y - g.iy); }
      hide LineOf, RowOf;
      RowForLine(g, row, g.ih);
    } else {
      NoRowFor(g, y - g.iy, g.ih);
    }
  }

  predicate CellPlaced(p: Picture, before: seq<int>, after: seq<int>, x: nat, y: nat)
    requires WellSized(p) && x < p.g.width && y < p.g.height
    requires |before| == |after| && p.g.width * p.g.height <= |before|
  {
    RowMajor(y, x, p.g.width, p.g.height);
    after[y * p.g.width + x] == AtItsPlace(p, x, y, before[y * p.g.width + x])
  }

  /** Every pixel is drawn at its own place. */
  predicate ScreenPlaced(p: Picture, before: seq<int>, after: seq<int>)
    requires WellSized(p)
  {
    var cells := p.g.width * p.g.height;
    && cells <= |before| == |after| && before[cells..] == after[cells..]
    && (forall x, y | 0 <= x < p.g.width && 0 <= y < p.g.height :: CellPlaced(p, before, after, x, y))
  }

  lemma DrawnIsPlaced(p: Picture, before: seq<int>, after: seq<int>)
    requires WellSized(p) && !(p.g.interlace && TooLow(p.g.ih))
    ensures ScreenDrawn(p, before, after, p.g.ih) <==> ScreenPlaced(p, before, after)
  {
    var cells := p.g.width * p.g.height;
    if cells <= |before| == |after| {
      forall x, y | 0 <= x < p.g.width && 0 <= y < p.g.height
        ensures CellDrawn(p, before, after, p.g.ih, x, y) == CellPlaced(p, before, after, x, y)
      {
        RowMajor(y, x, p.g.width, p.g.height);
        DeinterlacedCell(p, x, y, before[y * p.g.width + x]);
        hide Drawn, AtItsPlace;
      }
    }
    hide CellDrawn, CellPlaced;
  }

  lemma {:induction false} RowForLine(g: Geometry, row: nat, rows: nat)
    requires row < rows <= g.ih
    ensures RowFor(g, LineOf(g.interlace, g.ih, row), rows) == row
    decreases rows
  {
    hide LineOf;
    if row < rows - 1 {
      LinesDiffer(g.interlace, g.ih, row, rows - 1);
      RowForLine(g, row, rows - 1);
    }
  }

  lemma {:induction false} NoRowFor(g: Geometry, line: int, rows: nat)
    requires rows <= g.ih && !(g.interlace && TooLow(g.ih)) && !(0 <= line < g.ih)
    ensures RowFor(g, line, rows) == -1
    decreases rows
  {
    if rows > 0 {
      if g.interlace { RowOfLine(g.ih, rows - 1); }
      NoRowFor(g, line, rows - 1);
    }
  }
}
