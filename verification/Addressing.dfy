/**
 Where a stream of data lands in the display RAM in horizontal addressing mode, for every window of columns and
 pages, every pointer in it and every stream, however often it wraps around.
 */
module Addressing {
  import opened Bytes
  import opened Ssd1306

  // ---------------------------------------------------------------------
  // Products and remainders
  // ---------------------------------------------------------------------

  lemma {:induction false} MulLess(a: nat, b: nat, w: nat)
    requires a < b
    ensures a * w + w <= b * w
    decreases b
  {
    assert b * w == (b - 1) * w + w;
    if a < b - 1 {
      MulLess(a, b - 1, w);
    }
  }

  lemma {:induction false} DivModUnique(q: nat, r: nat, s: nat)
    requires r < s
    ensures (q * s + r) / s == q && (q * s + r) % s == r
  {
    var x := q * s + r;
    var q', r' := x / s, x % s;
    assert x == q' * s + r';
    if q' < q {
      MulLess(q', q, s);
    } else if q < q' {
      MulLess(q, q', s);
    }
  }

  lemma {:induction false} ModNext(m: nat, s: nat)
    requires 1 <= s
    ensures (m + 1) % s == if m % s + 1 == s then 0 else m % s + 1
  {
    var q, r := m / s, m % s;
    assert m == q * s + r;
    if r + 1 == s {
      assert m + 1 == (q + 1) * s + 0;
      DivModUnique(q + 1, 0, s);
    } else {
      DivModUnique(q, r + 1, s);
    }
  }

  // ---------------------------------------------------------------------
  // The window as one line of cells
  // ---------------------------------------------------------------------

  ghost predicate InWindow(c: Controller) {
    && c.mode == Horizontal
    && c.colStart <= c.col <= c.colEnd
    && c.pageStart <= c.page <= c.pageEnd
  }

  function Width(c: Controller): (w: nat)
    requires c.colStart <= c.colEnd
    ensures 1 <= w
  {
    c.colEnd - c.colStart + 1
  }

  function Height(c: Controller): (h: nat)
    requires c.pageStart <= c.pageEnd
    ensures 1 <= h
  {
    c.pageEnd - c.pageStart + 1
  }

  function Area(height: nat, width: nat): nat {
    height * width
  }

  function Size(c: Controller): (n: nat)
    requires c.colStart <= c.colEnd && c.pageStart <= c.pageEnd
    ensures 1 <= n
  {
    Positive(Height(c), Width(c));
    Area(Height(c), Width(c))
  }

  /** Rows one after the other. */
  function Place(row: nat, column: nat, width: nat): nat {
    row * width + column
  }

  /** The place of the pointer in the window, row by row. */
  function Index(c: Controller): (k: nat)
    requires InWindow(c)
    ensures k < Size(c)
  {
    var row, column := c.page - c.pageStart, c.col - c.colStart;
    RowMajor(row, column, Height(c), Width(c));
    Place(row, column, Width(c))
  }

  /** The display RAM cell at a place of the window. */
  function CellAt(c: Controller, j: nat): (i: nat)
    requires c.colStart <= c.colEnd && c.pageStart <= c.pageEnd && j < Size(c)
    ensures i < 1024
  {
    RowColumn(j, Height(c), Width(c));
    Cell(c.pageStart + j / Width(c), c.colStart + j % Width(c))
  }

  lemma {:induction false} Positive(a: nat, b: nat)
    requires 1 <= a && 1 <= b
    ensures 1 <= a * b
  {
    MulLess(0, a, b);
  }

  lemma {:induction false} RowMajor(row: nat, column: nat, height: nat, width: nat)
    requires row < height && column < width
    ensures 0 <= row * width + column < height * width
    ensures row * width + column == height * width - 1 <==> row == height - 1 && column == width - 1
  {
    MulLess(row, height, width);
    if row < height - 1 {
      MulLess(row, height - 1, width);
      MulLess(height - 1, height, width);
    } else {
      LastRow(height, width);
    }
  }

  lemma {:induction false} LastRow(height: nat, width: nat)
    requires 1 <= height
    ensures (height - 1) * width + width == height * width
  {
  }

  lemma {:induction false} RowColumn(j: nat, height: nat, width: nat)
    requires 1 <= width && j < height * width
    ensures 0 <= j / width < height && 0 <= j % width < width
    ensures j == j / width * width + j % width
  {
    var q := j / width;
    assert j == q * width + j % width;
    if height < q {
      MulLess(height, q, width);
    }
  }

  lemma {:induction false} CellInjective(page: Page, col: Column, page': Page, col': Column)
    ensures Cell(page, col) == Cell(page', col') <==> page == page' && col == col'
  {
  }

  /** The pointer's own cell, and no other place of the window has that cell. */
  lemma {:induction false} CellOfPointer(c: Controller, j: nat)
    requires InWindow(c) && j < Size(c)
    ensures CellAt(c, Index(c)) == Cell(c.page, c.col)
    ensures CellAt(c, j) == Cell(c.page, c.col) <==> j == Index(c)
  {
    var width := Width(c);
    var row, column := c.page - c.pageStart, c.col - c.colStart;
    DivModUnique(row, column, width);
    RowColumn(j, Height(c), width);
    assert j == Index(c) <==> j / width == row && j % width == column;
    hide Cell;
    CellInjective(c.pageStart + j / width, c.colStart + j % width, c.page, c.col);
  }

  // ---------------------------------------------------------------------
  // One byte
  // ---------------------------------------------------------------------

  ghost predicate SameWindow(c: Controller, d: Controller) {
    && d.mode == c.mode
    && d.colStart == c.colStart && d.colEnd == c.colEnd
    && d.pageStart == c.pageStart && d.pageEnd == c.pageEnd
  }

  /** From one place of a window to the next: along the row, to the start of the next row, or back to the first. */
  lemma {:induction false} NextPlace(row: nat, column: nat, height: nat, width: nat)
    requires row < height && column < width
    ensures Place(row, column, width) + 1 == Area(height, width) <==> row == height - 1 && column == width - 1
    ensures Place(row, column + 1, width) == Place(row, column, width) + 1
    ensures column == width - 1 ==> Place(row + 1, 0, width) == Place(row, column, width) + 1
    ensures Place(0, 0, width) == 0
  {
    RowMajor(row, column, height, width);
    assert (row + 1) * width == row * width + width;
  }

  /** Each byte moves the pointer to the next place of the window, and from the last to the first. */
  lemma {:induction false} AdvanceIndex(c: Controller)
    requires InWindow(c)
    ensures InWindow(Advance(c)) && SameWindow(c, Advance(c))
    ensures Index(Advance(c)) == if Index(c) + 1 == Size(c) then 0 else Index(c) + 1
  {
    hide Place, Area;
    NextPlace(c.page - c.pageStart, c.col - c.colStart, Height(c), Width(c));
  }

  // ---------------------------------------------------------------------
  // A stream of bytes
  // ---------------------------------------------------------------------

  function FeedData(c: Controller, bs: seq<byte>): Controller {
    if bs == [] then c else DataByte(FeedData(c, bs[..|bs| - 1]), bs[|bs| - 1])
  }

  lemma {:induction false} DataIsFed(c: Controller, bs: seq<byte>)
    ensures Feed(c, Line(true, bs)) == FeedData(c, bs)
  {
    hide DataByte;
    if bs != [] {
      var ws := Line(true, bs);
      assert ws[..|ws| - 1] == Line(true, bs[..|bs| - 1]);
      DataIsFed(c, bs[..|bs| - 1]);
    }
  }

  /** One byte: written at the pointer, and the pointer moves on. */
  lemma {:induction false} DataByteLands(c: Controller, b: byte)
    requires InWindow(c)
    ensures InWindow(DataByte(c, b)) && SameWindow(c, DataByte(c, b))
    ensures Index(DataByte(c, b)) == if Index(c) + 1 == Size(c) then 0 else Index(c) + 1
    ensures DataByte(c, b).ram == c.ram[Cell(c.page, c.col) := b]
  {
    hide Place, Area, Cell, Advance;
    AdvanceIndex(c.(ram := c.ram[Cell(c.page, c.col) := b]));
  }

  lemma {:induction false} SameSize(c: Controller, d: Controller)
    requires InWindow(c) && InWindow(d) && SameWindow(c, d)
    ensures Size(d) == Size(c)
  {
  }

  /** The pointer after a stream: as many places on as there were bytes, around the window. */
  lemma {:induction false} StreamIndex(c: Controller, bs: seq<byte>)
    requires InWindow(c)
    ensures InWindow(FeedData(c, bs)) && SameWindow(c, FeedData(c, bs))
    ensures Index(FeedData(c, bs)) == (Index(c) + |bs|) % Size(c)
  {
    hide Place, Area, DataByte, Width, Height;
    if bs == [] {
      DivModUnique(0, Index(c), Size(c));
    } else {
      var before := FeedData(c, bs[..|bs| - 1]);
      StreamIndex(c, bs[..|bs| - 1]);
      DataByteLands(before, bs[|bs| - 1]);
      SameSize(c, before);
      hide Index, InWindow, Size;
      ModNext(Index(c) + |bs| - 1, Size(c));
    }
  }

  /** How far ahead of place k place j lies, around a window of s places. */
  function Distance(k: nat, j: nat, s: nat): (d: nat)
    requires k < s && j < s
    ensures d < s
  {
    if k <= j then j - k else j - k + s
  }

  lemma {:induction false} Rounds(k: nat, j: nat, n: nat, s: nat, q: nat)
    requires k < s && j < s && k + n == q * s + j
    ensures Distance(k, j, s) <= n && (n - Distance(k, j, s)) % s == 0
  {
    if k <= j {
      DivModUnique(q, 0, s);
    } else {
      if q > 0 {
        assert (q - 1) * s == q * s - s;
        DivModUnique(q - 1, 0, s);
      }
    }
  }

  lemma {:induction false} RoundsBack(k: nat, j: nat, n: nat, s: nat, m: nat)
    requires k < s && j < s && n == Distance(k, j, s) + m * s
    ensures (k + n) % s == j
  {
    if k <= j {
      DivModUnique(m, j, s);
    } else {
      assert (m + 1) * s == m * s + s;
      DivModUnique(m + 1, j, s);
    }
  }

  /** A pointer that starts at k is at j after n bytes exactly when n is the distance and some rounds. */
  lemma {:induction false} Landing(k: nat, j: nat, n: nat, s: nat)
    requires k < s && j < s
    ensures (k + n) % s == j <==> Distance(k, j, s) <= n && (n - Distance(k, j, s)) % s == 0
  {
    var d := Distance(k, j, s);
    hide Distance;
    if (k + n) % s == j {
      Rounds(k, j, n, s, (k + n) / s);
    }
    if d <= n && (n - d) % s == 0 {
      RoundsBack(k, j, n, s, (n - d) / s);
    }
  }

  /** The last of n bytes to reach a place at distance d: the latest whole round back from the end. */
  function LastByte(n: nat, d: nat, s: nat): (i: nat)
    requires d < n && 1 <= s
    ensures i < n
  {
    n - 1 - (n - 1 - d) % s
  }

  /** The last of n bytes either reaches place j, or leaves whatever byte reached it last. */
  lemma {:induction false} LastByteStep(k: nat, j: nat, n: nat, s: nat)
    requires k < s && j < s && 1 <= n
    ensures var d := Distance(k, j, s);
      if (k + n - 1) % s == j then d < n && LastByte(n, d, s) == n - 1
      else (d < n <==> d < n - 1) && (d < n - 1 ==> LastByte(n, d, s) == LastByte(n - 1, d, s))
  {
    var d := Distance(k, j, s);
    Landing(k, j, n - 1, s);
    hide Distance;
    if d < n - 1 {
      ModNext(n - 2 - d, s);
    } else if d == n - 1 {
      DivModUnique(0, 0, s);
    }
  }

  lemma {:induction false} OneWrite(c: Controller, b: byte, j: nat)
    requires InWindow(c) && j < Size(c)
    ensures DataByte(c, b).ram[CellAt(c, j)] == if j == Index(c) then b else c.ram[CellAt(c, j)]
  {
    CellOfPointer(c, j);
    DataByteLands(c, b);
    hide CellAt, Index, Size, InWindow, DataByte;
  }

  /** The content of every cell of the window after a stream: the last byte that wrapped around to it, if any. */
  lemma {:induction false} StreamCell(c: Controller, bs: seq<byte>, j: nat)
    requires InWindow(c) && j < Size(c)
    ensures var d := Distance(Index(c), j, Size(c));
      FeedData(c, bs).ram[CellAt(c, j)] ==
        if d < |bs| then bs[LastByte(|bs|, d, Size(c))] else c.ram[CellAt(c, j)]
  {
    hide DataByte, CellAt, SameWindow, Index, Size, Distance, LastByte;
    if bs != [] {
      var front := bs[..|bs| - 1];
      var before := FeedData(c, front);
      StreamCell(c, front, j);
      StreamIndex(c, front);
      SameCells(c, before, j);
      OneWrite(before, bs[|bs| - 1], j);
      LastByteStep(Index(c), j, |bs|, Size(c));
    }
  }

  lemma {:induction false} SameCells(c: Controller, d: Controller, j: nat)
    requires InWindow(c) && InWindow(d) && SameWindow(c, d) && j < Size(c)
    ensures Size(d) == Size(c) && CellAt(d, j) == CellAt(c, j)
  {
  }

  lemma {:induction false} OneWriteOutside(c: Controller, b: byte, page: Page, col: Column)
    requires InWindow(c)
    requires !(c.pageStart <= page <= c.pageEnd && c.colStart <= col <= c.colEnd)
    ensures DataByte(c, b).ram[Cell(page, col)] == c.ram[Cell(page, col)]
  {
  }

  /** A stream leaves the cells outside the window alone. */
  lemma {:induction false} StreamOutside(c: Controller, bs: seq<byte>, page: Page, col: Column)
    requires InWindow(c)
    requires !(c.pageStart <= page <= c.pageEnd && c.colStart <= col <= c.colEnd)
    ensures FeedData(c, bs).ram[Cell(page, col)] == c.ram[Cell(page, col)]
  {
    hide DataByte, Cell, Index, Size;
    if bs != [] {
      StreamOutside(c, bs[..|bs| - 1], page, col);
      StreamIndex(c, bs[..|bs| - 1]);
      OneWriteOutside(FeedData(c, bs[..|bs| - 1]), bs[|bs| - 1], page, col);
    }
  }

  /** The pointer comes back to where it was exactly after whole rounds of the window. */
  lemma {:induction false} PointerReturns(c: Controller, bs: seq<byte>)
    requires InWindow(c)
    ensures InWindow(FeedData(c, bs))
    ensures Index(FeedData(c, bs)) == Index(c) <==> |bs| % Size(c) == 0
  {
    StreamIndex(c, bs);
    hide Index, InWindow, FeedData, Size;
    Landing(Index(c), Index(c), |bs|, Size(c));
  }

  /** In page addressing mode, which a reset selects, a stream never leaves the page of the pointer. */
  lemma {:induction false} PagedStreamStaysOnPage(c: Controller, bs: seq<byte>, page: Page, col: Column)
    requires c.mode == Paged && page != c.page
    ensures FeedData(c, bs).mode == Paged && FeedData(c, bs).page == c.page
    ensures FeedData(c, bs).ram[Cell(page, col)] == c.ram[Cell(page, col)]
  {
    if bs != [] {
      PagedStreamStaysOnPage(c, bs[..|bs| - 1], page, col);
    }
  }
}
