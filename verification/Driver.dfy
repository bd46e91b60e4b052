/**
 The display driver of test_SSD1306.c: the frame buffer, the data/command line, and the panel at the other end.
 */
module Driver {
  import opened Bytes
  import opened Ssd1306
  import opened Addressing
  import opened Programs

  const SSD1306_WIDTH := 128
  const SSD1306_HEIGHT := 64
  const FRAME := SSD1306_WIDTH * SSD1306_HEIGHT / 8

  const SSD1306_COLOR_BLACK: byte := 0x00
  const SSD1306_COLOR_WHITE: byte := 0x01

  type Frame = f: seq<byte> | |f| == FRAME witness seq(FRAME, _ => 0)

  // ---------------------------------------------------------------------
  // Frames on the panel
  // ---------------------------------------------------------------------

  /** The panel is set up for whole frames, waiting for no operand, with its pointer at the origin. */
  ghost predicate Aligned(c: Controller) {
    && c.pending == []
    && c.mode == Horizontal
    && c.colStart == 0 && c.colEnd == 127 && c.pageStart == 0 && c.pageEnd == 7
    && c.col == 0 && c.page == 0
    && c.displayOn
  }

  lemma {:induction false} DataKeepsTheRest(c: Controller, bs: seq<byte>)
    ensures FeedData(c, bs).pending == c.pending && FeedData(c, bs).displayOn == c.displayOn
    ensures FeedData(c, bs).settings == c.settings
  {
    if bs != [] {
      DataKeepsTheRest(c, bs[..|bs| - 1]);
    }
  }

  lemma {:induction false} WholeSizes()
    ensures Area(8, 128) == 1024 == FRAME && Place(0, 0, 128) == 0
  {
  }

  lemma {:induction false} WholeWindow(c: Controller, j: nat)
    requires Aligned(c) && j < FRAME
    ensures InWindow(c) && Size(c) == FRAME && Index(c) == 0 && CellAt(c, j) == j
  {
    hide Place, Area;
    WholeSizes();
    assert Width(c) == 128 && Height(c) == 8;
    assert Size(c) == Area(8, 128) && Index(c) == Place(0, 0, 128);
  }

  lemma {:induction false} OriginIsIndexZero(c: Controller)
    requires InWindow(c) && Index(c) == 0
    ensures c.col == c.colStart && c.page == c.pageStart
  {
    if c.page > c.pageStart {
      MulLess(0, c.page - c.pageStart, Width(c));
    }
  }

  /** One burst of 1024 bytes puts byte 128 * page + column into every cell, and the pointer back to the origin. */
  lemma {:induction false} FrameLands(c: Controller, f: Frame)
    requires Aligned(c)
    ensures Aligned(FeedData(c, f))
    ensures FeedData(c, f).ram == f
  {
    hide FeedData, Index, Size, CellAt;
    var d := FeedData(c, f);
    DataKeepsTheRest(c, f);
    WholeWindow(c, 0);
    StreamIndex(c, f);
    forall j | 0 <= j < FRAME
      ensures d.ram[j] == f[j]
    {
      FrameCell(c, f, j);
    }
    assert d.ram == f;
    OriginIsIndexZero(d);
  }

  lemma {:induction false} FrameCell(c: Controller, f: Frame, j: nat)
    requires Aligned(c) && j < FRAME
    ensures FeedData(c, f).ram[j] == f[j]
  {
    hide FeedData, CellAt, Index, Size, InWindow, Aligned;
    WholeWindow(c, j);
    StreamCell(c, f, j);
  }

  function Concat(fs: seq<Frame>): seq<byte> {
    if fs == [] then [] else Concat(fs[..|fs| - 1]) + fs[|fs| - 1]
  }

  /** However many frames are sent, each arrives as it is and the next starts at the origin again. */
  lemma {:induction false} FramesNeverDrift(c: Controller, fs: seq<Frame>)
    requires Aligned(c)
    ensures Aligned(Feed(c, Line(true, Concat(fs))))
    ensures Feed(c, Line(true, Concat(fs))).ram == if fs == [] then c.ram else fs[|fs| - 1]
  {
    hide Aligned, Feed, FeedData;
    if fs == [] {
      assert Line(true, []) == [];
      NothingFed(c);
    } else {
      var front, last := Concat(fs[..|fs| - 1]), fs[|fs| - 1];
      FramesNeverDrift(c, fs[..|fs| - 1]);
      LineSplit(true, front, last);
      FeedSplit(c, Line(true, front), Line(true, last));
      var d := Feed(c, Line(true, front));
      DataIsFed(d, last);
      FrameLands(d, last);
    }
  }

  /** A burst of any other length than whole frames leaves the pointer elsewhere. */
  lemma {:induction false} OnlyWholeFramesAlign(c: Controller, bs: seq<byte>)
    requires Aligned(c)
    ensures Aligned(FeedData(c, bs)) <==> |bs| % FRAME == 0
  {
    WholeWindow(c, 0);
    PointerReturns(c, bs);
    StreamIndex(c, bs);
    DataKeepsTheRest(c, bs);
    var d := FeedData(c, bs);
    hide FeedData, Size, CellAt;
    if Aligned(d) {
      WholeWindow(d, 0);
    }
    if Index(d) == 0 {
      OriginIsIndexZero(d);
    }
  }

  // ---------------------------------------------------------------------
  // The driver
  // ---------------------------------------------------------------------

  class Display {
    const buffer: array<byte>   // SSD1306_Buffer_all
    var dc: bool                // the level of the data/command line
    var panel: Controller       // the device at the other end of the SPI line

    // Everything clocked in since the last reset pulse, and the panel right after that pulse.
    ghost var wire: seq<Clocked>
    ghost var boot: Controller

    /** The panel is what the wire has made of it. */
    ghost predicate Valid()
      reads this
    {
      buffer.Length == FRAME && panel == Feed(boot, wire)
    }

    constructor (panel: Controller, dc: bool)
      ensures Valid() && this.panel == panel && this.dc == dc && fresh(buffer)
      ensures forall i :: 0 <= i < 1024 ==> buffer[i] == 0
    {
      buffer := new byte[FRAME](_ => 0);
      this.panel, this.dc := panel, dc;
      wire, boot := [], panel;
      new;
      NothingFed(panel);
    }

    /** SPI_Transfer and SPI_Write: every byte is clocked in, at the present level of the data/command line. */
    method SpiTransfer(bs: seq<byte>)
      requires Valid()
      modifies this
      ensures Valid() && dc == old(dc) && boot == old(boot)
      ensures wire == old(wire) + Line(dc, bs)
      ensures panel == Feed(old(panel), Line(dc, bs))
    {
      hide Feed;
      FeedSplit(boot, wire, Line(dc, bs));
      panel := Feed(panel, Line(dc, bs));
      wire := wire + Line(dc, bs);
    }

    /** SPI_Write_Buf: byte by byte, it does what one transfer does. */
    method SpiWriteBuf(bs: array<byte>, n: int)
      requires Valid() && n <= bs.Length
      modifies this
      ensures Valid() && dc == old(dc) && boot == old(boot)
      ensures var sent := if n < 0 then [] else bs[..n];
        wire == old(wire) + Line(dc, sent) && panel == Feed(old(panel), Line(dc, sent))
    {
      hide Feed;
      NothingFed(panel);
      assert Line(dc, []) == [];
      var i := 0;
      while i < n
        invariant 0 <= i && (i <= n || (n < 0 && i == 0))
        invariant Valid() && dc == old(dc) && boot == old(boot)
        invariant wire == old(wire) + Line(dc, bs[..i])
        invariant panel == Feed(old(panel), Line(dc, bs[..i]))
      {
        assert bs[..i + 1] == bs[..i] + [bs[i]];
        LineSplit(dc, bs[..i], [bs[i]]);
        FeedSplit(old(panel), Line(dc, bs[..i]), Line(dc, [bs[i]]));
        SpiTransfer([bs[i]]);
        i := i + 1;
      }
    }

    /** SSD1306_WriteCommand */
    method WriteCommand(command: byte)
      requires Valid()
      modifies this
      ensures Valid() && !dc && boot == old(boot)
      ensures wire == old(wire) + [Clocked(false, command)]
      ensures panel == CommandByte(old(panel), command)
    {
      hide CommandByte, Feed;
      dc := false;
      OneByteFed(panel, false, command);
      SpiTransfer([command]);
    }

    /** SSD1306_Fill */
    method Fill(color: byte)
      requires buffer.Length == FRAME
      modifies buffer
      ensures forall i :: 0 <= i < 1024 ==> buffer[i] == if color == 0 then 0x00 else 0xFF
    {
      var b := if color == SSD1306_COLOR_BLACK then 0x00 else 0xFF;
      forall i | 0 <= i < FRAME {
        buffer[i] := b;
      }
    }

    /** ssd1306_RTEMS_logo, for any bitmap */
    method Logo(bitmap: Frame)
      requires buffer.Length == FRAME
      modifies buffer
      ensures buffer[..] == bitmap
    {
      forall i | 0 <= i < FRAME {
        buffer[i] := bitmap[i];
      }
    }

    /** SSD1306_UpdateScreen: from an aligned panel, the buffer arrives and the panel is aligned again. */
    method UpdateScreen()
      requires Valid()
      modifies this
      ensures Valid() && dc && boot == old(boot)
      ensures wire == old(wire) + Line(true, buffer[..])
      ensures panel == Feed(old(panel), Line(true, buffer[..]))
      ensures Aligned(old(panel)) ==> Aligned(panel) && panel.ram == buffer[..]
    {
      hide Feed, FeedData, Aligned;
      dc := true;
      ghost var before := panel;
      SpiTransfer(buffer[..]);
      DataIsFed(before, buffer[..]);
      if Aligned(before) {
        FrameLands(before, buffer[..]);
      }
    }

    /** SSD1306_RESET_LOW, then SSD1306_RESET_HIGH */
    method PulseReset()
      modifies this
      requires buffer.Length == FRAME
      ensures Valid() && dc == old(dc)
      ensures boot == Reset(old(panel)) && wire == [] && panel == boot
    {
      panel := Reset(panel);
      boot, wire := panel, [];
      NothingFed(panel);
    }

    /** ssd1306_init, from whatever state the panel is in */
    method Init()
      requires Valid()
      modifies this
      ensures Valid() && !dc
      ensures boot == Reset(old(panel)) && wire == Line(false,
        [0xAE, 0xAE, 0x00, 0x81, 0x7F, 0xA4, 0xA6, 0x20, 0x00, 0xB0, 0x22, 0x00, 0x07, 0xC8, 0x40, 0xA1, 0xA8, 0x3F,
         0xD3, 0x00, 0xDA, 0x12, 0xD5, 0xF0, 0xD9, 0x22, 0xDB, 0x10, 0x8D, 0x14, 0xAF])
      ensures panel.pending == [] && panel.mode == Horizontal && panel.displayOn && panel.ram == old(panel.ram)
      ensures panel.colStart == 0 && panel.colEnd == 127 && panel.pageStart == 0 && panel.pageEnd == 7
      ensures panel.col == 0 && panel.page == 0
      ensures panel.settings == map[
        0x40 := [0], 0x81 := [0x7F], 0x8D := [0x14], 0xA0 := [1], 0xA4 := [0], 0xA6 := [0], 0xA8 := [0x3F],
        0xC0 := [8], 0xD3 := [0], 0xD5 := [0xF0], 0xD9 := [0x22], 0xDA := [0x12], 0xDB := [0x10]]
      ensures Aligned(panel)
    {
      hide Feed, CommandByte, Reset, BYTES_1, BYTES_2, BYTES_3, BYTES_4;
      PulseReset();
      InitPower();
      InitAddressing();
      InitGeometry();
      InitTiming();
      LineSplit(false, BYTES_1, BYTES_2);
      LineSplit(false, BYTES_1 + BYTES_2, BYTES_3);
      LineSplit(false, BYTES_1 + BYTES_2 + BYTES_3, BYTES_4);
      InitFromAnyState(old(panel));
      InitBytes();
      InitialisedState(old(panel.ram));
    }

    /** The commands of ssd1306_init up to the choice of what the output follows */
    method InitPower()
      requires Valid()
      modifies this
      ensures Valid() && !dc && boot == old(boot)
      ensures wire == old(wire) + Line(false, BYTES_1)
    {
      hide Feed, CommandByte;
      WriteCommand(0xAE);
      WriteCommand(0xAE);
      WriteCommand(0x00);
      WriteCommand(0x81);
      WriteCommand(0x7F);
      WriteCommand(0xA4);
    }

    /** Addressing, and the order of the COM lines */
    method InitAddressing()
      requires Valid()
      modifies this
      ensures Valid() && !dc && boot == old(boot)
      ensures wire == old(wire) + Line(false, BYTES_2)
    {
      hide Feed, CommandByte;
      WriteCommand(0xA6);
      WriteCommand(0x20);
      WriteCommand(0x00);
      WriteCommand(0xB0);
      WriteCommand(0x22);
      WriteCommand(0x00);
      WriteCommand(0x07);
      WriteCommand(0xC8);
    }

    /** Start line, segment order, multiplex ratio, offset, COM pins */
    method InitGeometry()
      requires Valid()
      modifies this
      ensures Valid() && !dc && boot == old(boot)
      ensures wire == old(wire) + Line(false, BYTES_3)
    {
      hide Feed, CommandByte;
      WriteCommand(0x40);
      WriteCommand(0xA1);
      WriteCommand(0xA8);
      WriteCommand(0x3F);
      WriteCommand(0xD3);
      WriteCommand(0x00);
      WriteCommand(0xDA);
      WriteCommand(0x12);
    }

    /** Clock, timing, voltages, charge pump, display on */
    method InitTiming()
      requires Valid()
      modifies this
      ensures Valid() && !dc && boot == old(boot)
      ensures wire == old(wire) + Line(false, BYTES_4)
    {
      hide Feed, CommandByte;
      WriteCommand(0xD5);
      WriteCommand(0xF0);
      WriteCommand(0xD9);
      WriteCommand(0x22);
      WriteCommand(0xDB);
      WriteCommand(0x10);
      WriteCommand(0x8D);
      WriteCommand(0x14);
      WriteCommand(0xAF);
    }

    /** The body of worker's loop: a white screen, then the logo; returns what the panel showed after each update. */
    method ShowPair(bitmap: Frame) returns (white: Frame, logo: Frame)
      requires Valid() && Aligned(panel)
      modifies this, buffer
      ensures Valid() && Aligned(panel)
      ensures (forall i :: 0 <= i < 1024 ==> white[i] == 0xFF) && logo == bitmap
      ensures panel.ram == bitmap && buffer[..] == bitmap
    {
      hide Feed, Aligned;
      Fill(SSD1306_COLOR_WHITE);
      UpdateScreen();
      white := panel.ram;
      Logo(bitmap);
      UpdateScreen();
      logo := panel.ram;
    }

    /** worker: five times a white screen and the logo; returns what the panel showed after each update. */
    method Worker(bitmap: Frame) returns (shown: seq<Frame>)
      requires Valid()
      modifies this, buffer
      ensures Valid() && Aligned(panel)
      ensures |shown| == 10
      ensures forall k, i :: 0 <= k < 10 && k % 2 == 0 && 0 <= i < 1024 ==> shown[k][i] == 0xFF
      ensures forall k :: 0 <= k < 10 && k % 2 == 1 ==> shown[k] == bitmap
      ensures panel.ram == bitmap && buffer[..] == bitmap
    {
      hide Feed, Aligned, Initialised;
      Init();
      shown := [];
      for i := 0 to 5
        invariant Valid() && Aligned(panel)
        invariant |shown| == 2 * i
        invariant forall k, j :: 0 <= k < |shown| && k % 2 == 0 && 0 <= j < 1024 ==> shown[k][j] == 0xFF
        invariant forall k :: 0 <= k < |shown| && k % 2 == 1 ==> shown[k] == bitmap
        invariant i > 0 ==> panel.ram == bitmap && buffer[..] == bitmap
      {
        var first, second := ShowPair(bitmap);
        shown := shown + [first, second];
      }
    }
  }

  lemma {:induction false} OneByteFed(c: Controller, dc: bool, b: byte)
    ensures Line(dc, [b]) == [Clocked(dc, b)]
    ensures Feed(c, Line(dc, [b])) == Step(c, Clocked(dc, b))
  {
    hide Step;
    var ws := Line(dc, [b]);
    assert ws == [Clocked(dc, b)];
    assert ws[..0] == [];
    NothingFed(c);
  }
}
