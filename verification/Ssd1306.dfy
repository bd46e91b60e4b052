/**
 The SSD1306 display controller as its datasheet describes it ("Command Table", "Command Description"): a
 decoder for commands and their operands, the addressing pointer, and the display RAM.
 */
module Ssd1306 {
  import opened Bytes

  const COLUMNS := 128
  const PAGES := 8

  type Column = x: int | 0 <= x < 128
  type Page = x: int | 0 <= x < 8

  /** One byte for each column of each page, page by page. */
  type Ram = s: seq<byte> | |s| == 1024 witness seq(1024, _ => 0)

  datatype Mode = Horizontal | Vertical | Paged | Invalid

  datatype Controller = Controller(
    pending: seq<byte>,          // a command byte and its operands so far, as long as some are missing
    mode: Mode,
    colStart: Column, colEnd: Column,
    pageStart: Page, pageEnd: Page,
    col: Column, page: Page,     // the pointer
    displayOn: bool,
    settings: map<byte, seq<byte>>,  // everything that concerns neither addressing nor power
    ram: Ram)

  // ---------------------------------------------------------------------
  // Commands
  // ---------------------------------------------------------------------

  datatype Instruction = Instruction(op: byte, args: seq<byte>)

  /** How many bytes follow a command byte. */
  function OperandCount(op: byte): nat {
    match op
    case 0x20 | 0x81 | 0x8D | 0xA8 | 0xD3 | 0xD5 | 0xD9 | 0xDA | 0xDB => 1
    case 0x21 | 0x22 | 0xA3 => 2
    case 0x29 | 0x2A => 5
    case 0x26 | 0x27 => 6
    case _ => 0
  }

  function ModeOf(a: byte): Mode {
    match a % 4
    case 0 => Horizontal
    case 1 => Vertical
    case 2 => Paged
    case _ => Invalid
  }

  /** The effect of a command with all its operands. */
  function Execute(c: Controller, i: Instruction): (r: Controller)
    requires |i.args| == OperandCount(i.op)
    ensures r.ram == c.ram && r.pending == c.pending
  {
    var op, args := i.op, i.args;
    // Start column and page for page addressing mode only
    if op < 0x10 then if c.mode == Paged then c.(col := c.col / 16 * 16 + op % 16) else c
    else if op < 0x20 then if c.mode == Paged then c.(col := op % 8 * 16 + c.col % 16) else c
    else if 0xB0 <= op < 0xB8 then if c.mode == Paged then c.(page := op % 8) else c
    else if op == 0x20 then c.(mode := ModeOf(args[0]))
    else if op == 0x21 then c.(colStart := args[0] % 128, colEnd := args[1] % 128, col := args[0] % 128)
    else if op == 0x22 then c.(pageStart := args[0] % 8, pageEnd := args[1] % 8, page := args[0] % 8)
    else if op == 0xAE then c.(displayOn := false)
    else if op == 0xAF then c.(displayOn := true)
    else c.(settings := c.settings[Setting(op) := if args == [] then [op - Setting(op)] else args])
  }

  /** Commands that carry their operand in their low bits set one and the same thing. */
  function Setting(op: byte): (s: byte)
    ensures s <= op
  {
    if 0x40 <= op < 0x80 then 0x40
    else if op == 0xA1 then 0xA0
    else if op == 0xA5 then 0xA4
    else if op == 0xA7 then 0xA6
    else if 0xC0 <= op < 0xD0 then 0xC0
    else op
  }

  /** One byte with the data/command line low. */
  function CommandByte(c: Controller, b: byte): Controller {
    var p := c.pending + [b];
    if |p| == 1 + OperandCount(p[0]) then Execute(c.(pending := []), Instruction(p[0], p[1..]))
    else c.(pending := p)
  }

  // ---------------------------------------------------------------------
  // Data
  // ---------------------------------------------------------------------

  function Cell(page: Page, col: Column): (i: nat)
    ensures i < 1024
  {
    page * COLUMNS + col
  }

  function NextColumn(c: Controller): Column {
    if c.col == c.colEnd then c.colStart else (c.col + 1) % COLUMNS
  }

  function NextPage(c: Controller): Page {
    if c.page == c.pageEnd then c.pageStart else (c.page + 1) % PAGES
  }

  /** Set Memory Addressing Mode (20h): where the pointer goes after each byte of data. */
  function Advance(c: Controller): (r: Controller)
    ensures r.ram == c.ram && r.pending == c.pending
  {
    match c.mode
    case Horizontal => c.(col := NextColumn(c), page := if c.col == c.colEnd then NextPage(c) else c.page)
    case Vertical => c.(page := NextPage(c), col := if c.page == c.pageEnd then NextColumn(c) else c.col)
    case Paged => c.(col := NextColumn(c))
    case Invalid => c
  }

  /** One byte with the data/command line high. */
  function DataByte(c: Controller, b: byte): Controller {
    Advance(c.(ram := c.ram[Cell(c.page, c.col) := b]))
  }

  // ---------------------------------------------------------------------
  // The SPI line
  // ---------------------------------------------------------------------

  /** A byte as it is clocked in, with the level of the data/command line. */
  datatype Clocked = Clocked(dc: bool, b: byte)

  function Step(c: Controller, w: Clocked): Controller {
    if w.dc then DataByte(c, w.b) else CommandByte(c, w.b)
  }

  function Feed(c: Controller, ws: seq<Clocked>): Controller {
    if ws == [] then c else Step(Feed(c, ws[..|ws| - 1]), ws[|ws| - 1])
  }

  /** A low pulse on the reset line; the display RAM keeps what it holds. */
  function Reset(c: Controller): Controller {
    Controller([], Paged, 0, 127, 0, 7, 0, 0, false, RESET_SETTINGS, c.ram)
  }

  const RESET_SETTINGS: map<byte, seq<byte>> := map[
    0x40 := [0], 0x81 := [0x7F], 0x8D := [0x10], 0xA0 := [0], 0xA4 := [0], 0xA6 := [0], 0xA8 := [0x3F],
    0xC0 := [0], 0xD3 := [0], 0xD5 := [0x80], 0xD9 := [0x22], 0xDA := [0x12], 0xDB := [0x20]]

  /** Bytes clocked in by one transfer. */
  function Line(dc: bool, bs: seq<byte>): (ws: seq<Clocked>)
    ensures |ws| == |bs|
  {
    seq(|bs|, i requires 0 <= i < |bs| => Clocked(dc, bs[i]))
  }

  /** Two streams one after the other. */
  lemma {:induction false} FeedSplit(c: Controller, ws: seq<Clocked>, vs: seq<Clocked>)
    ensures Feed(c, ws + vs) == Feed(Feed(c, ws), vs)
    decreases |vs|
  {
    hide Step;
    var all := ws + vs;
    if vs == [] {
      assert all == ws;
    } else {
      assert all[..|all| - 1] == ws + vs[..|vs| - 1];
      FeedSplit(c, ws, vs[..|vs| - 1]);
    }
  }

  // ---------------------------------------------------------------------
  // Streams cut into transfers
  // ---------------------------------------------------------------------

  function Joined(transfers: seq<seq<byte>>): seq<byte> {
    if transfers == [] then [] else transfers[0] + Joined(transfers[1..])
  }

  /** The controller after a number of transfers, each a call of the driver with the line at the same level. */
  function FeedEach(c: Controller, dc: bool, transfers: seq<seq<byte>>): Controller
    decreases transfers
  {
    if transfers == [] then c else FeedEach(Feed(c, Line(dc, transfers[0])), dc, transfers[1..])
  }

  lemma {:induction false} LineSplit(dc: bool, a: seq<byte>, b: seq<byte>)
    ensures Line(dc, a + b) == Line(dc, a) + Line(dc, b)
  {
  }

  lemma {:induction false} NothingFed(c: Controller)
    ensures Feed(c, []) == c
  {
  }

  lemma {:induction false} TransfersFed(c: Controller, dc: bool, transfers: seq<seq<byte>>)
    ensures FeedEach(c, dc, transfers) == Feed(c, Line(dc, Joined(transfers)))
    decreases transfers
  {
    hide Feed, Line;
    if transfers == [] {
      assert Line(dc, []) == [];
      NothingFed(c);
    } else {
      var head, tail := transfers[0], Joined(transfers[1..]);
      LineSplit(dc, head, tail);
      FeedSplit(c, Line(dc, head), Line(dc, tail));
      TransfersFed(Feed(c, Line(dc, head)), dc, transfers[1..]);
    }
  }

  /** However the same bytes are cut into transfers, empty ones included, the controller ends up the same. */
  lemma {:induction false} CutsDoNotMatter(c: Controller, dc: bool, transfers: seq<seq<byte>>, others: seq<seq<byte>>)
    requires Joined(transfers) == Joined(others)
    ensures FeedEach(c, dc, transfers) == FeedEach(c, dc, others)
  {
    TransfersFed(c, dc, transfers);
    TransfersFed(c, dc, others);
  }
}
