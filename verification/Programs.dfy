/**
 Programs for the SSD1306: lists of instructions, and the command bytes that carry them.
 */
module Programs {
  import opened Bytes
  import opened Ssd1306

  ghost predicate WellFormed(prog: seq<Instruction>) {
    forall k {:trigger prog[k]} :: 0 <= k < |prog| ==> |prog[k].args| == OperandCount(prog[k].op)
  }

  function Encode(prog: seq<Instruction>): seq<byte> {
    if prog == [] then [] else [prog[0].op] + prog[0].args + Encode(prog[1..])
  }

  function ExecuteAll(c: Controller, prog: seq<Instruction>): (r: Controller)
    requires WellFormed(prog)
    ensures r.ram == c.ram && r.pending == c.pending
    decreases prog
  {
    if prog == [] then c else ExecuteAll(Execute(c, prog[0]), prog[1..])
  }

  lemma {:induction false} FeedNext(c: Controller, bs: seq<byte>, b: byte)
    ensures Feed(c, Line(false, bs + [b])) == CommandByte(Feed(c, Line(false, bs)), b)
  {
    hide CommandByte;
    var ws := Line(false, bs + [b]);
    assert ws[..|ws| - 1] == Line(false, bs);
  }

  /** Operands are held until the last of them has come; then the instruction takes effect. */
  lemma {:induction false} OperandsHeld(c: Controller, i: Instruction, k: nat)
    requires c.pending == [] && |i.args| == OperandCount(i.op) && k <= |i.args|
    ensures Feed(c, Line(false, [i.op] + i.args[..k]))
         == if k == |i.args| then Execute(c, i) else c.(pending := [i.op] + i.args[..k])
  {
    hide Execute, OperandCount, Feed;
    var bs := [i.op] + i.args[..k];
    if k == 0 {
      assert bs == [] + [i.op];
      FeedNext(c, [], i.op);
      assert Line(false, []) == [];
      NothingFed(c);
      if |i.args| == 0 {
        assert c.(pending := []) == c;
        assert i == Instruction(i.op, [i.op][1..]);
      }
    } else {
      var front := [i.op] + i.args[..k - 1];
      assert bs == front + [i.args[k - 1]];
      OperandsHeld(c, i, k - 1);
      FeedNext(c, front, i.args[k - 1]);
      if k == |i.args| {
        assert bs == [i.op] + i.args && bs[1..] == i.args;
        assert c.(pending := front).(pending := []) == c;
      }
    }
  }

  /**
   The bytes of any program, fed to any controller that is not waiting for operands, execute exactly its
   instructions: no operand is taken for a command, none for another's operand, and none is left over.
   */
  lemma {:induction false} ProgramRuns(c: Controller, prog: seq<Instruction>)
    requires c.pending == [] && WellFormed(prog)
    ensures Feed(c, Line(false, Encode(prog))) == ExecuteAll(c, prog)
    decreases prog
  {
    hide Execute, OperandCount, CommandByte, Feed;
    if prog == [] {
      assert Line(false, []) == [];
      NothingFed(c);
    } else {
      var head, tail := [prog[0].op] + prog[0].args, Encode(prog[1..]);
      OperandsHeld(c, prog[0], |prog[0].args|);
      assert prog[0].args[..|prog[0].args|] == prog[0].args;
      LineSplit(false, head, tail);
      FeedSplit(c, Line(false, head), Line(false, tail));
      ProgramRuns(Execute(c, prog[0]), prog[1..]);
    }
  }

  // ---------------------------------------------------------------------
  // Longer programs from shorter ones
  // ---------------------------------------------------------------------

  lemma {:induction false} EncodeSplit(prog: seq<Instruction>, more: seq<Instruction>)
    ensures Encode(prog + more) == Encode(prog) + Encode(more)
    decreases prog
  {
    if prog == [] {
      assert prog + more == more;
    } else {
      assert (prog + more)[1..] == prog[1..] + more;
      EncodeSplit(prog[1..], more);
      AppendAssociative([prog[0].op] + prog[0].args, Encode(prog[1..]), Encode(more));
    }
  }

  lemma {:induction false} WellFormedSplit(prog: seq<Instruction>, more: seq<Instruction>)
    requires WellFormed(prog) && WellFormed(more)
    ensures WellFormed(prog + more)
  {
    hide OperandCount;
  }

  lemma {:induction false} ExecuteSplit(c: Controller, prog: seq<Instruction>, more: seq<Instruction>)
    requires WellFormed(prog) && WellFormed(more)
    ensures WellFormed(prog + more)
    ensures ExecuteAll(c, prog + more) == ExecuteAll(ExecuteAll(c, prog), more)
    decreases prog
  {
    hide Execute, OperandCount;
    WellFormedSplit(prog, more);
    if prog == [] {
      assert prog + more == more;
    } else {
      assert (prog + more)[1..] == prog[1..] + more;
      ExecuteSplit(Execute(c, prog[0]), prog[1..], more);
    }
  }

  // ---------------------------------------------------------------------
  // ssd1306_init
  // ---------------------------------------------------------------------

  const INIT_PROGRAM: seq<Instruction> := OFF_AND_CONTRAST + ADDRESSING + GEOMETRY + TIMING_AND_ON

  const OFF_AND_CONTRAST: seq<Instruction> := [
    Instruction(0xAE, []), Instruction(0xAE, []), Instruction(0x00, []), Instruction(0x81, [0x7F]),
    Instruction(0xA4, [])]

  const ADDRESSING: seq<Instruction> := [
    Instruction(0xA6, []), Instruction(0x20, [0x00]), Instruction(0xB0, []), Instruction(0x22, [0x00, 0x07]),
    Instruction(0xC8, [])]

  const GEOMETRY: seq<Instruction> := [
    Instruction(0x40, []), Instruction(0xA1, []), Instruction(0xA8, [0x3F]), Instruction(0xD3, [0x00]),
    Instruction(0xDA, [0x12])]

  const TIMING_AND_ON: seq<Instruction> := [
    Instruction(0xD5, [0xF0]), Instruction(0xD9, [0x22]), Instruction(0xDB, [0x10]), Instruction(0x8D, [0x14]),
    Instruction(0xAF, [])]

  /** The command bytes of ssd1306_init, in the order in which it sends them. */
  const INIT_BYTES: seq<byte> := BYTES_1 + BYTES_2 + BYTES_3 + BYTES_4

  const BYTES_1: seq<byte> := [0xAE, 0xAE, 0x00, 0x81, 0x7F, 0xA4]
  const BYTES_2: seq<byte> := [0xA6, 0x20, 0x00, 0xB0, 0x22, 0x00, 0x07, 0xC8]
  const BYTES_3: seq<byte> := [0x40, 0xA1, 0xA8, 0x3F, 0xD3, 0x00, 0xDA, 0x12]
  const BYTES_4: seq<byte> := [0xD5, 0xF0, 0xD9, 0x22, 0xDB, 0x10, 0x8D, 0x14, 0xAF]

  function InstructionBytes(i: Instruction): seq<byte> {
    [i.op] + i.args
  }

  lemma {:induction false} EncodeCons(i: Instruction, prog: seq<Instruction>)
    ensures Encode([i] + prog) == InstructionBytes(i) + Encode(prog)
  {
    assert ([i] + prog)[1..] == prog;
  }

  lemma {:induction false} EncodeFive(a: Instruction, b: Instruction, c: Instruction, d: Instruction, e: Instruction)
    ensures Encode([a, b, c, d, e])
         == InstructionBytes(a)
          + (InstructionBytes(b) + (InstructionBytes(c) + (InstructionBytes(d) + InstructionBytes(e))))
  {
    hide InstructionBytes;
    assert [a, b, c, d, e] == [a] + [b, c, d, e];
    EncodeCons(a, [b, c, d, e]);
    assert [b, c, d, e] == [b] + [c, d, e];
    EncodeCons(b, [c, d, e]);
    assert [c, d, e] == [c] + [d, e];
    EncodeCons(c, [d, e]);
    assert [d, e] == [d] + [e];
    EncodeCons(d, [e]);
    assert [e] == [e] + [];
    EncodeCons(e, []);
    assert InstructionBytes(e) + [] == InstructionBytes(e);
  }

  lemma {:induction false} JoinFour(p: seq<Instruction>, q: seq<Instruction>, r: seq<Instruction>, s: seq<Instruction>)
    requires WellFormed(p) && WellFormed(q) && WellFormed(r) && WellFormed(s)
    ensures WellFormed(p + q + r + s)
    ensures Encode(p + q + r + s) == Encode(p) + Encode(q) + Encode(r) + Encode(s)
  {
    hide Encode, WellFormed;
    WellFormedSplit(p, q);
    WellFormedSplit(p + q, r);
    WellFormedSplit(p + q + r, s);
    EncodeSplit(p, q);
    EncodeSplit(p + q, r);
    EncodeSplit(p + q + r, s);
  }

  lemma {:induction false} InitStages()
    ensures WellFormed(OFF_AND_CONTRAST) && Encode(OFF_AND_CONTRAST) == BYTES_1
    ensures WellFormed(ADDRESSING) && Encode(ADDRESSING) == BYTES_2
    ensures WellFormed(GEOMETRY) && Encode(GEOMETRY) == BYTES_3
    ensures WellFormed(TIMING_AND_ON) && Encode(TIMING_AND_ON) == BYTES_4
  {
    hide Encode;
    var p := OFF_AND_CONTRAST;
    EncodeFive(p[0], p[1], p[2], p[3], p[4]);
    p := ADDRESSING;
    EncodeFive(p[0], p[1], p[2], p[3], p[4]);
    p := GEOMETRY;
    EncodeFive(p[0], p[1], p[2], p[3], p[4]);
    p := TIMING_AND_ON;
    EncodeFive(p[0], p[1], p[2], p[3], p[4]);
  }

  /** The bytes of ssd1306_init are those of its twenty instructions, each with all its operands. */
  lemma {:induction false} InitEncoded()
    ensures WellFormed(INIT_PROGRAM)
    ensures Encode(INIT_PROGRAM) == INIT_BYTES
  {
    hide Encode, WellFormed, OFF_AND_CONTRAST, ADDRESSING, GEOMETRY, TIMING_AND_ON, BYTES_1, BYTES_2, BYTES_3, BYTES_4;
    InitStages();
    JoinFour(OFF_AND_CONTRAST, ADDRESSING, GEOMETRY, TIMING_AND_ON);
  }

  /** Sent to a controller in whatever state it was before the reset pulse, they execute as those instructions. */
  lemma {:induction false} InitRuns(c: Controller)
    ensures WellFormed(INIT_PROGRAM)
    ensures Feed(Reset(c), Line(false, INIT_BYTES)) == ExecuteAll(Reset(c), INIT_PROGRAM)
    ensures Feed(Reset(c), Line(false, INIT_BYTES)).pending == []
  {
    InitEncoded();
    hide INIT_BYTES, INIT_PROGRAM, WellFormed, Feed, Encode;
    ProgramRuns(Reset(c), INIT_PROGRAM);
  }

  /** What ssd1306_init sets, besides addressing and power. */
  function InitSettings(): map<byte, seq<byte>> {
    RESET_SETTINGS
      [0x81 := [0x7F]][0xA4 := [0]][0xA6 := [0]][0xC0 := [8]][0x40 := [0]][0xA0 := [1]][0xA8 := [0x3F]]
      [0xD3 := [0x00]][0xDA := [0x12]][0xD5 := [0xF0]][0xD9 := [0x22]][0xDB := [0x10]][0x8D := [0x14]]
  }

  /** The panel after ssd1306_init: horizontal addressing over all columns and pages, from the origin, display on. */
  function Initialised(ram: Ram): Controller {
    Controller([], Horizontal, 0, 127, 0, 7, 0, 0, true, InitSettings(), ram)
  }

  lemma {:induction false} InitBytes()
    ensures INIT_BYTES ==
      [0xAE, 0xAE, 0x00, 0x81, 0x7F, 0xA4, 0xA6, 0x20, 0x00, 0xB0, 0x22, 0x00, 0x07, 0xC8, 0x40, 0xA1, 0xA8, 0x3F,
       0xD3, 0x00, 0xDA, 0x12, 0xD5, 0xF0, 0xD9, 0x22, 0xDB, 0x10, 0x8D, 0x14, 0xAF]
  {
  }

  lemma {:induction false} InitialisedState(ram: Ram)
    ensures var c := Initialised(ram);
      && c.pending == [] && c.mode == Horizontal && c.displayOn && c.ram == ram
      && c.colStart == 0 && c.colEnd == 127 && c.pageStart == 0 && c.pageEnd == 7
      && c.col == 0 && c.page == 0
      && c.settings == map[
           0x40 := [0], 0x81 := [0x7F], 0x8D := [0x14], 0xA0 := [1], 0xA4 := [0], 0xA6 := [0], 0xA8 := [0x3F],
           0xC0 := [8], 0xD3 := [0], 0xD5 := [0xF0], 0xD9 := [0x22], 0xDA := [0x12], 0xDB := [0x10]]
  {
  }

  lemma {:induction false} ExecuteFive(
      c: Controller, i: Instruction, j: Instruction, k: Instruction, l: Instruction, m: Instruction)
    requires WellFormed([i, j, k, l, m])
    ensures |i.args| == OperandCount(i.op) && |j.args| == OperandCount(j.op) && |k.args| == OperandCount(k.op)
    ensures |l.args| == OperandCount(l.op) && |m.args| == OperandCount(m.op)
    ensures ExecuteAll(c, [i, j, k, l, m]) == Execute(Execute(Execute(Execute(Execute(c, i), j), k), l), m)
  {
    hide Execute, OperandCount;
    var p := [i, j, k, l, m];
    assert p[0] == i && p[1] == j && p[2] == k && p[3] == l && p[4] == m;
    assert p[1..] == [j, k, l, m] && p[1..][1..] == [k, l, m];
    assert [k, l, m][1..] == [l, m] && [l, m][1..] == [m] && [m][1..] == [];
    var c1 := Execute(c, i);
    var c2 := Execute(c1, j);
    var c3 := Execute(c2, k);
    var c4 := Execute(c3, l);
    assert ExecuteAll(c, p) == ExecuteAll(c1, [j, k, l, m]);
    assert ExecuteAll(c1, [j, k, l, m]) == ExecuteAll(c2, [k, l, m]);
    assert ExecuteAll(c2, [k, l, m]) == ExecuteAll(c3, [l, m]);
    assert ExecuteAll(c3, [l, m]) == ExecuteAll(c4, [m]);
  }

  lemma {:induction false} FirstStage(c: Controller)
    requires c.mode == Paged && c.col == 0
    ensures WellFormed(OFF_AND_CONTRAST)
    ensures ExecuteAll(c, OFF_AND_CONTRAST)
         == c.(displayOn := false, settings := c.settings[0x81 := [0x7F]][0xA4 := [0]])
  {
    var p := OFF_AND_CONTRAST;
    assert p == [p[0], p[1], p[2], p[3], p[4]];
    hide ExecuteAll;
    ExecuteFive(c, p[0], p[1], p[2], p[3], p[4]);
  }

  lemma {:induction false} SecondStage(c: Controller)
    requires c.page == 0
    ensures WellFormed(ADDRESSING)
    ensures ExecuteAll(c, ADDRESSING)
         == c.(mode := Horizontal, pageStart := 0, pageEnd := 7, settings := c.settings[0xA6 := [0]][0xC0 := [8]])
  {
    var p := ADDRESSING;
    assert p == [p[0], p[1], p[2], p[3], p[4]];
    hide ExecuteAll;
    ExecuteFive(c, p[0], p[1], p[2], p[3], p[4]);
  }

  lemma {:induction false} ThirdStage(c: Controller)
    ensures WellFormed(GEOMETRY)
    ensures ExecuteAll(c, GEOMETRY) == c.(settings :=
      c.settings[0x40 := [0]][0xA0 := [1]][0xA8 := [0x3F]][0xD3 := [0x00]][0xDA := [0x12]])
  {
    var p := GEOMETRY;
    assert p == [p[0], p[1], p[2], p[3], p[4]];
    hide ExecuteAll;
    ExecuteFive(c, p[0], p[1], p[2], p[3], p[4]);
  }

  lemma {:induction false} FourthStage(c: Controller)
    ensures WellFormed(TIMING_AND_ON)
    ensures ExecuteAll(c, TIMING_AND_ON) == c.(displayOn := true, settings :=
      c.settings[0xD5 := [0xF0]][0xD9 := [0x22]][0xDB := [0x10]][0x8D := [0x14]])
  {
    var p := TIMING_AND_ON;
    assert p == [p[0], p[1], p[2], p[3], p[4]];
    hide ExecuteAll;
    ExecuteFive(c, p[0], p[1], p[2], p[3], p[4]);
  }

  lemma {:induction false} RunFour(
      c: Controller, p: seq<Instruction>, q: seq<Instruction>, r: seq<Instruction>, s: seq<Instruction>)
    requires WellFormed(p) && WellFormed(q) && WellFormed(r) && WellFormed(s)
    ensures WellFormed(p + q + r + s)
    ensures ExecuteAll(c, p + q + r + s) == ExecuteAll(ExecuteAll(ExecuteAll(ExecuteAll(c, p), q), r), s)
  {
    hide Encode, WellFormed, ExecuteAll;
    ExecuteSplit(c, p, q);
    ExecuteSplit(c, p + q, r);
    ExecuteSplit(c, p + q + r, s);
  }

  /**
   Whatever state the controller was in, and whatever operand it was waiting for, a reset pulse and the bytes of
   ssd1306_init leave it in one and the same state, but for the display RAM, which stays as it was.
   */
  lemma {:induction false} InitFromAnyState(c: Controller)
    ensures Feed(Reset(c), Line(false, INIT_BYTES)) == Initialised(c.ram)
  {
    InitRuns(c);
    hide Feed, INIT_BYTES, ExecuteAll, WellFormed, OFF_AND_CONTRAST, ADDRESSING, GEOMETRY, TIMING_AND_ON,
         RESET_SETTINGS;
    var c0 := Reset(c);
    FirstStage(c0);
    var c1 := ExecuteAll(c0, OFF_AND_CONTRAST);
    SecondStage(c1);
    var c2 := ExecuteAll(c1, ADDRESSING);
    ThirdStage(c2);
    var c3 := ExecuteAll(c2, GEOMETRY);
    FourthStage(c3);
    RunFour(c0, OFF_AND_CONTRAST, ADDRESSING, GEOMETRY, TIMING_AND_ON);
  }
}
