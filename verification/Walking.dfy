/**
 The receiver's side of section 2.3 of RFC 2367: every extension starts with its length in 64-bit units
 and its type, so a walker can step from one to the next without understanding them.
 */
module Walking {
  import opened Bytes
  import opened Appending

  /** An extension as a walker delimits it: its type, and the bytes after its length and type fields. */
  datatype Raw = Raw(kind: u16, body: seq<byte>)

  function Walk(h: Endian, bs: seq<byte>, off: nat): Option<seq<Raw>>
    requires off <= |bs|
    decreases |bs| - off
  {
    if off == |bs| then Some([])
    else if |bs| < off + 4 then None
    else
      var n := 8 * Get16(h, bs[off..off + 2]);
      if n == 0 || |bs| < off + n then None
      else
        match Walk(h, bs, off + n)
        case None => None
        case Some(raws) => Some([Raw(Get16(h, bs[off + 2..off + 4]), bs[off + 4..off + n])] + raws)
  }

  /** The common start of every extension: PFKEY_UNIT64 of its length, cut to 16 bits, and its type. */
  function Header(h: Endian, units: nat, kind: u16): (bs: seq<byte>)
    ensures |bs| == 4
  {
    Put16(h, units % 0x1_0000) + Put16(h, kind)
  }

  lemma {:induction false} HeaderLoads(h: Endian, units: nat, kind: u16)
    ensures Get16(h, Header(h, units, kind)[0..2]) == units % 0x1_0000
    ensures Get16(h, Header(h, units, kind)[2..4]) == kind
  {
    Load16(h, units % 0x1_0000);
    Load16(h, kind);
    hide Put16, Get16;
    Cut2(Put16(h, units % 0x1_0000), Put16(h, kind));
  }

  /** A length of 65536 units or more loses its high bits, and a walker steps to the wrong place. */
  lemma {:induction false} LengthFieldExact(h: Endian, units: nat, kind: u16)
    ensures Get16(h, Header(h, units, kind)[0..2]) == units <==> units < 0x1_0000
  {
    HeaderLoads(h, units, kind);
  }

  /** The piece starts with such a header, for the units by which it moves the cursor. */
  ghost predicate Headed(h: Endian, x: Piece) {
    && 1 <= x.units
    && 4 <= |x.bytes|
    && Get16(h, x.bytes[0..2]) == x.units % 0x1_0000
  }

  ghost predicate AllHeaded(h: Endian, xs: seq<Piece>) {
    forall k {:trigger Headed(h, xs[k])} :: 0 <= k < |xs| ==> Headed(h, xs[k])
  }

  /** What the walker makes of a piece: its own type, and its content cut off or filled up with stale bytes. */
  function RawOf(h: Endian, x: Piece, under: seq<byte>): Raw
    requires 1 <= x.units && 4 <= |x.bytes| && |under| == 8 * x.units
  {
    Raw(Get16(h, x.bytes[2..4]), Filled(x, under)[4..])
  }

  /** One block of bytes for each piece, as long as the piece declares. */
  ghost predicate Shaped(xs: seq<Piece>, unders: seq<seq<byte>>) {
    && |unders| == |xs|
    && forall k {:trigger unders[k]} :: 0 <= k < |xs| ==> |unders[k]| == 8 * xs[k].units
  }

  /** The bytes at off are those of the piece, filled up with what was under it. */
  ghost predicate LiesAt(bs: seq<byte>, off: nat, x: Piece, under: seq<byte>)
    requires |under| == 8 * x.units
  {
    && off + 8 * x.units <= |bs|
    && bs[off..off + 8 * x.units] == Filled(x, under)
  }

  /** Every piece lies on the wire where the cursor was, filled up with the stale bytes under it. */
  ghost predicate Delivered(bs: seq<byte>, xs: seq<Piece>, unders: seq<seq<byte>>)
    requires Shaped(xs, unders)
  {
    && |bs| == Cursor(xs, |xs|)
    && forall k {:trigger unders[k]} :: 0 <= k < |xs| ==> LiesAt(bs, Cursor(xs, k), xs[k], unders[k])
  }

  function Raws(h: Endian, xs: seq<Piece>, unders: seq<seq<byte>>, k: nat): (raws: seq<Raw>)
    requires k <= |xs| && AllHeaded(h, xs) && Shaped(xs, unders)
    ensures |raws| == |xs| - k
    decreases |xs| - k
  {
    if k == |xs| then []
    else
      assert Headed(h, xs[k]);
      [RawOf(h, xs[k], unders[k])] + Raws(h, xs, unders, k + 1)
  }

  lemma {:induction false} RawsAt(h: Endian, xs: seq<Piece>, unders: seq<seq<byte>>, j: nat, k: nat)
    requires j <= k < |xs| && AllHeaded(h, xs) && Shaped(xs, unders)
    ensures Headed(h, xs[k]) && |unders[k]| == 8 * xs[k].units
    ensures Raws(h, xs, unders, j)[k - j] == RawOf(h, xs[k], unders[k])
    decreases k - j
  {
    hide RawOf, Filled, Get16;
    assert Headed(h, xs[k]);
    if j < k {
      assert Headed(h, xs[j]);
      RawsAt(h, xs, unders, j + 1, k);
    }
  }

  // ---------------------------------------------------------------------
  // The walk
  // ---------------------------------------------------------------------

  lemma {:induction false} SubSlice(bs: seq<byte>, off: nat, part: seq<byte>, i: nat, j: nat)
    requires off + |part| <= |bs| && bs[off..off + |part|] == part
    requires i <= j <= |part|
    ensures bs[off + i..off + j] == part[i..j]
  {
    forall m | 0 <= m < j - i
      ensures bs[off + i..off + j][m] == part[i..j][m]
    {
      assert part[i + m] == bs[off..off + |part|][i + m];
    }
  }

  lemma {:induction false} FilledKeepsHeader(x: Piece, under: seq<byte>)
    requires |under| == 8 * x.units && 1 <= x.units && 4 <= |x.bytes|
    ensures Filled(x, under)[0..2] == x.bytes[0..2]
    ensures Filled(x, under)[2..4] == x.bytes[2..4]
  {
  }

  /** The three parts of a piece as a walker reads them. */
  lemma {:induction false} PartsAt(bs: seq<byte>, off: nat, x: Piece, under: seq<byte>)
    requires |under| == 8 * x.units && 1 <= x.units && 4 <= |x.bytes|
    requires LiesAt(bs, off, x, under)
    ensures off + 8 * x.units <= |bs|
    ensures bs[off..off + 2] == x.bytes[0..2]
    ensures bs[off + 2..off + 4] == x.bytes[2..4]
    ensures bs[off + 4..off + 8 * x.units] == Filled(x, under)[4..]
  {
    var part := Filled(x, under);
    FilledKeepsHeader(x, under);
    hide Filled;
    SubSlice(bs, off, part, 0, 2);
    SubSlice(bs, off, part, 2, 4);
    SubSlice(bs, off, part, 4, |part|);
  }

  lemma {:induction false} WalkUnfolds(h: Endian, bs: seq<byte>, off: nat, n: nat)
    requires 4 <= n && off + n <= |bs| && n == 8 * Get16(h, bs[off..off + 2])
    ensures Walk(h, bs, off) ==
      match Walk(h, bs, off + n)
      case None => None
      case Some(raws) => Some([Raw(Get16(h, bs[off + 2..off + 4]), bs[off + 4..off + n])] + raws)
  {
    hide Get16;
  }

  /** One step of the walk, where the bytes at off are those of a headed and filled piece. */
  lemma {:induction false} WalkStep(h: Endian, bs: seq<byte>, off: nat, x: Piece, under: seq<byte>)
    requires Headed(h, x) && x.units < 0x1_0000
    requires |under| == 8 * x.units
    requires LiesAt(bs, off, x, under)
    ensures off + 8 * x.units <= |bs|
    ensures Walk(h, bs, off) ==
      match Walk(h, bs, off + 8 * x.units)
      case None => None
      case Some(raws) => Some([RawOf(h, x, under)] + raws)
  {
    PartsAt(bs, off, x, under);
    assert Get16(h, x.bytes[0..2]) == x.units && 1 <= x.units;
    hide Filled, Get16, Walk, LiesAt, Headed;
    WalkUnfolds(h, bs, off, 8 * x.units);
  }

  /**
   Framing survives any disagreement between declared and copied bytes: from every piece on, the walk lands
   exactly on the cursor and delimits every piece of the run, in order, each with its own type.
   */
  lemma {:induction false} WalkFindsEveryPiece(
      h: Endian, bs: seq<byte>, xs: seq<Piece>, unders: seq<seq<byte>>, k: nat)
    requires k <= |xs| && AllHeaded(h, xs) && Shaped(xs, unders) && Delivered(bs, xs, unders)
    requires forall j {:trigger xs[j]} :: 0 <= j < |xs| ==> xs[j].units < 0x1_0000
    ensures Cursor(xs, k) <= |bs|
    ensures Walk(h, bs, Cursor(xs, k)) == Some(Raws(h, xs, unders, k))
    decreases |xs| - k
  {
    hide RawOf, Filled, LiesAt, Get16;
    CursorMonotone(xs, k, |xs|);
    if k < |xs| {
      assert Headed(h, xs[k]);
      assert |unders[k]| == 8 * xs[k].units;
      WalkFindsEveryPiece(h, bs, xs, unders, k + 1);
      WalkStep(h, bs, Cursor(xs, k), xs[k], unders[k]);
    }
  }

  // ---------------------------------------------------------------------
  // Total length
  // ---------------------------------------------------------------------

  /** The 64-bit units an extension takes up on the wire. */
  function RawUnits(raw: Raw): nat {
    (4 + |raw.body|) / 8
  }

  function SumUnits(raws: seq<Raw>): nat {
    if raws == [] then 0 else RawUnits(raws[0]) + SumUnits(raws[1..])
  }

  lemma {:induction false} SumUnitsCons(raw: Raw, raws: seq<Raw>)
    ensures SumUnits([raw] + raws) == RawUnits(raw) + SumUnits(raws)
  {
    assert ([raw] + raws)[1..] == raws;
  }

  lemma {:induction false} RawOfSize(h: Endian, x: Piece, under: seq<byte>)
    requires 1 <= x.units && 4 <= |x.bytes| && |under| == 8 * x.units
    ensures 4 + |RawOf(h, x, under).body| == 8 * x.units
  {
  }

  lemma {:induction false} RawOfUnits(h: Endian, x: Piece, under: seq<byte>)
    requires 1 <= x.units && 4 <= |x.bytes| && |under| == 8 * x.units
    ensures RawUnits(RawOf(h, x, under)) == x.units
  {
  }

  /** The extensions that the walker finds add up to the bytes between the base header and the cursor. */
  lemma {:induction false} UnitsConserved(h: Endian, xs: seq<Piece>, unders: seq<seq<byte>>, k: nat)
    requires k <= |xs| && AllHeaded(h, xs) && Shaped(xs, unders)
    ensures Cursor(xs, k) + 8 * SumUnits(Raws(h, xs, unders, k)) == Cursor(xs, |xs|)
    decreases |xs| - k
  {
    hide RawOf, RawUnits, Filled, Get16;
    if k < |xs| {
      assert Headed(h, xs[k]);
      UnitsConserved(h, xs, unders, k + 1);
      RawOfUnits(h, xs[k], unders[k]);
      SumUnitsCons(RawOf(h, xs[k], unders[k]), Raws(h, xs, unders, k + 1));
    }
  }
}
