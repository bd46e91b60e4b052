/**
 Runs of extension setters over m_buf, and what a receiver makes of the bytes below m_len.
 */
module Runs {
  import opened Bytes
  import opened Appending
  import opened Walking
  import opened Extensions
  import opened Reading

  function Pieces(p: Platform, es: seq<Ext>): (xs: seq<Piece>)
    ensures |xs| == |es|
    ensures forall k {:trigger xs[k]} :: 0 <= k < |es| ==> xs[k] == PieceOf(p, es[k])
  {
    seq(|es|, k requires 0 <= k < |es| => PieceOf(p, es[k]))
  }

  lemma {:induction false} PiecesSnoc(p: Platform, es: seq<Ext>, e: Ext)
    ensures Pieces(p, es + [e]) == Pieces(p, es) + [PieceOf(p, e)]
  {
    hide PieceOf;
  }

  lemma {:induction false} PiecesHeaded(p: Platform, es: seq<Ext>)
    ensures AllHeaded(p.host, Pieces(p, es))
  {
    hide Headed, PieceOf;
    forall k | 0 <= k < |es|
      ensures Headed(p.host, Pieces(p, es)[k])
    {
      assert Pieces(p, es)[k] == PieceOf(p, es[k]);
      PieceHeaded(p, es[k]);
    }
  }

  /** The run of setters stays inside the buffer. */
  ghost predicate Fit(p: Platform, n: nat, es: seq<Ext>) {
    Fits(n, Pieces(p, es))
  }

  /** m_len after the run. */
  function MLen(p: Platform, es: seq<Ext>): (n: nat)
    ensures BASE <= n
  {
    Cursor(Pieces(p, es), |es|)
  }

  lemma {:induction false} CursorNext(p: Platform, es: seq<Ext>, k: nat)
    requires k < |es|
    ensures Cursor(Pieces(p, es), k + 1) == Cursor(Pieces(p, es), k) + Len(p, es[k])
  {
    hide Pieces, PieceOf, Headed, Len;
  }

  lemma {:induction false} SixLengths(p: Platform, es: seq<Ext>)
    requires 6 <= |es|
    ensures Cursor(Pieces(p, es), 6)
         == BASE + Len(p, es[0]) + Len(p, es[1]) + Len(p, es[2]) + Len(p, es[3]) + Len(p, es[4]) + Len(p, es[5])
  {
    assert Cursor(Pieces(p, es), 0) == BASE;
    hide Pieces, Len, Cursor;
    CursorNext(p, es, 0);
    CursorNext(p, es, 1);
    CursorNext(p, es, 2);
    CursorNext(p, es, 3);
    CursorNext(p, es, 4);
    CursorNext(p, es, 5);
  }

  /** m_buf after the run. */
  function Built(p: Platform, buf: seq<byte>, es: seq<Ext>): (r: seq<byte>)
    requires Fit(p, |buf|, es)
    ensures |r| == |buf|
  {
    Image(buf, Pieces(p, es), |es|)
  }

  /** The room the next setter needs from m_len on. */
  function RoomFor(p: Platform, e: Ext): nat {
    Footprint(PieceOf(p, e))
  }

  /** One more setter call copies its piece at m_len. */
  lemma {:induction false} BuildStep(p: Platform, buf: seq<byte>, es: seq<Ext>, e: Ext)
    requires Fit(p, |buf|, es)
    requires MLen(p, es) + RoomFor(p, e) <= |buf|
    ensures Fit(p, |buf|, es + [e])
    ensures MLen(p, es + [e]) == MLen(p, es) + Len(p, e)
    ensures MLen(p, es) + |PieceOf(p, e).bytes| <= |buf|
    ensures Built(p, buf, es + [e]) == Splice(Built(p, buf, es), MLen(p, es), PieceOf(p, e).bytes)
  {
    PiecesSnoc(p, es, e);
    hide Pieces, PieceOf, Image, Splice, Cursor, Fits;
    ImageSnoc(buf, Pieces(p, es), PieceOf(p, e));
  }

  /** A run that fits has room for each of its setters. */
  lemma {:induction false} RoomWhereItFits(p: Platform, n: nat, es: seq<Ext>, e: Ext)
    requires Fit(p, n, es + [e])
    ensures MLen(p, es) + RoomFor(p, e) <= n
  {
    PiecesSnoc(p, es, e);
    hide Pieces, PieceOf;
    var xs := Pieces(p, es + [e]);
    SameCursor(Pieces(p, es), xs, |es|);
    assert Cursor(xs, |es|) + Footprint(xs[|es|]) <= n;
  }

  /** bs are the bytes below m_len after the run; the base header may have been written since. */
  ghost predicate Sent(p: Platform, bs: seq<byte>, buf: seq<byte>, es: seq<Ext>)
    requires Fit(p, |buf|, es)
  {
    && |bs| == MLen(p, es) <= |buf|
    && bs[BASE..] == Built(p, buf, es)[BASE..MLen(p, es)]
  }

  /** The stale bytes that extension k encloses. */
  function StaleAt(p: Platform, buf: seq<byte>, es: seq<Ext>, k: nat): seq<byte>
    requires k < |es| && Fit(p, |buf|, es)
  {
    Stale(p, es[k], Under(buf, Pieces(p, es), k))
  }

  function Unders(p: Platform, buf: seq<byte>, es: seq<Ext>): (unders: seq<seq<byte>>)
    requires Fit(p, |buf|, es)
    ensures |unders| == |es|
    ensures forall k {:trigger unders[k]} :: 0 <= k < |es| ==> unders[k] == Under(buf, Pieces(p, es), k)
  {
    seq(|es|, k requires 0 <= k < |es| => Under(buf, Pieces(p, es), k))
  }

  lemma {:induction false} UndersShaped(p: Platform, buf: seq<byte>, es: seq<Ext>)
    requires Fit(p, |buf|, es)
    ensures Shaped(Pieces(p, es), Unders(p, buf, es))
  {
    hide Under, PieceOf;
  }

  lemma {:induction false} ShiftSlice(bs: seq<byte>, image: seq<byte>, base: nat, lo: nat, hi: nat)
    requires base <= lo <= hi <= |bs| <= |image|
    requires bs[base..] == image[base..|bs|]
    ensures bs[lo..hi] == image[lo..hi]
  {
    forall i | lo <= i < hi
      ensures bs[i] == image[i]
    {
      assert bs[base..][i - base] == image[base..|bs|][i - base];
    }
  }

  lemma {:induction false} EachDelivered(p: Platform, bs: seq<byte>, buf: seq<byte>, es: seq<Ext>, k: nat)
    requires Fit(p, |buf|, es) && Sent(p, bs, buf, es) && k < |es|
    ensures var xs := Pieces(p, es); LiesAt(bs, Cursor(xs, k), xs[k], Under(buf, xs, k))
  {
    hide Filled, Under, PieceOf, Pieces, Image, Fits;
    var xs := Pieces(p, es);
    RegionIsFilled(buf, xs, k);
    CursorMonotone(xs, 0, k);
    assert Built(p, buf, es)[BASE..|bs|] == bs[BASE..];
    ShiftSlice(bs, Built(p, buf, es), BASE, Cursor(xs, k), Cursor(xs, k) + 8 * xs[k].units);
  }

  lemma {:induction false} AllDelivered(p: Platform, bs: seq<byte>, buf: seq<byte>, es: seq<Ext>)
    requires Fit(p, |buf|, es) && Sent(p, bs, buf, es)
    ensures Shaped(Pieces(p, es), Unders(p, buf, es))
    ensures Delivered(bs, Pieces(p, es), Unders(p, buf, es))
  {
    UndersShaped(p, buf, es);
    hide LiesAt, PieceOf, Under;
    var xs, unders := Pieces(p, es), Unders(p, buf, es);
    forall k | 0 <= k < |xs|
      ensures LiesAt(bs, Cursor(xs, k), xs[k], unders[k])
    {
      EachDelivered(p, bs, buf, es, k);
    }
  }

  /** What a setter has copied stands where it was copied to, whatever came after. */
  lemma {:induction false} CopiedStands(p: Platform, buf: seq<byte>, es: seq<Ext>, k: nat)
    requires Fit(p, |buf|, es) && k < |es| && !es[k].Prop?
    ensures var at, bs := Cursor(Pieces(p, es), k), PieceOf(p, es[k]).bytes;
      at + |bs| <= MLen(p, es) <= |buf| && Built(p, buf, es)[at..at + |bs|] == bs
  {
    hide Pieces, PieceOf, Image, Under, Fits, Cursor, Len;
    var xs, e := Pieces(p, es), es[k];
    assert xs[k] == PieceOf(p, e);
    CopiedSize(p, e);
    RegionIsFilled(buf, xs, k);
    CopiedPart(Built(p, buf, es), Cursor(xs, k), xs[k], Under(buf, xs, k));
  }

  lemma {:induction false} CopiedPart(buf: seq<byte>, at: nat, x: Piece, under: seq<byte>)
    requires |under| == 8 * x.units && Contained(x)
    requires at + 8 * x.units <= |buf| && buf[at..at + 8 * x.units] == Filled(x, under)
    ensures buf[at..at + |x.bytes|] == x.bytes
  {
    SubSlice(buf, at, Filled(x, under), 0, |x.bytes|);
  }

  /** What the walker finds after the base header. */
  function Found(p: Platform, buf: seq<byte>, es: seq<Ext>): (raws: seq<Raw>)
    requires Fit(p, |buf|, es)
    ensures |raws| == |es|
  {
    PiecesHeaded(p, es);
    UndersShaped(p, buf, es);
    Raws(p.host, Pieces(p, es), Unders(p, buf, es), 0)
  }

  /** Every declared length fits the 16-bit field for its units. */
  ghost predicate ExactLengths(p: Platform, es: seq<Ext>) {
    forall k {:trigger es[k]} :: 0 <= k < |es| ==> Len(p, es[k]) < 8 * 0x1_0000
  }

  /** In a message short enough to be accepted, every length field is exact. */
  lemma {:induction false} ShortIsExact(p: Platform, es: seq<Ext>)
    requires MLen(p, es) < 8 * 0x1_0000
    ensures ExactLengths(p, es)
  {
    hide PieceOf, Headed, Len;
    forall k | 0 <= k < |es|
      ensures Len(p, es[k]) < 8 * 0x1_0000
    {
      assert Pieces(p, es)[k] == PieceOf(p, es[k]);
      CursorMonotone(Pieces(p, es), k, |es|);
    }
  }

  lemma {:induction false} ExactUnits(p: Platform, es: seq<Ext>)
    requires ExactLengths(p, es)
    ensures forall k {:trigger Pieces(p, es)[k]} :: 0 <= k < |es| ==> Pieces(p, es)[k].units < 0x1_0000
  {
    hide PieceOf, Len;
    forall k | 0 <= k < |es|
      ensures Pieces(p, es)[k].units < 0x1_0000
    {
      assert Pieces(p, es)[k] == PieceOf(p, es[k]);
    }
  }

  /**
   The walk over every run of setters, with arbitrary arguments and over arbitrary stale bytes, lands exactly
   on m_len and finds the appended extensions one by one, however long the message is in all.
   */
  lemma {:induction false} WalkFindsEveryExtension(p: Platform, bs: seq<byte>, buf: seq<byte>, es: seq<Ext>)
    requires Fit(p, |buf|, es) && Sent(p, bs, buf, es)
    requires ExactLengths(p, es)
    ensures Walk(p.host, bs, BASE) == Some(Found(p, buf, es))
    ensures BASE + 8 * SumUnits(Found(p, buf, es)) == |bs|
  {
    var xs, unders := Pieces(p, es), Unders(p, buf, es);
    PiecesHeaded(p, es);
    AllDelivered(p, bs, buf, es);
    ExactUnits(p, es);
    assert Cursor(xs, 0) == BASE;
    hide Pieces, Unders, Under, PieceOf, Delivered, Shaped, Walk, Raws, SumUnits;
    WalkFindsEveryPiece(p.host, bs, xs, unders, 0);
    UnitsConserved(p.host, xs, unders, 0);
  }

  /** Extension k is found with its own type, and is read back exactly when it is readable over its stale bytes. */
  lemma {:induction false} FoundExactly(p: Platform, buf: seq<byte>, es: seq<Ext>, k: nat)
    requires Fit(p, |buf|, es) && k < |es|
    ensures var raw := Found(p, buf, es)[k];
      && raw.kind == KindOf(es[k])
      && 4 + |raw.body| == Len(p, es[k])
      && (Decode(p.host, raw) == Some(es[k]) <==> Readable(p, es[k], StaleAt(p, buf, es, k)))
  {
    hide PieceOf, Decode, Readable, Under, Fields, Value, KindOf, Filled, Len, RawOf, Stale;
    var xs, unders := Pieces(p, es), Unders(p, buf, es);
    PiecesHeaded(p, es);
    UndersShaped(p, buf, es);
    RawsAt(p.host, xs, unders, 0, k);
    assert xs[k] == PieceOf(p, es[k]) && unders[k] == Under(buf, xs, k);
    BodyParts(p, es[k], unders[k]);
    RawOfSize(p.host, xs[k], unders[k]);
    ReadBackExactly(p, es[k], unders[k]);
  }

  lemma {:induction false} FoundReads(p: Platform, buf: seq<byte>, es: seq<Ext>, k: nat)
    requires Fit(p, |buf|, es) && k < |es|
    ensures |Under(buf, Pieces(p, es), k)| == Len(p, es[k])
    ensures Found(p, buf, es)[k] == RawOf(p.host, PieceOf(p, es[k]), Under(buf, Pieces(p, es), k))
  {
    hide PieceOf, Under, Filled, Len, RawOf, Headed;
    var xs, unders := Pieces(p, es), Unders(p, buf, es);
    PiecesHeaded(p, es);
    UndersShaped(p, buf, es);
    RawsAt(p.host, xs, unders, 0, k);
    assert xs[k] == PieceOf(p, es[k]) && unders[k] == Under(buf, xs, k);
  }

  /**
   An identity reaches a receiver of C strings exactly when the first of its stale bytes is zero; without stale
   bytes, that is when its length is a multiple of 8, it is sent without a terminator.
   */
  lemma {:induction false} FoundAsCString(p: Platform, buf: seq<byte>, es: seq<Ext>, k: nat)
    requires Fit(p, |buf|, es) && k < |es|
    requires es[k].Ident? && 0 !in es[k].name
    ensures var raw, stale := Found(p, buf, es)[k], StaleAt(p, buf, es, k);
      && 12 <= |raw.body|
      && (ReadCString(raw.body[12..]) == Some(es[k].name) <==> stale != [] && stale[0] == 0)
      && (stale == [] <==> |es[k].name| % 8 == 0)
      && (stale == [] ==> ReadCString(raw.body[12..]) == None)
  {
    hide PieceOf, Under, Len, RawOf, Stale, Found, ReadCString, Pieces, Fits;
    FoundReads(p, buf, es, k);
    IdentContent(p, es[k], Under(buf, Pieces(p, es), k));
    CStringExact(es[k].name, StaleAt(p, buf, es, k));
  }

  /** Anything a receiver can read after a run it reads the same after any continuation of the run. */
  lemma {:induction false} ContinuationKeepsFound(p: Platform, buf: seq<byte>, es: seq<Ext>, more: seq<Ext>, k: nat)
    requires Fit(p, |buf|, es) && Fit(p, |buf|, es + more) && k < |es|
    ensures Found(p, buf, es + more)[k] == Found(p, buf, es)[k]
  {
    hide PieceOf, Headed, Image, Cursor, RawOf, Found, Len, Fits;
    var xs, ys := Pieces(p, es), Pieces(p, es + more);
    assert forall j :: 0 <= j < |es| ==> xs[j] == ys[j];
    SameCursor(xs, ys, k);
    SameImage(buf, xs, ys, k);
    FoundReads(p, buf, es, k);
    FoundReads(p, buf, es + more, k);
  }

  // ---------------------------------------------------------------------
  // How far the setters reach
  // ---------------------------------------------------------------------

  /** No proposal before place k has been copied past the start of extension k. */
  ghost predicate ClearBefore(p: Platform, es: seq<Ext>, k: nat)
    requires k <= |es|
  {
    forall j {:trigger es[j]} :: 0 <= j < k && es[j].Prop? ==>
      Cursor(Pieces(p, es), j) + 8 + COMB_SIZE * |es[j].combs| <= Cursor(Pieces(p, es), k)
  }

  lemma {:induction false} CopiedSize(p: Platform, e: Ext)
    ensures if e.Prop? then |PieceOf(p, e).bytes| == 8 + COMB_SIZE * |e.combs| else |PieceOf(p, e).bytes| <= Len(p, e)
  {
    hide Fields, Value, Header, Len;
  }

  lemma {:induction false} ClearPieces(p: Platform, es: seq<Ext>, k: nat)
    requires k <= |es|
    ensures Clear(Pieces(p, es), k) <==> ClearBefore(p, es, k)
  {
    hide PieceOf, Headed, Len, COMB_SIZE;
    var xs := Pieces(p, es);
    forall j | 0 <= j < k
      ensures Cursor(xs, j) + |xs[j].bytes| <= Cursor(xs, k)
         <==> (es[j].Prop? ==> Cursor(xs, j) + 8 + COMB_SIZE * |es[j].combs| <= Cursor(xs, k))
    {
      assert xs[j] == PieceOf(p, es[j]);
      CopiedSize(p, es[j]);
      CursorMonotone(xs, j, k);
    }
  }

  /** So it is when each earlier proposal fits the length it declares. */
  lemma {:induction false} FittingIsClear(p: Platform, es: seq<Ext>, k: nat)
    requires k <= |es|
    requires forall j {:trigger es[j]} :: 0 <= j < k && es[j].Prop? ==> COMB_SIZE * |es[j].combs| <= p.stride * 2
    ensures ClearBefore(p, es, k)
  {
    hide PieceOf, Headed;
    forall j | 0 <= j < k && es[j].Prop?
      ensures Cursor(Pieces(p, es), j) + 8 + COMB_SIZE * |es[j].combs| <= Cursor(Pieces(p, es), k)
    {
      assert Pieces(p, es)[j] == PieceOf(p, es[j]);
      CursorMonotone(Pieces(p, es), j, k);
    }
  }

  /** A setter needs room for what it declares; a proposal also for the combinations it copies beyond that. */
  lemma {:induction false} RoomExact(p: Platform, e: Ext, room: nat)
    ensures RoomFor(p, e) <= room <==> Len(p, e) <= room && (e.Prop? ==> 8 + COMB_SIZE * |e.combs| <= room)
  {
    hide Fields, Value, Header, Len;
  }

  /**
   A run stays inside the buffer exactly when its total length does and the combinations of each of its
   proposals do, from the place where that proposal goes.
   */
  lemma {:induction false} CapacityExact(p: Platform, n: nat, es: seq<Ext>)
    ensures Fit(p, n, es) <==>
      && MLen(p, es) <= n
      && forall k {:trigger es[k]} :: 0 <= k < |es| && es[k].Prop? ==>
           Cursor(Pieces(p, es), k) + 8 + COMB_SIZE * |es[k].combs| <= n
  {
    hide PieceOf, Headed, Len, FieldsSize, ValueSize, Footprint, COMB_SIZE;
    var xs := Pieces(p, es);
    if Fit(p, n, es) {
      CursorInside(n, xs, |es|);
      forall k | 0 <= k < |es| && es[k].Prop?
        ensures Cursor(xs, k) + 8 + COMB_SIZE * |es[k].combs| <= n
      {
        assert xs[k] == PieceOf(p, es[k]) && Cursor(xs, k) + Footprint(xs[k]) <= n;
        RoomExact(p, es[k], n - Cursor(xs, k));
      }
    }
    if && MLen(p, es) <= n
       && forall k :: 0 <= k < |es| && es[k].Prop? ==> Cursor(xs, k) + 8 + COMB_SIZE * |es[k].combs| <= n
    {
      forall k | 0 <= k < |xs|
        ensures Cursor(xs, k) + Footprint(xs[k]) <= n
      {
        assert xs[k] == PieceOf(p, es[k]);
        CursorMonotone(xs, k, |xs|);
        RoomExact(p, es[k], n - Cursor(xs, k));
      }
    }
  }
}
