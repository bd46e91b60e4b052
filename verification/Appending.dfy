/**
 Byte strings copied at a cursor, as the setters of test_pfkey.c copy extensions into m_buf.

 A piece declares a number of 64-bit units by which the cursor moves, and copies some bytes; the two need
 not agree. A piece that copies less leaves stale bytes below the new cursor, one that copies more writes
 past it.
 */
module Appending {
  import opened Bytes

  datatype Piece = Piece(bytes: seq<byte>, units: nat)

  /** The size of the base header, where the first piece goes (RFC 2367, section 2.1). */
  const BASE := 16

  /** No byte is copied past the declared length. */
  predicate Contained(x: Piece) {
    |x.bytes| <= 8 * x.units
  }

  /** The room a piece needs from the cursor on. */
  function Footprint(x: Piece): nat {
    if Contained(x) then 8 * x.units else |x.bytes|
  }

  /** The cursor after the first k pieces. */
  function Cursor(xs: seq<Piece>, k: nat): (n: nat)
    requires k <= |xs|
    ensures BASE <= n
  {
    if k == 0 then BASE else Cursor(xs, k - 1) + 8 * xs[k - 1].units
  }

  /** Every piece of the run stays inside a buffer of n bytes. */
  ghost predicate Fits(n: nat, xs: seq<Piece>) {
    BASE <= n && forall k {:trigger Footprint(xs[k])} :: 0 <= k < |xs| ==> Cursor(xs, k) + Footprint(xs[k]) <= n
  }

  /** A buffer in which bs has been copied to offset at. */
  function Splice(buf: seq<byte>, at: nat, bs: seq<byte>): (r: seq<byte>)
    requires at + |bs| <= |buf|
    ensures |r| == |buf|
    ensures forall i {:trigger r[i]} :: 0 <= i < |buf| ==> r[i] == if at <= i < at + |bs| then bs[i - at] else buf[i]
  {
    buf[..at] + bs + buf[at + |bs|..]
  }

  /** What has been copied stands where it was copied to. */
  lemma {:induction false} SpliceStands(buf: seq<byte>, at: nat, bs: seq<byte>)
    requires at + |bs| <= |buf|
    ensures Splice(buf, at, bs)[at..at + |bs|] == bs
  {
  }

  /** The buffer after the first k pieces, given what it held before. */
  function Image(buf: seq<byte>, xs: seq<Piece>, k: nat): (r: seq<byte>)
    requires k <= |xs| && Fits(|buf|, xs)
    ensures |r| == |buf|
  {
    if k == 0 then buf
    else
      assert Cursor(xs, k - 1) + Footprint(xs[k - 1]) <= |buf|;
      Splice(Image(buf, xs, k - 1), Cursor(xs, k - 1), xs[k - 1].bytes)
  }

  lemma {:induction false} CursorMonotone(xs: seq<Piece>, j: nat, k: nat)
    requires j <= k <= |xs|
    ensures Cursor(xs, j) <= Cursor(xs, k)
    ensures j < k ==> Cursor(xs, j) + 8 * xs[j].units <= Cursor(xs, k)
    decreases k
  {
    if j < k {
      CursorMonotone(xs, j, k - 1);
    }
  }

  /** The cursor never leaves the buffer. */
  lemma {:induction false} CursorInside(n: nat, xs: seq<Piece>, k: nat)
    requires Fits(n, xs) && k <= |xs|
    ensures Cursor(xs, k) <= n
  {
    if k > 0 {
      assert Cursor(xs, k - 1) + Footprint(xs[k - 1]) <= n;
    }
  }

  /** Runs that start alike move the cursor alike. */
  lemma {:induction false} SameCursor(xs: seq<Piece>, ys: seq<Piece>, k: nat)
    requires k <= |xs| && k <= |ys|
    requires forall j :: 0 <= j < k ==> xs[j] == ys[j]
    ensures Cursor(xs, k) == Cursor(ys, k)
  {
    if k > 0 {
      SameCursor(xs, ys, k - 1);
    }
  }

  /** Runs that start alike build alike. */
  lemma {:induction false} SameImage(buf: seq<byte>, xs: seq<Piece>, ys: seq<Piece>, k: nat)
    requires k <= |xs| && k <= |ys|
    requires forall j :: 0 <= j < k ==> xs[j] == ys[j]
    requires Fits(|buf|, xs) && Fits(|buf|, ys)
    ensures Image(buf, xs, k) == Image(buf, ys, k)
  {
    if k > 0 {
      SameImage(buf, xs, ys, k - 1);
      SameCursor(xs, ys, k - 1);
    }
  }

  lemma {:induction false} FitsSnoc(n: nat, xs: seq<Piece>, x: Piece)
    requires Fits(n, xs)
    requires Cursor(xs, |xs|) + Footprint(x) <= n
    ensures Fits(n, xs + [x])
    ensures Cursor(xs + [x], |xs|) == Cursor(xs, |xs|)
  {
    hide Footprint;
    var ys := xs + [x];
    forall k | 0 <= k < |ys|
      ensures Cursor(ys, k) + Footprint(ys[k]) <= n
    {
      SameCursor(xs, ys, k);
      if k < |xs| {
        assert Cursor(xs, k) + Footprint(xs[k]) <= n;
      }
    }
    SameCursor(xs, ys, |xs|);
  }

  /** Appending one piece to a run is copying it at the cursor. */
  lemma {:induction false} ImageSnoc(buf: seq<byte>, xs: seq<Piece>, x: Piece)
    requires Fits(|buf|, xs)
    requires Cursor(xs, |xs|) + Footprint(x) <= |buf|
    ensures Fits(|buf|, xs + [x])
    ensures Cursor(xs + [x], |xs| + 1) == Cursor(xs, |xs|) + 8 * x.units
    ensures Image(buf, xs + [x], |xs| + 1) == Splice(Image(buf, xs, |xs|), Cursor(xs, |xs|), x.bytes)
  {
    hide Splice, Footprint;
    FitsSnoc(|buf|, xs, x);
    SameImage(buf, xs, xs + [x], |xs|);
  }

  lemma {:induction false} ImageStep(buf: seq<byte>, xs: seq<Piece>, k: nat, i: nat)
    requires 0 < k <= |xs| && Fits(|buf|, xs) && i < |buf|
    ensures Image(buf, xs, k)[i] ==
      var at := Cursor(xs, k - 1);
      if at <= i < at + |xs[k - 1].bytes| then xs[k - 1].bytes[i - at] else Image(buf, xs, k - 1)[i]
  {
    hide Splice;
    assert Cursor(xs, k - 1) + Footprint(xs[k - 1]) <= |buf|;
  }

  /** A piece leaves alone every byte below the cursor; the bytes there never change again. */
  lemma {:induction false} BelowCursorStays(buf: seq<byte>, xs: seq<Piece>, j: nat, k: nat, i: nat)
    requires Fits(|buf|, xs) && j <= k <= |xs|
    requires i < Cursor(xs, j) <= |buf|
    ensures Image(buf, xs, k)[i] == Image(buf, xs, j)[i]
    decreases k
  {
    hide Image, Fits, Cursor;
    if j < k {
      BelowCursorStays(buf, xs, j, k - 1, i);
      CursorMonotone(xs, j, k - 1);
      ImageStep(buf, xs, k, i);
    }
  }

  /** What piece k finds in the buffer under its declared bytes. */
  function Under(buf: seq<byte>, xs: seq<Piece>, k: nat): (under: seq<byte>)
    requires k < |xs| && Fits(|buf|, xs)
    ensures |under| == 8 * xs[k].units
  {
    assert Cursor(xs, k) + Footprint(xs[k]) <= |buf|;
    Image(buf, xs, k)[Cursor(xs, k)..Cursor(xs, k) + 8 * xs[k].units]
  }

  /** The copied bytes, cut off at the declared length or filled up to it with what was there. */
  function Filled(x: Piece, under: seq<byte>): (bs: seq<byte>)
    requires |under| == 8 * x.units
    ensures |bs| == 8 * x.units
  {
    if Contained(x) then x.bytes + under[|x.bytes|..] else x.bytes[..8 * x.units]
  }

  /** Right after it has been copied, a piece fills its declared bytes. */
  lemma {:induction false} JustCopied(buf: seq<byte>, at: nat, x: Piece)
    requires at + Footprint(x) <= |buf|
    ensures Splice(buf, at, x.bytes)[at..at + 8 * x.units] == Filled(x, buf[at..at + 8 * x.units])
  {
  }

  lemma {:induction false} PieceJustCopied(buf: seq<byte>, xs: seq<Piece>, k: nat)
    requires k < |xs| && Fits(|buf|, xs)
    ensures Cursor(xs, k + 1) == Cursor(xs, k) + 8 * xs[k].units <= |buf|
    ensures Image(buf, xs, k + 1)[Cursor(xs, k)..Cursor(xs, k + 1)] == Filled(xs[k], Under(buf, xs, k))
  {
    hide Splice, Filled;
    assert Cursor(xs, k) + Footprint(xs[k]) <= |buf|;
    JustCopied(Image(buf, xs, k), Cursor(xs, k), xs[k]);
  }

  lemma {:induction false} SliceStays(buf: seq<byte>, xs: seq<Piece>, j: nat, lo: nat, hi: nat)
    requires Fits(|buf|, xs) && j <= |xs|
    requires lo <= hi <= Cursor(xs, j) <= |buf|
    ensures Image(buf, xs, |xs|)[lo..hi] == Image(buf, xs, j)[lo..hi]
  {
    hide Image;
    forall i | lo <= i < hi
      ensures Image(buf, xs, |xs|)[i] == Image(buf, xs, j)[i]
    {
      BelowCursorStays(buf, xs, j, |xs|, i);
    }
  }

  /** After any run, whatever comes after piece k in it, the declared bytes of piece k are its filled bytes. */
  lemma {:induction false} RegionIsFilled(buf: seq<byte>, xs: seq<Piece>, k: nat)
    requires k < |xs| && Fits(|buf|, xs)
    ensures Cursor(xs, k) + 8 * xs[k].units <= Cursor(xs, |xs|) <= |buf|
    ensures Image(buf, xs, |xs|)[Cursor(xs, k)..Cursor(xs, k) + 8 * xs[k].units]
         == Filled(xs[k], Under(buf, xs, k))
  {
    hide *;
    CursorMonotone(xs, k, |xs|);
    CursorInside(|buf|, xs, |xs|);
    PieceJustCopied(buf, xs, k);
    SliceStays(buf, xs, k + 1, Cursor(xs, k), Cursor(xs, k + 1));
  }

  // ---------------------------------------------------------------------
  // What the run leaves as it was
  // ---------------------------------------------------------------------

  /** One of the first k pieces has been copied over byte i. */
  predicate Reached(xs: seq<Piece>, k: nat, i: nat)
    requires k <= |xs|
  {
    k > 0 && (Reached(xs, k - 1, i) || Cursor(xs, k - 1) <= i < Cursor(xs, k - 1) + |xs[k - 1].bytes|)
  }

  /** A byte depends on the pieces alone where one of them has reached it, and on the old buffer alone elsewhere. */
  lemma {:induction false} ReachedOrUntouched(buf: seq<byte>, other: seq<byte>, xs: seq<Piece>, k: nat, i: nat)
    requires k <= |xs| && Fits(|buf|, xs) && Fits(|other|, xs)
    requires i < |buf| && i < |other|
    ensures if Reached(xs, k, i) then Image(buf, xs, k)[i] == Image(other, xs, k)[i]
            else Image(buf, xs, k)[i] == buf[i] && Image(other, xs, k)[i] == other[i]
  {
    if k == 0 {
      assert Image(buf, xs, 0) == buf && Image(other, xs, 0) == other;
    } else {
      hide Image, Fits, Cursor;
      ReachedOrUntouched(buf, other, xs, k - 1, i);
      ImageStep(buf, xs, k, i);
      ImageStep(other, xs, k, i);
    }
  }

  /** Building the same message again over its own bytes changes nothing, stale bytes and overrun bytes included. */
  lemma {:induction false} RebuildChangesNothing(buf: seq<byte>, xs: seq<Piece>)
    requires Fits(|buf|, xs)
    ensures Image(Image(buf, xs, |xs|), xs, |xs|) == Image(buf, xs, |xs|)
  {
    hide Image, Fits, Reached;
    var built := Image(buf, xs, |xs|);
    forall i | 0 <= i < |buf|
      ensures Image(built, xs, |xs|)[i] == built[i]
    {
      ReachedOrUntouched(built, buf, xs, |xs|, i);
    }
  }

  /** No piece before piece k reaches past the cursor at which piece k starts. */
  ghost predicate Clear(xs: seq<Piece>, k: nat)
    requires k <= |xs|
  {
    forall j {:trigger xs[j]} :: 0 <= j < k ==> Cursor(xs, j) + |xs[j].bytes| <= Cursor(xs, k)
  }

  lemma {:induction false} ContainedIsClear(xs: seq<Piece>, k: nat)
    requires k <= |xs|
    requires forall j {:trigger Contained(xs[j])} :: 0 <= j < k ==> Contained(xs[j])
    ensures Clear(xs, k)
  {
    forall j | 0 <= j < k
      ensures Cursor(xs, j) + |xs[j].bytes| <= Cursor(xs, k)
    {
      assert Contained(xs[j]);
      CursorMonotone(xs, j, k);
    }
  }

  lemma {:induction false} ReachedBy(xs: seq<Piece>, k: nat, i: nat) returns (j: nat)
    requires k <= |xs| && Reached(xs, k, i)
    ensures j < k && Cursor(xs, j) <= i < Cursor(xs, j) + |xs[j].bytes|
  {
    if Cursor(xs, k - 1) <= i < Cursor(xs, k - 1) + |xs[k - 1].bytes| {
      j := k - 1;
    } else {
      j := ReachedBy(xs, k - 1, i);
    }
  }

  lemma {:induction false} ReachedLater(xs: seq<Piece>, j: nat, k: nat, i: nat)
    requires j < k <= |xs| && Cursor(xs, j) <= i < Cursor(xs, j) + |xs[j].bytes|
    ensures Reached(xs, k, i)
    decreases k
  {
    if j < k - 1 {
      ReachedLater(xs, j, k - 1, i);
    }
  }

  lemma {:induction false} ClearIsNotReached(xs: seq<Piece>, k: nat, i: nat)
    requires k <= |xs| && Clear(xs, k) && Cursor(xs, k) <= i
    ensures !Reached(xs, k, i)
  {
    hide Cursor, Reached;
    if Reached(xs, k, i) {
      var j := ReachedBy(xs, k, i);
    }
  }

  /** As long as every piece is contained, nothing at or beyond the cursor has been touched. */
  lemma {:induction false} BeyondCursorUntouched(buf: seq<byte>, xs: seq<Piece>, k: nat, i: nat)
    requires Fits(|buf|, xs) && k <= |xs|
    requires forall j {:trigger Contained(xs[j])} :: 0 <= j < k ==> Contained(xs[j])
    requires Cursor(xs, k) <= i < |buf|
    ensures Image(buf, xs, k)[i] == buf[i]
  {
    hide Image, Fits, Cursor, Clear, Reached;
    ContainedIsClear(xs, k);
    ClearIsNotReached(xs, k, i);
    ReachedOrUntouched(buf, buf, xs, k, i);
  }

  /** A piece finds what was there before the run, as far as no earlier piece has reached. */
  lemma {:induction false} UnderIsStale(buf: seq<byte>, xs: seq<Piece>, k: nat)
    requires k < |xs| && Fits(|buf|, xs) && Clear(xs, k)
    ensures Cursor(xs, k) + 8 * xs[k].units <= |buf|
    ensures Under(buf, xs, k) == buf[Cursor(xs, k)..Cursor(xs, k) + 8 * xs[k].units]
  {
    PieceJustCopied(buf, xs, k);
    hide Image, Filled, Reached, Fits, Cursor, Clear;
    var at, end := Cursor(xs, k), Cursor(xs, k) + 8 * xs[k].units;
    forall i | at <= i < end
      ensures Image(buf, xs, k)[i] == buf[i]
    {
      ReachedOrUntouched(buf, buf, xs, k, i);
      ClearIsNotReached(xs, k, i);
    }
    SameSlice(Image(buf, xs, k), buf, at, end);
  }

  lemma {:induction false} SameSlice(a: seq<byte>, b: seq<byte>, lo: nat, hi: nat)
    requires lo <= hi <= |a| == |b|
    requires forall i :: lo <= i < hi ==> a[i] == b[i]
    ensures a[lo..hi] == b[lo..hi]
  {
  }

  /** Whatever the buffer held, piece k finds it under its declared bytes. */
  ghost predicate FindsWhatWasThere(n: nat, xs: seq<Piece>, k: nat)
    requires k < |xs| && Fits(n, xs)
  {
    forall buf: seq<byte> {:trigger Under(buf, xs, k)} :: |buf| == n ==>
      && Cursor(xs, k) + 8 * xs[k].units <= n
      && Under(buf, xs, k) == buf[Cursor(xs, k)..Cursor(xs, k) + 8 * xs[k].units]
  }

  /** A piece that an earlier one reaches into finds a byte of that one, whatever was there before. */
  lemma {:induction false} ReachedFindsOther(n: nat, xs: seq<Piece>, k: nat, j: nat)
    requires k < |xs| && Fits(n, xs) && 1 <= xs[k].units
    requires j < k && Cursor(xs, k) < Cursor(xs, j) + |xs[j].bytes|
    ensures !FindsWhatWasThere(n, xs, k)
  {
    var zeros, ones := Zeros(n), seq(n, _ => 1 as byte);
    PieceJustCopied(zeros, xs, k);
    CursorMonotone(xs, j, k);
    ReachedLater(xs, j, k, Cursor(xs, k));
    ReachedOrUntouched(zeros, ones, xs, k, Cursor(xs, k));
    hide Image, Filled, Reached, Fits, Cursor;
    assert Under(zeros, xs, k)[0] == Under(ones, xs, k)[0];
  }

  lemma {:induction false} UnderIsStaleExactly(n: nat, xs: seq<Piece>, k: nat)
    requires k < |xs| && Fits(n, xs) && 1 <= xs[k].units
    ensures FindsWhatWasThere(n, xs, k) <==> Clear(xs, k)
  {
    hide FindsWhatWasThere, Fits, Cursor, Under;
    if Clear(xs, k) {
      ClearFinds(n, xs, k);
    } else {
      var j :| 0 <= j < k && Cursor(xs, k) < Cursor(xs, j) + |xs[j].bytes|;
      ReachedFindsOther(n, xs, k, j);
    }
  }

  lemma {:induction false} ClearFinds(n: nat, xs: seq<Piece>, k: nat)
    requires k < |xs| && Fits(n, xs) && Clear(xs, k)
    ensures FindsWhatWasThere(n, xs, k)
  {
    hide Under, Fits, Cursor;
    forall buf: seq<byte> | |buf| == n
      ensures Cursor(xs, k) + 8 * xs[k].units <= n
      ensures Under(buf, xs, k) == buf[Cursor(xs, k)..Cursor(xs, k) + 8 * xs[k].units]
    {
      UnderIsStale(buf, xs, k);
    }
  }

  /** On a buffer that is zero from the base header on, every byte that no piece reaches stays zero. */
  lemma {:induction false} ZeroTailKept(buf: seq<byte>, xs: seq<Piece>, i: nat)
    requires Fits(|buf|, xs)
    requires |buf| >= BASE && AllZero(buf[BASE..])
    requires BASE <= i < |buf| && !Reached(xs, |xs|, i)
    ensures Image(buf, xs, |xs|)[i] == 0
  {
    hide Image, Fits, Reached;
    ReachedOrUntouched(buf, buf, xs, |xs|, i);
    assert buf[BASE..][i - BASE] == 0;
  }
}
