/**
 Which lists of extensions look alike: how far the copied bytes of a message, and the places of its padding,
 determine the extensions.
 */
module Uniqueness {
  import opened Bytes
  import opened Appending
  import opened Walking
  import opened Extensions
  import opened Layout
  import opened Reading
  import opened Runs
  import opened Schedule

  // ---------------------------------------------------------------------
  // Messages with their padding blanked out
  // ---------------------------------------------------------------------

  /** The declared bytes of a piece; None where it leaves what was there. */
  function Blanked(x: Piece): (bs: seq<Option<byte>>)
    ensures |bs| == 8 * x.units
  {
    seq(8 * x.units, i requires 0 <= i < 8 * x.units => if i < |x.bytes| then Some(x.bytes[i]) else None)
  }

  function Mask(xs: seq<Piece>, k: nat): (bs: seq<Option<byte>>)
    requires k <= |xs|
    ensures BASE + |bs| == Cursor(xs, k)
  {
    if k == 0 then [] else Mask(xs, k - 1) + Blanked(xs[k - 1])
  }

  lemma {:induction false} MaskAt(xs: seq<Piece>, j: nat, k: nat, i: nat)
    requires j < k <= |xs| && i < 8 * xs[j].units
    ensures Cursor(xs, j) + i < Cursor(xs, k)
    ensures Mask(xs, k)[Cursor(xs, j) - BASE + i] == Blanked(xs[j])[i]
    decreases k
  {
    hide Blanked;
    if j < k - 1 {
      MaskAt(xs, j, k - 1, i);
    }
  }

  /**
   The buffer after the run, up to m_len, shows the mask where the mask shows something, and elsewhere what each
   piece found there: the buffer's own stale bytes, as long as no earlier piece reaches so far.
   */
  lemma {:induction false} ImageFitsMask(buf: seq<byte>, xs: seq<Piece>, k: nat, i: nat)
    requires Fits(|buf|, xs) && k < |xs| && i < 8 * xs[k].units
    ensures Cursor(xs, k) + i < Cursor(xs, |xs|) <= |buf|
    ensures Image(buf, xs, |xs|)[Cursor(xs, k) + i] ==
      match Mask(xs, |xs|)[Cursor(xs, k) - BASE + i]
      case Some(b) => b
      case None => Under(buf, xs, k)[i]
    ensures Clear(xs, k) ==> Under(buf, xs, k)[i] == buf[Cursor(xs, k) + i]
  {
    hide Image, Cursor, Fits, Mask, Clear, Under;
    RegionIsFilled(buf, xs, k);
    MaskAt(xs, k, |xs|, i);
    var at, end := Cursor(xs, k), Cursor(xs, k) + 8 * xs[k].units;
    FilledOrStale(xs[k], Under(buf, xs, k), i);
    assert Image(buf, xs, |xs|)[at..end][i] == Image(buf, xs, |xs|)[at + i];
    if Clear(xs, k) {
      UnderIsStale(buf, xs, k);
      assert buf[at..end][i] == buf[at + i];
    }
  }

  lemma {:induction false} FilledOrStale(x: Piece, under: seq<byte>, i: nat)
    requires |under| == 8 * x.units && i < 8 * x.units
    ensures Filled(x, under)[i] == if i < |x.bytes| then x.bytes[i] else under[i]
  {
  }

  // ---------------------------------------------------------------------
  // The mask determines the blanked pieces
  // ---------------------------------------------------------------------

  ghost predicate Regular(h: Endian, x: Piece) {
    Headed(h, x) && x.units < 0x1_0000
  }

  ghost predicate AllRegular(h: Endian, xs: seq<Piece>) {
    forall k {:trigger Regular(h, xs[k])} :: 0 <= k < |xs| ==> Regular(h, xs[k])
  }

  /** What a blanked piece tells: all copied bytes, or of an overrunning piece the bytes that it declares. */
  lemma {:induction false} BlankedExactly(x: Piece, y: Piece)
    ensures Blanked(x) == Blanked(y) <==>
      && x.units == y.units
      && (|| x.bytes == y.bytes
          || (8 * x.units <= |x.bytes| && 8 * x.units <= |y.bytes| && x.bytes[..8 * x.units] == y.bytes[..8 * x.units]))
  {
    var n := 8 * x.units;
    if Blanked(x) == Blanked(y) {
      assert n == |Blanked(x)| == |Blanked(y)| == 8 * y.units;
      assert |x.bytes| < n ==> Blanked(x)[|x.bytes|] == None && Blanked(y)[|x.bytes|] == None;
      assert |y.bytes| < n ==> Blanked(y)[|y.bytes|] == None && Blanked(x)[|y.bytes|] == None;
      forall i | 0 <= i < n && i < |x.bytes|
        ensures i < |y.bytes| && x.bytes[i] == y.bytes[i]
      {
        assert Blanked(x)[i] == Blanked(y)[i];
      }
    }
    if n <= |x.bytes| && n <= |y.bytes| && x.bytes[..n] == y.bytes[..n] {
      assert forall i :: 0 <= i < n ==> x.bytes[i] == x.bytes[..n][i] == y.bytes[i];
    }
  }

  /** Two regular pieces that start with the same two bytes declare the same units. */
  lemma {:induction false} SameUnits(h: Endian, x: Piece, y: Piece)
    requires Regular(h, x) && Regular(h, y)
    requires Blanked(x)[0] == Blanked(y)[0] && Blanked(x)[1] == Blanked(y)[1]
    ensures x.units == y.units
  {
    assert x.bytes[0..2] == y.bytes[0..2];
  }

  lemma {:induction false} MaskInjective(h: Endian, xs: seq<Piece>, ys: seq<Piece>, k: nat)
    requires AllRegular(h, xs) && AllRegular(h, ys)
    requires Mask(xs, |xs|) == Mask(ys, |ys|) && k <= |xs|
    ensures k <= |ys| && Cursor(xs, k) == Cursor(ys, k)
    ensures forall j :: 0 <= j < k ==> Blanked(xs[j]) == Blanked(ys[j])
  {
    hide Mask, Blanked;
    if k > 0 {
      MaskInjective(h, xs, ys, k - 1);
      assert Regular(h, xs[k - 1]);
      CursorMonotone(xs, k - 1, |xs|);
      MaskSizes(xs, ys);
      assert k - 1 < |ys|;
      assert Regular(h, ys[k - 1]);
      hide Regular, AllRegular;
      SamePiece(h, xs, ys, k - 1);
    }
  }

  lemma {:induction false} MaskSizes(xs: seq<Piece>, ys: seq<Piece>)
    requires Mask(xs, |xs|) == Mask(ys, |ys|)
    ensures Cursor(xs, |xs|) == Cursor(ys, |ys|)
  {
    hide Mask, Cursor;
    assert BASE + |Mask(xs, |xs|)| == BASE + |Mask(ys, |ys|)|;
  }

  lemma {:induction false} SameBlankedAt(xs: seq<Piece>, ys: seq<Piece>, k: nat, i: nat)
    requires k < |xs| && k < |ys| && Cursor(xs, k) == Cursor(ys, k)
    requires i < 8 * xs[k].units && i < 8 * ys[k].units
    requires Mask(xs, |xs|) == Mask(ys, |ys|)
    ensures Blanked(xs[k])[i] == Blanked(ys[k])[i]
  {
    hide Mask, Blanked, Cursor;
    MaskAt(xs, k, |xs|, i);
    MaskAt(ys, k, |ys|, i);
  }

  lemma {:induction false} SamePiece(h: Endian, xs: seq<Piece>, ys: seq<Piece>, k: nat)
    requires k < |xs| && k < |ys| && Cursor(xs, k) == Cursor(ys, k)
    requires Regular(h, xs[k]) && Regular(h, ys[k])
    requires Mask(xs, |xs|) == Mask(ys, |ys|)
    ensures Blanked(xs[k]) == Blanked(ys[k]) && xs[k].units == ys[k].units
  {
    var x, y := xs[k], ys[k];
    assert 1 <= x.units && 1 <= y.units;
    hide Mask, Blanked, Cursor, Headed, Regular;
    SameBlankedAt(xs, ys, k, 0);
    SameBlankedAt(xs, ys, k, 1);
    SameUnits(h, x, y);
    forall i | 0 <= i < 8 * x.units
      ensures Blanked(x)[i] == Blanked(y)[i]
    {
      SameBlankedAt(xs, ys, k, i);
    }
    assert Blanked(x) == Blanked(y);
  }

  lemma {:induction false} SameMask(xs: seq<Piece>, ys: seq<Piece>, k: nat)
    requires k <= |xs| && k <= |ys|
    requires forall j :: 0 <= j < k ==> Blanked(xs[j]) == Blanked(ys[j])
    ensures Mask(xs, k) == Mask(ys, k)
  {
    hide Blanked;
    if k > 0 {
      SameMask(xs, ys, k - 1);
    }
  }

  // ---------------------------------------------------------------------
  // The pieces determine the extensions
  // ---------------------------------------------------------------------

  /** Two calls of one setter. */
  predicate SameSetter(e: Ext, f: Ext) {
    && e.Sa? == f.Sa? && e.Lifetime? == f.Lifetime? && e.Address? == f.Address? && e.Key? == f.Key?
    && e.Ident? == f.Ident? && e.Sens? == f.Sens? && e.Prop? == f.Prop? && e.SpiRange? == f.SpiRange?
  }

  /** Two calls that the stored type tells apart if they are calls of different setters. */
  predicate Comparable(e: Ext, f: Ext) {
    SameSetter(e, f) || (ProperKind(e) && ProperKind(f))
  }

  lemma {:induction false} SameConstructor(e: Ext, f: Ext)
    requires Comparable(e, f) && KindOf(e) == KindOf(f)
    ensures SameSetter(e, f) && FieldsSize(e) == FieldsSize(f)
  {
  }

  lemma {:induction false} CombsInjective(h: Endian, cs: seq<Comb>, ds: seq<Comb>)
    requires CombsBytes(h, cs) == CombsBytes(h, ds)
    ensures cs == ds
  {
    CombsExact(h, cs, []);
    CombsExact(h, ds, []);
    hide CombsBytes, ReadCombs;
    assert CombsBytes(h, cs) + [] == CombsBytes(h, ds) + [];
  }

  lemma {:induction false} WordsInjective(a: u32, b: u32, c: u32, d: u32)
    requires Put32(Big, a) + Put32(Big, b) == Put32(Big, c) + Put32(Big, d)
    ensures a == c && b == d
  {
    hide Put32, Get32;
    Cut2(Put32(Big, a), Put32(Big, b));
    Cut2(Put32(Big, c), Put32(Big, d));
    Load32(Big, a);
    Load32(Big, b);
    Load32(Big, c);
    Load32(Big, d);
  }

  /** A structure and a value belong to one extension only. */
  lemma {:induction false} StoredInjective(h: Endian, e: Ext, f: Ext)
    requires SameSetter(e, f) && KindOf(e) == KindOf(f)
    requires Fields(h, e) == Fields(h, f) && Value(h, e) == Value(h, f)
    ensures e == f
  {
    FieldsLoad(h, e);
    FieldsLoad(h, f);
    hide Fields, Get16, Get32, Get64, Put32, CombsBytes, DecodeSa, DecodeLifetime, DecodeSpiRange;
    if e.Sens? {
      WordsInjective(e.sens, e.integ, f.sens, f.integ);
    } else if e.Prop? {
      CombsInjective(h, e.combs, f.combs);
    }
  }

  lemma {:induction false} PieceInjective(p: Platform, e: Ext, f: Ext)
    requires Comparable(e, f) && PieceOf(p, e) == PieceOf(p, f)
    ensures e == f
  {
    PartsOfPiece(p, e);
    PartsOfPiece(p, f);
    hide PieceOf, Fields, Value, Get16;
    SameConstructor(e, f);
    StoredInjective(p.host, e, f);
  }

  // ---------------------------------------------------------------------
  // Extensions that look alike
  // ---------------------------------------------------------------------

  /** The combinations reach the end of what the proposal declares. */
  ghost predicate FillsItsLength(p: Platform, e: Ext) {
    e.Prop? && p.stride * 2 <= COMB_SIZE * |e.combs|
  }

  /** Only such proposals can look alike without being the same: where their combinations agree as far as declared. */
  ghost predicate LooksAlike(p: Platform, e: Ext, f: Ext) {
    || e == f
    || (&& FillsItsLength(p, e) && FillsItsLength(p, f)
        && e.replay == f.replay
        && CombsBytes(p.host, e.combs)[..p.stride * 2] == CombsBytes(p.host, f.combs)[..p.stride * 2])
  }

  /** What a proposal stores before its combinations. */
  function PropHead(p: Platform, replay: byte): (head: seq<byte>)
    ensures |head| == 8
  {
    Header(p.host, (8 + p.stride * 2) / 8, EXT_PROPOSAL) + PropFields(replay)
  }

  lemma {:induction false} PropBytes(p: Platform, e: Ext)
    requires e.Prop?
    ensures PieceOf(p, e).bytes == PropHead(p, e.replay) + CombsBytes(p.host, e.combs)
    ensures 8 * PieceOf(p, e).units == 8 + p.stride * 2
  {
    hide Header, CombsBytes, PropFields;
  }

  lemma {:induction false} HeadOfReplay(p: Platform, e: byte, f: byte)
    requires PropHead(p, e) == PropHead(p, f)
    ensures e == f
  {
    hide Header;
    assert PropHead(p, e)[4] == e && PropHead(p, f)[4] == f;
  }

  lemma {:induction false} TakeAfter(head: seq<byte>, bs: seq<byte>, n: nat)
    requires n <= |bs|
    ensures (head + bs)[..|head| + n] == head + bs[..n]
  {
  }

  lemma {:induction false} PropsAgree(p: Platform, e: Ext, f: Ext)
    requires FillsItsLength(p, e) && FillsItsLength(p, f)
    ensures var x, y := PieceOf(p, e), PieceOf(p, f); var n := 8 + p.stride * 2;
      && n <= |x.bytes| && n <= |y.bytes|
      && (x.bytes[..n] == y.bytes[..n] <==>
           && e.replay == f.replay
           && CombsBytes(p.host, e.combs)[..p.stride * 2] == CombsBytes(p.host, f.combs)[..p.stride * 2])
  {
    PropBytes(p, e);
    PropBytes(p, f);
    hide PieceOf, PropHead, CombsBytes;
    var head, cs := PropHead(p, e.replay), CombsBytes(p.host, e.combs);
    var head', ds := PropHead(p, f.replay), CombsBytes(p.host, f.combs);
    var m := p.stride * 2;
    TakeAfter(head, cs, m);
    TakeAfter(head', ds, m);
    if head + cs[..m] == head' + ds[..m] {
      SplitBytes(head, cs[..m]);
      SplitBytes(head', ds[..m]);
      HeadOfReplay(p, e.replay, f.replay);
    }
  }

  /** A proposal and anything else differ in their stored types. */
  lemma {:induction false} SameKind(p: Platform, e: Ext, f: Ext, n: nat)
    requires 4 <= n <= |PieceOf(p, e).bytes| && n <= |PieceOf(p, f).bytes|
    requires PieceOf(p, e).bytes[..n] == PieceOf(p, f).bytes[..n]
    ensures KindOf(e) == KindOf(f)
  {
    PartsOfPiece(p, e);
    PartsOfPiece(p, f);
    hide *;
    PrefixSlice(PieceOf(p, e).bytes, n);
    PrefixSlice(PieceOf(p, f).bytes, n);
  }

  lemma {:induction false} PrefixSlice(bs: seq<byte>, n: nat)
    requires 4 <= n <= |bs|
    ensures bs[..n][2..4] == bs[2..4]
  {
  }

  lemma {:induction false} SizeOfPiece(p: Platform, e: Ext)
    ensures 8 * PieceOf(p, e).units == Len(p, e)
    ensures Len(p, e) <= |PieceOf(p, e).bytes| ==>
      if e.Prop? then FillsItsLength(p, e) else Len(p, e) == |PieceOf(p, e).bytes|
  {
    hide Fields, Value, Header;
  }

  lemma {:induction false} AlikeAreBlankedAlike(p: Platform, e: Ext, f: Ext)
    requires LooksAlike(p, e, f)
    ensures Blanked(PieceOf(p, e)) == Blanked(PieceOf(p, f))
  {
    if e != f {
      BlankedExactly(PieceOf(p, e), PieceOf(p, f));
      PropsAgree(p, e, f);
      PropBytes(p, e);
      PropBytes(p, f);
      hide PieceOf, Blanked, CombsBytes, PropHead;
    }
  }

  lemma {:induction false} BlankedAlikeAreAlike(p: Platform, e: Ext, f: Ext)
    requires Comparable(e, f)
    requires Blanked(PieceOf(p, e)) == Blanked(PieceOf(p, f))
    ensures LooksAlike(p, e, f)
  {
    var x, y := PieceOf(p, e), PieceOf(p, f);
    BlankedExactly(x, y);
    SizeOfPiece(p, e);
    SizeOfPiece(p, f);
    hide Blanked, CombsBytes, Len, Comparable, PieceOf;
    if x.bytes == y.bytes {
      PieceInjective(p, e, f);
    } else {
      var n := 8 * x.units;
      SameKind(p, e, f, n);
      SameConstructor(e, f);
      assert n == |x.bytes| ==> x.bytes[..n] == x.bytes;
      assert n == |y.bytes| ==> y.bytes[..n] == y.bytes;
      if FillsItsLength(p, e) && FillsItsLength(p, f) {
        PropsAgree(p, e, f);
        PropBytes(p, e);
      }
    }
  }

  /** Two setter calls store the same bytes, as far as a receiver can see them, exactly when they look alike. */
  lemma {:induction false} LooksAlikeExactly(p: Platform, e: Ext, f: Ext)
    requires Comparable(e, f)
    ensures Blanked(PieceOf(p, e)) == Blanked(PieceOf(p, f)) <==> LooksAlike(p, e, f)
  {
    hide LooksAlike, PieceOf, Blanked, Comparable;
    if LooksAlike(p, e, f) {
      AlikeAreBlankedAlike(p, e, f);
    }
    if Blanked(PieceOf(p, e)) == Blanked(PieceOf(p, f)) {
      BlankedAlikeAreAlike(p, e, f);
    }
  }

  lemma {:induction false} RegularPieces(p: Platform, es: seq<Ext>)
    requires ExactLengths(p, es)
    ensures AllRegular(p.host, Pieces(p, es))
  {
    hide PieceOf, Headed, Len;
    forall k | 0 <= k < |es|
      ensures Regular(p.host, Pieces(p, es)[k])
    {
      assert Pieces(p, es)[k] == PieceOf(p, es[k]);
      PieceHeaded(p, es[k]);
    }
  }

  ghost predicate AllComparable(es: seq<Ext>, fs: seq<Ext>) {
    forall k {:trigger es[k]} {:trigger fs[k]} :: 0 <= k < |es| && k < |fs| ==> Comparable(es[k], fs[k])
  }

  /** The messages of two lists agree in all bytes but their padding exactly when the lists look alike, one by one. */
  lemma {:induction false} MasksAgreeExactly(p: Platform, es: seq<Ext>, fs: seq<Ext>)
    requires ExactLengths(p, es) && ExactLengths(p, fs) && AllComparable(es, fs)
    ensures Mask(Pieces(p, es), |es|) == Mask(Pieces(p, fs), |fs|)
       <==> |es| == |fs| && forall k :: 0 <= k < |es| ==> LooksAlike(p, es[k], fs[k])
  {
    hide PieceOf, Headed, Comparable, Mask, AllRegular, Cursor, LooksAlike, Blanked, ExactLengths;
    var xs, ys := Pieces(p, es), Pieces(p, fs);
    forall k | 0 <= k < |es| && k < |fs|
      ensures Blanked(xs[k]) == Blanked(ys[k]) <==> LooksAlike(p, es[k], fs[k])
    {
      assert xs[k] == PieceOf(p, es[k]) && ys[k] == PieceOf(p, fs[k]);
      LooksAlikeExactly(p, es[k], fs[k]);
    }
    if Mask(xs, |xs|) == Mask(ys, |ys|) {
      RegularPieces(p, es);
      RegularPieces(p, fs);
      MaskInjective(p.host, xs, ys, |xs|);
      MaskInjective(p.host, ys, xs, |ys|);
    }
    if |es| == |fs| && forall k :: 0 <= k < |es| ==> LooksAlike(p, es[k], fs[k]) {
      SameMask(xs, ys, |xs|);
    }
  }

  /** key_setsadbprop takes no argument: it always stores the same two combinations. */
  ghost predicate ProgramRun(p: Platform, es: seq<Ext>) {
    ExactLengths(p, es) && forall k {:trigger es[k]} :: 0 <= k < |es| && es[k].Prop? ==> es[k] == PROP_EXT
  }

  /**
   What the setters of the program can build: two lists whose messages agree in all bytes but their padding are
   the same list, whatever the size of a pointer.
   */
  lemma {:induction false} SameBytesSameExtensions(p: Platform, es: seq<Ext>, fs: seq<Ext>)
    requires ProgramRun(p, es) && ProgramRun(p, fs) && AllComparable(es, fs)
    requires Mask(Pieces(p, es), |es|) == Mask(Pieces(p, fs), |fs|)
    ensures es == fs
  {
    hide Mask, Pieces, ExactLengths, AllComparable, CombsBytes, PROP_EXT;
    MasksAgreeExactly(p, es, fs);
  }

  /**
   The setters accept any extension type. A key stored under whatever type is, byte for byte, an address stored
   under that type, with the number of bits for its protocol and prefix length.
   */
  lemma {:induction false} KeysLookLikeAddresses(p: Platform, kind: u16, key: seq<byte>)
    ensures var bits := Put16(p.host, |key| * 8 % 0x1_0000);
      PieceOf(p, Key(kind, key)) == PieceOf(p, Address(kind, bits[0], bits[1], key))
  {
    hide Header;
    var bits := Put16(p.host, |key| * 8 % 0x1_0000);
    assert bits == [bits[0], bits[1]];
  }

  /** Of other proposals a receiver cannot even tell how many combinations there were. */
  lemma {:induction false} ProposalsLookAlike(p: Platform)
    requires p.stride * 2 <= COMB_SIZE
    ensures var e, f := PROP_EXT, Prop(0, [AES_GCM]);
      && e != f && ProperKind(e) && ProperKind(f)
      && Len(p, e) == Len(p, f) == 8 + p.stride * 2
      && Blanked(PieceOf(p, e)) == Blanked(PieceOf(p, f))
  {
    var e, f := PROP_EXT, Prop(0, [AES_GCM]);
    assert |e.combs| == 2 && |f.combs| == 1;
    LooksAlikeExactly(p, e, f);
    var head := CombBytes(p.host, AES_GCM);
    assert CombsBytes(p.host, f.combs) == head + CombsBytes(p.host, f.combs[1..]);
    assert CombsBytes(p.host, e.combs) == head + CombsBytes(p.host, e.combs[1..]);
    hide CombsBytes, CombBytes, Blanked, PieceOf, AES_GCM, AES_CBC_WITH_SHA2;
    assert (head + CombsBytes(p.host, f.combs[1..]))[..p.stride * 2] == head[..p.stride * 2];
    assert (head + CombsBytes(p.host, e.combs[1..]))[..p.stride * 2] == head[..p.stride * 2];
  }

  // ---------------------------------------------------------------------
  // Lengths that do not fit their field
  // ---------------------------------------------------------------------

  function Somes(bs: seq<byte>): (r: seq<Option<byte>>)
    ensures |r| == |bs|
  {
    seq(|bs|, i requires 0 <= i < |bs| => Some(bs[i]))
  }

  lemma {:induction false} SomesJoin(a: seq<byte>, b: seq<byte>)
    ensures Somes(a + b) == Somes(a) + Somes(b)
  {
  }

  /** A piece without padding shows all its bytes. */
  lemma {:induction false} BlankedFull(x: Piece)
    requires |x.bytes| == 8 * x.units
    ensures Blanked(x) == Somes(x.bytes)
  {
  }

  /** The bytes of n extensions of type SPIRANGE. */
  function Ranges(p: Platform, n: nat): (bs: seq<byte>)
    ensures |bs| == 16 * n
  {
    if n == 0 then [] else Ranges(p, n - 1) + PieceOf(p, SPIRANGE_EXT).bytes
  }

  function WithRanges(e: Ext, n: nat): (es: seq<Ext>)
    ensures |es| == 1 + n && es[0] == e
    ensures forall k :: 1 <= k < |es| ==> es[k] == SPIRANGE_EXT
  {
    [e] + seq(n, _ => SPIRANGE_EXT)
  }

  lemma {:induction false} BlankedRange(p: Platform, e: Ext, n: nat, j: nat)
    requires j <= n && |PieceOf(p, e).bytes| == Len(p, e)
    ensures Blanked(Pieces(p, WithRanges(e, n))[j]) == Somes(PieceOf(p, if j == 0 then e else SPIRANGE_EXT).bytes)
  {
    var x := PieceOf(p, WithRanges(e, n)[j]);
    assert Pieces(p, WithRanges(e, n))[j] == x;
    hide Blanked, Somes, Header, Value, Fields;
    BlankedFull(x);
  }

  lemma {:induction false} MaskOfRanges(p: Platform, e: Ext, n: nat, j: nat)
    requires j <= n && |PieceOf(p, e).bytes| == Len(p, e)
    ensures Mask(Pieces(p, WithRanges(e, n)), 1 + j) == Somes(PieceOf(p, e).bytes + Ranges(p, j))
  {
    hide PieceOf, Blanked, Somes, Len, Pieces, WithRanges, SPIRANGE_EXT;
    var xs := Pieces(p, WithRanges(e, n));
    BlankedRange(p, e, n, j);
    if j == 0 {
      assert Mask(xs, 1) == [] + Blanked(xs[0]);
      assert PieceOf(p, e).bytes + Ranges(p, 0) == PieceOf(p, e).bytes;
    } else {
      var front, last := Ranges(p, j - 1), PieceOf(p, SPIRANGE_EXT).bytes;
      MaskOfRanges(p, e, n, j - 1);
      AppendAssociative(PieceOf(p, e).bytes, front, last);
      SomesJoin(PieceOf(p, e).bytes + front, last);
    }
  }

  lemma {:induction false} WrappedUnits(n: nat)
    requires n % 32768 == 0 && 0 < n
    ensures 8 * 0x1_0000 <= 8 + 16 * n && (8 + 16 * n) / 8 % 0x1_0000 == 1
  {
  }

  /** The length field of an address with 65536 units too many is that of an empty one. */
  lemma {:induction false} LongAddress(p: Platform, e: Ext, f: Ext, n: nat)
    requires e.Address? && |e.sockaddr| == 16 * n && n % 32768 == 0 && 0 < n
    requires f == Address(e.kind, e.proto, e.prefixLen, [])
    ensures 8 * 0x1_0000 <= Len(p, e) == |PieceOf(p, e).bytes|
    ensures Len(p, f) == |PieceOf(p, f).bytes|
    ensures PieceOf(p, e).bytes == PieceOf(p, f).bytes + e.sockaddr
  {
    hide Align8, Len;
    LenOfPayload(p, e);
    LenOfPayload(p, f);
    AlignedExactly(16 * n);
    AlignedExactly(0);
    assert Len(p, e) == 8 + 16 * n && Len(p, f) == 8;
    WrappedUnits(n);
    hide Put16;
    assert Header(p.host, Len(p, e) / 8, e.kind) == Header(p.host, Len(p, f) / 8, e.kind);
    hide Header, AddressFields;
    var start := Header(p.host, Len(p, f) / 8, e.kind) + AddressFields(p.host, e.proto, e.prefixLen);
    assert PieceOf(p, f).bytes == start + [] == start;
  }

  /**
   Why the lengths must fit their fields: a socket address of 524288 bytes that read as extensions of type
   SPIRANGE looks like an empty one and those extensions after it.
   */
  lemma {:induction false} LongListsLookAlike(p: Platform, e: Ext, f: Ext, n: nat)
    requires e.Address? && e.sockaddr == Ranges(p, n) && n % 32768 == 0 && 0 < n
    requires f == Address(e.kind, e.proto, e.prefixLen, [])
    ensures var es, fs := [e], WithRanges(f, n);
      && |es| != |fs|
      && 8 * 0x1_0000 <= Len(p, e)
      && Mask(Pieces(p, es), |es|) == Mask(Pieces(p, fs), |fs|)
  {
    hide *;
    LongAddress(p, e, f, n);
    OneAlone(e);
    MaskOfRanges(p, e, 0, 0);
    MaskOfRanges(p, f, n, n);
    NoRanges(p, PieceOf(p, e).bytes);
  }

  lemma {:induction false} OneAlone(e: Ext)
    ensures WithRanges(e, 0) == [e]
  {
  }

  lemma {:induction false} NoRanges(p: Platform, bs: seq<byte>)
    ensures bs + Ranges(p, 0) == bs
  {
  }
}
