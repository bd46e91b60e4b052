/**
 Machine integers, their byte order in memory, and runs of zero bytes.
 */
module Bytes {

  datatype Option<+T> = None | Some(value: T)

  type byte = x: int | 0 <= x < 0x100
  type u16 = x: int | 0 <= x < 0x1_0000
  type u32 = x: int | 0 <= x < 0x1_0000_0000
  type u64 = x: int | 0 <= x < 0x1_0000_0000_0000_0000

  /** The byte order of the host; every theorem below holds for both. */
  datatype Endian = Little | Big

  // ---------------------------------------------------------------------
  // Stores and loads of 16, 32 and 64-bit fields
  // ---------------------------------------------------------------------

  function Put16(h: Endian, x: u16): (r: seq<byte>)
    ensures |r| == 2
  {
    if h.Little? then [x % 0x100, x / 0x100] else [x / 0x100, x % 0x100]
  }

  function Get16(h: Endian, bs: seq<byte>): u16
    requires |bs| == 2
  {
    var first: int, second: int := bs[0], bs[1];
    if h.Little? then first + 0x100 * second else 0x100 * first + second
  }

  function Put32(h: Endian, x: u32): (r: seq<byte>)
    ensures |r| == 4
  {
    var lo, hi := Put16(h, x % 0x1_0000), Put16(h, x / 0x1_0000);
    if h.Little? then lo + hi else hi + lo
  }

  function Get32(h: Endian, bs: seq<byte>): u32
    requires |bs| == 4
  {
    var first, second := Get16(h, bs[..2]), Get16(h, bs[2..]);
    if h.Little? then first + 0x1_0000 * second else 0x1_0000 * first + second
  }

  function Put64(h: Endian, x: u64): (r: seq<byte>)
    ensures |r| == 8
  {
    var lo, hi := Put32(h, x % 0x1_0000_0000), Put32(h, x / 0x1_0000_0000);
    if h.Little? then lo + hi else hi + lo
  }

  function Get64(h: Endian, bs: seq<byte>): u64
    requires |bs| == 8
  {
    var first, second := Get32(h, bs[..4]), Get32(h, bs[4..]);
    if h.Little? then first + 0x1_0000_0000 * second else 0x1_0000_0000 * first + second
  }

  lemma {:induction false} Load16(h: Endian, x: u16)
    ensures Get16(h, Put16(h, x)) == x
  {
  }

  lemma {:induction false} Load32(h: Endian, x: u32)
    ensures Get32(h, Put32(h, x)) == x
  {
    var lo, hi := Put16(h, x % 0x1_0000), Put16(h, x / 0x1_0000);
    Load16(h, x % 0x1_0000);
    Load16(h, x / 0x1_0000);
    hide Put16, Get16;
    SplitBytes(lo, hi);
    SplitBytes(hi, lo);
  }

  lemma {:induction false} Load64(h: Endian, x: u64)
    ensures Get64(h, Put64(h, x)) == x
  {
    var lo, hi := Put32(h, x % 0x1_0000_0000), Put32(h, x / 0x1_0000_0000);
    Load32(h, x % 0x1_0000_0000);
    Load32(h, x / 0x1_0000_0000);
    hide Put32, Get32;
    SplitBytes(lo, hi);
    SplitBytes(hi, lo);
  }

  /** What the bytes of a field are worth, from its most significant one down. */
  lemma {:induction false} LoadsArePositional(a: byte, b: byte, c: byte, d: byte, high: seq<byte>, low: seq<byte>)
    requires |high| == 4 && |low| == 4
    ensures Get16(Big, [a, b]) == 0x100 * (a as int) + (b as int) == Get16(Little, [b, a])
    ensures Get32(Big, [a, b, c, d])
         == 0x100_0000 * (a as int) + 0x1_0000 * (b as int) + 0x100 * (c as int) + (d as int)
         == Get32(Little, [d, c, b, a])
    ensures Get64(Big, high + low) == 0x1_0000_0000 * (Get32(Big, high) as int) + (Get32(Big, low) as int)
    ensures Get64(Little, low + high) == 0x1_0000_0000 * (Get32(Little, high) as int) + (Get32(Little, low) as int)
  {
    assert [a, b, c, d][..2] == [a, b] && [a, b, c, d][2..] == [c, d];
    assert [d, c, b, a][..2] == [d, c] && [d, c, b, a][2..] == [b, a];
    SplitBytes(high, low);
    SplitBytes(low, high);
  }

  // ---------------------------------------------------------------------
  // Rounding to 64-bit units
  // ---------------------------------------------------------------------

  /** The 64-bit units that n bytes take up. */
  function UnitsFor(n: nat): (r: nat)
    ensures n <= 8 * r < n + 8
  {
    (n + 7) / 8
  }

  /** PFKEY_ALIGN8: the least multiple of 8 that is at least n. */
  function Align8(n: nat): (r: nat)
    ensures r % 8 == 0
    ensures n <= r < n + 8
  {
    8 * UnitsFor(n)
  }

  lemma {:induction false} AlignedExactly(n: nat)
    ensures Align8(n) == n <==> n % 8 == 0
  {
  }

  // ---------------------------------------------------------------------
  // Zero bytes
  // ---------------------------------------------------------------------

  ghost predicate AllZero(bs: seq<byte>) {
    forall i :: 0 <= i < |bs| ==> bs[i] == 0
  }

  function Zeros(n: nat): (r: seq<byte>)
    ensures |r| == n && AllZero(r)
  {
    seq(n, _ => 0)
  }

  /** A byte string without its trailing zeros. */
  function StripZeros(bs: seq<byte>): (r: seq<byte>)
    ensures r <= bs
    ensures AllZero(bs[|r|..])
    ensures r == [] || r[|r| - 1] != 0
  {
    if bs == [] then []
    else if bs[|bs| - 1] == 0 then StripZeros(bs[..|bs| - 1])
    else bs
  }

  /** Stripping removes a gap after a name exactly when the gap is all zeros and the name keeps its last byte. */
  lemma {:induction false} StripZerosExact(name: seq<byte>, gap: seq<byte>)
    ensures StripZeros(name + gap) == name
       <==> AllZero(gap) && (name == [] || name[|name| - 1] != 0)
  {
    var bs := name + gap;
    var r := StripZeros(bs);
    assert bs[|name|..] == gap;
    forall i | |r| <= i < |bs|
      ensures bs[i] == 0
    {
      assert bs[|r|..][i - |r|] == 0;
    }
  }

  // ---------------------------------------------------------------------
  // Concatenations
  // ---------------------------------------------------------------------

  lemma {:induction false} SplitBytes(a: seq<byte>, b: seq<byte>)
    ensures (a + b)[..|a|] == a && (a + b)[|a|..] == b
  {
  }

  lemma {:induction false} AppendAssociative(a: seq<byte>, b: seq<byte>, c: seq<byte>)
    ensures (a + b) + c == a + (b + c)
  {
  }

  lemma {:induction false} Cut2(a: seq<byte>, b: seq<byte>)
    ensures (a + b)[0..|a|] == a
    ensures (a + b)[|a|..|a| + |b|] == b
  {
  }

  lemma {:induction false} Cut3(a: seq<byte>, b: seq<byte>, c: seq<byte>)
    ensures (a + b + c)[0..|a|] == a
    ensures (a + b + c)[|a|..|a| + |b|] == b
    ensures (a + b + c)[|a| + |b|..|a| + |b| + |c|] == c
  {
  }

  lemma {:induction false} Cut4(a: seq<byte>, b: seq<byte>, c: seq<byte>, d: seq<byte>)
    ensures (a + b + c + d)[0..|a|] == a
    ensures (a + b + c + d)[|a|..|a| + |b|] == b
    ensures (a + b + c + d)[|a| + |b|..|a| + |b| + |c|] == c
    ensures (a + b + c + d)[|a| + |b| + |c|..|a| + |b| + |c| + |d|] == d
  {
    assert a + b + c + d == (a + b + c) + d;
    Cut3(a, b, c);
  }
}
