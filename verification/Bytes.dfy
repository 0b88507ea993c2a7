/** Bytes, bit operations on them, and the 16-byte big-endian form of an IPv6 address. */
module Bytes {
  import opened Powers

  type byte = x: int | 0 <= x < 256
  type Octets = s: seq<byte> | |s| == 16 witness seq(16, _ => 0)

  // ---------------------------------------------------------------- bit operations

  /** Bitwise `&`, one binary digit at a time. */
  function And(x: nat, y: nat): (r: nat)
    ensures r <= x && r <= y
  {
    if x == 0 || y == 0 then 0
    else 2 * And(x / 2, y / 2) + (if x % 2 == 1 && y % 2 == 1 then 1 else 0)
  }

  /** Bitwise `|`. */
  function Or(x: nat, y: nat): nat
    decreases x + y
  {
    if x == 0 then y else if y == 0 then x
    else 2 * Or(x / 2, y / 2) + (if x % 2 == 1 || y % 2 == 1 then 1 else 0)
  }

  /** Bitwise `^` of two operands. */
  function Xor(x: nat, y: nat): nat
    decreases x + y
  {
    if x == 0 then y else if y == 0 then x
    else 2 * Xor(x / 2, y / 2) + (if x % 2 != y % 2 then 1 else 0)
  }

  /** Bitwise complement of a byte. */
  function Complement(x: byte): byte {
    255 - x
  }

  /** A left shift of a byte, truncated to eight bits. */
  function ShiftLeft(x: byte, k: nat): byte {
    x * Pow2(k) % 256
  }

  /** Binary digit `k` of `x`. */
  function Bit(x: nat, k: nat): (b: nat)
    ensures b < 2
  {
    if k == 0 then x % 2 else Bit(x / 2, k - 1)
  }

  lemma {:induction false} ZeroBit(k: nat)
    ensures Bit(0, k) == 0
  {
    if k > 0 {
      ZeroBit(k - 1);
    }
  }

  /** Testing a byte against `1 << k` reads its binary digit `k`. */
  lemma {:induction false} AndSingleBit(x: nat, k: nat)
    ensures And(x, Pow2(k)) == Bit(x, k) * Pow2(k)
  {
    if x == 0 {
      ZeroBit(k);
    } else if k == 0 {
      assert And(x / 2, 0) == 0;
    } else {
      AndSingleBit(x / 2, k - 1);
    }
  }

  /** `^` sets exactly the digits its operands disagree on. */
  lemma {:induction false} XorBit(x: nat, y: nat, k: nat)
    ensures Bit(Xor(x, y), k) == (if Bit(x, k) != Bit(y, k) then 1 else 0)
    decreases k
  {
    if x == 0 || y == 0 {
      ZeroBit(k);
    } else if k > 0 {
      XorBit(x / 2, y / 2, k - 1);
    }
  }

  /** `x & (2^k - 1)` keeps the low `k` bits. */
  lemma {:induction false} AndLowBits(x: nat, k: nat)
    ensures And(x, Pow2(k) - 1) == Low(x, k)
  {
    if k > 0 {
      AndLowBits(x / 2, k - 1);
    }
  }

  /** `j` ones above `k` zeros. */
  function HighMask(j: nat, k: nat): (m: nat)
    ensures m == Pow2(k + j) - Pow2(k)
  {
    if k == 0 then Pow2(j) - 1 else 2 * HighMask(j, k - 1)
  }

  /** Masking with `j` ones above `k` zeros clears the low `k` bits of a (k+j)-bit value. */
  lemma {:induction false} AndHighBits(x: nat, k: nat, j: nat)
    requires x < Pow2(k + j)
    ensures And(x, HighMask(j, k)) == Floor(x, k)
    decreases k
  {
    if k == 0 {
      AndLowBits(x, j);
      ZeroAndSmall(x, j);
    } else {
      AndHighBits(x / 2, k - 1, j);
    }
  }

  /** `|` of values with no bit in common is addition. */
  lemma {:induction false} OrDisjoint(high: nat, low: nat, k: nat)
    requires Aligned(high, k) && low < Pow2(k)
    ensures Or(high, low) == high + low
    decreases k
  {
    if k > 0 {
      OrDisjoint(high / 2, low / 2, k - 1);
    }
  }

  // ---------------------------------------------------------------- byte grafting

  /** A byte whose top `m` bits come from `p` and whose other bits come from `s`. */
  function GraftByte(p: byte, s: byte, m: nat): (r: byte)
    requires m <= 8
  {
    GraftByteFits(p, s, m);
    Floor(p, 8 - m) + Low(s, 8 - m)
  }

  lemma GraftByteFits(p: byte, s: byte, m: nat)
    requires m <= 8
    ensures 0 <= Floor(p, 8 - m) + Low(s, 8 - m) < 256
  {
    Pow2Of8();
    FloorNested(p, 8 - m, 8);
    ZeroAndSmall(p, 8);
    FloorBounds(s, 8 - m);
  }

  lemma GraftByteEnds(p: byte, s: byte)
    ensures GraftByte(p, s, 8) == p
    ensures GraftByte(p, s, 0) == s
  {
    Pow2Of8();
    ZeroAndSmall(p, 8);
    ZeroAndSmall(s, 8);
  }

  /** The masked combination the byte loops write at the boundary byte. */
  lemma MaskedGraft(p: byte, s: byte, m: nat)
    requires 1 <= m <= 7
    ensures Or(And(p, ShiftLeft(255, 8 - m)), And(s, Complement(ShiftLeft(255, 8 - m)))) == GraftByte(p, s, m)
  {
    var k := 8 - m;
    ShiftedOnes(k);
    Pow2Of8();
    AndHighBits(p, k, m);
    AndLowBits(s, k);
    FloorBounds(s, k);
    FloorAligned(p, k);
    OrDisjoint(Floor(p, k), Low(s, k), k);
  }

  lemma ShiftedOnes(k: nat)
    requires k <= 8
    ensures ShiftLeft(255, k) == HighMask(8 - k, k)
    ensures Complement(ShiftLeft(255, k)) == Pow2(k) - 1
  {
    Pow2Of8();
    Pow2Monotone(k, 8);
    DivModUnique(255 * Pow2(k), 256, Pow2(k) - 1, 256 - Pow2(k));
  }

  // ---------------------------------------------------------------- big-endian values

  /** The number a big-endian byte sequence denotes. */
  function Value(s: seq<byte>): nat {
    if s == [] then 0 else Value(s[..|s| - 1]) * 256 + s[|s| - 1]
  }

  lemma ValueOfLast(s: seq<byte>)
    requires s != []
    ensures Value(s) == Value(s[..|s| - 1]) * 256 + s[|s| - 1]
  {
  }

  lemma {:induction false} ValueBound(s: seq<byte>)
    ensures Value(s) < Pow2(8 * |s|)
  {
    if s != [] {
      ValueBound(s[..|s| - 1]);
      Pow2Of8();
      Pow2Add(8 * (|s| - 1), 8);
    }
  }

  /** The `n` low bytes of a number, most significant first. */
  function Encode(v: nat, n: nat): (s: seq<byte>)
    ensures |s| == n
  {
    if n == 0 then [] else Encode(v / 256, n - 1) + [v % 256]
  }

  lemma {:induction false} ValueOfEncode(v: nat, n: nat)
    requires v < Pow2(8 * n)
    ensures Value(Encode(v, n)) == v
  {
    if n > 0 {
      Pow2Of8();
      Pow2Add(8 * (n - 1), 8);
      ValueOfEncode(v / 256, n - 1);
      assert Encode(v, n)[..n - 1] == Encode(v / 256, n - 1);
    }
  }

  lemma {:induction false} EncodeOfValue(s: seq<byte>)
    ensures Encode(Value(s), |s|) == s
  {
    if s != [] {
      var init := s[..|s| - 1];
      EncodeOfValue(init);
      assert Value(s) / 256 == Value(init) && Value(s) % 256 == s[|s| - 1];
      assert s == init + [s[|s| - 1]];
    }
  }

  /** Every byte of `r` takes its bits from `p` up to bit `n` of the whole and from `s` after it. */
  ghost predicate Grafted(r: seq<byte>, p: seq<byte>, s: seq<byte>, n: nat) {
    && |r| == |p| == |s|
    && forall i :: 0 <= i < |r| ==> r[i] == GraftByte(p[i], s[i], BitsInByte(n, i))
  }

  /** How many of byte `i`'s bits lie among the first `n` bits. */
  function BitsInByte(n: nat, i: nat): (m: nat)
    ensures m <= 8
  {
    if n <= 8 * i then 0 else if 8 * i + 8 <= n then 8 else n - 8 * i
  }

  /** Byte-by-byte grafting is grafting of the numbers. */
  lemma {:induction false} GraftedValue(r: seq<byte>, p: seq<byte>, s: seq<byte>, n: nat, h: nat)
    requires Grafted(r, p, s, n) && n + h == 8 * |r|
    ensures Value(r) == Floor(Value(p), h) + Low(Value(s), h)
  {
    if |r| > 0 {
      var k := |r| - 1;
      var r', p', s' := r[..k], p[..k], s[..k];
      if n <= 8 * k {
        GraftedValue(r', p', s', n, h - 8);
      } else {
        GraftedPrefix(r, p, s, n, k);
      }
      AppendGrafted(r', p', s', p[k], s[k], h);
      assert BitsInByte(n, k) == if h < 8 then 8 - h else 0;
      assert r == r' + [r[k]] && p == p' + [p[k]] && s == s' + [s[k]];
    }
  }

  lemma ValueOfAppend(s: seq<byte>, b: byte)
    ensures Value(s + [b]) == Value(s) * 256 + b
  {
    assert (s + [b])[..|s|] == s;
  }

  lemma AppendGrafted(r: seq<byte>, p: seq<byte>, s: seq<byte>, pb: byte, sb: byte, h: nat)
    requires h < 8 ==> r == p
    requires h >= 8 ==> Value(r) == Floor(Value(p), h - 8) + Low(Value(s), h - 8)
    ensures Value(r + [GraftByte(pb, sb, if h < 8 then 8 - h else 0)]) == Floor(Value(p + [pb]), h) + Low(Value(s + [sb]), h)
  {
    ValueOfAppend(r, GraftByte(pb, sb, if h < 8 then 8 - h else 0));
    ValueOfAppend(p, pb);
    ValueOfAppend(s, sb);
    GraftLastByte(Value(r), Value(p), Value(s), pb, sb, h, Value(p + [pb]), Value(s + [sb]));
  }

  /** Extends a grafted number by one byte. */
  lemma GraftLastByte(r: nat, p: nat, s: nat, pb: byte, sb: byte, h: nat, p': nat, s': nat)
    requires p' == p * 256 + pb && s' == s * 256 + sb
    requires h < 8 ==> r == p
    requires h >= 8 ==> r == Floor(p, h - 8) + Low(s, h - 8)
    ensures r * 256 + GraftByte(pb, sb, if h < 8 then 8 - h else 0) == Floor(p', h) + Low(s', h)
  {
    GraftByteEnds(pb, sb);
    if h < 8 {
      LastByteBlock(p, pb, h, p');
      LastByteBlock(s, sb, h, s');
    } else {
      AppendByte(p, pb, h, p');
      AppendByte(s, sb, h, s');
    }
  }

  /** Bytes wholly inside the first `n` bits all come from `p`. */
  lemma GraftedPrefix(r: seq<byte>, p: seq<byte>, s: seq<byte>, n: nat, k: nat)
    requires Grafted(r, p, s, n) && k <= |r| && 8 * k <= n
    ensures r[..k] == p[..k]
  {
    forall i | 0 <= i < k
      ensures r[i] == p[i]
    {
      GraftByteEnds(p[i], s[i]);
    }
  }

  /** Appending a byte moves a boundary above it up by eight bits. */
  lemma AppendByte(v: nat, b: byte, h: nat, w: nat)
    requires h >= 8 && w == v * 256 + b
    ensures Floor(w, h) == 256 * Floor(v, h - 8)
    ensures Low(w, h) == 256 * Low(v, h - 8) + b
  {
    EightHalvings(w, h);
    assert w / 256 == v && w % 256 == b;
  }

  /** A block boundary inside the last byte leaves the bytes before it whole. */
  lemma LastByteBlock(v: nat, b: byte, h: nat, w: nat)
    requires h <= 8 && w == v * 256 + b
    ensures Floor(w, h) == v * 256 + Floor(b, h)
    ensures Low(w, h) == Low(b, h)
  {
    var v' := v * 256;
    AppendByte(v, 0, 8, v');
    AlignedFiner(v', h, 8);
    AddAligned(v', b, h);
  }
}
