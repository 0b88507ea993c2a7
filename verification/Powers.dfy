/** Powers of two, and a number's high and low bits: the arithmetic every prefix computation rests on.

    `Floor` and `Low` are defined by halving, so that proofs about them stay in linear arithmetic;
    `HighAndLow` ties them to division by a power of two. */
module Powers {

  function Pow2(n: nat): (r: nat)
    ensures r >= 1
  {
    if n == 0 then 1 else 2 * Pow2(n - 1)
  }

  /** `v` with its low `h` bits cleared: the start of the aligned block of 2^h numbers holding `v`. */
  function Floor(v: nat, h: nat): nat {
    if h == 0 then v else 2 * Floor(v / 2, h - 1)
  }

  /** The low `h` bits of `v`. */
  function Low(v: nat, h: nat): nat {
    if h == 0 then 0 else 2 * Low(v / 2, h - 1) + v % 2
  }

  /** `v` shifted right by `h` bits. */
  function High(v: nat, h: nat): nat {
    if h == 0 then v else High(v / 2, h - 1)
  }

  ghost predicate Aligned(v: nat, h: nat) {
    Floor(v, h) == v
  }

  lemma {:induction false} Pow2Add(a: nat, b: nat)
    ensures Pow2(a + b) == Pow2(a) * Pow2(b)
  {
    if a > 0 {
      Pow2Add(a - 1, b);
    }
  }

  lemma {:induction false} Pow2Monotone(a: nat, b: nat)
    requires a <= b
    ensures Pow2(a) <= Pow2(b)
    ensures a < b ==> 2 * Pow2(a) <= Pow2(b)
  {
    if a < b {
      Pow2Monotone(a, b - 1);
    }
  }

  /** The two parts recompose the number, and the low part is shorter than a block. */
  lemma {:induction false} FloorBounds(v: nat, h: nat)
    ensures Floor(v, h) + Low(v, h) == v
    ensures Low(v, h) < Pow2(h)
    ensures Floor(v, h) <= v < Floor(v, h) + Pow2(h)
  {
    if h > 0 {
      FloorBounds(v / 2, h - 1);
    }
  }

  /** `High`, `Low` and `Floor` are the quotient by 2^h, its remainder, and the multiple below. */
  lemma HighAndLow(v: nat, h: nat)
    ensures High(v, h) == v / Pow2(h)
    ensures Low(v, h) == v % Pow2(h)
    ensures Floor(v, h) == High(v, h) * Pow2(h)
  {
    FloorBounds(v, h);
    FloorIsMultiple(v, h);
    DivModUnique(v, Pow2(h), High(v, h), Low(v, h));
  }

  lemma {:induction false} FloorIsMultiple(v: nat, h: nat)
    ensures Floor(v, h) == High(v, h) * Pow2(h)
  {
    if h > 0 {
      FloorIsMultiple(v / 2, h - 1);
      DoubleSize(High(v, h), Pow2(h - 1));
    }
  }

  lemma DoubleSize(q: nat, d: nat)
    ensures q * (2 * d) == 2 * (q * d)
  {
  }

  /** Blocks of one size, laid end to end, come in the order of their numbers. */
  lemma BlockBelow(i: nat, k: nat, size: nat)
    ensures i < k ==> i * size + size <= k * size
    ensures k <= i ==> k * size <= i * size
  {
    if i < k {
      SumOfProducts(i, k - i, size);
    } else {
      SumOfProducts(k, i - k, size);
    }
  }

  lemma SumOfProducts(p: nat, q: nat, d: nat)
    ensures (p + q) * d == p * d + q * d
    ensures q > 0 ==> q * d >= d
  {
  }

  /** The block holding a number is the one its high bits name. */
  lemma BlockIndex(v: nat, o: nat, h: nat)
    ensures o * Pow2(h) <= v < o * Pow2(h) + Pow2(h) <==> o == High(v, h)
  {
    FloorIsMultiple(v, h);
    FloorBounds(v, h);
    BlockBelow(o, High(v, h), Pow2(h));
    BlockBelow(High(v, h), o, Pow2(h));
  }

  lemma HighBound(v: nat, h: nat, k: nat)
    requires v < Pow2(k) * Pow2(h)
    ensures High(v, h) < Pow2(k)
  {
    FloorIsMultiple(v, h);
    FloorBounds(v, h);
    BlockBelow(High(v, h), Pow2(k), Pow2(h));
  }

  /** Quotient and remainder are the only decomposition of their kind. */
  lemma DivModUnique(a: int, d: int, q: int, r: int)
    requires d > 0 && 0 <= r < d && a == q * d + r
    ensures a / d == q && a % d == r
  {
    var e := a / d - q;
    assert a == (a / d) * d + a % d;
    assert e * d == (a / d) * d - q * d;
    assert e >= 1 ==> e * d >= d;
    assert e <= -1 ==> e * d <= -d;
  }

  /** Adding less than a block to an aligned number fills in its low bits. */
  lemma {:induction false} FillLowBits(a: nat, r: nat, h: nat)
    requires Aligned(a, h) && r < Pow2(h)
    ensures Floor(a + r, h) == a
    ensures Low(a + r, h) == r
  {
    if h > 0 {
      FillLowBits(a / 2, r / 2, h - 1);
      assert (a + r) / 2 == a / 2 + r / 2;
    }
  }

  /** Adding an aligned number changes no low bit. */
  lemma {:induction false} AddAligned(a: nat, b: nat, h: nat)
    requires Aligned(a, h)
    ensures Floor(a + b, h) == a + Floor(b, h)
    ensures Low(a + b, h) == Low(b, h)
  {
    if h > 0 {
      AddAligned(a / 2, b / 2, h - 1);
      assert (a + b) / 2 == a / 2 + b / 2;
    }
  }

  lemma {:induction false} FloorAligned(v: nat, h: nat)
    ensures Aligned(Floor(v, h), h)
    ensures Low(Floor(v, h), h) == 0
  {
    if h > 0 {
      FloorAligned(v / 2, h - 1);
    }
  }

  lemma {:induction false} MultipleAligned(q: nat, h: nat)
    ensures Aligned(q * Pow2(h), h)
  {
    if h > 0 {
      DoubleSize(q, Pow2(h - 1));
      MultipleAligned(q, h - 1);
    }
  }

  /** Two numbers share their high bits exactly when one lies in the other's block. */
  lemma {:induction false} SameBlock(a: nat, b: nat, h: nat)
    ensures Floor(a, h) == Floor(b, h) <==> Floor(b, h) <= a < Floor(b, h) + Pow2(h)
  {
    if h > 0 {
      SameBlock(a / 2, b / 2, h - 1);
    }
  }

  /** A smaller block never straddles a larger block's boundary. */
  lemma {:induction false} FloorNested(v: nat, fine: nat, coarse: nat)
    requires fine <= coarse
    ensures Floor(v, coarse) <= Floor(v, fine)
    ensures Floor(v, fine) + Pow2(fine) <= Floor(v, coarse) + Pow2(coarse)
    ensures Floor(Floor(v, fine), coarse) == Floor(v, coarse)
    ensures Aligned(Floor(v, coarse), fine)
  {
    if fine == 0 {
      FloorBounds(v, coarse);
    } else {
      FloorNested(v / 2, fine - 1, coarse - 1);
    }
  }

  /** A larger block's boundary is a smaller block's boundary. */
  lemma AlignedFiner(v: nat, fine: nat, coarse: nat)
    requires fine <= coarse && Aligned(v, coarse)
    ensures Aligned(v, fine)
  {
    FloorNested(v, fine, coarse);
  }

  lemma ZeroAndSmall(v: nat, h: nat)
    requires v < Pow2(h)
    ensures Floor(v, h) == 0 && Low(v, h) == v
  {
    ZeroAligned(h);
    FillLowBits(0, v, h);
  }

  lemma {:induction false} ZeroAligned(h: nat)
    ensures Aligned(0, h)
  {
    if h > 0 {
      ZeroAligned(h - 1);
    }
  }

  /** One byte's worth of halvings. */
  lemma EightHalvings(v: nat, h: nat)
    requires h >= 8
    ensures Floor(v, h) == 256 * Floor(v / 256, h - 8)
    ensures Low(v, h) == 256 * Low(v / 256, h - 8) + v % 256
  {
    FourHalvings(v, h);
    FourHalvings(v / 16, h - 4);
    assert v / 16 / 16 == v / 256;
  }

  lemma FourHalvings(v: nat, h: nat)
    requires h >= 4
    ensures Floor(v, h) == 16 * Floor(v / 16, h - 4)
    ensures Low(v, h) == 16 * Low(v / 16, h - 4) + v % 16
  {
    var b, c, d := v / 2, v / 4, v / 8;
    assert Floor(v, h) == 2 * Floor(b, h - 1) && Low(v, h) == 2 * Low(b, h - 1) + v % 2;
    assert b / 2 == c && Floor(b, h - 1) == 2 * Floor(c, h - 2) && Low(b, h - 1) == 2 * Low(c, h - 2) + b % 2;
    assert c / 2 == d && Floor(c, h - 2) == 2 * Floor(d, h - 3) && Low(c, h - 2) == 2 * Low(d, h - 3) + c % 2;
    assert d / 2 == v / 16;
  }

  lemma Pow2Of8()
    ensures Pow2(8) == 256
  {
    Pow2Add(4, 4);
    assert Pow2(4) == 16;
  }
}
