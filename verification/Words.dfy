/** 32-bit words, their bits, and shifts. */
module Words {
  /** The bit shifted out. */
  predicate Odd(r: bv32) {
    r & 1 == 1
  }

  function Half(r: bv32): bv32 {
    r >> 1
  }

  /** Shifted right `n` times. */
  function Down(q: bv32, n: nat): bv32
    decreases n
  {
    if n == 0 then q else Down(Half(q), n - 1)
  }

  lemma {:induction false} DownAdd(q: bv32, a: nat, b: nat)
    ensures Down(q, a + b) == Down(Down(q, a), b)
    decreases a
  {
    hide Half;
    if a > 0 {
      DownAdd(Half(q), a - 1, b);
    }
  }

  lemma HalfEight(q: bv32)
    ensures Half(Half(Half(Half(Half(Half(Half(q))))))) == q >> 7
    ensures Half(Half(Half(Half(Half(Half(Half(Half(q)))))))) == q >> 8
  {
  }

  lemma Down8(q: bv32)
    ensures Down(q, 7) == q >> 7 && Down(q, 8) == q >> 8
  {
    hide Half;
    HalfEight(q);
    var q2 := Half(Half(q));
    var q4 := Half(Half(q2));
    var q6 := Half(Half(q4));
    assert Down(q, 7) == Down(q2, 5) == Down(q4, 3) == Down(q6, 1) == Half(q6);
    assert Down(q, 8) == Down(q2, 6) == Down(q4, 4) == Down(q6, 2) == Half(Half(q6));
  }

  /** After 31 shifts only the top bit is left, after 32 nothing. */
  lemma Down31(q: bv32)
    ensures Down(q, 31) == q >> 31 && Down(q, 32) == 0
  {
    hide Down;
    var q8 := Down(q, 8);
    var q16 := Down(q8, 8);
    var q24 := Down(q16, 8);
    Down8(q);
    Down8(q8);
    Down8(q16);
    Down8(q24);
    ShiftsAdd(q, q8, q16, q24);
    FourDowns(q, 7);
    FourDowns(q, 8);
  }

  lemma FourDowns(q: bv32, n: nat)
    ensures Down(q, 24 + n) == Down(Down(Down(Down(q, 8), 8), 8), n)
  {
    hide Down;
    DownAdd(q, 8, 16 + n);
    DownAdd(Down(q, 8), 8, 8 + n);
    DownAdd(Down(Down(q, 8), 8), 8, n);
  }

  lemma ShiftsAdd(q: bv32, q8: bv32, q16: bv32, q24: bv32)
    requires q8 == q >> 8 && q16 == q8 >> 8 && q24 == q16 >> 8
    ensures q24 >> 7 == q >> 31 && q24 >> 8 == 0
  {
  }

  lemma {:induction false} DownZero(n: nat)
    ensures Down(0, n) == 0
    decreases n
  {
    if n > 0 {
      DownZero(n - 1);
    }
  }

  /** The low `n` bits of the word are ones. */
  predicate Ones(m: bv32, n: nat)
    decreases n
  {
    n == 0 || (Odd(m) && Ones(Half(m), n - 1))
  }

  lemma OnesOdd(m: bv32, n: nat)
    requires n > 0 && Ones(m, n)
    ensures m & 1 == 1 && Ones(Half(m), n - 1)
  {
  }

  lemma HalfLow(p: bv32, q: bv32, m: bv32)
    requires p & m == q & m && m & 1 == 1
    ensures Odd(p) == Odd(q) && Half(p) & Half(m) == Half(q) & Half(m)
    ensures q == m ==> Half(p) & Half(m) == Half(m)
  {
  }

  /** Bit `i` of a word. */
  predicate Bit(w: bv32, i: nat) {
    Odd(Down(w, i))
  }

  /** Shifted left `n` times. */
  function Up(w: bv32, n: nat): bv32
    decreases n
  {
    if n == 0 then w else Up(w, n - 1) << 1
  }

  function Or(a: bv32, b: bv32): bv32 {
    a | b
  }

  function And(a: bv32, b: bv32): bv32 {
    a & b
  }

  function Xor(a: bv32, b: bv32): bv32 {
    a ^ b
  }

  lemma HalfOr(a: bv32, b: bv32)
    ensures Half(Or(a, b)) == Or(Half(a), Half(b))
    ensures Odd(Or(a, b)) == (Odd(a) || Odd(b))
  {
  }

  lemma {:induction false} BitOr(a: bv32, b: bv32, i: nat)
    ensures Bit(Or(a, b), i) == (Bit(a, i) || Bit(b, i))
    decreases i
  {
    hide Odd, Half, Or;
    HalfOr(a, b);
    if i > 0 {
      BitOr(Half(a), Half(b), i - 1);
    }
  }

  lemma HalfAnd(a: bv32, b: bv32)
    ensures Half(And(a, b)) == And(Half(a), Half(b))
    ensures Odd(And(a, b)) == (Odd(a) && Odd(b))
  {
  }

  lemma {:induction false} BitAnd(a: bv32, b: bv32, i: nat)
    ensures Bit(And(a, b), i) == (Bit(a, i) && Bit(b, i))
    decreases i
  {
    hide Odd, Half, And;
    HalfAnd(a, b);
    if i > 0 {
      BitAnd(Half(a), Half(b), i - 1);
    }
  }

  lemma HalfXor(a: bv32, b: bv32)
    ensures Half(Xor(a, b)) == Xor(Half(a), Half(b))
    ensures Odd(Xor(a, b)) == (Odd(a) != Odd(b))
  {
  }

  lemma {:induction false} BitXor(a: bv32, b: bv32, i: nat)
    ensures Bit(Xor(a, b), i) == (Bit(a, i) != Bit(b, i))
    decreases i
  {
    hide Odd, Half, Xor;
    HalfXor(a, b);
    if i > 0 {
      BitXor(Half(a), Half(b), i - 1);
    }
  }

  /** `w << n` and `w >> n`; a shift by 32 leaves 0. */
  function Shl(w: bv32, n: nat): bv32
    requires n <= 32
  {
    w << n
  }

  function Shr(w: bv32, n: nat): bv32
    requires n <= 32
  {
    w >> n
  }

  lemma LeftOnce(w: bv32, n: nat)
    requires n < 32
    ensures w << (n + 1) == (w << n) << 1
  {
    if n == 0 {
    } else if n == 1 {
    } else {
    }
  }

  lemma RightOnce(w: bv32, n: nat)
    requires n < 32
    ensures w >> (n + 1) == (w >> n) >> 1
  {
    if n == 0 {
    } else if n == 1 {
    } else {
    }
  }

  lemma ShlOnce(w: bv32, n: nat)
    requires n < 32
    ensures Shl(w, n + 1) == Shl(w, n) << 1
  {
    LeftOnce(w, n);
  }

  lemma ShrOnce(w: bv32, n: nat)
    requires n < 32
    ensures Shr(w, n + 1) == Half(Shr(w, n))
  {
    RightOnce(w, n);
  }

  /** Shifts by any amount are repeated shifts by one. */
  lemma {:induction false} LeftIsUp(w: bv32, n: nat)
    requires n <= 32
    ensures Shl(w, n) == Up(w, n)
    decreases n
  {
    if n > 0 {
      hide Shl;
      ShlOnce(w, n - 1);
      LeftIsUp(w, n - 1);
    }
  }

  lemma {:induction false} RightIsDown(w: bv32, n: nat)
    requires n <= 32
    ensures Shr(w, n) == Down(w, n)
    decreases n
  {
    if n > 0 {
      hide Shr, Half;
      ShrOnce(w, n - 1);
      RightIsDown(w, n - 1);
      DownAdd(w, n - 1, 1);
      Down1(Down(w, n - 1));
    }
  }

  // ------------------------------------------------- bits of shifted words

  lemma BitDown(w: bv32, s: nat, i: nat)
    ensures Bit(Down(w, s), i) == Bit(w, s + i)
  {
    DownAdd(w, s, i);
  }

  /** A word has no bits from 32 on. */
  lemma NoHighBits(w: bv32, i: nat)
    requires i >= 32
    ensures !Bit(w, i)
  {
    DownAdd(w, 32, i - 32);
    Down31(w);
    DownZero(i - 32);
  }

  lemma {:induction false} LowBitsAgree(p: bv32, q: bv32, m: bv32, n: nat, i: nat)
    requires p & m == q & m && Ones(m, n) && i < n
    ensures Bit(p, i) == Bit(q, i)
    decreases i
  {
    hide Odd, Half;
    OnesOdd(m, n);
    HalfLow(p, q, m);
    if i > 0 {
      LowBitsAgree(Half(p), Half(q), Half(m), n - 1, i - 1);
    }
  }

  lemma BitDouble(w: bv32, i: nat)
    requires i < 32
    ensures Bit(w << 1, i) == (i > 0 && Bit(w, i - 1))
  {
    Doubled(w);
    AllOnes();
    if i > 0 {
      LowBitsAgree(Half(w << 1), w, 0x7fff_ffff, 31, i - 1);
    }
  }

  lemma Doubled(w: bv32)
    ensures !Odd(w << 1) && Half(w << 1) & 0x7fff_ffff == w & 0x7fff_ffff
  {
  }

  lemma {:induction false} OnesAdd(m: bv32, a: nat, b: nat)
    ensures Ones(m, a + b) <==> Ones(m, a) && Ones(Down(m, a), b)
    decreases a
  {
    hide Odd, Half;
    if a > 0 {
      OnesAdd(Half(m), a - 1, b);
    }
  }

  lemma {:induction false} OnesWithin(p: bv32, m: bv32, n: nat)
    requires p & m == m && Ones(m, n)
    ensures Ones(p, n)
    decreases n
  {
    hide Odd, Half;
    if n > 0 {
      OnesOdd(m, n);
      HalfLow(p, m, m);
      OnesWithin(Half(p), Half(m), n - 1);
    }
  }

  lemma AllOnes()
    ensures Ones(0x7fff_ffff, 31) && Ones(0xffff_ffff, 32)
  {
    hide Down;
    OnesAdd(0x7fff_ffff, 8, 23);
    Down8(0x7fff_ffff);
    OnesAdd(0x7f_ffff, 8, 15);
    Down8(0x7f_ffff);
    OnesAdd(0x7fff, 8, 7);
    Down8(0x7fff);
    OnesAdd(0xffff_ffff, 1, 31);
    Down1(0xffff_ffff);
    assert Ones(0xff, 8) && Ones(0x7f, 7);
    OnesWithin(0x7fff_ffff, 0xff, 8);
    OnesWithin(0x7f_ffff, 0xff, 8);
    OnesWithin(0x7fff, 0xff, 8);
  }

  lemma Down1(q: bv32)
    ensures Down(q, 1) == Half(q)
  {
  }

  lemma {:induction false} BitUp(w: bv32, s: nat, i: nat)
    requires i < 32
    ensures Bit(Up(w, s), i) == (i >= s && Bit(w, i - s))
    decreases s
  {
    if s > 0 {
      BitDouble(Up(w, s - 1), i);
      if i > 0 {
        BitUp(w, s - 1, i - 1);
      }
    }
  }

  lemma {:induction false} BitOfOnes(m: bv32, n: nat, i: nat)
    requires Ones(m, n) && i < n
    ensures Bit(m, i)
    decreases i
  {
    OnesOdd(m, n);
    if i > 0 {
      BitOfOnes(Half(m), n - 1, i - 1);
    }
  }

  const ALL: bv32 := 0xffff_ffff

  /** The masks of the bitmap code: one bit, the bits from `s` on, the bits
      below `s`. */
  lemma Masks(s: nat, i: nat)
    requires s <= 32 && i < 32
    ensures Bit(Shl(ALL, s), i) == (i >= s)
    ensures Bit(Shr(ALL, 32 - s), i) == (i < s)
    ensures Bit(Shl(1, s), i) == (i == s)
  {
    hide Bit, Up, Down, Ones, Shl, Shr;
    AllOnes();
    LeftIsUp(ALL, s);
    RightIsDown(ALL, 32 - s);
    LeftIsUp(1, s);
    BitUp(ALL, s, i);
    BitUp(1, s, i);
    BitDown(ALL, 32 - s, i);
    if i >= s {
      BitOfOnes(ALL, 32, i - s);
      BitOfOne(i - s);
      NoHighBits(ALL, 32 - s + i);
    } else {
      BitOfOnes(ALL, 32, 32 - s + i);
    }
  }

  lemma BitOfOne(i: nat)
    ensures Bit(1, i) == (i == 0)
  {
    if i > 0 {
      DownZero(i - 1);
    }
  }

  /** Words with the same bits are the same. */
  lemma {:induction false} SameBits(p: bv32, q: bv32)
    requires forall i | 0 <= i < 32 :: Bit(p, i) == Bit(q, i)
    ensures p == q
  {
    Down31(p);
    Down31(q);
    SameFrom(p, q, 0);
  }

  lemma {:induction false} SameFrom(p: bv32, q: bv32, k: nat)
    requires k <= 32 && Down(p, 32) == 0 && Down(q, 32) == 0
    requires forall i | k <= i < 32 :: Bit(p, i) == Bit(q, i)
    ensures Down(p, k) == Down(q, k)
    decreases 32 - k
  {
    if k < 32 {
      SameFrom(p, q, k + 1);
      DownAdd(p, k, 1);
      DownAdd(q, k, 1);
      assert Bit(p, k) == Bit(q, k);
      OddAndHalf(Down(p, k), Down(q, k));
    }
  }

  lemma OddAndHalf(p: bv32, q: bv32)
    requires Odd(p) == Odd(q) && Half(p) == Half(q)
    ensures p == q
  {
  }
}
