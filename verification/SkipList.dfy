/** The heights that skip links lead to, and how few of them a walk needs. */
module SkipList {

  import opened Digits

  /** Turn the lowest one bit into a zero. */
  function InvertLowestOne(n: nat): (r: nat)
    ensures r <= n && (n > 0 ==> r < n)
  {
    if n == 0 then 0 else if n % 2 == 1 then n - 1 else 2 * InvertLowestOne(n / 2)
  }

  function Digit(n: nat, k: nat): nat {
    if k == 0 then n % 2 else Digit(n / 2, k - 1)
  }

  lemma {:induction false} DigitZero(k: nat)
    ensures Digit(0, k) == 0
  {
    if k > 0 {
      DigitZero(k - 1);
    }
  }

  /** The binary digits of `n` below `k` are all zero. */
  predicate ZeroBelow(n: nat, k: nat) {
    k == 0 || (n % 2 == 0 && ZeroBelow(n / 2, k - 1))
  }

  lemma {:induction false} LowestOneCleared(n: nat, k: nat)
    ensures Digit(InvertLowestOne(n), k) == if ZeroBelow(n, k) then 0 else Digit(n, k)
  {
    if n == 0 {
      DigitZero(k);
    } else if n % 2 == 1 {
      assert (n - 1) / 2 == n / 2;
    } else if k > 0 {
      LowestOneCleared(n / 2, k - 1);
    }
  }

  /** The height to jump back to. */
  function GetSkipHeight(height: nat): (skip: nat)
    ensures height > 0 ==> skip < height
    ensures height == 0 ==> skip == 0
  {
    if height < 2 then 0
    else if height % 2 == 1 then InvertLowestOne(InvertLowestOne(height - 1)) + 1
    else InvertLowestOne(height)
  }

  // ----- the walk, by heights

  /** The height after `w` on the way to `t`; the skip link is followed if that of the block before is not better. */
  function NextHeight(w: nat, t: nat): (n: nat)
    requires t < w
    ensures t <= n < w
  {
    var skip, skipPrev := GetSkipHeight(w), GetSkipHeight(w - 1);
    if skip == t || (skip > t && !(skipPrev < skip - 2 && skipPrev >= t)) then skip else w - 1
  }

  function Hops(w: nat, t: nat): nat
    requires t <= w
    decreases w
  {
    if w == t then 0 else 1 + Hops(NextHeight(w, t), t)
  }

  lemma HopsNext(w: nat, t: nat)
    requires t < w
    ensures Hops(w, t) == 1 + Hops(NextHeight(w, t), t)
  {
  }

  lemma HopsNone(t: nat)
    ensures Hops(t, t) == 0
  {
  }

  // ----- lowest ones

  ghost predicate Divisible(n: nat, q: nat) {
    exists c: nat :: n == c * Pow(2, q)
  }

  /** The lowest one of `n` is at place `q`. */
  ghost predicate LowestAt(n: nat, q: nat) {
    exists c: nat :: n == (2 * c + 1) * Pow(2, q)
  }

  lemma InvertDouble(x: nat)
    requires x > 0
    ensures InvertLowestOne(2 * x) == 2 * InvertLowestOne(x)
  {
  }

  lemma InvertOdd(c: nat)
    ensures InvertLowestOne(2 * c + 1) == 2 * c
  {
  }

  lemma Doubled(c: nat, p: nat)
    ensures (2 * c + 1) * (2 * p) == 2 * ((2 * c + 1) * p) && 2 * c * (2 * p) == 2 * (2 * c * p)
    ensures p > 0 ==> (2 * c + 1) * p > 0
  {
    if p > 0 {
      TimesMonotone(1, 2 * c + 1, 1, p);
    }
  }

  lemma {:induction false} OddMultiple(c: nat, q: nat)
    ensures InvertLowestOne((2 * c + 1) * Pow(2, q)) == 2 * c * Pow(2, q)
  {
    hide InvertLowestOne, Pow;
    if q == 0 {
      PowNone();
      InvertOdd(c);
    } else {
      OddMultiple(c, q - 1);
      PowNext(2, q - 1);
      Doubled(c, Pow(2, q - 1));
      InvertDouble((2 * c + 1) * Pow(2, q - 1));
    }
  }

  lemma PowNone()
    ensures Pow(2, 0) == 1
  {
  }

  lemma LowestCleared(n: nat, q: nat)
    requires LowestAt(n, q)
    ensures Pow(2, q) <= n && InvertLowestOne(n) == n - Pow(2, q)
    ensures Divisible(n, q) && Divisible(n - Pow(2, q), q + 1)
  {
    hide Pow;
    var c: nat :| n == (2 * c + 1) * Pow(2, q);
    OddMultiple(c, q);
    assert (2 * c + 1) * Pow(2, q) == 2 * c * Pow(2, q) + Pow(2, q);
    PowNext(2, q);
    assert 2 * c * Pow(2, q) == c * (2 * Pow(2, q));
  }

  lemma DivisibleLess(n: nat, q: nat, i: nat)
    requires Divisible(n, q) && i <= q
    ensures Divisible(n, i)
  {
    hide Pow;
    var c: nat :| n == c * Pow(2, q);
    PowAdd(2, q - i, i);
    Associate(c, Pow(2, q - i), Pow(2, i));
    assert n == c * Pow(2, q - i) * Pow(2, i);
  }

  /** Just below a multiple of a higher power. */
  lemma BelowMultiple(n: nat, i: nat)
    requires Divisible(n, i + 1) && n > 0
    ensures n >= Pow(2, i + 1) == 2 * Pow(2, i) && LowestAt(n - Pow(2, i), i)
  {
    hide Pow;
    PowNext(2, i);
    var p := Pow(2, i);
    var c: nat :| n == c * (2 * p);
    assert c > 0;
    assert c * (2 * p) == 2 * (c - 1) * p + 2 * p;
    assert (2 * (c - 1) + 1) * p == 2 * (c - 1) * p + p;
  }

  lemma {:induction false} LowestExists(n: nat) returns (q: nat)
    requires n > 0
    ensures LowestAt(n, q) && (n % 2 == 1 <==> q == 0)
  {
    if n % 2 == 1 {
      q := 0;
      assert Pow(2, 0) == 1;
      assert n == (2 * (n / 2) + 1) * Pow(2, 0);
    } else {
      var r := LowestExists(n / 2);
      q := r + 1;
      PowNext(2, r);
      hide Pow;
      var c: nat :| n / 2 == (2 * c + 1) * Pow(2, r);
      assert n == (2 * c + 1) * (2 * Pow(2, r));
    }
  }

  // ----- single steps

  lemma Even(n: nat, m: nat)
    requires n == 2 * m && m > 0
    ensures n % 2 == 0 && n >= 2
  {
  }

  lemma LowestEven(n: nat, q: nat)
    requires LowestAt(n, q) && q > 0
    ensures n % 2 == 0 && n >= 2
  {
    hide Pow;
    PowNext(2, q - 1);
    var c: nat :| n == (2 * c + 1) * Pow(2, q);
    Doubled(c, Pow(2, q - 1));
    Even(n, (2 * c + 1) * Pow(2, q - 1));
  }

  lemma EvenLowest(n: nat, q: nat)
    requires LowestAt(n, q) && q > 0
    ensures n % 2 == 0 && n >= 2 && n >= Pow(2, q) && GetSkipHeight(n) == n - Pow(2, q)
  {
    hide InvertLowestOne, Pow, LowestAt, Divisible;
    LowestEven(n, q);
    LowestCleared(n, q);
  }

  /** The skip link of an odd height, from the one before it. */
  lemma OddSkip(n: nat, q: nat)
    requires LowestAt(n, q) && q > 0
    ensures n >= Pow(2, q) && GetSkipHeight(n) == n - Pow(2, q)
    ensures GetSkipHeight(n + 1) == InvertLowestOne(n - Pow(2, q)) + 1
  {
    hide InvertLowestOne, Pow;
    EvenLowest(n, q);
    LowestCleared(n, q);
  }

  /** From an odd height the skip link is followed unless it leads too far. */
  lemma OddNext(n: nat, q: nat, t: nat)
    requires LowestAt(n, q) && q > 0 && t <= n
    ensures NextHeight(n + 1, t) == if GetSkipHeight(n + 1) >= t then GetSkipHeight(n + 1) else n
  {
    hide InvertLowestOne, Pow, GetSkipHeight;
    OddSkip(n, q);
    InvertBound(n - Pow(2, q));
  }

  lemma InvertBound(n: nat)
    ensures InvertLowestOne(n) <= n && (n > 0 ==> InvertLowestOne(n) < n)
  {
  }

  lemma OddIs(n: nat)
    requires n % 2 == 0 && n > 0
    ensures GetSkipHeight(n + 1) == InvertLowestOne(InvertLowestOne(n)) + 1
  {
    hide InvertLowestOne;
  }

  /** Where the skip link of the height before an even one leads. */
  lemma PrevSkip(n: nat, q: nat)
    requires LowestAt(n, q) && q > 0
    ensures var s := n - Pow(2, q);
            && s >= 0
            && (q == 1 && s > 0 ==> GetSkipHeight(n - 1) == InvertLowestOne(InvertLowestOne(s)) + 1)
            && (q == 2 ==> GetSkipHeight(n - 1) == InvertLowestOne(s) + 1)
            && (q > 2 ==> n >= 8 && GetSkipHeight(n - 1) == n - 7 && s <= n - 8)
  {
    SmallPowers();
    hide InvertLowestOne, Pow, LowestAt, Divisible, GetSkipHeight;
    EvenLowest(n, q);
    LowestCleared(n, q);
    if n > 2 {
      OddIs(n - 2);
    }
    if q == 2 {
      DivisibleLess(n, q, 2);
      BelowMultiple(n, 1);
      LowestCleared(n - 2, 1);
    } else if q > 2 {
      DivisibleLess(n, q, 2);
      DivisibleLess(n, q, 3);
      BelowMultiple(n, 1);
      BelowMultiple(n, 2);
      LowestCleared(n - 2, 1);
      LowestCleared(n - 4, 2);
      PowGrows(2, 3, q);
    }
  }

  lemma SmallPowers()
    ensures Pow(2, 1) == 2 && Pow(2, 2) == 4 && Pow(2, 3) == 8
  {
  }

  /** An even height whose skip link leads too far. */
  lemma EvenBack(n: nat, q: nat, t: nat)
    requires LowestAt(n, q) && q > 0 && n - Pow(2, q) < t < n
    ensures NextHeight(n, t) == n - 1
  {
    hide InvertLowestOne, Pow, GetSkipHeight;
    EvenLowest(n, q);
  }

  /** An even height whose skip link leads just far enough. */
  lemma EvenSkip(n: nat, q: nat, t: nat)
    requires LowestAt(n, q) && q > 0 && t <= n - Pow(2, q) && t > InvertLowestOne(n - Pow(2, q)) + 1
    ensures NextHeight(n, t) == n - Pow(2, q)
  {
    hide InvertLowestOne, Pow, GetSkipHeight;
    EvenLowest(n, q);
    PrevSkip(n, q);
    var s := n - Pow(2, q);
    InvertBound(InvertLowestOne(s));
    InvertBound(s);
  }

  // ----- the way down

  /**
    Below a multiple of a power of two, on the way to a height less than that power
    away.  The odd heights on the way are `x - 2^(2m + 1) + 1`.
   */
  ghost predicate Below(x: nat, j: nat, m: nat, t: nat) {
    && Divisible(x, j) && x > 0 && 2 * m + 1 <= j
    && x < t + Pow(2, j) && t + Pow(2, 2 * m + 1) <= x + 1
  }

  lemma SquareGrows(i: nat, j: nat)
    requires i <= j
    ensures i * i <= j * j
  {
    TimesMonotone(i, j, i, j);
  }

  /** Arithmetic for the cases of the walk: up to three steps, and then a walk of a smaller exponent. */
  lemma Enough(j: nat, m: nat)
    requires 2 * m + 1 <= j
    ensures 4 * (m + 1) <= j * j + 7 * j
    ensures var i := 2 * m + 1; i < j ==> 4 * (m + 2) + (i * i + 7 * i) <= j * j + 7 * j
    ensures var i := 2 * m + 2; i < j ==> 4 * (m + 3) + (i * i + 7 * i) <= j * j + 7 * j
  {
    if 2 * m + 2 <= j {
      SquareGrows(2 * m + 2, j);
      assert (2 * m + 2) * (2 * m + 2) == (2 * m + 1) * (2 * m + 1) + 4 * m + 3;
    }
    if 2 * m + 3 <= j {
      SquareGrows(2 * m + 3, j);
      assert (2 * m + 3) * (2 * m + 3) == (2 * m + 2) * (2 * m + 2) + 4 * m + 5;
    }
  }

  /** From an odd height on the way: what the skip link and the height before it lead to. */
  lemma OnTheWay(x: nat, j: nat, m: nat, t: nat)
    requires Below(x, j, m, t) && t + Pow(2, 2 * m + 1) <= x
    ensures var q := 2 * m + 1;
            var e := x - Pow(2, q);
            var s := e - Pow(2, q);
            && q < j && LowestAt(e, q) && s >= 0 && GetSkipHeight(e + 1) == InvertLowestOne(s) + 1
            && NextHeight(e + 1, t) == (if GetSkipHeight(e + 1) >= t then GetSkipHeight(e + 1) else e)
            && (q + 2 <= j ==> && LowestAt(s, q + 1) && InvertLowestOne(s) == s - Pow(2, q + 1)
                               && Pow(2, q + 2) + InvertLowestOne(s) == x)
            && (q + 1 == j ==> s < t)
  {
    hide InvertLowestOne, Pow, GetSkipHeight, NextHeight, LowestAt, Divisible;
    var q := 2 * m + 1;
    PowNext(2, q);
    PowNext(2, q + 1);
    DivisibleLess(x, j, q + 1);
    BelowMultiple(x, q);
    var e := x - Pow(2, q);
    LowestCleared(e, q);
    OddNext(e, q, t);
    OddSkip(e, q);
    if q + 2 <= j {
      DivisibleLess(x, j, q + 2);
      BelowMultiple(x, q + 1);
      LowestCleared(x - Pow(2, q + 1), q + 1);
    }
  }

  /** The number of steps is quadratic in the exponent. */
  lemma {:induction false} Descend(x: nat, j: nat, m: nat, t: nat)
    requires Below(x, j, m, t)
    ensures 4 * (Hops(x + 1 - Pow(2, 2 * m + 1), t) + m) <= j * j + 7 * j
    decreases j, j - m
  {
    hide InvertLowestOne, Pow, GetSkipHeight, NextHeight, Hops, LowestAt, Divisible;
    var q := 2 * m + 1;
    var w := x + 1 - Pow(2, q);
    HopsNone(t);
    Enough(j, m);
    if t < w {
      OnTheWay(x, j, m, t);
      HopsNext(w, t);
      var e := w - 1;
      var s := e - Pow(2, q);
      if GetSkipHeight(w) >= t {
        if q + 2 <= j {
          Descend(x, j, m + 1, t);
        } else {
          InvertBound(s);
        }
      } else if t < e {
        HopsNext(e, t);
        if s < t {
          EvenBack(e, q, t);
          DownFrom(e, q, t);
          Descend(e, q, 0, t);
        } else {
          EvenSkip(e, q, t);
          if t < s {
            HopsNext(s, t);
            EvenBack(s, q + 1, t);
            DownFrom(s, q + 1, t);
            Descend(s, q + 1, 0, t);
          }
        }
      }
    }
  }

  lemma DownFrom(n: nat, q: nat, t: nat)
    requires LowestAt(n, q) && q > 0 && n < t + Pow(2, q) && t < n
    ensures Below(n, q, 0, t) && Pow(2, 2 * 0 + 1) == 2
  {
    SmallPowers();
    hide Pow, LowestAt, Divisible;
    LowestCleared(n, q);
  }

  // ----- the whole walk

  /** The number of ones. */
  function Ones(n: nat): nat {
    if n == 0 then 0 else n % 2 + Ones(n / 2)
  }

  lemma {:induction false} OnesCleared(n: nat)
    requires n > 0
    ensures Ones(InvertLowestOne(n)) == Ones(n) - 1
  {
    if n % 2 == 1 {
      assert (n - 1) / 2 == n / 2;
    } else {
      OnesCleared(n / 2);
      var r := InvertLowestOne(n / 2);
      assert 2 * r / 2 == r;
    }
  }

  lemma {:induction false} OnesBound(n: nat, l: nat)
    requires n < Pow(2, l)
    ensures Ones(n) <= l
  {
    if n > 0 && l > 0 {
      OnesBound(n / 2, l - 1);
    }
  }

  lemma OnesNext(n: nat)
    requires n % 2 == 0
    ensures Ones(n + 1) == Ones(n) + 1
  {
    assert (n + 1) / 2 == n / 2;
  }

  /** The place of the lowest one is below the length. */
  lemma LowestBound(n: nat, q: nat, l: nat)
    requires LowestAt(n, q) && n < Pow(2, l)
    ensures q < l && q * q + 7 * q <= l * l + 7 * l
  {
    hide Pow, LowestAt, Divisible;
    LowestCleared(n, q);
    if q >= l {
      PowGrows(2, l, q);
    }
    SquareGrows(q, l);
  }

  /** From an even height whose skip link leads too far. */
  lemma Arrive(n: nat, q: nat, t: nat, l: nat)
    requires LowestAt(n, q) && q > 0 && n < t + Pow(2, q) && t < n < Pow(2, l)
    ensures 4 * Hops(n, t) <= 4 + l * l + 7 * l
  {
    hide InvertLowestOne, Pow, GetSkipHeight, NextHeight, Hops, LowestAt, Divisible;
    EvenBack(n, q, t);
    HopsNext(n, t);
    DownFrom(n, q, t);
    Descend(n, q, 0, t);
    LowestBound(n, q, l);
  }

  lemma InvertEven(n: nat)
    requires n % 2 == 0
    ensures InvertLowestOne(n) % 2 == 0
  {
  }

  /** A skip link from an odd height leaves fewer ones, */
  lemma OddOnes(e: nat, q: nat)
    requires LowestAt(e, q) && q > 0
    ensures Ones(GetSkipHeight(e + 1)) < Ones(e + 1)
  {
    hide InvertLowestOne, Pow, GetSkipHeight, LowestAt, Divisible, Ones;
    EvenLowest(e, q);
    LowestCleared(e, q);
    OddSkip(e, q);
    InvertEven(e);
    var s := InvertLowestOne(e);
    AfterClearing(s);
    OnesCleared(e);
    OnesNext(e);
  }

  /** so does one from an even height, */
  lemma EvenOnes(n: nat, q: nat)
    requires LowestAt(n, q) && q > 0
    ensures Ones(GetSkipHeight(n)) < Ones(n)
  {
    hide InvertLowestOne, Pow, GetSkipHeight, LowestAt, Divisible, Ones;
    EvenLowest(n, q);
    LowestCleared(n, q);
    OnesCleared(n);
  }

  /** and one from the height before it that leads further. */
  lemma PrevOnes(n: nat, q: nat)
    requires LowestAt(n, q) && q > 0 && GetSkipHeight(n - 1) < GetSkipHeight(n)
    ensures Ones(GetSkipHeight(n - 1)) < Ones(n)
  {
    hide InvertLowestOne, Pow, GetSkipHeight, LowestAt, Divisible, Ones;
    EvenLowest(n, q);
    LowestCleared(n, q);
    PrevSkip(n, q);
    OnesCleared(n);
    var s := n - Pow(2, q);
    InvertEven(n);
    AfterClearing(s);
    if q == 1 {
      InvertEven(s);
      OnesCleared(s);
      AfterClearing(InvertLowestOne(s));
    }
  }

  lemma AfterClearing(s: nat)
    requires s % 2 == 0
    ensures Ones(InvertLowestOne(s) + 1) <= Ones(s) + if s == 0 then 1 else 0
  {
    InvertEven(s);
    OnesNext(InvertLowestOne(s));
    if s > 0 {
      OnesCleared(s);
    }
  }

  /** From an odd height whose skip link leads too far, by way of the height before it. */
  lemma TooFar(e: nat, q: nat, t: nat, l: nat)
    requires LowestAt(e, q) && q > 0 && GetSkipHeight(e + 1) < t <= e < Pow(2, l)
    ensures 4 * Hops(e, t) <= 8 + l * l + 7 * l
  {
    hide InvertLowestOne, Pow, GetSkipHeight, NextHeight, Hops, LowestAt, Divisible;
    HopsNone(t);
    OddSkip(e, q);
    EvenLowest(e, q);
    LowestCleared(e, q);
    var s := e - Pow(2, q);
    if s < t < e {
      Arrive(e, q, t, l);
    } else if t <= s {
      HopsNext(e, t);
      EvenSkip(e, q, t);
      if t < s {
        var r := LowestExists(s);
        LowestCleared(s, r);
        InvertEven(e);
        Arrive(s, r, t, l);
      }
    }
  }

  lemma {:induction false} WalkBound(w: nat, t: nat, l: nat)
    requires t <= w < Pow(2, l)
    ensures 4 * Hops(w, t) <= 8 * Ones(w) + 12 + l * l + 7 * l
    decreases w
  {
    hide InvertLowestOne, Pow, GetSkipHeight, NextHeight, Hops, LowestAt, Divisible, Ones;
    HopsNone(t);
    if t < w {
      HopsNext(w, t);
      if w == 1 {
        assert NextHeight(w, t) == t;
      } else if w % 2 == 1 {
        var e := w - 1;
        var q := LowestExists(e);
        OddNext(e, q, t);
        OddOnes(e, q);
        if GetSkipHeight(w) >= t {
          WalkBound(NextHeight(w, t), t, l);
        } else {
          TooFar(e, q, t, l);
        }
      } else {
        EvenWalk(w, t, l);
      }
    }
  }

  lemma {:induction false} EvenWalk(w: nat, t: nat, l: nat)
    requires t < w < Pow(2, l) && w % 2 == 0
    ensures 4 * Hops(w, t) <= 8 * Ones(w) + 12 + l * l + 7 * l
    decreases w, 0
  {
    hide InvertLowestOne, Pow, GetSkipHeight, Hops, LowestAt, Divisible, Ones;
    HopsNext(w, t);
    var q := LowestExists(w);
    EvenLowest(w, q);
    EvenOnes(w, q);
    var s := GetSkipHeight(w);
    if s < t {
      Arrive(w, q, t, l);
    } else if NextHeight(w, t) == s {
      WalkBound(s, t, l);
    } else {
      var r := LowestExists(w - 2);
      OddNext(w - 2, r, t);
      HopsNext(w - 1, t);
      PrevOnes(w, q);
      WalkBound(GetSkipHeight(w - 1), t, l);
    }
  }

  /** For a height of `l` binary digits this is at most (l^2 + 15 l + 12) / 4. */
  ghost predicate FewSteps(steps: nat, height: nat) {
    forall l: nat | height < Pow(2, l) :: 4 * steps <= l * l + 15 * l + 12
  }

  /** The walk along skip links takes few steps. */
  lemma FewHops(w: nat, t: nat)
    requires t <= w
    ensures FewSteps(Hops(w, t), w)
  {
    hide Hops, Ones, Pow;
    forall l: nat | w < Pow(2, l) ensures 4 * Hops(w, t) <= l * l + 15 * l + 12 {
      WalkBound(w, t, l);
      OnesBound(w, l);
    }
  }
}
