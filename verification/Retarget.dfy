/**
  What retargeting amounts to: the time taken is brought into its range without need,
  slower blocks never make the target smaller, and the target changes at most fourfold.
 */
module Retarget {
  import opened Basics
  import opened Digits
  import opened Limbs
  import opened BigShift
  import opened Compact
  import opened Target

  function Distance(a: int, b: int): nat {
    if a < b then b - a else a - b
  }

  /** No time in the range is nearer to the time taken, so it is left alone if it is in the range. */
  lemma ClampedNearest(span: int, timespan: nat, x: nat)
    requires timespan / 4 <= x <= timespan * 4
    ensures Distance(Clamped(span, timespan), span) <= Distance(x, span)
    ensures timespan / 4 <= Clamped(span, timespan) <= timespan * 4
    ensures Distance(x, span) == Distance(Clamped(span, timespan), span) ==> x == Clamped(span, timespan)
  {
  }

  lemma ClampedMonotone(s: int, t: int, timespan: nat)
    requires s <= t
    ensures Clamped(s, timespan) <= Clamped(t, timespan)
  {
  }

  lemma QuotientMonotone(x: nat, y: nat, u: nat)
    requires x <= y && u > 0
    ensures x / u <= y / u
  {
    var q, r := x / u, x % u;
    var a, b := y / u, y % u;
    assert x == q * u + r && y == a * u + b;
    assert (a + 1) * u == a * u + u;
    if q > a {
      TimesMonotone(a + 1, q, u, u);
      assert false;
    }
  }

  /** As long as the product fits, blocks that took longer never make the target smaller. */
  lemma RetargetMonotone(target: nat, s: int, t: int, timespan: nat, limit: nat)
    requires s <= t && 0 < timespan && timespan * 4 < BASE && target * Clamped(t, timespan) < Weight(WIDTH)
    ensures NewTarget(target, Clamped(s, timespan), timespan, limit)
         <= NewTarget(target, Clamped(t, timespan), timespan, limit)
  {
    hide Weight, Clamped, NewTarget;
    ClampedMonotone(s, t, timespan);
    var j, k := Clamped(s, timespan), Clamped(t, timespan);
    TimesMonotone(target, target, j, k);
    RetargetScales(target, s, timespan, limit);
    RetargetScales(target, t, timespan, limit);
    QuotientMonotone(target * j, target * k, timespan);
  }

  /**
    As long as the product fits, the target is kept if the blocks took just the time
    they should, and is otherwise at least a quarter and at most four times as large.
   */
  lemma RetargetRange(target: nat, span: int, timespan: nat, limit: nat)
    requires 0 < timespan && timespan * 4 < BASE && target * Clamped(span, timespan) < Weight(WIDTH)
    requires timespan % 4 == 0
    ensures var n := NewTarget(target, Clamped(span, timespan), timespan, limit);
            Min(target / 4, limit) <= n <= Min(4 * target, limit) && (span == timespan ==> n == Min(target, limit))
  {
    hide Weight, NewTarget, Clamped;
    RetargetScales(target, span, timespan, limit);
    ClampedNearest(span, timespan, timespan);
    ScaledRange(target, Clamped(span, timespan), timespan / 4);
  }

  lemma ScaledRange(target: nat, k: nat, quarter: nat)
    requires quarter > 0 && quarter <= k <= 16 * quarter
    ensures target / 4 <= target * k / (4 * quarter) <= 4 * target
    ensures k == 4 * quarter ==> target * k / (4 * quarter) == target
  {
    TimesMonotone(target, target, quarter, k);
    QuotientMonotone(target * quarter, target * k, 4 * quarter);
    QuarterOf(target, quarter);
    TimesMonotone(target, target, k, 16 * quarter);
    assert target * (16 * quarter) == 4 * target * (4 * quarter);
    QuotientAtMost(target * k, 4 * quarter, 4 * target);
    if k == 4 * quarter {
      QuotientOf(target * k, k, target, 0);
    }
  }

  lemma QuarterOf(target: nat, quarter: nat)
    requires quarter > 0
    ensures target * quarter / (4 * quarter) == target / 4
  {
    var q, r := target / 4, target % 4;
    assert target * quarter == (4 * q + r) * quarter == q * (4 * quarter) + r * quarter;
    TimesMonotone(r, 3, quarter, quarter);
    QuotientOf(target * quarter, 4 * quarter, q, r * quarter);
  }

  // The repository's own cases.

  /** The compact form of a number from its leading bytes. */
  lemma LeadingIs(x: nat, m: nat, e: nat)
    requires e > 3 && 0x8000 <= m < SIGN && m * Bytes(e - 3) <= x < (m + 1) * Bytes(e - 3)
    ensures CompactOf(x) == m + e * EXPONENT
  {
    hide Bytes, CompactOf;
    var u := Bytes(e - 3);
    SmallBytes();
    BytesGrow(1, e - 3);
    TimesMonotone(0x8000, m, 256, u);
    LargeParts(x);
    var c := CompactOf(x);
    var e', m' := Exponent(c), Mantissa(c);
    var v := Bytes(e' - 3);
    assert x == m' * v + x % v && (m' + 1) * v == m' * v + v;
    if e' < e {
      BytesNext(e' - 3);
      BytesGrow(e' - 2, e - 3);
      TimesMonotone(0x8000, m, 256 * v, u);
      TimesMonotone(m' + 1, SIGN, v, v);
      assert false;
    } else if e' > e {
      BytesNext(e - 3);
      BytesGrow(e - 2, e' - 3);
      TimesMonotone(0x8000, m', 256 * u, v);
      TimesMonotone(m + 1, SIGN, u, u);
      assert false;
    }
    assert (m + 1) * u == m * u + u;
    QuotientOf(x, u, m, x - m * u);
  }

  /** A scaled target in units of `u`. */
  lemma ScaledBetween(m: nat, k: nat, u: nat, timespan: nat, low: nat, high: nat)
    requires timespan > 0 && u > 0 && low * timespan <= m * k < high * timespan
    ensures low * u <= m * u * k / timespan < high * u
  {
    Regrouped(m, k, u);
    Regrouped(low, timespan, u);
    Regrouped(high, timespan, u);
    TimesMonotone(low * timespan, m * k, u, u);
    TimesMonotone(m * k + 1, high * timespan, u, u);
    MoreByOne(m * k, u);
    QuotientBelow(m * u * k, timespan, high * u);
    QuotientMonotone(low * u * timespan, m * u * k, timespan);
    QuotientOf(low * u * timespan, timespan, low * u, 0);
  }

  lemma Regrouped(a: nat, b: nat, c: nat)
    ensures a * b * c == a * c * b
  {
    assert b * c == c * b;
    Associate(a, b, c);
    Associate(a, c, b);
  }

  lemma MoreByOne(a: nat, u: nat)
    ensures (a + 1) * u == a * u + u
  {
  }

  /** The next compact target on the main network. */
  ghost function MainNext(nBits: nat, lastTime: int, firstTime: int): nat {
    CompactOf(NewTarget(Meaning(nBits), Clamped(lastTime - firstTime, TWO_WEEKS), TWO_WEEKS, Bytes(28) - 1))
  }

  /** The next target from the mantissa `m` of the last one, the time `k` that counts, and the limits of the new one. */
  lemma MainScaled(m: nat, e: nat, span: int, low: nat, high: nat)
    requires 3 < e <= 29 && 0x8000 <= m && (if e == 29 then m < 0x10000 else m < SIGN)
    requires low * TWO_WEEKS <= m * Clamped(span, TWO_WEEKS) < high * TWO_WEEKS
    ensures var x := m * Bytes(e - 3) * Clamped(span, TWO_WEEKS) / TWO_WEEKS;
            && NewTarget(Meaning(m + e * EXPONENT), Clamped(span, TWO_WEEKS), TWO_WEEKS, Bytes(28) - 1)
               == Min(x, Bytes(28) - 1)
            && low * Bytes(e - 3) <= x < high * Bytes(e - 3)
  {
    hide Bytes, Weight, Clamped, NewTarget;
    var u := Bytes(e - 3);
    Unpack(m, e);
    SmallBytes();
    if e == 29 {
      BytesSplit(28, 26);
      TimesMonotone(m + 1, 0x10000, u, u);
    } else {
      BytesGrow(e - 3, 25);
      BytesSplit(28, 25);
      TimesMonotone(m + 1, SIGN, u, Bytes(25));
      TimesMonotone(SIGN, 0x1000000, Bytes(25), Bytes(25));
    }
    assert (m + 1) * u == m * u + u;
    MainNetworkFits(m * u, span);
    RetargetScales(m * u, span, TWO_WEEKS, Bytes(28) - 1);
    ScaledBetween(m, Clamped(span, TWO_WEEKS), u, TWO_WEEKS, low, high);
  }

  lemma UnconstrainedCase()
    ensures MainNext(0x1d00ffff, 1262152739, 1261130161) == 0x1d00d86a
  {
    hide Bytes, CompactOf, NewTarget, Meaning;
    MainScaled(0xffff, 29, 1022578, 0xd86a, 0xd86b);
    BytesSplit(28, 26);
    SmallBytes();
    TimesMonotone(0xd86b, 0xffff, Bytes(26), Bytes(26));
    LeadingIs(0xffff * Bytes(26) * 1022578 / TWO_WEEKS, 0xd86a, 29);
  }

  lemma LimitCase()
    ensures MainNext(0x1d00ffff, 1233061996, 1231006505) == 0x1d00ffff
  {
    hide Bytes, CompactOf, NewTarget, Meaning;
    MainScaled(0xffff, 29, 2055491, 0x10000, 0x20000);
    BytesSplit(28, 26);
    SmallBytes();
    LeadingIs(Bytes(28) - 1, 0xffff, 29);
  }

  lemma FastBlocksCase()
    ensures MainNext(0x1c05a3f4, 1279297671, 1279008237) == 0x1c0168fd
  {
    hide Bytes, CompactOf, NewTarget, Meaning;
    MainScaled(0x05a3f4, 28, 289434, 0x0168fd, 0x0168fe);
    BytesSplit(28, 25);
    SmallBytes();
    TimesMonotone(0x0168fe, 0x1000000, Bytes(25), Bytes(25));
    LeadingIs(0x05a3f4 * Bytes(25) * Clamped(289434, TWO_WEEKS) / TWO_WEEKS, 0x0168fd, 28);
  }

  lemma SlowBlocksCase()
    ensures MainNext(0x1c387f6f, 1269211443, 1263163443) == 0x1d00e1fd
  {
    hide Bytes, CompactOf, NewTarget, Meaning;
    MainScaled(0x387f6f, 28, 6048000, 0xe1fd00, 0xe1fe00);
    BytesSplit(28, 25);
    SmallBytes();
    BytesNext(25);
    TimesMonotone(0xe1fe00, 0x1000000, Bytes(25), Bytes(25));
    assert 0xe1fd * (256 * Bytes(25)) == 0xe1fd00 * Bytes(25) && 0xe1fe * (256 * Bytes(25)) == 0xe1fe00 * Bytes(25);
    LeadingIs(0x387f6f * Bytes(25) * Clamped(6048000, TWO_WEEKS) / TWO_WEEKS, 0xe1fd, 29);
  }
}
