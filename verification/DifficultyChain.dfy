/** What the required difficulty means for a whole chain. */
module DifficultyChain {

  import opened Basics
  import opened Limbs
  import opened Compact
  import opened Target
  import opened Chain
  import opened Difficulty
  import opened Retarget

  predicate Proper(params: Params) {
    params.spacing > 0 && 0 < params.Interval() && params.timespan > 0
  }

  /** Every block up to `tip` has the difficulty that is required of it. */
  ghost predicate Obeys(tip: BlockIndex, params: Params, limit: nat)
    requires Proper(params)
  {
    && tip.InTree()
    && forall i | 0 < i < |tip.path| :: Required(tip.path[i - 1], tip.path[i].nTime, limit, params, tip.path[i].nBits)
  }

  lemma ObeysAt(tip: BlockIndex, params: Params, limit: nat, i: nat)
    requires Proper(params) && Obeys(tip, params, limit) && 0 < i < |tip.path|
    ensures var last := tip.path[i - 1];
            && last.nHeight == i - 1 && last.path == tip.path[..i]
            && Required(last, tip.path[i].nTime, limit, params, tip.path[i].nBits)
  {
    hide Required;
    assert Fits(tip.path, i - 1);
  }

  lemma NotFirst(s: nat, i: nat, interval: nat)
    requires interval > 0 && s < i && s / interval == i / interval
    ensures i % interval != 0 && s / interval == (i - 1) / interval
  {
    var q := i / interval;
    assert i == q * interval + i % interval && s == q * interval + s % interval;
    QuotientMonotone(s, i - 1, interval);
    QuotientMonotone(i - 1, i, interval);
  }

  /** Without the minimum difficulty rule all blocks of an interval have the same difficulty. */
  lemma {:induction false} SameInterval(tip: BlockIndex, params: Params, limit: nat, i: nat, j: nat)
    requires Proper(params) && Obeys(tip, params, limit) && !params.allowMinDifficulty
    requires i <= j < |tip.path| && i / params.Interval() == j / params.Interval()
    ensures tip.path[i].nBits == tip.path[j].nBits
    decreases j
  {
    hide Obeys, Retargeted, LastRegular, CompactOf;
    if i < j {
      NotFirst(i, j, params.Interval());
      SameInterval(tip, params, limit, i, j - 1);
      ObeysAt(tip, params, limit, j);
    }
  }

  /** With it, each has that of the first block of the interval or the minimum. */
  lemma {:induction false} FirstOrMinimum(tip: BlockIndex, params: Params, limit: nat, s: nat, j: nat)
    requires Proper(params) && Obeys(tip, params, limit) && s % params.Interval() == 0
    requires s <= j < |tip.path| && s / params.Interval() == j / params.Interval()
    ensures tip.path[j].nBits == tip.path[s].nBits || tip.path[j].nBits == CompactOf(limit)
    decreases j
  {
    hide Obeys, Retargeted, CompactOf, BlockIndex.InTree;
    if s < j {
      NotFirst(s, j, params.Interval());
      ObeysAt(tip, params, limit, j);
      FirstOrMinimum(tip, params, limit, s, j - 1);
      var last := tip.path[j - 1];
      if params.allowMinDifficulty && tip.path[j].nBits != CompactOf(limit) {
        var i: nat :| LastRegular(last.path, i, params.Interval(), CompactOf(limit))
                      && tip.path[j].nBits == last.path[i].nBits;
        assert Regular(last.path, s, params.Interval(), CompactOf(limit));
        if i != s {
          Between(s, i, j, params.Interval());
          FirstOrMinimum(tip, params, limit, s, i);
        }
      }
    }
  }

  lemma Between(s: nat, i: nat, j: nat, interval: nat)
    requires interval > 0 && s <= i <= j && s / interval == j / interval
    ensures s / interval == i / interval
  {
    QuotientMonotone(s, i, interval);
    QuotientMonotone(i, j, interval);
  }

  /** At the start of an interval the target changes at most fourfold, and stays below the limit. */
  lemma FourfoldAtMost(tip: BlockIndex, params: Params, limit: nat, j: nat)
    requires Proper(params) && Obeys(tip, params, limit) && !params.noRetargeting && params.timespan % 4 == 0
    requires params.timespan * 4 < BASE && 0 < j < |tip.path| && j % params.Interval() == 0
    requires Meaning(tip.path[j - 1].nBits) * (4 * params.timespan) < Weight(WIDTH)
    ensures var target := Meaning(tip.path[j - 1].nBits);
            exists n :: && Min(target / 4, limit) <= n <= Min(4 * target, limit)
                        && tip.path[j].nBits == CompactOf(n)
  {
    hide Obeys, CompactOf, Meaning, NewTarget, Clamped, Weight, LastRegular;
    ObeysAt(tip, params, limit, j);
    var last, interval := tip.path[j - 1], params.Interval();
    var target := Meaning(last.nBits);
    var span := last.nTime - last.path[|last.path| - interval].nTime;
    ClampedNearest(span, params.timespan, params.timespan);
    Digits.TimesMonotone(target, target, Clamped(span, params.timespan), 4 * params.timespan);
    RetargetRange(target, span, params.timespan, limit);
  }

  /**
    The time is taken from the first block of an interval to its last, which is one
    block short: blocks that come just on time make the next target smaller.
   */
  lemma OnTime(tip: BlockIndex, params: Params, limit: nat, j: nat, start: int)
    requires Proper(params) && Obeys(tip, params, limit) && !params.noRetargeting
    requires 0 < j < |tip.path| && j % params.Interval() == 0
    requires forall i | 0 <= i < |tip.path| :: tip.path[i].nTime == start + i * params.spacing
    ensures var span := (params.Interval() - 1) * params.spacing;
            && span < params.timespan
            && tip.path[j].nBits
               == CompactOf(NewTarget(Meaning(tip.path[j - 1].nBits), Clamped(span, params.timespan), params.timespan,
                                      limit))
  {
    hide Obeys, CompactOf, Meaning, NewTarget, Clamped, LastRegular, BlockIndex.InTree;
    ObeysAt(tip, params, limit, j);
    var interval, spacing := params.Interval(), params.spacing;
    assert params.timespan == interval * spacing + params.timespan % spacing;
    assert (interval - 1) * spacing == interval * spacing - spacing;
    WholeInterval(j, interval);
    assert tip.path[..j][j - interval] == tip.path[j - interval];
    assert (j - 1) * spacing - (j - interval) * spacing == (interval - 1) * spacing;
  }
}
