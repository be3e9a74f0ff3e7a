/** Which difficulty the next block must have. */
module Difficulty {

  import opened Basics
  import opened Limbs
  import opened BigUint
  import opened Compact
  import opened Target
  import opened Chain

  datatype Params = Params(timespan: nat, spacing: nat, allowMinDifficulty: bool, noRetargeting: bool) {
    function Interval(): nat
      requires spacing > 0
    {
      timespan / spacing
    }
  }

  /** A block that did not get its difficulty from the minimum difficulty rule, as far as can be told. */
  ghost predicate Regular(path: seq<BlockIndex>, i: nat, interval: nat, limit: nat)
    requires i < |path| && interval > 0
  {
    i == 0 || i % interval == 0 || path[i].nBits != limit
  }

  /** `i` is the last such block. */
  ghost predicate LastRegular(path: seq<BlockIndex>, i: nat, interval: nat, limit: nat)
    requires interval > 0
  {
    i < |path| && Regular(path, i, interval, limit) && forall k | i < k < |path| :: !Regular(path, k, interval, limit)
  }

  /** The last difficulty scaled by the time since the first block of the interval. */
  ghost predicate Retargeted(last: BlockIndex, params: Params, limit: nat, r: nat)
    requires params.spacing > 0 && 0 < params.Interval() && params.timespan > 0
  {
    var interval := params.Interval();
    && interval <= |last.path|
    && var span := last.nTime - last.path[|last.path| - interval].nTime;
       r == if params.noRetargeting then last.nBits
            else CompactOf(NewTarget(Meaning(last.nBits), Clamped(span, params.timespan), params.timespan, limit))
  }

  /** The difficulty of the block after `last`, case by case. */
  ghost predicate Required(last: BlockIndex?, blockTime: int, powLimit: nat, params: Params, r: nat)
    requires params.spacing > 0 && 0 < params.Interval() && params.timespan > 0
  {
    var limit := CompactOf(powLimit);
    if last == null then r == limit
    else if (last.nHeight + 1) % params.Interval() == 0 then Retargeted(last, params, powLimit, r)
    else if !params.allowMinDifficulty then r == last.nBits
    else if blockTime > last.nTime + params.spacing * 2 then r == limit
    else exists i: nat :: LastRegular(last.path, i, params.Interval(), limit) && r == last.path[i].nBits
  }

  /**
    The required difficulty.  In a retargeting block the first block of
    the interval always exists.
   */
  method GetNextWorkRequired(last: BlockIndex?, blockTime: int, powLimit: array<nat>, params: Params) returns (r: nat)
    requires last != null ==> last.InTree() && last.SkipsOk() && last.nBits < BASE
    requires powLimit.Length == WIDTH && Ok(powLimit)
    requires params.spacing > 0 && 0 < params.Interval() && 0 < params.timespan < TWO_64 / 8
    ensures Required(last, blockTime, Val(powLimit), params, r)
  {
    hide Num, Weight, Meaning, CompactOf, NewTarget, BlockIndex.InTree, BlockIndex.SkipsOk;
    var limit := GetCompact(powLimit, false);
    if last == null {
      return limit;
    }
    var interval := params.Interval();
    last.Place(last.nHeight);
    if (last.nHeight + 1) % interval != 0 {
      if params.allowMinDifficulty {
        if blockTime > last.nTime + params.spacing * 2 {
          return limit;
        }
        r := LastRegularBits(last, interval, limit);
        return;
      }
      return last.nBits;
    }
    WholeInterval(last.nHeight + 1, interval);
    var first;
    ghost var steps;
    first, steps := last.GetAncestor(last.nHeight - (interval - 1));
    r := CalculateNextWorkRequired(last.nBits, last.nTime, first.nTime, powLimit, params.timespan,
                                   params.noRetargeting);
  }

  lemma WholeInterval(n: nat, interval: nat)
    requires n > 0 && interval > 0 && n % interval == 0
    ensures n >= interval
  {
  }

  /** Walk back over blocks that used the minimum difficulty. */
  method LastRegularBits(last: BlockIndex, interval: nat, limit: nat) returns (r: nat)
    requires last.InTree() && interval > 0
    ensures exists i: nat :: LastRegular(last.path, i, interval, limit) && r == last.path[i].nBits
  {
    hide BlockIndex.InTree;
    var pindex := last;
    ghost var h := last.nHeight;
    last.Place(h);
    while pindex.pprev != null && pindex.nHeight % interval != 0 && pindex.nBits == limit
      invariant 0 <= h < |last.path| && pindex == last.path[h] && pindex.nHeight == h
      invariant pindex.pprev == Before(last.path, h)
      invariant forall k | h < k < |last.path| :: !Regular(last.path, k, interval, limit)
      decreases h
    {
      pindex := pindex.pprev;
      h := h - 1;
      last.Place(h);
    }
    assert LastRegular(last.path, h, interval, limit);
    return pindex.nBits;
  }
}
