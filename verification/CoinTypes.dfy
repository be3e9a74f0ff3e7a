/** The unspent outputs of one transaction (`CCoins`). */
module CoinTypes {

  import opened Basics

  /** An output; a spent output is null. */
  datatype TxOut = Null | Out(value: Int64, script: seq<Byte>)

  datatype Coins = Coins(coinBase: bool, vout: seq<TxOut>, height: Int32, version: Int32)

  const NO_COINS := Coins(false, [], 0, 0)

  predicate IsPruned(c: Coins) {
    forall i | 0 <= i < |c.vout| :: c.vout[i].Null?
  }

  predicate IsAvailable(c: Coins, pos: nat) {
    pos < |c.vout| && !c.vout[pos].Null?
  }

  /** No spent output at the end. */
  predicate IsClean(c: Coins) {
    c.vout == [] || !c.vout[|c.vout| - 1].Null?
  }

  /** Without the spent outputs at the end. */
  function Trimmed(vout: seq<TxOut>): (r: seq<TxOut>)
    ensures r <= vout
    ensures r == [] || !r[|r| - 1].Null?
    ensures forall i | |r| <= i < |vout| :: vout[i].Null?
  {
    if vout != [] && vout[|vout| - 1].Null? then Trimmed(vout[..|vout| - 1]) else vout
  }

  function Cleaned(c: Coins): Coins {
    c.(vout := Trimmed(c.vout))
  }

  /** Trimming never changes which outputs are available, and a trimmed record is pruned only if it is empty. */
  lemma CleanedFacts(c: Coins)
    ensures IsClean(Cleaned(c))
    ensures forall pos: nat :: IsAvailable(Cleaned(c), pos) <==> IsAvailable(c, pos)
    ensures forall pos: nat | IsAvailable(c, pos) :: Cleaned(c).vout[pos] == c.vout[pos]
    ensures IsPruned(Cleaned(c)) <==> IsPruned(c)
    ensures IsPruned(c) <==> Cleaned(c).vout == []
  {
    var r := Trimmed(c.vout);
    if !IsPruned(c) {
      var i :| 0 <= i < |c.vout| && !c.vout[i].Null?;
      assert r[i] == c.vout[i];
    }
    if r != [] {
      assert r[|r| - 1] == c.vout[|r| - 1];
    }
  }

  lemma CleanedIsClean(c: Coins)
    ensures IsClean(Cleaned(c))
  {
  }

  lemma CleanedPruned(c: Coins)
    ensures IsPruned(Cleaned(c)) <==> IsPruned(c)
  {
    CleanedFacts(c);
  }

  lemma CleanPruned(c: Coins)
    requires IsClean(c)
    ensures IsPruned(c) <==> c.vout == []
  {
    if c.vout != [] {
      assert !c.vout[|c.vout| - 1].Null?;
    }
  }

  method Cleanup(c: Coins) returns (r: Coins)
    ensures r == Cleaned(c)
  {
    r := c;
    while |r.vout| > 0 && r.vout[|r.vout| - 1].Null?
      invariant r == c.(vout := r.vout) && Trimmed(r.vout) == Trimmed(c.vout)
      decreases |r.vout|
    {
      r := r.(vout := r.vout[..|r.vout| - 1]);
    }
  }

  /** Spending succeeds exactly for an available output, and then removes that output and no other. */
  method Spend(c: Coins, pos: nat) returns (ok: bool, r: Coins)
    ensures ok <==> IsAvailable(c, pos)
    ensures !ok ==> r == c
    ensures ok ==> IsClean(r) && forall i: nat :: IsAvailable(r, i) <==> IsAvailable(c, i) && i != pos
    ensures ok ==> forall i: nat | IsAvailable(r, i) :: IsAvailable(c, i) && r.vout[i] == c.vout[i]
  {
    if pos >= |c.vout| || c.vout[pos].Null? {
      return false, c;
    }
    var spent := c.(vout := c.vout[pos := Null]);
    CleanedFacts(spent);
    r := Cleanup(spent);
    ok := true;
  }
}
