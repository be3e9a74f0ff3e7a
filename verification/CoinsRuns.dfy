/**
  Whole runs over a stack of coin caches.  A run pushes and pops caches, flushes,
  uncaches and reads at any height and modifies at the top.  Every layer of the stack
  behaves like a plain map, and its memory accounting is off by an exactly known
  amount.
 */
module CoinsRuns {
  import opened Basics
  import opened CoinTypes
  import opened CoinsCache

  datatype Op =
    | Push                                        // put an empty cache on top
    | Pop                                         // flush the top cache and remove it
    | FlushAt(i: nat)                             // flush the cache at height i
    | UncacheAt(i: nat, t: Txid)                  // uncache at height i
    | ReadAt(i: nat, t: Txid)                     // read at height i, filling caches
    | Have(t: Txid)                               // ask the top for a transaction
    | Modify(t: Txid, c: Coins)                   // overwrite the record at the top
    | Create(t: Txid, c: Coins, coinbase: bool)   // write the record of a new transaction

  datatype Answer = Had(have: bool) | Got(coins: Option<Coins>)

  // ----- the plain stack: the database at height 0, and at least one cache

  type Plain = s: seq<map<Txid, Coins>> | |s| >= 2 witness [map[], map[]]

  function Top(s: Plain): map<Txid, Coins> {
    s[|s| - 1]
  }

  /** What an operation does to the plain maps: a flush copies a map down, and nothing else moves. */
  function Step(s: Plain, op: Op): Plain {
    match op
    case Push => s + [Top(s)]
    // The last cache is replaced by an empty one.
    case Pop => if |s| > 2 then s[..|s| - 2] + [Top(s)] else [Top(s), Top(s)]
    case FlushAt(i) => if 0 < i < |s| then s[i - 1 := s[i]] else s
    case Modify(t, c) => s[|s| - 1 := Shown(Top(s), t, Cleaned(c))]
    case Create(t, c, _) => s[|s| - 1 := Shown(Top(s), t, Cleaned(c))]
    case _ => s
  }

  /** What an operation answers from the plain maps. */
  function Reply(s: Plain, op: Op): seq<Answer> {
    match op
    case Have(t) => [Had(t in Top(s))]
    case ReadAt(i, t) => if i < |s| then [Got(Look(s[i], t))] else []
    case _ => []
  }

  /** A transaction other than a coinbase may be created if the map just below the top lacks it. */
  predicate Allowed(s: Plain, op: Op) {
    op.Create? && !op.coinbase ==> op.t !in s[|s| - 2]
  }

  function Maps(ops: seq<Op>): Plain {
    if ops == [] then [map[], map[]] else Step(Maps(ops[..|ops| - 1]), ops[|ops| - 1])
  }

  function Answers(ops: seq<Op>): seq<Answer> {
    if ops == [] then []
    else Answers(ops[..|ops| - 1]) + Reply(Maps(ops[..|ops| - 1]), ops[|ops| - 1])
  }

  predicate AllAllowed(ops: seq<Op>) {
    forall k | 0 <= k < |ops| :: Allowed(Maps(ops[..k]), ops[k])
  }

  // ----- how far the accounted memory is off, layer by layer

  /** Creating over a cached entry leaves the usage that was met in the account; flushing starts it afresh. */
  function Off(d: seq<nat>, op: Op, met: nat): (r: seq<nat>)
    requires |d| >= 2
    ensures |r| >= 2
  {
    match op
    case Push => d + [0]
    case Pop => if |d| > 2 then d[..|d| - 1] else [d[0], 0]
    case FlushAt(i) => if 0 < i < |d| then d[i := 0] else d
    case Create(_, _, _) => d[|d| - 1 := d[|d| - 1] + met]
    case _ => d
  }

  function Offs(ops: seq<Op>, met: seq<nat>): (r: seq<nat>)
    requires |met| == |ops|
    ensures |r| >= 2
  {
    if ops == [] then [0, 0]
    else Off(Offs(ops[..|ops| - 1], met[..|ops| - 1]), ops[|ops| - 1], met[|ops| - 1])
  }

  predicate AllZero(d: seq<nat>) {
    forall i | 0 <= i < |d| :: d[i] == 0
  }

  /** All layers were exact at all times. */
  ghost predicate AlwaysExact(ops: seq<Op>, met: seq<nat>)
    requires |met| == |ops|
  {
    forall k | 0 <= k <= |ops| :: AllZero(Offs(ops[..k], met[..k]))
  }

  /** No creation met a cached entry that used memory. */
  predicate MetNothing(ops: seq<Op>, met: seq<nat>)
    requires |met| == |ops|
  {
    forall k | 0 <= k < |ops| && ops[k].Create? :: met[k] == 0
  }

  lemma OffZero(d: seq<nat>, op: Op, met: nat)
    requires |d| >= 2 && AllZero(d)
    ensures AllZero(Off(d, op, met)) <==> op.Create? ==> met == 0
  {
    if op.Create? {
      assert Off(d, op, met)[|d| - 1] == met;
    }
  }

  /** The accounting of all layers is exact at all times just if every creation met no entry or one of no size. */
  lemma {:induction false} ExactIff(ops: seq<Op>, met: seq<nat>)
    requires |met| == |ops|
    ensures AlwaysExact(ops, met) <==> MetNothing(ops, met)
  {
    hide AllZero, Off;
    assert ops[..|ops|] == ops && met[..|ops|] == met;
    if ops == [] {
      assert AllZero([0, 0]) by { AllZeroStart(); }
    } else {
      var n := |ops| - 1;
      var ops', met' := ops[..n], met[..n];
      ExactIff(ops', met');
      forall k | 0 <= k <= n ensures Offs(ops[..k], met[..k]) == Offs(ops'[..k], met'[..k]) {
        assert ops'[..k] == ops[..k] && met'[..k] == met[..k];
      }
      assert AlwaysExact(ops, met) <==> AlwaysExact(ops', met') && AllZero(Offs(ops, met));
      assert MetNothing(ops, met) <==> MetNothing(ops', met') && (ops[n].Create? ==> met[n] == 0);
      if AlwaysExact(ops', met') {
        assert ops'[..n] == ops' && met'[..n] == met';
        OffZero(Offs(ops', met'), ops[n], met[n]);
      }
    }
  }

  lemma AllZeroStart()
    ensures AllZero([0, 0])
  {
  }

  // ----- the stack

  /** Nobody in the stack is being modified. */
  ghost predicate Still(top: CoinsView)
    reads top.chain
  {
    forall o | o in top.chain :: !o.hasModifier
  }

  /** Every layer of the stack stands for its plain map and is off by its amount. */
  ghost predicate Mirrors(top: CoinsView, s: Plain, d: seq<nat>)
    reads top.chain
  {
    && top.Valid() && Still(top) && top.depth + 1 == |s| == |d|
    && forall o | o in top.chain :: o.view == s[o.depth] && o.Drift() == d[o.depth]
  }

  /** The cache `p` sits right on its base. */
  ghost predicate Linked(p: CoinsView)
    reads p, p.base
  {
    p.base != null && p.base.depth + 1 == p.depth && Layer(p.view, p.cacheCoins, p.base.view)
  }

  /** A stack is valid if it is valid up to `o` and linked above. */
  lemma {:induction false} AboveKept(top: CoinsView, o: CoinsView)
    requires top.Shape() && o in top.chain && o.Valid()
    requires forall p | p in top.chain && p !in o.chain :: Linked(p)
    ensures top.Valid()
    decreases top.depth
  {
    if top != o {
      assert top !in o.chain;
      assert Linked(top);
      AboveKept(top.base, o);
    }
  }

  lemma {:induction false} AboveLinked(top: CoinsView, p: CoinsView)
    requires top.Valid() && p in top.chain && p.base != null
    ensures Linked(p)
    decreases top.depth
  {
    if top != p {
      AboveLinked(top.base, p);
    }
  }

  lemma StrictlyBelow(top: CoinsView, o: CoinsView)
    requires top.Shape() && o in top.chain && o != top
    ensures top.base != null && o in top.base.chain && o.depth < top.depth
  {
  }

  /** Going down from above `o`, one does not step over `o`. */
  lemma {:induction false} NoSkip(top: CoinsView, o: CoinsView, p: CoinsView)
    requires top.Shape() && o in top.chain && p in top.chain && p !in o.chain
    ensures p.base != null && p.base in top.chain && (p.base == o || p.base !in o.chain)
    ensures o.depth < p.depth
    decreases top.depth
  {
    ChainTrans(top, o);
    if top == p {
      assert o in top.base.chain;
      if top.base != o {
        StrictlyBelow(top.base, o);
      }
    } else {
      NoSkip(top.base, o, p);
    }
  }

  lemma {:induction false} ChainTrans(top: CoinsView, o: CoinsView)
    requires top.Shape() && o in top.chain
    ensures o.Shape() && o.chain <= top.chain
    decreases top.depth
  {
    if top != o {
      ChainTrans(top.base, o);
    }
  }

  lemma {:induction false} BelowValid(top: CoinsView, o: CoinsView)
    requires top.Valid() && o in top.chain
    ensures o.Valid()
    decreases top.depth
  {
    if top != o {
      BelowValid(top.base, o);
    }
  }

  /** There is one layer at each height. */
  lemma {:induction false} OnePerHeight(top: CoinsView, o: CoinsView, p: CoinsView)
    requires top.Shape() && o in top.chain && p in top.chain && o.depth == p.depth
    ensures o == p
    decreases top.depth
  {
    if top != o && top != p {
      OnePerHeight(top.base, o, p);
    }
  }

  lemma LinksAbove(top: CoinsView, o: CoinsView)
    requires top.Valid() && o in top.chain
    ensures forall p | p in top.chain && p !in o.chain :: Linked(p)
  {
    forall p | p in top.chain && p !in o.chain ensures Linked(p) {
      NoSkip(top, o, p);
      AboveLinked(top, p);
    }
  }

  /** The layer at height `i`. */
  method Descend(top: CoinsView, i: nat) returns (o: CoinsView)
    requires top.Shape() && i <= top.depth
    ensures o in top.chain && o.depth == i
  {
    o := top;
    while o.depth != i
      invariant o in top.chain && o.Shape() && o.chain <= top.chain && i <= o.depth
      decreases o.depth
    {
      o := o.base;
    }
  }

  /** Reading at `o` fills caches and changes nothing visible. */
  method ReadAt(top: CoinsView, o: CoinsView, t: Txid, ghost s: Plain, ghost d: seq<nat>)
    returns (seen: Option<Coins>)
    requires Mirrors(top, s, d) && o in top.chain
    modifies top.chain
    ensures Mirrors(top, s, d)
    ensures seen == Look(s[o.depth], t)
  {
    hide Layer, DbOk;
    ChainTrans(top, o);
    BelowValid(top, o);
    LinksAbove(top, o);
    var found, c := o.GetCoins(t);
    forall p | p in top.chain && p !in o.chain ensures Linked(p) {
      NoSkip(top, o, p);
      assert old(Linked(p));
    }
    AboveKept(top, o);
    seen := if found then Show(c) else None;
  }

  method UncacheAt(top: CoinsView, o: CoinsView, t: Txid, ghost s: Plain, ghost d: seq<nat>)
    requires Mirrors(top, s, d) && o in top.chain && o.base != null
    modifies top.chain
    ensures Mirrors(top, s, d)
  {
    hide Layer, DbOk;
    ChainTrans(top, o);
    BelowValid(top, o);
    LinksAbove(top, o);
    o.Uncache(t);
    forall p | p in top.chain && p !in o.chain ensures Linked(p) {
      NoSkip(top, o, p);
      assert old(Linked(p));
    }
    AboveKept(top, o);
  }

  /** Flushing anywhere in the stack changes no view but that of the flushed cache's base. */
  method FlushAt(top: CoinsView, o: CoinsView, ghost s: Plain, ghost d: seq<nat>)
    requires Mirrors(top, s, d) && o in top.chain && o.depth > 0
    modifies top.chain
    ensures Mirrors(top, Step(s, Op.FlushAt(o.depth)), Off(d, Op.FlushAt(o.depth), 0))
  {
    hide Layer, DbOk, CoinsView.Drift;
    ChainTrans(top, o);
    ChainTrans(top, o.base);
    forall p | p in top.chain ensures (p == o <==> p.depth == o.depth) && (p == o.base <==> p.depth == o.depth - 1) {
      if p.depth == o.depth {
        OnePerHeight(top, o, p);
      } else if p.depth == o.depth - 1 {
        OnePerHeight(top, o.base, p);
      }
    }
    FlushLayer(top, o);
  }

  method FlushLayer(top: CoinsView, o: CoinsView)
    requires top.Valid() && Still(top) && o in top.chain && o.base != null && o.base in top.chain
    modifies top.chain
    ensures top.Valid() && Still(top)
    ensures forall p | p in top.chain && p != o.base :: p.view == old(p.view)
    ensures forall p | p in top.chain && p != o :: p.Drift() == old(p.Drift())
    ensures o.base.view == old(o.view) && o.Drift() == 0
  {
    hide Layer, DbOk;
    ChainTrans(top, o);
    BelowValid(top, o);
    LinksAbove(top, o);
    var ok := o.Flush(false);
    forall p | p in top.chain && p !in o.chain ensures Linked(p) {
      NoSkip(top, o, p);
      assert old(Linked(p));
    }
    AboveKept(top, o);
  }

  /** Only what the top shows has changed, and its accounting by `more`. */
  twostate predicate OnlyTop(top: CoinsView, more: nat)
    reads top.chain
  {
    && top.Valid() && Still(top) && top.Drift() == old(top.Drift()) + more
    && forall p | p in top.chain && p != top :: p.view == old(p.view) && p.Drift() == old(p.Drift())
  }

  method Modified(top: CoinsView, t: Txid, c: Coins)
    requires top.Valid() && Still(top) && top.base != null
    modifies top.chain
    ensures OnlyTop(top, 0) && top.view == Shown(old(top.view), t, Cleaned(c))
  {
    hide Layer, DbOk, Shown, IsPruned, Sees, CleanAll, FlagsOk, Cleaned;
    var m, was := top.ModifyCoins(t);
    ShownTwice(top.view, t, c, Cleaned(c));
    top.Edit(m, c);
    top.Release(m);
  }

  lemma ShowingIfValid(top: CoinsView)
    requires top.Valid() && top.base != null
    ensures top.Showing()
  {
  }

  lemma TopAlone(top: CoinsView)
    requires top.Shape()
    ensures forall o | o in top.chain && o != top :: o.depth < top.depth
    ensures top.depth > 0 ==> top.base != null
  {
    forall o | o in top.chain && o != top ensures o.depth < top.depth {
      StrictlyBelow(top, o);
    }
  }

  /** The memory usage of the entry that a creation would meet at the top. */
  function Usage(top: CoinsView, op: Op): nat
    reads top
  {
    if op.Create? && op.t in top.cacheCoins then top.mem(top.cacheCoins[op.t].coins) else 0
  }

  method Created(top: CoinsView, t: Txid, c: Coins, coinbase: bool)
    requires top.Valid() && Still(top) && top.base != null
    requires coinbase || t !in top.base.view
    modifies top.chain
    ensures OnlyTop(top, old(Usage(top, Create(t, c, coinbase))))
    ensures top.view == Shown(old(top.view), t, Cleaned(c))
  {
    hide Layer, DbOk, IsPruned, Sees, CleanAll, FlagsOk, Cleaned, Shown;
    ShownTwice(top.view, t, c, Cleaned(c));
    var m := top.ModifyNewCoins(t, coinbase);
    top.Edit(m, c);
    top.Release(m);
  }

  /** Write at the top. */
  method Write(top: CoinsView, op: Op, ghost s: Plain, ghost d: seq<nat>)
    requires Mirrors(top, s, d) && Allowed(s, op) && (op.Modify? || op.Create?)
    modifies top.chain
    ensures Mirrors(top, Step(s, op), Off(d, op, old(Usage(top, op))))
  {
    hide Layer, DbOk, CoinsView.Drift, Shown, IsPruned, Cleaned, Usage;
    TopAlone(top);
    if op.Modify? {
      Modified(top, op.t, op.c);
    } else {
      Created(top, op.t, op.c, op.coinbase);
    }
  }

  /** Put an empty cache on top. */
  method Pushed(top: CoinsView, ghost s: Plain, ghost d: seq<nat>) returns (top': CoinsView)
    requires Mirrors(top, s, d)
    ensures Mirrors(top', Step(s, Push), Off(d, Push, 0)) && fresh(top'.chain - top.chain)
  {
    hide Layer, DbOk;
    top' := new CoinsView(top);
  }

  /** Flush the top and remove it; the last cache is replaced. */
  method Popped(top: CoinsView, ghost s: Plain, ghost d: seq<nat>) returns (top': CoinsView)
    requires Mirrors(top, s, d)
    modifies top.chain
    ensures Mirrors(top', Step(s, Pop), Off(d, Pop, 0)) && fresh(top'.chain - top.chain)
  {
    hide Layer, DbOk, CoinsView.Drift;
    TopAlone(top);
    FlushAt(top, top, s, d);
    top' := top.base;
    assert top'.Shape();
    BelowValid(top, top');
    if top'.base == null {
      top' := new CoinsView(top');
    }
  }

  /**
    One operation on the stack does to every layer what it does to the plain maps,
    and puts the accounting off by what it met and nothing else.
   */
  method Perform(top: CoinsView, op: Op, ghost s: Plain, ghost d: seq<nat>)
    returns (top': CoinsView, answers: seq<Answer>, met: nat)
    requires Mirrors(top, s, d) && Allowed(s, op)
    modifies top.chain
    ensures met == old(Usage(top, op))
    ensures Mirrors(top', Step(s, op), Off(d, op, met))
    ensures fresh(top'.chain - top.chain)
    ensures answers == Reply(s, op)
  {
    hide Layer, DbOk, Shown, Look, IsPruned, Cleaned, CoinsView.Drift;
    met := Usage(top, op);
    top', answers := top, [];
    match op
    case Push =>
      top' := Pushed(top, s, d);
    case Pop =>
      top' := Popped(top, s, d);
    case FlushAt(i) =>
      if 0 < i <= top.depth {
        var o := Descend(top, i);
        FlushAt(top, o, s, d);
      }
    case UncacheAt(i, t) =>
      if 0 < i <= top.depth {
        var o := Descend(top, i);
        ChainTrans(top, o);
        UncacheAt(top, o, t, s, d);
      }
    case ReadAt(i, t) =>
      if i <= top.depth {
        var o := Descend(top, i);
        var seen := ReadAt(top, o, t, s, d);
        answers := [Got(seen)];
      }
    case Have(t) =>
      TopAlone(top);
      ShowingIfValid(top);
      var have := top.HaveCoins(t);
      answers := [Had(have)];
    case Modify(_, _) =>
      Write(top, op, s, d);
    case Create(_, _, _) =>
      Write(top, op, s, d);
  }

  method Start(mem: Coins -> nat) returns (top: CoinsView)
    ensures fresh(top.chain) && Mirrors(top, [map[], map[]], [0, 0]) && top.mem == mem
  {
    hide Layer, DbOk;
    var db := new CoinsView.Database(mem);
    top := new CoinsView(db);
  }

  /**
    The whole run: after any operations every layer of the stack stands for its plain
    map, and all answers on the way were those of the plain maps.  The usage met by
    every creation, looked up before it, says how far every layer's accounting is off.
   */
  method Run(mem: Coins -> nat, ops: seq<Op>) returns (top: CoinsView, answers: seq<Answer>, met: seq<nat>)
    requires AllAllowed(ops)
    ensures fresh(top.chain) && |met| == |ops|
    ensures Mirrors(top, Maps(ops), Offs(ops, met))
    ensures answers == Answers(ops)
  {
    hide Mirrors, Step, Reply, Off, Allowed;
    top := Start(mem);
    answers, met := [], [];
    for k := 0 to |ops|
      invariant fresh(top.chain) && |met| == k
      invariant Mirrors(top, Maps(ops[..k]), Offs(ops[..k], met)) && answers == Answers(ops[..k])
    {
      var more, usage;
      top, more, usage := Perform(top, ops[k], Maps(ops[..k]), Offs(ops[..k], met));
      answers, met := answers + more, met + [usage];
      assert ops[..k + 1][..k] == ops[..k] && met[..k + 1][..k] == met[..k];
    }
    assert ops[..|ops|] == ops && met[..|ops|] == met;
  }

  /** An empty record uses no memory of its own. */
  ghost predicate EmptyIsFree(mem: Coins -> nat) {
    forall c: Coins | c.vout == [] :: mem(c) == 0
  }

  /**
    What a creation meets if the map just below the top lacks the transaction: the
    record that the top shows, cached, or nothing that uses memory.
   */
  lemma MetIsShown(top: CoinsView, op: Op, s: Plain, d: seq<nat>)
    requires Mirrors(top, s, d) && EmptyIsFree(top.mem) && op.Create? && op.t !in s[|s| - 2]
    ensures Usage(top, op) == if op.t in Top(s) then top.mem(Top(s)[op.t]) else 0
  {
    hide Layer, DbOk, IsPruned;
    TopAlone(top);
    assert top.base.Shape() && top.base in top.chain && top.base.view == s[|s| - 2];
    LayerFacts(top.view, top.cacheCoins, top.base.view, op.t);
    if op.t in top.cacheCoins {
      CleanPruned(top.cacheCoins[op.t].coins);
    }
  }

  /**
    Two coinbases with the same id, as there are in the chain's history: the second
    meets the cached outputs of the first, and the accounting stays off by their size.
   */
  method DuplicateCoinbaseDrifts(mem: Coins -> nat, t: Txid, c: Coins) returns (top: CoinsView)
    requires !IsPruned(c) && EmptyIsFree(mem)
    ensures Mirrors(top, [map[], map[t := Cleaned(c)]], [0, mem(Cleaned(c))])
  {
    hide Mirrors, Usage, EmptyIsFree, Cleaned;
    CleanedPruned(c);
    var s := map[t := Cleaned(c)];
    var op := Create(t, c, true);
    top := Start(mem);
    MetIsShown(top, op, [map[], map[]], [0, 0]);
    assert Step([map[], map[]], op) == [map[], s] && Off([0, 0], op, 0) == [0, 0];
    Write(top, op, [map[], map[]], [0, 0]);
    MetIsShown(top, op, [map[], s], [0, 0]);
    var u := mem(s[t]);
    assert s[t := Cleaned(c)] == s;
    assert Step([map[], s], op) == [map[], s] && Off([0, 0], op, u) == [0, 0][1 := u] == [0, u];
    Write(top, op, [map[], s], [0, 0]);
  }

  /** Put a record into the database. */
  method Stored(mem: Coins -> nat, t: Txid, c: Coins) returns (top: CoinsView)
    requires !IsPruned(c)
    ensures fresh(top.chain) && Mirrors(top, [map[t := Cleaned(c)], map[t := Cleaned(c)]], [0, 0])
  {
    hide Mirrors, Cleaned;
    CleanedPruned(c);
    var s := map[t := Cleaned(c)];
    top := Start(mem);
    assert Step([map[], map[]], Modify(t, c)) == [map[], s];
    Write(top, Modify(t, c), [map[], map[]], [0, 0]);
    top := Popped(top, [map[], s], [0, 0]);
  }

  /**
    Creating a transaction that the base still has outputs of, and then wiping it,
    leaves the cache without an entry, so that it shows the base's record again.
   */
  method WipedRecordReturns(mem: Coins -> nat, t: Txid, c: Coins) returns (top: CoinsView)
    requires !IsPruned(c)
    ensures t !in top.view && !top.Sound() && t !in top.cacheCoins
    ensures top.base != null && Look(top.base.view, t) == Some(Cleaned(c))
  {
    hide Layer, DbOk, Sees, CleanAll, Cleaned, CoinsView.Drift;
    top := Stored(mem, t, c);
    TopAlone(top);
    assert top.base.Shape() && top.base in top.chain;
    var m := top.ModifyNewCoins(t, false);
    assert IsPruned(NO_COINS);
    CleanedPruned(NO_COINS);
    top.Release(m);
  }

  /**
    Flushing a cache that never learned a best block makes its base forget one that
    the base has not yet passed on.
   */
  method FlushForgetsBestBlock(mem: Coins -> nat, h: nat) returns (before: nat, after: nat)
    requires h != 0
    ensures before == h && after == 0
  {
    hide Layer, DbOk, Show, Look;
    var db := new CoinsView.Database(mem);
    var cache := new CoinsView(db);
    cache.SetBestBlock(h);
    var child := new CoinsView(cache);
    before := cache.GetBestBlock();
    assert db.Best() == 0 && db.hashBlock == 0 && child.hashBlock == 0;
    var ok := child.Flush(false);
    assert cache.Best() == db.Best() == 0;
    after := cache.GetBestBlock();
  }
}
