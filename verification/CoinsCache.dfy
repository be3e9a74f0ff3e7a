/**
  A stack of write-back caches over a database of unspent outputs.  Every view of
  the stack stands for a plain map from transaction ids to unpruned coins; caching,
  flag keeping and flushing are invisible in that map.
 */
module CoinsCache {
  import opened Basics
  import opened CoinTypes
  import opened MapSums

  type Txid = nat

  /** A cached record. `isDirty`: may differ from the base. `isFresh`: the base has none, or a pruned one. */
  datatype CacheEntry = CacheEntry(coins: Coins, isDirty: bool, isFresh: bool)

  type Cache = map<Txid, CacheEntry>

  /** A pruned record counts as absent. */
  function Show(c: Coins): Option<Coins> {
    if IsPruned(c) then None else Some(c)
  }

  function Look(m: map<Txid, Coins>, t: Txid): Option<Coins> {
    if t in m then Some(m[t]) else None
  }

  /** The map `m` with `t` showing `c`. */
  function Shown(m: map<Txid, Coins>, t: Txid, c: Coins): map<Txid, Coins> {
    if IsPruned(c) then m - {t} else m[t := c]
  }

  // ----- one layer, as values

  /** `view` is what one sees through `cache` on top of `below`. */
  ghost predicate Sees(view: map<Txid, Coins>, cache: Cache, below: map<Txid, Coins>) {
    forall t :: Look(view, t) == if t in cache then Show(cache[t].coins) else Look(below, t)
  }

  /** A fresh entry is absent below, and a clean entry is the same below. */
  ghost predicate FlagsOk(cache: Cache, below: map<Txid, Coins>) {
    forall t | t in cache ::
      (cache[t].isFresh ==> t !in below) && (!cache[t].isDirty ==> Show(cache[t].coins) == Look(below, t))
  }

  ghost predicate CleanAll(cache: Cache) {
    forall t | t in cache :: IsClean(cache[t].coins)
  }

  ghost predicate Layer(view: map<Txid, Coins>, cache: Cache, below: map<Txid, Coins>) {
    Sees(view, cache, below) && FlagsOk(cache, below) && CleanAll(cache)
  }

  lemma LayerEmpty(below: map<Txid, Coins>)
    ensures Layer(below, map[], below)
  {
  }

  /** What is seen through a layer is determined. */
  lemma SeesUnique(v: map<Txid, Coins>, w: map<Txid, Coins>, cache: Cache, below: map<Txid, Coins>)
    requires Sees(v, cache, below) && Sees(w, cache, below)
    ensures v == w
  {
    forall t ensures Look(v, t) == Look(w, t) {
    }
    assert forall t :: t in v <==> Look(v, t).Some?;
    assert forall t :: t in w <==> Look(w, t).Some?;
    assert v.Keys == w.Keys;
    forall t | t in v ensures v[t] == w[t] {
      assert Look(v, t) == Look(w, t);
    }
  }

  /** The flags of one entry are right. */
  ghost predicate EntryOk(e: CacheEntry, below: map<Txid, Coins>, t: Txid) {
    (e.isFresh ==> t !in below) && (!e.isDirty ==> Show(e.coins) == Look(below, t))
  }

  /** Storing an entry shows its record; the layer is kept exactly if the flags of the entry are right. */
  lemma LayerPut(view: map<Txid, Coins>, cache: Cache, below: map<Txid, Coins>, t: Txid, e: CacheEntry)
    requires Layer(view, cache, below) && IsClean(e.coins)
    ensures Layer(Shown(view, t, e.coins), cache[t := e], below) <==> EntryOk(e, below, t)
    ensures Sees(Shown(view, t, e.coins), cache[t := e], below) && CleanAll(cache[t := e])
  {
    SeesPut(view, cache, below, t, e);
    assert t in cache[t := e] && cache[t := e][t] == e;
    if EntryOk(e, below, t) {
      assert FlagsOk(cache[t := e], below);
    }
  }

  lemma SeesPut(view: map<Txid, Coins>, cache: Cache, below: map<Txid, Coins>, t: Txid, e: CacheEntry)
    requires Sees(view, cache, below) && CleanAll(cache) && IsClean(e.coins)
    ensures Sees(Shown(view, t, e.coins), cache[t := e], below) && CleanAll(cache[t := e])
  {
    var view' := Shown(view, t, e.coins);
    forall u ensures Look(view', u) == if u in cache[t := e] then Show(cache[t := e][u].coins) else Look(below, u) {
    }
  }

  /** Dropping an entry that shows what is below. */
  lemma LayerDrop(view: map<Txid, Coins>, cache: Cache, below: map<Txid, Coins>, t: Txid)
    requires Layer(view, cache, below) && t in cache
    requires !cache[t].isDirty || cache[t].isFresh
    requires cache[t].isFresh ==> IsPruned(cache[t].coins)
    ensures Layer(view, cache - {t}, below)
  {
    forall u ensures Look(view, u) == if u in cache - {t} then Show((cache - {t})[u].coins) else Look(below, u) {
    }
  }

  /** Erasing an entry makes the record absent exactly if there is none below. */
  lemma LayerErase(view: map<Txid, Coins>, cache: Cache, below: map<Txid, Coins>, t: Txid)
    requires Sees(view, cache, below) && t in cache
    ensures Sees(view - {t}, cache - {t}, below) <==> t !in below
    ensures FlagsOk(cache, below) ==> FlagsOk(cache - {t}, below)
  {
    var view', cache' := view - {t}, cache - {t};
    if t !in below {
      forall u ensures Look(view', u) == if u in cache' then Show(cache'[u].coins) else Look(below, u) {
      }
    } else {
      assert Look(view', t) != Look(below, t);
    }
  }

  lemma LayerParts(view: map<Txid, Coins>, cache: Cache, below: map<Txid, Coins>, t: Txid)
    ensures Layer(view, cache, below) <==> Sees(view, cache, below) && FlagsOk(cache, below) && CleanAll(cache)
    ensures FlagsOk(cache, below) && t in cache && cache[t].isFresh ==> t !in below
  {
  }

  lemma SeesAt(view: map<Txid, Coins>, cache: Cache, below: map<Txid, Coins>, t: Txid)
    requires Sees(view, cache, below)
    ensures Look(view, t) == if t in cache then Show(cache[t].coins) else Look(below, t)
    ensures t in view <==> Look(view, t).Some?
  {
  }

  /** Caching what is seen already. */
  lemma SeesFilled(view: map<Txid, Coins>, cache: Cache, below: map<Txid, Coins>, t: Txid, e: CacheEntry)
    requires Sees(view, cache, below) && Show(e.coins) == Look(view, t)
    ensures Sees(view, cache[t := e], below)
  {
    forall u ensures Look(view, u) == if u in cache[t := e] then Show(cache[t := e][u].coins) else Look(below, u) {
    }
  }

  /** Changing the record of a dirty entry shows the new one and leaves the flags right. */
  lemma SeesEdited(view: map<Txid, Coins>, cache: Cache, below: map<Txid, Coins>, t: Txid, e: CacheEntry)
    requires Sees(view, cache, below) && t in cache && cache[t].isDirty && e == cache[t].(coins := e.coins)
    ensures Sees(Shown(view, t, e.coins), cache[t := e], below)
    ensures FlagsOk(cache, below) ==> FlagsOk(cache[t := e], below)
    ensures CleanAll(cache - {t}) && IsClean(e.coins) ==> CleanAll(cache[t := e])
  {
    var view', cache' := Shown(view, t, e.coins), cache[t := e];
    forall u ensures Look(view', u) == if u in cache' then Show(cache'[u].coins) else Look(below, u) {
    }
    forall u | u in cache' && u != t ensures cache'[u] == (cache - {t})[u] {
    }
  }

  /** `after` has the entries of `before`, and all others are without spent outputs at the end. */
  ghost predicate Grown(before: Cache, after: Cache) {
    && (forall t | t in before :: t in after && after[t] == before[t])
    && (forall t | t in after && t !in before :: IsClean(after[t].coins))
  }

  lemma CleanGrown(before: Cache, after: Cache, t: Txid, u: Txid)
    requires Grown(before, after) && t in before && CleanAll(before - {t})
    ensures CleanAll(after - {t}) && t in after && after[t] == before[t]
    ensures u in after && u != t ==> IsClean(after[u].coins)
  {
    hide IsClean;
    forall k | k in after && k != t ensures IsClean(after[k].coins) {
      if k in before {
        assert (before - {t})[k] == before[k];
      }
    }
  }

  lemma CleanWithout(cache: Cache, t: Txid)
    requires CleanAll(cache)
    ensures CleanAll(cache - {t})
  {
  }

  /** What a layer says about one transaction. */
  lemma LayerFacts(view: map<Txid, Coins>, cache: Cache, below: map<Txid, Coins>, t: Txid)
    requires Layer(view, cache, below)
    ensures t in cache ==> Show(cache[t].coins) == Look(view, t) && IsClean(cache[t].coins)
    ensures t in cache && cache[t].isFresh ==> t !in below
    ensures t in cache && !cache[t].isDirty ==> Look(view, t) == Look(below, t)
    ensures t !in cache ==> Look(view, t) == Look(below, t)
  {
  }

  /** Showing what is shown already changes nothing. */
  lemma ShownSame(m: map<Txid, Coins>, t: Txid, c: Coins)
    requires Look(m, t) == Show(c)
    ensures Shown(m, t, c) == m
  {
  }

  lemma ShownTwice(m: map<Txid, Coins>, t: Txid, c: Coins, d: Coins)
    ensures Shown(Shown(m, t, c), t, d) == Shown(m, t, d)
    ensures Shown(m - {t}, t, c) == Shown(m, t, c)
  {
  }

  // ----- the effect of a batch of child entries on a map

  /** The plain map after writing the dirty entries of a child. */
  ghost predicate Written(after: map<Txid, Coins>, before: map<Txid, Coins>, batch: Cache) {
    forall t :: Look(after, t) == if t in batch && batch[t].isDirty then Show(batch[t].coins) else Look(before, t)
  }

  /** Writing the dirty entries of a layer to the map below yields what is seen through the layer. */
  lemma WrittenIsSeen(after: map<Txid, Coins>, view: map<Txid, Coins>, cache: Cache, below: map<Txid, Coins>)
    requires Layer(view, cache, below) && Written(after, below, cache)
    ensures after == view
  {
    assert Sees(after, cache, below) by {
      forall t ensures Look(after, t) == if t in cache then Show(cache[t].coins) else Look(below, t) {
      }
    }
    SeesUnique(after, view, cache, below);
  }

  /** The entries of a batch that are not in `todo` have been written. */
  ghost predicate WrittenBut(after: map<Txid, Coins>, before: map<Txid, Coins>, batch: Cache, todo: set<Txid>) {
    forall t ::
      Look(after, t) == if t in batch && t !in todo && batch[t].isDirty then Show(batch[t].coins) else Look(before, t)
  }

  lemma WriteOne(after: map<Txid, Coins>, before: map<Txid, Coins>, batch: Cache, todo: set<Txid>, t: Txid)
    requires WrittenBut(after, before, batch, todo) && t in todo && t in batch
    ensures batch[t].isDirty ==> WrittenBut(Shown(after, t, batch[t].coins), before, batch, todo - {t})
    ensures !batch[t].isDirty ==> WrittenBut(after, before, batch, todo - {t})
    ensures Look(after, t) == Look(before, t)
  {
  }

  /** The flags of a child's entries are right with respect to the view that they are written to. */
  ghost predicate FreshOk(batch: Cache, view: map<Txid, Coins>) {
    forall t | t in batch && batch[t].isFresh :: t !in view
  }

  // ----- the objects

  ghost function EntryMem(mem: Coins -> nat): CacheEntry -> nat {
    (e: CacheEntry) => mem(e.coins)
  }

  /** `view` is what the database `db` shows. */
  ghost predicate DbOk(db: map<Txid, Coins>, view: map<Txid, Coins>) {
    && (forall t :: Look(view, t) == if t in db then Show(db[t]) else None)
    && (forall t | t in db :: IsClean(db[t]))
  }

  /** A reference to a cache entry that is being modified, with the memory usage it had. */
  datatype Modifier = Modifier(txid: Txid, savedUsage: nat)

  /** A view: the database if it has no base, and otherwise a cache on top of its base. */
  class CoinsView {
    const base: CoinsView?
    const depth: nat
    const mem: Coins -> nat
    var db: map<Txid, Coins>
    var cacheCoins: Cache
    var hasModifier: bool
    var usage: int
    var hashBlock: nat

    /** The plain map that this view stands for. */
    ghost var view: map<Txid, Coins>

    /** This view and all views below it. */
    ghost const chain: set<CoinsView>

    /** How the stack is put together; this never changes. */
    ghost predicate Shape()
      decreases depth
    {
      && this in chain
      && (forall o | o in chain :: o.depth <= depth)
      && (base == null ==> depth == 0 && chain == {this})
      && (base != null ==>
            base.depth + 1 == depth && base.Shape() && chain == {this} + base.chain && this !in base.chain)
    }

    ghost predicate Valid()
      reads chain
      decreases depth
    {
      && Shape()
      && (base == null ==> DbOk(db, view))
      && (base != null ==> base.Valid() && Layer(view, cacheCoins, base.view))
    }

    /** The cache shows the map that it stands for, whatever its flags. */
    ghost predicate Showing()
      reads chain
    {
      Shape() && base != null && base.Valid() && Sees(view, cacheCoins, base.view)
    }

    ghost predicate Sound()
      reads chain
    {
      Showing() && CleanAll(cacheCoins)
    }

    /** The record of `t` is lent out; it is the only one that may have spent outputs at its end. */
    ghost predicate Lending(t: Txid)
      reads chain
    {
      Showing() && hasModifier && t in cacheCoins && cacheCoins[t].isDirty && CleanAll(cacheCoins - {t})
    }

    /** The best block that this view reports; zero stands for none. */
    ghost function Best(): nat
      requires Shape()
      reads chain
      decreases depth
    {
      if base != null && hashBlock == 0 then base.Best() else hashBlock
    }

    /** How far the accounted memory is off the sum over the entries. */
    ghost function Drift(): int
      reads this
    {
      usage - Sum(cacheCoins, EntryMem(mem))
    }

    /** Nothing visible changed in this view or below. */
    twostate predicate Quiet()
      reads chain
    {
      forall o | o in chain ::
        && o.view == old(o.view) && o.Drift() == old(o.Drift())
        && o.hasModifier == old(o.hasModifier) && o.hashBlock == old(o.hashBlock)
    }

    constructor Database(mem: Coins -> nat)
      ensures Valid() && base == null && depth == 0 && this.mem == mem
      ensures view == map[] && Best() == 0 && !hasModifier && Drift() == 0
    {
      base, depth, this.mem, chain := null, 0, mem, {this};
      db, cacheCoins, hasModifier, usage, hashBlock := map[], map[], false, 0, 0;
      view := map[];
      new;
      EmptySum(cacheCoins, EntryMem(mem));
    }

    constructor (baseIn: CoinsView)
      requires baseIn.Valid()
      ensures Valid() && base == baseIn && mem == baseIn.mem && depth == baseIn.depth + 1
      ensures view == baseIn.view && hashBlock == 0 && Best() == baseIn.Best()
      ensures cacheCoins == map[] && !hasModifier && Drift() == 0
    {
      base, depth, mem, chain := baseIn, baseIn.depth + 1, baseIn.mem, {this} + baseIn.chain;
      db, cacheCoins, hasModifier, usage, hashBlock := map[], map[], false, 0, 0;
      view := baseIn.view;
      LayerEmpty(baseIn.view);
      new;
      EmptySum(cacheCoins, EntryMem(mem));
    }

    /** Reading a record fills the caches on the way and changes nothing visible. */
    method GetCoins(t: Txid) returns (found: bool, c: Coins)
      requires Valid() || Showing()
      modifies chain
      ensures Quiet() && (old(Valid()) ==> Valid()) && (old(Showing()) ==> Showing())
      ensures found ==> Show(c) == Look(view, t)
      ensures old(Valid()) && found ==> IsClean(c)
      ensures !found ==> t !in view
      ensures base != null ==> (found <==> t in cacheCoins) && Grown(old(cacheCoins), cacheCoins)
      ensures base != null && found ==> c == cacheCoins[t].coins
      decreases depth, 1
    {
      hide Layer, Sees, Grown;
      if base == null {
        if t in db {
          return true, db[t];
        }
        return false, NO_COINS;
      }
      LayerParts(view, cacheCoins, base.view, t);
      var it := FetchCoins(t);
      if it {
        SeesAt(view, cacheCoins, base.view, t);
        if old(Valid()) {
          LayerFacts(view, cacheCoins, base.view, t);
        }
        return true, cacheCoins[t].coins;
      }
      return false, NO_COINS;
    }

    /** Make the entry of `t` present if there is one anywhere below. */
    method FetchCoins(t: Txid) returns (found: bool)
      requires Showing()
      modifies chain
      ensures Showing() && Quiet() && (old(Valid()) ==> Valid())
      ensures found <==> t in cacheCoins
      ensures !found ==> t !in view
      ensures old(t in cacheCoins) ==> cacheCoins == old(cacheCoins)
      ensures Grown(old(cacheCoins), cacheCoins)
      decreases depth, 0
    {
      hide Layer, Look, Show, Sum, IsClean, DbOk, Sees;
      if t in cacheCoins {
        return true;
      }
      SeesAt(view, cacheCoins, base.view, t);
      var got, tmp := base.GetCoins(t);
      if !got {
        AbsentLook(base.view, t);
        AbsentLook(view, t);
        return false;
      }
      Fill(t, tmp);
      found := true;
    }

    /** Cache what the base showed. */
    method Fill(t: Txid, c: Coins)
      requires Showing() && t !in cacheCoins
      requires Show(c) == Look(base.view, t) == Look(view, t) && IsClean(c)
      modifies this`cacheCoins, this`usage
      ensures Showing() && Drift() == old(Drift()) && (old(Valid()) ==> Valid())
      ensures t in cacheCoins && Grown(old(cacheCoins), cacheCoins)
    {
      hide Layer, Look, Show, Sum, Sees;
      // A pruned record in the base means that this entry is fresh.
      var entry := CacheEntry(c, false, IsPruned(c));
      PrunedLook(base.view, t, c);
      SeesFilled(view, cacheCoins, base.view, t, entry);
      if Layer(view, cacheCoins, base.view) {
        LayerPut(view, cacheCoins, base.view, t, entry);
        ShownSame(view, t, c);
      }
      SumMoved(cacheCoins, EntryMem(mem), t, entry);
      cacheCoins := cacheCoins[t := entry];
      usage := usage + mem(c);
    }

    /**
      Whether there is an unpruned record; reads only whether the outputs are empty.
      So a record that is lent out and whose outputs are all spent counts as there.
     */
    method HaveCoins(t: Txid) returns (have: bool)
      requires Showing()
      modifies chain
      ensures Showing() && Quiet() && (old(Valid()) ==> Valid()) && Grown(old(cacheCoins), cacheCoins)
      ensures have <==> t in view || (t in cacheCoins && IsPruned(cacheCoins[t].coins) && !IsClean(cacheCoins[t].coins))
      ensures old(Valid()) ==> (have <==> t in view)
    {
      hide Layer, Sees, Grown;
      var it := FetchCoins(t);
      SeesAt(view, cacheCoins, base.view, t);
      if it {
        if old(Valid()) {
          LayerFacts(view, cacheCoins, base.view, t);
        }
        if IsClean(cacheCoins[t].coins) {
          CleanPruned(cacheCoins[t].coins);
        }
      }
      have := it && cacheCoins[t].coins.vout != [];
    }

    /** Reading while a record is lent out shows that record as it is so far. */
    method ReadLent(m: Modifier, t: Txid) returns (found: bool, c: Coins)
      requires Lending(m.txid)
      modifies chain
      ensures Lending(m.txid) && Quiet() && cacheCoins[m.txid] == old(cacheCoins[m.txid])
      ensures found ==> Show(c) == Look(view, t) && (t != m.txid ==> IsClean(c))
      ensures !found ==> t !in view
      ensures t == m.txid ==> found && c == cacheCoins[t].coins
    {
      hide Layer, Sees, IsClean, Look, Show, CleanAll, Grown;
      found, c := GetCoins(t);
      CleanGrown(old(cacheCoins), cacheCoins, m.txid, t);
    }

    /** The drift of the accounting while an entry is lent out. */
    ghost function LentDrift(m: Modifier): int
      reads this
    {
      usage - m.savedUsage - Sum(cacheCoins - {m.txid}, EntryMem(mem))
    }

    /** Lend out the entry of `t`, making one if there is none. */
    method ModifyCoins(t: Txid) returns (m: Modifier, c: Coins)
      requires Valid() && base != null && !hasModifier
      modifies chain
      ensures Valid() && base.Quiet() && Lending(t) && FlagsOk(cacheCoins, base.view)
      ensures view == old(view) && hashBlock == old(hashBlock)
      ensures m.txid == t && t in cacheCoins && cacheCoins[t].isDirty && c == cacheCoins[t].coins
      ensures Show(c) == Look(view, t) && IsClean(c)
      ensures LentDrift(m) == old(Drift())
    {
      hide Layer, Look, Show, Sum, IsPruned, IsClean, Sees, FlagsOk, CleanAll;
      LayerFacts(view, cacheCoins, base.view, t);
      var entry;
      var saved := 0;
      if t !in cacheCoins {
        entry := FetchForModify(t);
        assert cacheCoins - {t} == cacheCoins;
      } else {
        entry := cacheCoins[t].(isDirty := true);
        saved := mem(entry.coins);
        SumWithout(cacheCoins, EntryMem(mem), t);
      }
      LayerPut(view, cacheCoins, base.view, t, entry);
      ShownSame(view, t, entry.coins);
      assert cacheCoins[t := entry] - {t} == cacheCoins - {t};
      LayerParts(view, cacheCoins[t := entry], base.view, t);
      CleanWithout(cacheCoins[t := entry], t);
      cacheCoins := cacheCoins[t := entry];
      hasModifier := true;
      m, c := Modifier(t, saved), entry.coins;
    }

    /** The entry that `ModifyCoins` makes for a record that is not cached. */
    method FetchForModify(t: Txid) returns (entry: CacheEntry)
      requires Valid() && base != null && t !in cacheCoins
      modifies base.chain
      ensures Valid() && base.Quiet()
      ensures entry.isDirty && (entry.isFresh ==> t !in base.view)
      ensures Show(entry.coins) == Look(view, t) && IsClean(entry.coins)
    {
      hide Layer;
      LayerFacts(view, cacheCoins, base.view, t);
      var got, tmp := base.GetCoins(t);
      if !got {
        entry := CacheEntry(NO_COINS, true, true);
      } else {
        entry := CacheEntry(tmp, true, IsPruned(tmp));
      }
    }

    /**
      Lend out a cleared entry for a transaction that is known to be new.  Unless it
      is a coinbase the entry is marked fresh, which is right exactly if the base has
      no unspent outputs of the transaction.  The old memory usage is taken to be
      zero, so an entry that was cached with a nonzero usage puts the accounting off
      by just that much.
     */
    method ModifyNewCoins(t: Txid, coinbase: bool) returns (m: Modifier)
      requires Valid() && base != null && !hasModifier
      modifies this`cacheCoins, this`hasModifier, this`view
      ensures Lending(t) && (FlagsOk(cacheCoins, base.view) <==> coinbase || t !in base.view)
      ensures view == old(view) - {t}
      ensures m.txid == t && t in cacheCoins && cacheCoins[t].isDirty && cacheCoins[t].coins == NO_COINS
      ensures !coinbase ==> cacheCoins[t].isFresh
      ensures LentDrift(m) == old(Drift()) + old(if t in cacheCoins then mem(cacheCoins[t].coins) else 0)
    {
      hide Layer, Look, Show, Sum, Sees, CleanAll, FlagsOk;
      LayerFacts(view, cacheCoins, base.view, t);
      var entry := if t in cacheCoins then cacheCoins[t].(coins := NO_COINS) else CacheEntry(NO_COINS, false, false);
      if !coinbase {
        entry := entry.(isFresh := true, isDirty := false);
      }
      entry := entry.(isDirty := true);
      LayerPut(view, cacheCoins, base.view, t, entry);
      if t in cacheCoins {
        SumWithout(cacheCoins, EntryMem(mem), t);
      } else {
        assert cacheCoins - {t} == cacheCoins;
      }
      assert cacheCoins[t := entry] - {t} == cacheCoins - {t};
      LayerParts(Shown(view, t, NO_COINS), cacheCoins[t := entry], base.view, t);
      CleanWithout(cacheCoins[t := entry], t);
      view := Shown(view, t, NO_COINS);
      cacheCoins := cacheCoins[t := entry];
      hasModifier := true;
      m := Modifier(t, 0);
    }

    /** The user of a modifier leaves `c` in the record for now, and that is what readers see. */
    method Edit(m: Modifier, c: Coins)
      requires Lending(m.txid)
      modifies this`cacheCoins, this`view
      ensures Lending(m.txid) && (old(FlagsOk(cacheCoins, base.view)) ==> FlagsOk(cacheCoins, base.view))
      ensures cacheCoins == old(cacheCoins[m.txid := cacheCoins[m.txid].(coins := c)])
      ensures view == Shown(old(view), m.txid, c)
      ensures LentDrift(m) == old(LentDrift(m))
    {
      hide Look, Show, Sum, IsClean, Sees, FlagsOk;
      var entry := cacheCoins[m.txid].(coins := c);
      SeesEdited(view, cacheCoins, base.view, m.txid, entry);
      assert cacheCoins[m.txid := entry] - {m.txid} == cacheCoins - {m.txid};
      view := Shown(view, m.txid, c);
      cacheCoins := cacheCoins[m.txid := entry];
    }

    /**
      The end of a modifier's life; spent outputs at the end of its record are removed.
      A fresh entry that was left without unspent outputs is erased, which shows the
      base's record again if there is one.
     */
    method Release(m: Modifier)
      requires Lending(m.txid)
      modifies this`cacheCoins, this`hasModifier, this`usage, this`view
      ensures !hasModifier && (old(FlagsOk(cacheCoins, base.view)) ==> Valid())
      ensures view == Shown(old(view), m.txid, Cleaned(old(cacheCoins[m.txid].coins)))
      ensures Sound() <==> !old(cacheCoins[m.txid].isFresh && IsPruned(cacheCoins[m.txid].coins) && m.txid in base.view)
      ensures old(cacheCoins[m.txid].isFresh && IsPruned(cacheCoins[m.txid].coins)) ==> m.txid !in cacheCoins
      ensures Drift() == old(LentDrift(m))
    {
      hide Layer, Look, Show, Sum, IsPruned, Cleaned, IsClean, Sees, FlagsOk;
      var t := m.txid;
      var cleaned := Cleaned(cacheCoins[t].coins);
      CleanedIsClean(cacheCoins[t].coins);
      CleanedPruned(cacheCoins[t].coins);
      hasModifier := false;
      var entry := cacheCoins[t].(coins := cleaned);
      SeesEdited(view, cacheCoins, base.view, t, entry);
      LayerParts(view, cacheCoins, base.view, t);
      usage := usage - m.savedUsage;
      if entry.isFresh && IsPruned(cleaned) {
        LayerErase(view, cacheCoins, base.view, t);
        LayerParts(view - {t}, cacheCoins - {t}, base.view, t);
        view := view - {t};
        cacheCoins := cacheCoins - {t};
      } else {
        SumMoved(cacheCoins - {t}, EntryMem(mem), t, entry);
        assert (cacheCoins - {t})[t := entry] == cacheCoins[t := entry];
        LayerParts(Shown(view, t, cleaned), cacheCoins[t := entry], base.view, t);
        view := Shown(view, t, cleaned);
        cacheCoins := cacheCoins[t := entry];
        usage := usage + mem(cleaned);
      }
    }

    /** Drop an entry that is neither dirty nor fresh. */
    method Uncache(t: Txid)
      requires Valid() && base != null
      modifies this`cacheCoins, this`usage
      ensures Valid() && Drift() == old(Drift())
      ensures t in cacheCoins <==> old(t in cacheCoins && (cacheCoins[t].isDirty || cacheCoins[t].isFresh))
      ensures forall u | u != t :: u in cacheCoins <==> u in old(cacheCoins)
    {
      hide Layer, Look, Show, Sum;
      if t in cacheCoins && !cacheCoins[t].isDirty && !cacheCoins[t].isFresh {
        LayerDrop(view, cacheCoins, base.view, t);
        SumWithout(cacheCoins, EntryMem(mem), t);
        usage := usage - mem(cacheCoins[t].coins);
        cacheCoins := cacheCoins - {t};
      }
    }

    /** Reading the best block caches it on the way. */
    method GetBestBlock() returns (h: nat)
      requires Valid()
      modifies chain`hashBlock
      ensures Valid()
      ensures h == Best() == old(Best())
      ensures base != null ==> base.Best() == old(base.Best())
      decreases depth
    {
      if base != null && hashBlock == 0 {
        var below := base.GetBestBlock();
        hashBlock := below;
      }
      h := hashBlock;
    }

    method SetBestBlock(h: nat)
      requires Valid() && base != null
      modifies this`hashBlock
      ensures Valid() && Best() == if h == 0 then base.Best() else h
    {
      hashBlock := h;
    }

    /** Take over one dirty entry of a child. */
    method WriteEntry(t: Txid, e: CacheEntry)
      requires Valid() && (e.isFresh ==> t !in view) && IsClean(e.coins)
      modifies this`db, this`cacheCoins, this`usage, this`view
      ensures Valid() && Drift() == old(Drift())
      ensures view == Shown(old(view), t, e.coins)
      ensures base != null ==> base.Best() == old(base.Best())
    {
      hide Layer, Sum, IsClean;
      if base == null {
        DbWritten(db, view, t, e.coins);
        if IsPruned(e.coins) {
          db := db - {t};
        } else {
          db := db[t := e.coins];
        }
        view := Shown(view, t, e.coins);
        return;
      }
      LayerFacts(view, cacheCoins, base.view, t);
      if t !in cacheCoins {
        // Nothing to do for an entry that is fresh and pruned in the child.
        if e.isFresh && IsPruned(e.coins) {
          ShownSame(view, t, e.coins);
        } else {
          var entry := CacheEntry(e.coins, true, e.isFresh);
          LayerPut(view, cacheCoins, base.view, t, entry);
          SumMoved(cacheCoins, EntryMem(mem), t, entry);
          cacheCoins := cacheCoins[t := entry];
          usage := usage + mem(e.coins);
          view := Shown(view, t, e.coins);
        }
      } else if cacheCoins[t].isFresh && IsPruned(e.coins) {
        LayerParts(view, cacheCoins, base.view, t);
        LayerErase(view, cacheCoins, base.view, t);
        LayerParts(view - {t}, cacheCoins - {t}, base.view, t);
        SumWithout(cacheCoins, EntryMem(mem), t);
        usage := usage - mem(cacheCoins[t].coins);
        cacheCoins := cacheCoins - {t};
        view := Shown(view, t, e.coins);
      } else {
        var entry := cacheCoins[t].(coins := e.coins, isDirty := true);
        LayerPut(view, cacheCoins, base.view, t, entry);
        SumMoved(cacheCoins, EntryMem(mem), t, entry);
        usage := usage - mem(cacheCoins[t].coins);
        cacheCoins := cacheCoins[t := entry];
        usage := usage + mem(e.coins);
        view := Shown(view, t, e.coins);
      }
    }

    /**
      Take over the dirty entries of a child, in any order.  `fails` tells whether the
      database raises an error; it then takes over nothing.
     */
    method BatchWrite(batch: Cache, h: nat, fails: bool) returns (ok: bool)
      requires Valid() && !hasModifier
      requires FreshOk(batch, view) && CleanAll(batch)
      modifies this`db, this`cacheCoins, this`usage, this`view, this`hashBlock
      ensures Valid() && Drift() == old(Drift()) && (ok <==> base != null || !fails)
      ensures ok ==> Written(view, old(view), batch)
      ensures ok ==> hashBlock == if h == 0 && base == null then old(hashBlock) else h
      ensures !ok ==> view == old(view) && db == old(db) && hashBlock == old(hashBlock)
      ensures base != null ==> base.Best() == old(base.Best())
    {
      hide Layer, Look, Show, Shown, Written, WrittenBut;
      if base == null && fails {
        return false;
      }
      var todo := batch.Keys;
      NothingWritten(view, batch);
      while todo != {}
        invariant Valid() && todo <= batch.Keys && Drift() == old(Drift()) && hashBlock == old(hashBlock)
        invariant base != null ==> base.Best() == old(base.Best())
        invariant WrittenBut(view, old(view), batch, todo)
        decreases todo
      {
        Inhabited(todo);
        var t :| t in todo;
        WriteOne(view, old(view), batch, todo, t);
        AbsentLook(view, t);
        AbsentLook(old(view), t);
        if batch[t].isDirty {
          WriteEntry(t, batch[t]);
        }
        todo := todo - {t};
      }
      AllWritten(view, old(view), batch);
      if base != null || h != 0 {
        hashBlock := h;
      }
      ok := true;
    }

    /**
      Push all modifications to the base.  The base then stands for the map that
      this view stands for, which is unchanged.  The best block comes along too,
      unless this view never had one of its own: then the base forgets its own.

      If the database raises an error, it keeps its map and its best block, but the
      cache is empty all the same: the modifications are lost, while this view still
      reports its own best block and accounts for the memory of what it lost.
     */
    method Flush(fails: bool) returns (ok: bool)
      requires Valid() && base != null && !hasModifier && !base.hasModifier
      modifies this`cacheCoins, this`usage, this`view
      modifies base`db, base`cacheCoins, base`usage, base`view, base`hashBlock
      ensures Valid() && cacheCoins == map[] && base.Drift() == old(base.Drift())
      ensures ok <==> base.base != null || !fails
      ensures ok ==> view == old(view) && base.view == old(view) && Drift() == 0
      ensures ok ==> base.Best() == if hashBlock != 0 || base.base == null then old(Best()) else base.base.Best()
      ensures ok && hashBlock == 0 && base.base != null ==>
                (base.Best() == old(Best()) <==> old(base.hashBlock) == 0 || old(base.hashBlock) == base.base.Best())
      ensures !ok ==> view == base.view == old(base.view) && base.Best() == old(base.Best()) && Best() == old(Best())
      ensures !ok ==> Drift() == old(usage)
    {
      hide Layer, Written, Sum;
      LayerFresh(view, cacheCoins, base.view);
      ghost var below := base.view;
      ok := base.BatchWrite(cacheCoins, hashBlock, fails);
      if !ok {
        cacheCoins := map[];
        view := base.view;
        LayerEmpty(base.view);
        EmptySum(cacheCoins, EntryMem(mem));
        return;
      }
      WrittenIsSeen(base.view, view, cacheCoins, below);
      LayerEmpty(base.view);
      cacheCoins := map[];
      usage := 0;
      EmptySum(cacheCoins, EntryMem(mem));
    }
  }

  lemma EmptySum(cache: Cache, w: CacheEntry -> nat)
    requires cache == map[]
    ensures Sum(cache, w) == 0
  {
  }

  lemma LayerFresh(view: map<Txid, Coins>, cache: Cache, below: map<Txid, Coins>)
    requires Layer(view, cache, below)
    ensures FreshOk(cache, below) && CleanAll(cache)
  {
  }

  lemma NothingWritten(view: map<Txid, Coins>, batch: Cache)
    ensures WrittenBut(view, view, batch, batch.Keys)
  {
  }

  lemma AllWritten(after: map<Txid, Coins>, before: map<Txid, Coins>, batch: Cache)
    requires WrittenBut(after, before, batch, {})
    ensures Written(after, before, batch)
  {
  }

  lemma DbWritten(db: map<Txid, Coins>, view: map<Txid, Coins>, t: Txid, c: Coins)
    requires DbOk(db, view) && IsClean(c)
    ensures DbOk(if IsPruned(c) then db - {t} else db[t := c], Shown(view, t, c))
  {
  }

  lemma AbsentLook(m: map<Txid, Coins>, t: Txid)
    ensures t !in m <==> Look(m, t) == None
  {
  }

  lemma PrunedLook(m: map<Txid, Coins>, t: Txid, c: Coins)
    requires Show(c) == Look(m, t)
    ensures t !in m <==> IsPruned(c)
  {
  }
}
