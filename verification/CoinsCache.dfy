/**
 The coin cache object with its dirty and fresh flags, its memory counter and its single live
 modifier, over another cache or over the coin database. The objects below a cache are fixed at
 construction; a cache is used only while nothing is stacked on top of it.
 */
module CoinsCache {
  import opened Options
  import opened Coins
  import opened CoinsSpec

  /** The root of a stack: a plain store. */
  class CoinsDb {
    var coins: Root

    constructor ()
      ensures coins == map[]
    {
      coins := map[];
    }

    /** Write the dirty entries: pruned ones are erased, the others stored. */
    method BatchWrite(mapCoins: Layer)
      modifies this
      ensures Stored(old(coins), mapCoins, coins)
    {
      var rest := mapCoins;
      while rest != map[]
        invariant forall t :: t in rest ==> t in mapCoins && rest[t] == mapCoins[t]
        invariant forall t :: At(coins, t) == if t in mapCoins && t !in rest && mapCoins[t].isDirty
                                              then Live(mapCoins[t].coins) else At(old(coins), t)
        decreases |rest|
      {
        var t :| t in rest;
        if rest[t].isDirty {
          if IsPruned(rest[t].coins) {
            coins := coins - {t};
          } else {
            coins := coins[t := rest[t].coins];
          }
        }
        rest := rest - {t};
      }
    }
  }

  class CoinsViewCache {
    const usage: Usage
    const base: CoinsViewCache?
    const db: CoinsDb
    var cacheCoins: Layer
    var cachedCoinsUsage: int
    var hasModifier: bool

    ghost const height: nat
    ghost const Repr: set<object>
    /** Entry under modification, and how much of the memory counter was charged for it. */
    ghost var modified: Txid
    ghost var charged: nat
    /** Memory counted for coins that were overwritten without being discharged. */
    ghost var drift: nat

    ghost predicate Linked()
      ensures Linked() ==> this in Repr && db in Repr
      decreases height
    {
      if base == null then
        height == 0 && Repr == {this, db}
      else
        && base.db == db && base.usage == usage && height == base.height + 1
        && this !in base.Repr && Repr == {this} + base.Repr && base.Linked()
    }

    /** The maps of this cache and of those below it. */
    ghost function Layers(): (r: seq<Layer>)
      requires Linked()
      reads Repr
      ensures |r| == height + 1 && r[0] == cacheCoins
      decreases height
    {
      [cacheCoins] + if base == null then [] else base.Layers()
    }

    ghost function Below(): (r: seq<Layer>)
      requires Linked()
      reads if base == null then {} else base.Repr
      ensures |r| == height
    {
      if base == null then [] else base.Layers()
    }

    /** The memory counted too much in the caches below, from the next one down. */
    ghost function DriftsBelow(): (r: seq<nat>)
      requires Linked()
      reads if base == null then {} else base.Repr
      ensures base != null ==> |r| > 0 && r[0] == base.drift
      decreases height
    {
      if base == null then [] else [base.drift] + base.DriftsBelow()
    }

    /** The memory counter is the sum over the entries, up to drift and to the entry under modification. */
    ghost predicate Accounted()
      reads this
    {
      if hasModifier then
        modified in cacheCoins && cachedCoinsUsage == Total(usage, cacheCoins - {modified}) + charged + drift
      else
        cachedCoinsUsage == Total(usage, cacheCoins) + drift
    }

    /** Coins are trimmed, except those under modification. */
    ghost predicate Trimmed()
      reads this
    {
      forall t :: t in cacheCoins && !(hasModifier && t == modified) ==> Clean(cacheCoins[t].coins)
    }

    /** In order, apart from what the flags of this cache promise. */
    ghost predicate Sound()
      reads Repr
      ensures Sound() ==> Linked()
      decreases height, 1
    {
      Linked() && Accounted() && Trimmed() && (hasModifier ==> cacheCoins[modified].isDirty) && BelowValid()
    }

    ghost predicate Valid()
      reads Repr
    {
      Sound() && GoodLayer(cacheCoins, Below(), db.coins)
    }

    /** What this cache stands on is in order, and not being modified. */
    ghost predicate BelowValid()
      requires Linked()
      reads Repr - {this}
      decreases height, 0
    {
      if base == null then forall t :: t in db.coins ==> Clean(db.coins[t]) && !IsPruned(db.coins[t])
      else !base.hasModifier && base.Sound() && GoodLayer(base.cacheCoins, base.Below(), db.coins)
    }

    lemma Beneath()
      requires Linked() && BelowValid()
      ensures base != null ==> !base.hasModifier && base.Valid()
      ensures base == null ==> forall t :: t in db.coins ==> Clean(db.coins[t]) && !IsPruned(db.coins[t])
    {
    }

    lemma {:induction false} ValidConsistent()
      requires Valid()
      ensures Layers()[1..] == Below()
      ensures Consistent(Layers(), db.coins) && Consistent(Below(), db.coins)
      decreases height
    {
      Beneath();
      if base != null {
        base.ValidConsistent();
      }
    }

    /** The unspent coins of a transaction, as seen through this cache. */
    ghost function Look(t: Txid): Option<CoinSet>
      requires Linked()
      reads Repr
    {
      View(Layers(), db.coins, t)
    }

    constructor OnDb(usage: Usage, db: CoinsDb)
      requires forall t :: t in db.coins ==> Clean(db.coins[t]) && !IsPruned(db.coins[t])
      ensures Valid() && this.db == db && base == null && !hasModifier && cacheCoins == map[] && drift == 0
      ensures forall t :: Look(t) == At(db.coins, t)
    {
      this.usage := usage;
      this.base := null;
      this.db := db;
      cacheCoins := map[];
      cachedCoinsUsage := 0;
      hasModifier := false;
      height := 0;
      Repr := {this, db};
      drift := 0;
      new;
      EmptyTop([], db.coins);
    }

    constructor OnCache(below: CoinsViewCache)
      requires below.Valid() && !below.hasModifier
      ensures Valid() && base == below && db == below.db && !hasModifier && cacheCoins == map[] && drift == 0
      ensures forall t :: Look(t) == below.Look(t)
    {
      usage := below.usage;
      base := below;
      db := below.db;
      cacheCoins := map[];
      cachedCoinsUsage := 0;
      hasModifier := false;
      height := below.height + 1;
      Repr := {this} + below.Repr;
      drift := 0;
      new;
      below.ValidConsistent();
      EmptyTop(below.Layers(), db.coins);
    }

    /** Read t from whatever is below this cache. */
    method ReadBase(t: Txid) returns (r: Option<CoinSet>)
      requires Linked() && BelowValid() && Consistent(Below(), db.coins)
      modifies Repr - {this, db}
      ensures BelowValid() && Below() == Fetch(old(Below()), db.coins, t) && DriftsBelow() == old(DriftsBelow())
      ensures r == Read(old(Below()), db.coins, t) && (r.Some? ==> Clean(r.value))
      decreases height, 0
    {
      if base == null {
        r := if t in db.coins then Some(db.coins[t]) else None;
      } else {
        var found := base.FetchCoins(t);
        r := if found then Some(base.cacheCoins[t].coins) else None;
      }
    }

    /** Bring the coins of t into this cache, reading through the layers below. */
    method FetchCoins(t: Txid) returns (found: bool)
      requires Valid()
      modifies Repr - {db}
      ensures Valid()
      ensures Layers() == Fetch(old(Layers()), db.coins, t)
      ensures found == Read(old(Layers()), db.coins, t).Some?
      ensures found ==> t in cacheCoins && Some(cacheCoins[t].coins) == Read(old(Layers()), db.coins, t)
      ensures !found ==> t !in cacheCoins
      ensures hasModifier == old(hasModifier) && modified == old(modified)
      ensures drift == old(drift) && DriftsBelow() == old(DriftsBelow())
      decreases height
    {
      hide Total;
      hide GoodLayer;
      hide DriftsBelow;
      hide View;
      ValidConsistent();
      if t in cacheCoins {
        return true;
      }
      ghost var stack := Layers();
      FetchKeepsView(stack, db.coins, t);
      FetchedTop(stack, db.coins, t);
      var tmp := ReadBase(t);
      assert Below() == Fetch(stack[1..], db.coins, t);
      if tmp == None {
        return false;
      }
      Insert(t, Entry(tmp.value, false, IsPruned(tmp.value)));
      return true;
    }

    /** The coins of t if any are known; reading is invisible at this layer and at every layer below. */
    method GetCoins(t: Txid) returns (r: Option<CoinSet>)
      requires Valid()
      modifies Repr - {db}
      ensures Valid() && hasModifier == old(hasModifier) && modified == old(modified)
      ensures drift == old(drift) && DriftsBelow() == old(DriftsBelow())
      ensures forall i :: 0 <= i <= height ==> SameView(old(Layers())[i..], db.coins, Layers()[i..], db.coins)
      ensures (if r.Some? then Live(r.value) else None) == old(Look(t))
    {
      ValidConsistent();
      ghost var stack := Layers();
      FetchKeepsView(stack, db.coins, t);
      ReadIsView(stack, db.coins, t);
      var found := FetchCoins(t);
      r := if found then Some(cacheCoins[t].coins) else None;
    }

    /** Whether t has unspent coins; exact because coins outside a modifier are trimmed. */
    method HaveCoins(t: Txid) returns (have: bool)
      requires Valid() && !(hasModifier && t == modified)
      modifies Repr - {db}
      ensures Valid() && hasModifier == old(hasModifier) && modified == old(modified)
      ensures drift == old(drift) && DriftsBelow() == old(DriftsBelow())
      ensures forall i :: 0 <= i <= height ==> SameView(old(Layers())[i..], db.coins, Layers()[i..], db.coins)
      ensures have == old(Look(t)).Some?
    {
      ValidConsistent();
      ghost var stack := Layers();
      FetchKeepsView(stack, db.coins, t);
      ReadIsView(stack, db.coins, t);
      var found := FetchCoins(t);
      have := found && cacheCoins[t].coins.vout != [];
    }

    /** Drop an entry that is neither dirty nor fresh. */
    method Uncache(t: Txid)
      requires Valid()
      modifies this`cacheCoins, this`cachedCoinsUsage
      ensures Valid() && Below() == old(Below())
      ensures cacheCoins == if t in old(cacheCoins) && !old(cacheCoins)[t].isDirty && !old(cacheCoins)[t].isFresh
                            then old(cacheCoins) - {t} else old(cacheCoins)
      ensures SameView(old(Layers()), db.coins, Layers(), db.coins)
    {
      hide Total;
      ValidConsistent();
      if t in cacheCoins && !cacheCoins[t].isDirty && !cacheCoins[t].isFresh {
        LessGood(cacheCoins, Below(), db.coins, t);
        hide GoodLayer;
        UncacheKeepsView(Layers(), db.coins, t);
        TotalRemove(usage, cacheCoins, t);
        if hasModifier {
          TotalRemove(usage, cacheCoins - {modified}, t);
          assert cacheCoins - {modified} - {t} == cacheCoins - {t} - {modified};
        }
        cachedCoinsUsage := cachedCoinsUsage - usage(cacheCoins[t].coins);
        cacheCoins := cacheCoins - {t};
      }
    }

    /** Write a child's entries into this cache. */
    method BatchWrite(mapCoins: Layer)
      requires Valid() && !hasModifier
      requires GoodLayer(mapCoins, Layers(), db.coins)
      requires forall t :: t in mapCoins ==> Clean(mapCoins[t].coins)
      modifies this`cacheCoins, this`cachedCoinsUsage
      ensures Valid() && Below() == old(Below()) && Merged(old(cacheCoins), mapCoins, cacheCoins)
    {
      ValidConsistent();
      FlushShape(mapCoins, cacheCoins, Below(), db.coins, Layers());
      WriteAll(mapCoins);
      FlushIntoLayer(mapCoins, old(cacheCoins), cacheCoins, Below(), db.coins);
      FlushedShape(cacheCoins, Below(), db.coins);
    }

    method WriteAll(mapCoins: Layer)
      requires forall t :: t in mapCoins ==> Clean(mapCoins[t].coins)
      requires Counted()
      modifies this`cacheCoins, this`cachedCoinsUsage
      ensures Counted() && Merged(old(cacheCoins), mapCoins, cacheCoins)
    {
      var rest := mapCoins;
      while rest != map[]
        invariant forall t :: t in rest ==> t in mapCoins && rest[t] == mapCoins[t]
        invariant forall t :: At(cacheCoins, t) == if t in mapCoins && t !in rest
                                                   then MergeAt(At(old(cacheCoins), t), mapCoins[t])
                                                   else At(old(cacheCoins), t)
        invariant Counted()
        decreases |rest|
      {
        var t :| t in rest;
        assert At(cacheCoins, t) == At(old(cacheCoins), t);
        if rest[t].isDirty {
          WriteOne(t, rest[t]);
        }
        rest := rest - {t};
      }
    }

    ghost predicate Counted()
      reads this
    {
      && cachedCoinsUsage == Total(usage, cacheCoins) + drift
      && forall t :: t in cacheCoins ==> Clean(cacheCoins[t].coins)
    }

    /** One dirty entry of a child: create, delete or overwrite ours. */
    method WriteOne(t: Txid, e: Entry)
      requires e.isDirty && Clean(e.coins) && Counted()
      modifies this`cacheCoins, this`cachedCoinsUsage
      ensures Counted()
      ensures forall u ::
                At(cacheCoins, u) == if u == t then MergeAt(At(old(cacheCoins), t), e) else At(old(cacheCoins), u)
    {
      if t !in cacheCoins {
        if !(e.isFresh && IsPruned(e.coins)) {
          InsertTotals(usage, cacheCoins, t, Entry(e.coins, true, e.isFresh), t);
          cacheCoins := cacheCoins[t := Entry(e.coins, true, e.isFresh)];
          cachedCoinsUsage := cachedCoinsUsage + usage(e.coins);
        }
      } else {
        TotalRemove(usage, cacheCoins, t);
        var ours := cacheCoins[t];
        cachedCoinsUsage := cachedCoinsUsage - usage(ours.coins);
        if ours.isFresh && IsPruned(e.coins) {
          cacheCoins := cacheCoins - {t};
        } else {
          TotalSet(usage, cacheCoins, t, Entry(e.coins, true, ours.isFresh));
          cacheCoins := cacheCoins[t := Entry(e.coins, true, ours.isFresh)];
          cachedCoinsUsage := cachedCoinsUsage + usage(e.coins);
        }
      }
    }

    /**
     Push everything to what is below and start empty: what is below now shows what this cache
     showed, and this cache still shows it.
     */
    method Flush()
      requires Valid() && !hasModifier
      modifies Repr
      ensures Valid() && !hasModifier && cacheCoins == map[] && drift == 0 && DriftsBelow() == old(DriftsBelow())
      ensures SameView(old(Layers()), old(db.coins), Layers(), db.coins)
      ensures SameView(old(Layers()), old(db.coins), Below(), db.coins)
      ensures base == null ==> forall t :: At(db.coins, t) == old(Look(t))
      ensures base != null ==> db.coins == old(db.coins) && Below()[1..] == old(Below())[1..]
    {
      PushDown();
      EmptyTop(Below(), db.coins);
      Reset();
    }

    method Reset()
      requires Linked() && BelowValid() && !hasModifier
      modifies this`cacheCoins, this`cachedCoinsUsage, this`drift
      ensures Valid() && cacheCoins == map[] && drift == 0
      ensures Below() == old(Below()) && Layers() == [map[]] + Below() && DriftsBelow() == old(DriftsBelow())
    {
      hide DriftsBelow;
      cacheCoins := map[];
      cachedCoinsUsage := 0;
      drift := 0;
    }

    /** Hand all entries to what is below. */
    method PushDown()
      requires Valid() && !hasModifier
      modifies Repr - {this}
      ensures BelowValid() && Consistent(Below(), db.coins) && DriftsBelow() == old(DriftsBelow())
      ensures SameView(old(Layers()), old(db.coins), Below(), db.coins)
      ensures base == null ==> forall t :: At(db.coins, t) == old(Look(t))
      ensures base != null ==> db.coins == old(db.coins) && Below()[1..] == old(Below())[1..]
    {
      hide Total;
      ValidConsistent();
      Beneath();
      ghost var stack, below, root := Layers(), Below(), db.coins;
      if base == null {
        db.BatchWrite(cacheCoins);
        FlushIntoRoot(cacheCoins, root, db.coins);
        StoredRoot(cacheCoins, root, db.coins, stack);
      } else {
        base.ValidConsistent();
        base.BatchWrite(cacheCoins);
        base.ValidConsistent();
        FlushIntoLayer(cacheCoins, below[0], base.cacheCoins, below[1..], root);
        assert stack == [cacheCoins, below[0]] + below[1..];
        assert Below() == [base.cacheCoins] + below[1..];
      }
    }

    /** Start modifying t; nothing visible changes yet. */
    method ModifyCoins(t: Txid) returns (m: CoinsModifier)
      requires Valid() && !hasModifier
      modifies Repr - {db}
      ensures Valid() && drift == old(drift) && DriftsBelow() == old(DriftsBelow())
      ensures m.cache == this && m.txid == t && m.Active()
      ensures forall i :: 0 <= i <= height ==> SameView(old(Layers())[i..], db.coins, Layers()[i..], db.coins)
      ensures t in cacheCoins && cacheCoins == old(cacheCoins)[t := cacheCoins[t]]
      ensures var e := cacheCoins[t];
              && e.isDirty && Clean(e.coins) && Live(e.coins) == old(Look(t))
              && e.isFresh == if t in old(cacheCoins) then old(cacheCoins)[t].isFresh else old(Look(t)) == None
    {
      ValidConsistent();
      ghost var stack := Layers();
      var cachedCoinUsage := 0;
      var e;
      if t !in cacheCoins {
        e := EntryFromBase(t);
      } else {
        cachedCoinUsage := usage(cacheCoins[t].coins);
        e := cacheCoins[t].(isDirty := true);
      }
      assert stack[1..] == old(Below());
      OpenKeepsView(stack, [cacheCoins[t := e]] + Below(), db.coins, t, e);
      Open(t, e, cachedCoinUsage);
      m := new CoinsModifier(this, t, cachedCoinUsage);
    }

    /** The dirty entry a modifier starts from when this cache has none. */
    method EntryFromBase(t: Txid) returns (e: Entry)
      requires Valid() && t !in cacheCoins
      modifies Repr - {this, db}
      ensures Valid() && DriftsBelow() == old(DriftsBelow())
      ensures forall i :: 0 <= i <= height ==> SameView(old(Below())[i..], db.coins, Below()[i..], db.coins)
      ensures e.isDirty && e.isFresh == (old(Look(t)) == None) && Live(e.coins) == old(Look(t)) && Clean(e.coins)
    {
      ValidConsistent();
      ghost var below := Below();
      FetchKeepsView(below, db.coins, t);
      assert below[0..] == below && Fetch(below, db.coins, t)[0..] == Fetch(below, db.coins, t);
      ReadIsView(below, db.coins, t);
      assert View(Layers(), db.coins, t) == View(below, db.coins, t);
      var r := ReadBase(t);
      GoodAbove(cacheCoins, below, db.coins, Below(), db.coins);
      e := if r.Some? then Entry(r.value, true, IsPruned(r.value)) else Entry(EmptyCoins, true, true);
    }

    /**
     Start a new coin set for t without looking below, marked fresh; the flags keep their meaning
     exactly when nothing unspent is visible below. Memory charged for an entry that is overwritten
     stays charged.
     */
    method ModifyNewCoins(t: Txid) returns (m: CoinsModifier)
      requires Valid() && !hasModifier
      modifies this
      ensures Sound() && Below() == old(Below()) && DriftsBelow() == old(DriftsBelow())
      ensures Valid() <==> View(Below(), db.coins, t) == None
      ensures drift == old(drift) + if t in old(cacheCoins) then usage(old(cacheCoins)[t].coins) else 0
      ensures m.cache == this && m.txid == t && m.Active()
      ensures cacheCoins == old(cacheCoins)[t := Entry(EmptyCoins, true, true)]
      ensures Look(t) == None && forall u :: u != t ==> Look(u) == old(Look(u))
    {
      ValidConsistent();
      var e := Entry(EmptyCoins, true, true);
      SetTop(Layers(), db.coins, t, e);
      Open(t, e, 0);
      m := new CoinsModifier(this, t, 0);
    }

    /** Install the entry under modification. */
    method Open(t: Txid, e: Entry, charge: nat)
      requires Valid() && !hasModifier && e.isDirty
      requires charge == 0 || (t in cacheCoins && charge == usage(cacheCoins[t].coins))
      modifies this
      ensures Sound() && Below() == old(Below()) && Layers() == [cacheCoins] + Below()
      ensures DriftsBelow() == old(DriftsBelow())
      ensures hasModifier && modified == t && charged == charge && cacheCoins == old(cacheCoins)[t := e]
      ensures drift == old(drift) + if t in old(cacheCoins) then usage(old(cacheCoins)[t].coins) - charge else 0
      ensures Valid() <==> (e.isFresh ==> View(Below(), db.coins, t) == None)
    {
      hide Total;
      hide GoodLayer;
      hide DriftsBelow;
      OpenTotals(usage, cacheCoins, t, e);
      OpenGood(cacheCoins, Below(), db.coins, t, e);
      if t in cacheCoins {
        drift := drift + usage(cacheCoins[t].coins) - charge;
      }
      cacheCoins := cacheCoins[t := e];
      hasModifier := true;
      modified := t;
      charged := charge;
    }

    /** Put the finished entry in place, or forget it when it is fresh and all its coins are spent. */
    method Close(t: Txid, e: Entry, charge: nat)
      requires Sound() && hasModifier && modified == t && charged == charge
      requires e.isDirty && e.isFresh == cacheCoins[t].isFresh && Clean(e.coins)
      modifies this`cacheCoins, this`cachedCoinsUsage, this`hasModifier
      ensures Sound() && !hasModifier && cacheCoins == AfterRelease(old(cacheCoins), t, e)
      ensures old(Valid()) ==> Valid()
      ensures Below() == old(Below()) && Layers() == [cacheCoins] + Below() && DriftsBelow() == old(DriftsBelow())
    {
      hide Total;
      hide GoodLayer;
      hide IsPruned;
      hide Clean;
      hide DriftsBelow;
      ReleaseTotal(usage, cacheCoins, t, e);
      ReleaseGood(cacheCoins, Below(), db.coins, t, e);
      var after, total := cacheCoins[t := e], cachedCoinsUsage - charge;
      if e.isFresh && IsPruned(e.coins) {
        after := cacheCoins - {t};
      } else {
        total := total + usage(e.coins);
      }
      hasModifier, cacheCoins, cachedCoinsUsage := false, after, total;
    }

    /** Add an entry for an id that had none, charging its memory. */
    method Insert(t: Txid, e: Entry)
      requires Linked() && BelowValid() && Accounted() && Trimmed() && (hasModifier ==> cacheCoins[modified].isDirty)
      requires t !in cacheCoins && Clean(e.coins) && GoodLayer(cacheCoins[t := e], Below(), db.coins)
      modifies this`cacheCoins, this`cachedCoinsUsage
      ensures Valid() && cacheCoins == old(cacheCoins)[t := e] && Below() == old(Below())
      ensures Layers() == [cacheCoins] + Below()
    {
      InsertTotals(usage, cacheCoins, t, e, modified);
      cacheCoins := cacheCoins[t := e];
      cachedCoinsUsage := cachedCoinsUsage + usage(e.coins);
    }
  }

  /** The only live handle on an entry; releasing it trims the coins and settles the memory counter. */
  class CoinsModifier {
    const cache: CoinsViewCache
    const txid: Txid
    const cachedCoinUsage: nat

    ghost predicate Active()
      reads cache
    {
      cache.hasModifier && cache.modified == txid && cache.charged == cachedCoinUsage
    }

    constructor (cache: CoinsViewCache, txid: Txid, cachedCoinUsage: nat)
      ensures this.cache == cache && this.txid == txid && this.cachedCoinUsage == cachedCoinUsage
    {
      this.cache := cache;
      this.txid := txid;
      this.cachedCoinUsage := cachedCoinUsage;
    }

    /** Store new coins through the handle: only this id changes. */
    method Assign(c: CoinSet)
      requires cache.Sound() && Active()
      modifies cache`cacheCoins
      ensures cache.Sound() && cache.Below() == old(cache.Below()) && cache.DriftsBelow() == old(cache.DriftsBelow())
      ensures old(cache.Valid()) ==> cache.Valid()
      ensures cache.cacheCoins == old(cache.cacheCoins)[txid := old(cache.cacheCoins)[txid].(coins := c)]
      ensures cache.Look(txid) == Live(c) && forall u :: u != txid ==> cache.Look(u) == old(cache.Look(u))
    {
      ghost var before := cache.cacheCoins;
      var e := cache.cacheCoins[txid].(coins := c);
      SetTop(cache.Layers(), cache.db.coins, txid, e);
      cache.cacheCoins := cache.cacheCoins[txid := e];
      assert cache.cacheCoins - {txid} == before - {txid};
    }

    /**
     End of the modification: no other id changes, and this one shows the trimmed coins, except when
     they are all spent, the entry was marked fresh and something unspent is below after all.
     */
    method Release()
      requires cache.Sound() && Active()
      modifies cache`cacheCoins, cache`cachedCoinsUsage, cache`hasModifier
      ensures cache.Sound() && !cache.hasModifier && cache.Below() == old(cache.Below())
      ensures cache.drift == old(cache.drift) && cache.DriftsBelow() == old(cache.DriftsBelow())
      ensures var e := old(cache.cacheCoins)[txid];
              cache.cacheCoins == AfterRelease(old(cache.cacheCoins), txid, e.(coins := Cleaned(e.coins)))
      ensures old(cache.Valid()) ==> cache.Valid()
      ensures var e := old(cache.cacheCoins)[txid];
              cache.Look(txid) == Live(Cleaned(e.coins))
              <==> (e.isFresh && IsPruned(e.coins) ==> View(cache.Below(), cache.db.coins, txid) == None)
      ensures old(cache.Valid()) ==> cache.Look(txid) == Live(Cleaned(old(cache.cacheCoins)[txid].coins))
      ensures forall u :: u != txid ==> cache.Look(u) == old(cache.Look(u))
    {
      ghost var before := cache.cacheCoins;
      var vout := Cleanup(cache.cacheCoins[txid].coins.vout);
      var e := cache.cacheCoins[txid].(coins := cache.cacheCoins[txid].coins.(vout := vout));
      assert e.coins == Cleaned(before[txid].coins);
      ReleaseExact(cache.Layers(), cache.db.coins, txid, e);
      assert cache.Layers()[1..] == cache.Below();
      cache.Close(txid, e, cachedCoinUsage);
    }
  }

  /** Output n of what is seen of a transaction, if it is unspent. */
  function Unspent(seen: Option<CoinSet>, n: nat): Option<TxOut> {
    if seen.Some? && IsAvailable(seen.value, n) then Some(seen.value.vout[n]) else None
  }

  /** Spend one output through the cache: exactly that output disappears from view. */
  method SpendOutput(cache: CoinsViewCache, t: Txid, nPos: nat) returns (ok: bool)
    requires cache.Valid() && !cache.hasModifier
    modifies cache.Repr - {cache.db}
    ensures cache.Valid() && !cache.hasModifier && cache.drift == old(cache.drift)
    ensures ok == Unspent(old(cache.Look(t)), nPos).Some?
    ensures !ok ==> cache.Look(t) == old(cache.Look(t))
    ensures forall n: nat ::
              Unspent(cache.Look(t), n) == if n == nPos then None else Unspent(old(cache.Look(t)), n)
    ensures var before, after := old(cache.Look(t)), cache.Look(t);
            after.Some? ==>
              && before.Some? && after.value.fCoinBase == before.value.fCoinBase
              && after.value.nHeight == before.value.nHeight && after.value.nVersion == before.value.nVersion
    ensures forall u :: u != t ==> cache.Look(u) == old(cache.Look(u))
  {
    hide GoodLayer;
    hide View;
    hide CoinsViewCache.Sound;
    hide CoinsViewCache.Linked;
    var m := cache.ModifyCoins(t);
    SeenWhole(old(cache.Layers()), cache.Layers(), cache.db.coins);
    var c := cache.cacheCoins[t].coins;
    var c';
    c', ok := Spend(c, nPos);
    m.Assign(c');
    m.Release();
    CleanedAlready(c');
    SpentView(c, c', nPos, ok);
  }

  lemma SeenWhole(stack: seq<Layer>, stack': seq<Layer>, root: Root)
    requires |stack| == |stack'| > 0
    requires forall i :: 0 <= i < |stack| ==> SameView(stack[i..], root, stack'[i..], root)
    ensures SameView(stack, root, stack', root)
  {
    assert stack[0..] == stack && stack'[0..] == stack';
  }

  lemma CleanedAlready(c: CoinSet)
    requires Clean(c)
    ensures Cleaned(c) == c
  {
  }

  lemma SpentView(c: CoinSet, c': CoinSet, nPos: nat, ok: bool)
    requires ok == IsAvailable(c, nPos)
    requires forall n: nat :: IsAvailable(c', n) == (IsAvailable(c, n) && n != nPos)
    requires forall n: nat :: IsAvailable(c', n) ==> n < |c.vout| && c'.vout[n] == c.vout[n]
    ensures ok == Unspent(Live(c), nPos).Some?
    ensures forall n: nat :: Unspent(Live(c'), n) == if n == nPos then None else Unspent(Live(c), n)
    ensures Live(c').Some? ==> Live(c).Some?
  {
    if !IsPruned(c') {
      var i: nat :| i < |c'.vout| && !c'.vout[i].Null?;
      assert IsAvailable(c', i);
    }
    forall n: nat
      ensures IsAvailable(c, n) ==> !IsPruned(c)
      ensures IsAvailable(c', n) ==> !IsPruned(c')
    {
    }
  }

  /** Coins created anew and spent before they were flushed: what is below is back in view. */
  method CreateAndSpend(cache: CoinsViewCache, t: Txid, c: CoinSet)
    requires cache.Valid() && !cache.hasModifier
    modifies cache
    ensures cache.Valid() && !cache.hasModifier && cache.Below() == old(cache.Below())
    ensures cache.cacheCoins == old(cache.cacheCoins) - {t}
    ensures cache.Look(t) == View(cache.Below(), cache.db.coins, t)
    ensures forall u :: u != t ==> cache.Look(u) == old(cache.Look(u))
  {
    hide GoodLayer;
    hide View;
    hide CoinsViewCache.Sound;
    hide CoinsViewCache.Linked;
    ghost var before := cache.cacheCoins;
    LessGood(before, cache.Below(), cache.db.coins, t);
    var m := cache.ModifyNewCoins(t);
    m.Assign(c);
    m.Assign(EmptyCoins);
    m.Release();
    assert cache.cacheCoins == before - {t};
    assert cache.Layers()[1..] == cache.Below() by { SplitLayers(cache); }
    ViewWithout(cache.Layers(), cache.db.coins, t);
  }

  lemma SplitLayers(cache: CoinsViewCache)
    requires cache.Linked()
    ensures cache.Layers()[1..] == cache.Below()
  {
  }

  lemma LessGood(layer: Layer, rest: seq<Layer>, root: Root, t: Txid)
    requires GoodLayer(layer, rest, root)
    ensures GoodLayer(layer - {t}, rest, root)
  {
  }

  lemma ViewWithout(stack: seq<Layer>, root: Root, t: Txid)
    requires stack != [] && t !in stack[0]
    ensures View(stack, root, t) == View(stack[1..], root, t)
  {
  }

  /** A stored coinbase whose duplicate is created and spent is unspent again. */
  method DuplicateSpent(usage: Usage, t: Txid, script: Script) returns (cache: CoinsViewCache)
    ensures cache.Valid() && cache.Look(t) == Some(CoinSet(true, [Output(50, script)], 1, 1))
  {
    hide Total;
    hide GoodLayer;
    var db := new CoinsDb();
    var first := CoinSet(true, [Output(50, script)], 1, 1);
    assert !first.vout[0].Null?;
    db.coins := map[t := first];
    cache := new CoinsViewCache.OnDb(usage, db);
    CreateAndSpend(cache, t, first);
  }

  lemma OpenTotals(usage: Usage, layer: Layer, t: Txid, e: Entry)
    ensures Total(usage, layer) == Total(usage, layer[t := e] - {t}) + if t in layer then usage(layer[t].coins) else 0
  {
    assert layer[t := e] - {t} == layer - {t};
    if t in layer {
      TotalRemove(usage, layer, t);
    } else {
      assert layer - {t} == layer;
    }
  }

  lemma ReleaseTotal(usage: Usage, layer: Layer, t: Txid, e: Entry)
    ensures var after := AfterRelease(layer, t, e);
            Total(usage, after) == Total(usage, layer - {t}) + (if t in after then usage(e.coins) else 0)
  {
    TotalSet(usage, layer, t, e);
  }

  lemma ReleaseGood(layer: Layer, rest: seq<Layer>, root: Root, t: Txid, e: Entry)
    requires t in layer && e.isDirty && e.isFresh == layer[t].isFresh
    ensures GoodLayer(layer, rest, root) ==> GoodLayer(AfterRelease(layer, t, e), rest, root)
  {
  }

  lemma OpenGood(layer: Layer, rest: seq<Layer>, root: Root, t: Txid, e: Entry)
    requires GoodLayer(layer, rest, root) && e.isDirty
    ensures GoodLayer(layer[t := e], rest, root) <==> (e.isFresh ==> View(rest, root, t) == None)
  {
    assert layer[t := e][t] == e;
  }

  /** A dirty entry with the coins that were visible anyway changes nothing visible, at any layer. */
  lemma OpenKeepsView(stack: seq<Layer>, stack': seq<Layer>, root: Root, t: Txid, e: Entry)
    requires |stack| == |stack'| > 0 && stack'[0] == stack[0][t := e] && Live(e.coins) == View(stack, root, t)
    requires forall i :: 0 <= i < |stack| ==> SameView(stack[1..][i..], root, stack'[1..][i..], root)
    ensures forall i :: 0 <= i < |stack| ==> SameView(stack[i..], root, stack'[i..], root)
  {
    forall i | 0 <= i < |stack|
      ensures SameView(stack[i..], root, stack'[i..], root)
    {
      if i == 0 {
        assert stack[0..] == stack && stack'[0..] == stack';
        assert stack[1..][0..] == stack[1..] && stack'[1..][0..] == stack'[1..];
        forall u
          ensures View(stack, root, u) == View(stack', root, u)
        {
          assert View(stack[1..], root, u) == View(stack'[1..], root, u);
        }
      } else {
        assert stack[1..][i - 1..] == stack[i..] && stack'[1..][i - 1..] == stack'[i..];
      }
    }
  }

  lemma StoredRoot(child: Layer, root: Root, after: Root, stack: seq<Layer>)
    requires Stored(root, child, after) && stack == [child] && SameView(stack, root, [], after)
    requires forall t :: t in root ==> Clean(root[t]) && !IsPruned(root[t])
    requires forall t :: t in child ==> Clean(child[t].coins)
    ensures forall t :: At(after, t) == View(stack, root, t)
    ensures forall t :: t in after ==> Clean(after[t]) && !IsPruned(after[t])
  {
    forall t
      ensures At(after, t) == View(stack, root, t)
      ensures t in after ==> Clean(after[t]) && !IsPruned(after[t])
    {
      assert View([], after, t) == View(stack, root, t);
      assert At(after, t) == if t in child && child[t].isDirty then Live(child[t].coins) else At(root, t);
    }
  }

  lemma FlushShape(child: Layer, parent: Layer, rest: seq<Layer>, root: Root, stack: seq<Layer>)
    requires stack == [parent] + rest && Consistent(stack, root) && GoodLayer(child, stack, root)
    ensures Consistent([child, parent] + rest, root)
  {
    assert ([child, parent] + rest)[1..] == stack;
  }

  lemma FlushedShape(after: Layer, rest: seq<Layer>, root: Root)
    requires Consistent([map[], after] + rest, root)
    ensures GoodLayer(after, rest, root)
  {
    assert ([map[], after] + rest)[1..] == [after] + rest;
    assert ([after] + rest)[1..] == rest;
  }

  /** The top layer after a read, given that it had no entry. */
  lemma FetchedTop(stack: seq<Layer>, root: Root, t: Txid)
    requires stack != [] && t !in stack[0] && Consistent(Fetch(stack, root, t), root)
    ensures var rest, r := Fetch(stack[1..], root, t), Read(stack[1..], root, t);
            var top := if r.Some? then stack[0][t := Entry(r.value, false, IsPruned(r.value))] else stack[0];
            Fetch(stack, root, t) == [top] + rest && GoodLayer(top, rest, root)
  {
    assert Fetch(stack, root, t)[1..] == Fetch(stack[1..], root, t);
  }

  /** Inserting a new entry adds its usage, whether or not another entry is set aside. */
  lemma InsertTotals(usage: Usage, layer: Layer, t: Txid, e: Entry, aside: Txid)
    requires t !in layer
    ensures Total(usage, layer[t := e]) == Total(usage, layer) + usage(e.coins)
    ensures aside in layer ==> Total(usage, layer[t := e] - {aside}) == Total(usage, layer - {aside}) + usage(e.coins)
  {
    assert layer - {t} == layer;
    TotalSet(usage, layer, t, e);
    if aside in layer {
      assert layer[t := e] - {aside} == (layer - {aside})[t := e];
      assert layer - {aside} - {t} == layer - {aside};
      TotalSet(usage, layer - {aside}, t, e);
    }
  }
}
