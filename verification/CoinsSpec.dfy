/**
 The stack of coin caches as a value: a list of layers, youngest first, over a root map. Each
 layer overrides the ones below it; a pruned coin set means the same as no coin set.
 */
module CoinsSpec {
  import opened Options
  import opened Coins

  type Txid(==, !new, 0)

  datatype Entry = Entry(coins: CoinSet, isDirty: bool, isFresh: bool)

  type Layer = map<Txid, Entry>
  type Root = map<Txid, CoinSet>

  function Live(c: CoinSet): Option<CoinSet> {
    if IsPruned(c) then None else Some(c)
  }

  /** The unspent coins that a reader of the top layer sees: the flat map the stack stands for. */
  function View(stack: seq<Layer>, root: Root, t: Txid): Option<CoinSet> {
    if stack == [] then (if t in root then Live(root[t]) else None)
    else if t in stack[0] then Live(stack[0][t].coins)
    else View(stack[1..], root, t)
  }

  ghost predicate SameView(s: seq<Layer>, r: Root, s': seq<Layer>, r': Root) {
    forall t :: View(s, r, t) == View(s', r', t)
  }

  /** The meaning of the flags of one entry over the layers below. */
  predicate GoodEntry(e: Entry, below: Option<CoinSet>) {
    && (e.isFresh ==> below == None)
    && (!e.isDirty ==> Live(e.coins) == below)
  }

  ghost predicate GoodLayer(layer: Layer, rest: seq<Layer>, root: Root) {
    forall t :: t in layer ==> GoodEntry(layer[t], View(rest, root, t))
  }

  ghost predicate Consistent(stack: seq<Layer>, root: Root) {
    stack == [] || (GoodLayer(stack[0], stack[1..], root) && Consistent(stack[1..], root))
  }

  // ---------- reading ----------

  /** What a read returns, pruned or not. */
  function Read(stack: seq<Layer>, root: Root, t: Txid): Option<CoinSet> {
    if stack == [] then (if t in root then Some(root[t]) else None)
    else if t in stack[0] then Some(stack[0][t].coins)
    else Read(stack[1..], root, t)
  }

  /** A read leaves a copy of what it found in every layer it passed through. */
  function Fetch(stack: seq<Layer>, root: Root, t: Txid): (r: seq<Layer>)
    ensures |r| == |stack|
  {
    if stack == [] then []
    else if t in stack[0] then stack
    else
      var rest := Fetch(stack[1..], root, t);
      match Read(stack[1..], root, t)
      case None => [stack[0]] + rest
      case Some(c) => [stack[0][t := Entry(c, false, IsPruned(c))]] + rest
  }

  lemma {:induction false} ReadIsView(stack: seq<Layer>, root: Root, t: Txid)
    ensures View(stack, root, t) == match Read(stack, root, t) case None => None case Some(c) => Live(c)
  {
    if stack != [] && t !in stack[0] {
      ReadIsView(stack[1..], root, t);
    }
  }

  /** A read answers with the youngest layer that knows the id, or with the root. */
  lemma {:induction false} ReadFirst(stack: seq<Layer>, root: Root, t: Txid, i: nat)
    requires i <= |stack| && forall j :: 0 <= j < i ==> t !in stack[j]
    ensures i < |stack| && t in stack[i] ==> Read(stack, root, t) == Some(stack[i][t].coins)
    ensures i == |stack| ==> Read(stack, root, t) == At(root, t)
  {
    if i > 0 {
      ReadFirst(stack[1..], root, t, i - 1);
    }
  }

  /** What a read leaves in each layer: an unmodified copy, fresh exactly when it is all spent, or nothing new. */
  lemma {:induction false} FetchCopies(stack: seq<Layer>, root: Root, t: Txid, i: nat)
    requires i < |stack|
    ensures var known := exists j :: 0 <= j <= i && t in stack[j];
            var found := Read(stack[i..], root, t);
            Fetch(stack, root, t)[i]
            == if known || found == None then stack[i]
               else stack[i][t := Entry(found.value, false, IsPruned(found.value))]
  {
    if i == 0 {
      assert stack[0..] == stack;
    } else if t in stack[0] {
      assert t in stack[0] && 0 <= i;
    } else {
      FetchCopies(stack[1..], root, t, i - 1);
      assert stack[1..][i - 1..] == stack[i..];
      forall j | 0 <= j <= i && t in stack[j]
        ensures exists k :: 0 <= k <= i - 1 && t in stack[1..][k]
      {
        assert stack[1..][j - 1] == stack[j];
      }
      forall k | 0 <= k <= i - 1 && t in stack[1..][k]
        ensures exists j :: 0 <= j <= i && t in stack[j]
      {
        assert stack[k + 1] == stack[1..][k];
      }
    }
  }

  lemma GoodAbove(layer: Layer, s: seq<Layer>, r: Root, s': seq<Layer>, r': Root)
    requires SameView(s, r, s', r') && GoodLayer(layer, s, r)
    ensures GoodLayer(layer, s', r')
  {
  }

  /** An empty layer is invisible. */
  lemma EmptyTop(s: seq<Layer>, r: Root)
    requires Consistent(s, r)
    ensures Consistent([map[]] + s, r) && SameView(s, r, [map[]] + s, r)
  {
    var stack: seq<Layer> := [map[]] + s;
    assert stack[1..] == s;
  }

  /** Reading at any layer changes the view of no layer, and keeps the flags meaningful. */
  lemma {:induction false} FetchKeepsView(stack: seq<Layer>, root: Root, t: Txid)
    requires Consistent(stack, root)
    ensures Consistent(Fetch(stack, root, t), root)
    ensures forall i :: 0 <= i <= |stack| ==> SameView(stack[i..], root, Fetch(stack, root, t)[i..], root)
  {
    if stack != [] && t !in stack[0] {
      var rest, rest' := stack[1..], Fetch(stack[1..], root, t);
      var stack' := Fetch(stack, root, t);
      FetchKeepsView(rest, root, t);
      assert rest[0..] == rest && rest'[0..] == rest';
      assert stack'[1..] == rest';
      FetchTop(stack, root, t);
      forall i | 0 <= i <= |stack|
        ensures SameView(stack[i..], root, stack'[i..], root)
      {
        if i == 0 {
          assert stack[0..] == stack && stack'[0..] == stack';
        } else {
          assert stack[i..] == rest[i - 1..] && stack'[i..] == rest'[i - 1..];
        }
      }
    }
  }

  lemma FetchTop(stack: seq<Layer>, root: Root, t: Txid)
    requires stack != [] && t !in stack[0]
    requires GoodLayer(stack[0], stack[1..], root)
    requires SameView(stack[1..], root, Fetch(stack[1..], root, t), root)
    ensures var stack' := Fetch(stack, root, t);
            SameView(stack, root, stack', root) && GoodLayer(stack'[0], stack'[1..], root)
  {
    var stack' := Fetch(stack, root, t);
    assert stack'[1..] == Fetch(stack[1..], root, t);
    ReadIsView(stack[1..], root, t);
    forall u
      ensures View(stack, root, u) == View(stack', root, u)
    {
      assert View(stack[1..], root, u) == View(stack'[1..], root, u);
    }
  }

  // ---------- dropping an unmodified entry ----------

  lemma UncacheKeepsView(stack: seq<Layer>, root: Root, t: Txid)
    requires Consistent(stack, root) && stack != []
    requires t in stack[0] && !stack[0][t].isDirty && !stack[0][t].isFresh
    ensures Consistent([stack[0] - {t}] + stack[1..], root)
    ensures SameView(stack, root, [stack[0] - {t}] + stack[1..], root)
  {
    var stack' := [stack[0] - {t}] + stack[1..];
    assert stack'[1..] == stack[1..];
  }

  // ---------- modifying one entry ----------

  /** A new entry changes the view at t only, to its coins; a dirty one, not wrongly fresh, keeps the flags right. */
  lemma SetTop(stack: seq<Layer>, root: Root, t: Txid, e: Entry)
    requires stack != []
    ensures var stack' := [stack[0][t := e]] + stack[1..];
            && View(stack', root, t) == Live(e.coins)
            && (forall u :: u != t ==> View(stack', root, u) == View(stack, root, u))
            && (Consistent(stack, root) && e.isDirty && (e.isFresh ==> View(stack[1..], root, t) == None)
                ==> Consistent(stack', root))
  {
    var stack' := [stack[0][t := e]] + stack[1..];
    assert stack'[1..] == stack[1..];
  }

  /** The layer a modifier leaves behind: a fresh entry whose coins are gone is forgotten. */
  function AfterRelease(layer: Layer, t: Txid, e: Entry): Layer {
    if e.isFresh && IsPruned(e.coins) then layer - {t} else layer[t := e]
  }

  /** What a release shows: the coins it leaves, unless they are all spent, fresh, and something unspent is below. */
  lemma ReleaseExact(stack: seq<Layer>, root: Root, t: Txid, e: Entry)
    requires stack != []
    ensures var after := [AfterRelease(stack[0], t, e)] + stack[1..];
            && (View(after, root, t) == Live(e.coins)
                <==> (e.isFresh && IsPruned(e.coins) ==> View(stack[1..], root, t) == None))
            && forall u :: u != t ==> View(after, root, u) == View(stack, root, u)
  {
    assert ([AfterRelease(stack[0], t, e)] + stack[1..])[1..] == stack[1..];
  }

  /** Coins created as fresh can be spent to any extent exactly when nothing unspent is visible below. */
  lemma NewCoinsExact(stack: seq<Layer>, root: Root, t: Txid)
    requires stack != []
    ensures (forall c :: View([AfterRelease(stack[0], t, Entry(c, true, true))] + stack[1..], root, t) == Live(c))
            <==> View(stack[1..], root, t) == None
  {
    forall c
      ensures View([AfterRelease(stack[0], t, Entry(c, true, true))] + stack[1..], root, t) == Live(c)
              <==> (IsPruned(c) ==> View(stack[1..], root, t) == None)
    {
      ReleaseExact(stack, root, t, Entry(c, true, true));
    }
    assert IsPruned(EmptyCoins);
    assert View([AfterRelease(stack[0], t, Entry(EmptyCoins, true, true))] + stack[1..], root, t) == Live(EmptyCoins)
           <==> View(stack[1..], root, t) == None;
  }

  /** A duplicate of stored coins, created as fresh and spent before a flush: the stored coins come back. */
  lemma SpentDuplicate(t: Txid, script: Script)
    ensures var first := CoinSet(true, [Output(50, script)], 1, 1);
            var empty: Layer := map[];
            && View([empty[t := Entry(first, true, true)]], map[t := first], t) == Some(first)
            && View([AfterRelease(empty, t, Entry(EmptyCoins, true, true))], map[t := first], t) == Some(first)
            && Live(EmptyCoins) == None
  {
    var first := CoinSet(true, [Output(50, script)], 1, 1);
    assert !first.vout[0].Null?;
  }

  /** Forgetting a fresh entry whose coins are pruned changes nothing. */
  lemma DropFreshPruned(stack: seq<Layer>, root: Root, t: Txid)
    requires Consistent(stack, root) && stack != []
    requires t in stack[0] && stack[0][t].isFresh && IsPruned(stack[0][t].coins)
    ensures Consistent([stack[0] - {t}] + stack[1..], root)
    ensures SameView(stack, root, [stack[0] - {t}] + stack[1..], root)
  {
    var stack' := [stack[0] - {t}] + stack[1..];
    assert stack'[1..] == stack[1..];
  }

  // ---------- writing a layer into the one below ----------

  /** One entry of the child written over what the parent has. */
  function MergeAt(p: Option<Entry>, e: Entry): Option<Entry> {
    if !e.isDirty then p
    else match p
      case None => if e.isFresh && IsPruned(e.coins) then None else Some(Entry(e.coins, true, e.isFresh))
      case Some(pe) => if pe.isFresh && IsPruned(e.coins) then None else Some(Entry(e.coins, true, pe.isFresh))
  }

  function At<V>(m: map<Txid, V>, t: Txid): Option<V> {
    if t in m then Some(m[t]) else None
  }

  /** The parent layer after the child has been written into it, id by id. */
  ghost predicate Merged(parent: Layer, child: Layer, after: Layer) {
    forall t :: At(after, t) == if t in child then MergeAt(At(parent, t), child[t]) else At(parent, t)
  }

  /** The root after a layer has been written into it. */
  ghost predicate Stored(root: Root, child: Layer, after: Root) {
    forall t :: At(after, t) == if t in child && child[t].isDirty then Live(child[t].coins) else At(root, t)
  }

  /** Flushing into a layer below: the parent's view becomes the child's old view. */
  lemma FlushIntoLayer(child: Layer, parent: Layer, after: Layer, rest: seq<Layer>, root: Root)
    requires Consistent([child, parent] + rest, root) && Merged(parent, child, after)
    ensures Consistent([map[], after] + rest, root)
    ensures SameView([child, parent] + rest, root, [after] + rest, root)
    ensures SameView([child, parent] + rest, root, [map[], after] + rest, root)
  {
    var stack := [child, parent] + rest;
    assert stack[1..] == [parent] + rest && ([parent] + rest)[1..] == rest;
    assert ([after] + rest)[1..] == rest && ([map[], after] + rest)[1..] == [after] + rest;
    forall t
      ensures View(stack, root, t) == View([after] + rest, root, t)
      ensures t in after ==> GoodEntry(after[t], View(rest, root, t))
    {
      MergeAtView(At(parent, t), At(child, t), View(rest, root, t));
      assert At(after, t) == if t in child then MergeAt(At(parent, t), child[t]) else At(parent, t);
    }
  }

  /** The heart of a flush, for one id. */
  lemma MergeAtView(p: Option<Entry>, e: Option<Entry>, below: Option<CoinSet>)
    requires p.Some? ==> GoodEntry(p.value, below)
    requires e.Some? ==> GoodEntry(e.value, if p.Some? then Live(p.value.coins) else below)
    ensures var r := if e.Some? then MergeAt(p, e.value) else p;
            && (r.Some? ==> GoodEntry(r.value, below))
            && (if r.Some? then Live(r.value.coins) else below)
               == (if e.Some? then Live(e.value.coins) else if p.Some? then Live(p.value.coins) else below)
  {
  }

  /** The entry of one id after one child after another has been written into the layer. */
  function MergeRun(p: Option<Entry>, es: seq<Entry>): Option<Entry> {
    if es == [] then p else MergeAt(MergeRun(p, es[..|es| - 1]), es[|es| - 1])
  }

  /** Children over a layer that knows nothing of the id mark what they create fresh. */
  predicate Follows(p: Option<Entry>, es: seq<Entry>) {
    forall i :: 0 <= i < |es| ==> es[i].isDirty && (MergeRun(p, es[..i]) == None ==> es[i].isFresh)
  }

  /** Coins never stored below are kept in the layer exactly while they are unspent, however they change. */
  lemma {:induction false} NeverStored(p: Option<Entry>, es: seq<Entry>)
    requires es != [] && Follows(p, es) && (p.Some? ==> p.value.isFresh)
    ensures var last := es[|es| - 1].coins;
            MergeRun(p, es) == if IsPruned(last) then None else Some(Entry(last, true, true))
  {
    var front := es[..|es| - 1];
    assert forall i :: 0 <= i < |front| ==> front[i] == es[i] && front[..i] == es[..i];
    if front != [] {
      NeverStored(p, front);
    }
  }

  /** Changes to coins that may be stored below are kept until they are written there. */
  lemma {:induction false} MaybeStored(p: Option<Entry>, es: seq<Entry>)
    requires es != [] && forall i :: 0 <= i < |es| ==> es[i].isDirty
    requires if p.Some? then !p.value.isFresh else !es[0].isFresh
    ensures MergeRun(p, es) == Some(Entry(es[|es| - 1].coins, true, false))
  {
    var front := es[..|es| - 1];
    if front != [] {
      MaybeStored(p, front);
    }
  }

  /** Children that changed nothing leave no trace. */
  lemma {:induction false} NothingChanged(p: Option<Entry>, es: seq<Entry>)
    requires forall i :: 0 <= i < |es| ==> !es[i].isDirty
    ensures MergeRun(p, es) == p
  {
    if es != [] {
      NothingChanged(p, es[..|es| - 1]);
    }
  }

  /** Flushing into the root. */
  lemma FlushIntoRoot(child: Layer, root: Root, after: Root)
    requires Consistent([child], root) && Stored(root, child, after)
    ensures Consistent([map[]], after)
    ensures SameView([child], root, [], after) && SameView([child], root, [map[]], after)
  {
    var empty: Layer := map[];
    assert [child][1..] == [] && [empty][1..] == [];
    forall t
      ensures View([child], root, t) == View([], after, t)
    {
      assert At(after, t) == if t in child && child[t].isDirty then Live(child[t].coins) else At(root, t);
    }
  }

  // ---------- memory accounting ----------

  type Usage = CoinSet -> nat

  ghost function Total(usage: Usage, layer: Layer): nat {
    if layer == map[] then 0
    else
      var t :| t in layer;
      usage(layer[t].coins) + Total(usage, layer - {t})
  }

  /** Any entry can be taken out of the sum first. */
  lemma {:induction false} TotalRemove(usage: Usage, layer: Layer, t: Txid)
    requires t in layer
    ensures Total(usage, layer) == usage(layer[t].coins) + Total(usage, layer - {t})
    decreases |layer|
  {
    var u :| u in layer && Total(usage, layer) == usage(layer[u].coins) + Total(usage, layer - {u});
    if u != t {
      TotalRemove(usage, layer - {u}, t);
      TotalRemove(usage, layer - {t}, u);
      assert layer - {u} - {t} == layer - {t} - {u};
    }
  }

  lemma TotalSet(usage: Usage, layer: Layer, t: Txid, e: Entry)
    ensures Total(usage, layer[t := e]) == usage(e.coins) + Total(usage, layer - {t})
  {
    assert layer[t := e] - {t} == layer - {t};
    TotalRemove(usage, layer[t := e], t);
  }
}
