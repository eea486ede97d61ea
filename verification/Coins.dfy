/** Unspent outputs of one transaction, and their trimming. */
module Coins {

  type Script(==, !new, 0)

  /** A spent output is the null output. */
  datatype TxOut = Null | Output(nValue: int, script: Script)

  datatype CoinSet = CoinSet(fCoinBase: bool, vout: seq<TxOut>, nHeight: int, nVersion: int)

  const EmptyCoins := CoinSet(false, [], 0, 0)

  predicate IsPruned(c: CoinSet) {
    forall i :: 0 <= i < |c.vout| ==> c.vout[i].Null?
  }

  /** No spent outputs at the end. */
  predicate Clean(c: CoinSet) {
    c.vout == [] || !c.vout[|c.vout| - 1].Null?
  }

  predicate IsAvailable(c: CoinSet, n: nat) {
    n < |c.vout| && !c.vout[n].Null?
  }

  function Trim(vout: seq<TxOut>): (r: seq<TxOut>)
    ensures r <= vout && (r == [] || !r[|r| - 1].Null?)
    ensures forall i :: |r| <= i < |vout| ==> vout[i].Null?
  {
    if vout != [] && vout[|vout| - 1].Null? then Trim(vout[..|vout| - 1]) else vout
  }

  function Cleaned(c: CoinSet): (r: CoinSet)
    ensures Clean(r)
    ensures forall n: nat :: IsAvailable(r, n) == IsAvailable(c, n)
    ensures IsPruned(r) == IsPruned(c)
  {
    c.(vout := Trim(c.vout))
  }

  /** Trimming is the only clean coin set with the same available outputs. */
  lemma CleanUnique(a: seq<TxOut>, b: seq<TxOut>)
    requires a == [] || !a[|a| - 1].Null?
    requires b == [] || !b[|b| - 1].Null?
    requires forall i :: 0 <= i < |a| && !a[i].Null? ==> i < |b| && b[i] == a[i]
    requires forall i :: 0 <= i < |b| && !b[i].Null? ==> i < |a| && a[i] == b[i]
    ensures a == b
  {
    if |a| > 0 { assert !a[|a| - 1].Null?; }
    if |b| > 0 { assert !b[|b| - 1].Null?; }
  }

  method Cleanup(vout: seq<TxOut>) returns (r: seq<TxOut>)
    ensures r == Trim(vout)
  {
    r := vout;
    while |r| > 0 && r[|r| - 1].Null?
      invariant Trim(r) == Trim(vout)
    {
      r := r[..|r| - 1];
    }
  }

  /** Spending removes exactly one available output, and reports whether there was one. */
  method Spend(c: CoinSet, nPos: nat) returns (c': CoinSet, ok: bool)
    ensures ok == IsAvailable(c, nPos)
    ensures if ok then Clean(c') else c' == c
    ensures c'.fCoinBase == c.fCoinBase && c'.nHeight == c.nHeight && c'.nVersion == c.nVersion
    ensures forall n: nat :: IsAvailable(c', n) == (IsAvailable(c, n) && n != nPos)
    ensures forall n: nat :: IsAvailable(c', n) ==> n < |c.vout| && c'.vout[n] == c.vout[n]
  {
    if nPos >= |c.vout| || c.vout[nPos].Null? {
      return c, false;
    }
    var vout := Cleanup(c.vout[nPos := Null]);
    c' := c.(vout := vout);
    ok := true;
    assert c' == Cleaned(c.(vout := c.vout[nPos := Null]));
  }
}
