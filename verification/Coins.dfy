/** Unspent outputs of one transaction (`CCoins` in `src/coins.h` and `src/coins.cpp`). */
module Coins {
  import opened Options

  type Script = seq<nat>

  datatype TxOut = TxOut(nValue: int, scriptPubKey: Script, nRounds: int)
  {
    predicate IsNull() { nValue == -1 }
  }

  /** What `SetNull` and the default constructor of `CTxOut` make. */
  const NULL_OUT := TxOut(-1, [], -10)

  datatype Coins = Coins(fCoinBase: bool, fCoinStake: bool, vout: seq<TxOut>, nHeight: int, nVersion: int)
  {
    predicate IsPruned() {
      forall i :: 0 <= i < |vout| ==> vout[i].IsNull()
    }
  }

  /** The default constructor and `Clear`. */
  const EMPTY := Coins(false, false, [], 0, 0)

  /** The output at a position; beyond the end every output is spent. */
  function OutAt(vout: seq<TxOut>, i: nat): TxOut {
    if i < |vout| then vout[i] else NULL_OUT
  }

  function Trimmed(vout: seq<TxOut>): (r: seq<TxOut>)
    ensures |r| <= |vout| && r == vout[..|r|]
    ensures r != [] ==> !r[|r| - 1].IsNull()
    ensures forall i :: |r| <= i < |vout| ==> vout[i].IsNull()
  {
    if vout != [] && vout[|vout| - 1].IsNull() then Trimmed(vout[..|vout| - 1]) else vout
  }

  function Cleaned(c: Coins): Coins {
    c.(vout := Trimmed(c.vout))
  }

  ghost predicate IsClean(c: Coins) {
    c.vout != [] ==> !c.vout[|c.vout| - 1].IsNull()
  }

  /** `Cleanup` drops the spent outputs at the end. */
  method Cleanup(c: Coins) returns (r: Coins)
    ensures r == Cleaned(c) && IsClean(r)
  {
    r := c;
    while |r.vout| > 0 && r.vout[|r.vout| - 1].IsNull()
      invariant Cleaned(r) == Cleaned(c)
      decreases |r.vout|
    {
      r := r.(vout := r.vout[..|r.vout| - 1]);
    }
  }

  /** After a clean-up, having no outputs and having no unspent output are the same. */
  lemma CleanAndPruned(c: Coins)
    requires IsClean(c)
    ensures c.IsPruned() <==> c.vout == []
    ensures Cleaned(c) == c
  {
    if c.vout != [] { assert !c.vout[|c.vout| - 1].IsNull(); }
  }

  lemma CleaningKeepsPruned(c: Coins)
    ensures IsClean(Cleaned(c)) && (Cleaned(c).IsPruned() <==> c.IsPruned())
  {
    var t := Trimmed(c.vout);
    if Cleaned(c).IsPruned() {
      forall i | 0 <= i < |c.vout| ensures c.vout[i].IsNull() {
        if i < |t| { assert t[i].IsNull() && t[i] == c.vout[i]; }
      }
    }
  }

  ghost predicate SameOutputs(a: seq<TxOut>, b: seq<TxOut>) {
    forall i: nat :: OutAt(a, i) == OutAt(b, i)
  }

  /** Outputs that agree at every position are the same after a clean-up. */
  lemma SameOutputsTrimmed(a: seq<TxOut>, b: seq<TxOut>)
    requires SameOutputs(a, b)
    ensures Trimmed(a) == Trimmed(b)
  {
    var t, u := Trimmed(a), Trimmed(b);
    if |t| > 0 { assert OutAt(a, |t| - 1) == OutAt(b, |t| - 1); }
    if |u| > 0 { assert OutAt(a, |u| - 1) == OutAt(b, |u| - 1); }
    assert |t| == |u|;
    forall i | 0 <= i < |t| ensures t[i] == u[i] {
      assert OutAt(a, i) == OutAt(b, i);
    }
  }

  ghost predicate SameUnspent(a: seq<TxOut>, b: seq<TxOut>) {
    forall i: nat :: if OutAt(b, i).nValue == -1 then OutAt(a, i).nValue == -1 else OutAt(a, i) == OutAt(b, i)
  }

  /** A clean-up keeps every unspent output, at its position, and adds none. */
  lemma CleanedOutputs(vout: seq<TxOut>)
    ensures SameUnspent(Trimmed(vout), vout)
  {
  }

  // ---------------------------------------------------------------- spending

  /** Undo data; the height and flags of the transaction are kept with its last output only. */
  datatype Undo = Undo(txout: TxOut, nHeight: int, fCoinBase: bool, fCoinStake: bool, nVersion: int)

  method Spend(c: Coins, n: nat) returns (ok: bool, r: Coins, undo: Option<Undo>)
    ensures ok <==> n < |c.vout| && !c.vout[n].IsNull()
    ensures !ok ==> r == c && undo == None
    ensures ok ==> && IsClean(r) && r == Cleaned(c.(vout := c.vout[n := NULL_OUT]))
                   && undo.Some?
                   && undo.value == if r.IsPruned()
                                    then Undo(c.vout[n], c.nHeight, c.fCoinBase, c.fCoinStake, c.nVersion)
                                    else Undo(c.vout[n], 0, false, false, 0)
  {
    if n >= |c.vout| || c.vout[n].IsNull() {
      return false, c, None;
    }
    var u := Undo(c.vout[n], 0, false, false, 0);
    r := Cleanup(c.(vout := c.vout[n := NULL_OUT]));
    CleanAndPruned(r);
    if |r.vout| == 0 {
      u := Undo(u.txout, r.nHeight, r.fCoinBase, r.fCoinStake, r.nVersion);
    }
    ok, undo := true, Some(u);
  }

  /** Spending makes exactly one output unavailable. */
  lemma SpendIsExact(c: Coins, n: nat, i: nat)
    requires n < |c.vout|
    ensures var r := Cleaned(c.(vout := c.vout[n := NULL_OUT]));
            OutAt(r.vout, i).IsNull() <==> i == n || OutAt(c.vout, i).IsNull()
    ensures var r := Cleaned(c.(vout := c.vout[n := NULL_OUT]));
            i != n && !OutAt(c.vout, i).IsNull() ==> OutAt(r.vout, i) == OutAt(c.vout, i)
  {
    var v := c.vout[n := NULL_OUT];
    var t := Trimmed(v);
    if i < |t| { assert t[i] == v[i]; } else if i < |v| { assert v[i].IsNull(); }
  }
}
