/** How a block pays its masternode: `CMasternodePayments::FillBlockPayee` in
    `src/masternode-payments.cpp`.

    The payee, the payment and the block value are parameters; whether a script is that of a minted
    coin is an arbitrary predicate. */
module BlockPayee {
  import opened Arithmetic
  import opened Coins
  import opened Options

  function Total(vout: seq<TxOut>): int {
    if vout == [] then 0 else Total(vout[..|vout| - 1]) + vout[|vout| - 1].nValue
  }

  lemma {:induction false} TotalAfter(vout: seq<TxOut>, i: nat, value: int)
    requires i < |vout|
    ensures Total(vout[i := vout[i].(nValue := value)]) == Total(vout) + value - vout[i].nValue
    decreases |vout|
  {
    var n, changed := |vout| - 1, vout[i := vout[i].(nValue := value)];
    if i == n {
      assert changed[..n] == vout[..n];
    } else {
      TotalAfter(vout[..n], i, value);
      assert changed[..n] == vout[..n][i := vout[..n][i].(nValue := value)];
    }
  }

  lemma TotalMore(vout: seq<TxOut>, out: TxOut)
    ensures Total(vout + [out]) == Total(vout) + out.nValue
  {
    assert (vout + [out])[..|vout|] == vout;
  }

  /** Integer division as in C++: towards zero. */
  function Quotient(n: int, k: int): int
    requires k > 0
  {
    if n >= 0 then n / k else -((-n) / k)
  }

  /** The remainder is smaller than the divisor and has the sign of the dividend. */
  lemma QuotientTruncates(n: int, k: int)
    requires k > 0
    ensures var r := n - Quotient(n, k) * k; -k < r < k && (n >= 0 ==> r >= 0) && (n <= 0 ==> r <= 0)
  {
    DivModEquation(if n >= 0 then n else -n, k);
    assert n < 0 ==> -((-n) / k) * k == -((-n) / k * k);
  }

  function Resized(vout: seq<TxOut>, n: nat): (r: seq<TxOut>)
    ensures |r| == n && forall i :: 0 <= i < n ==> r[i] == if i < |vout| then vout[i] else NULL_OUT
  {
    if n <= |vout| then vout[..n] else vout + seq(n - |vout|, i => NULL_OUT)
  }

  /** What each of the outputs after the first pays of the payment; the last one also pays the
      remainder. */
  function Share(payment: int, outputs: nat, j: nat): int
    requires 1 <= j <= outputs
  {
    var split := Quotient(payment, outputs);
    if j == outputs then payment - split * (outputs - 1) else split
  }

  /** The stake reward pays the masternode unless it has no output of its own or is a mint. */
  predicate Deducts(vout: seq<TxOut>, isMint: Script -> bool) {
    |vout| >= 2 && !isMint(vout[1].scriptPubKey)
  }

  /** The output that pays the masternode, where `before` was. */
  function Paying(before: TxOut, payee: Script, payment: int): TxOut {
    before.(nValue := payment, scriptPubKey := payee)
  }

  /** The payment is appended; the outputs between the first and the payment pay their shares. */
  ghost predicate StakeFilled(was: seq<TxOut>, vout: seq<TxOut>, payee: Script, payment: int, isMint: Script -> bool) {
    var n := |was|;
    && n >= 1 && |vout| == n + 1 && vout[n] == Paying(NULL_OUT, payee, payment) && vout[0] == was[0]
    && forall j :: 1 <= j < n ==>
         vout[j] == if Deducts(was, isMint) then was[j].(nValue := was[j].nValue - Share(payment, n - 1, j)) else was[j]
  }

  class CMutableTransaction {
    var vout: seq<TxOut>

    constructor (vout: seq<TxOut>)
      ensures this.vout == vout
    {
      this.vout := vout;
    }

    /** The reward is shared by all outputs after the first, except the last one, which is the
        masternode's. */
    method Deduct(payment: int)
      requires |vout| >= 4
      modifies this
      ensures |vout| == |old(vout)| && vout[0] == old(vout)[0] && vout[|vout| - 1] == old(vout)[|vout| - 1]
      ensures forall j :: 1 <= j < |vout| - 1 ==>
              vout[j] == old(vout)[j].(nValue := old(vout)[j].nValue - Share(payment, |vout| - 2, j))
      ensures Total(vout) == Total(old(vout)) - payment
    {
      var outputs := |vout| - 2;
      var mnPaymentSplit := Quotient(payment, outputs);
      var mnPaymentRemainder := payment - mnPaymentSplit * outputs;
      Distribute(mnPaymentSplit, outputs);
      TotalAfter(vout, outputs, vout[outputs].nValue - mnPaymentRemainder);
      vout := vout[outputs := vout[outputs].(nValue := vout[outputs].nValue - mnPaymentRemainder)];
      LastShare(payment, mnPaymentSplit, outputs);
    }

    method Distribute(split: int, outputs: nat)
      requires outputs < |vout|
      modifies this
      ensures |vout| == |old(vout)| && vout[0] == old(vout)[0]
      ensures forall j :: 1 <= j <= outputs ==> vout[j] == old(vout)[j].(nValue := old(vout)[j].nValue - split)
      ensures forall j :: outputs < j < |vout| ==> vout[j] == old(vout)[j]
      ensures Total(vout) == Total(old(vout)) - split * outputs
    {
      var j := 1;
      while j <= outputs
        invariant 1 <= j <= outputs + 1 && |vout| == |old(vout)| && vout[0] == old(vout)[0]
        invariant forall k :: 1 <= k < j ==> vout[k] == old(vout)[k].(nValue := old(vout)[k].nValue - split)
        invariant forall k :: j <= k < |vout| ==> vout[k] == old(vout)[k]
        invariant Total(vout) == Total(old(vout)) - split * (j - 1)
      {
        TotalAfter(vout, j, vout[j].nValue - split);
        OneMoreShare(split, j);
        vout := vout[j := vout[j].(nValue := vout[j].nValue - split)];
        j := j + 1;
      }
    }

    /** The payment comes after all other outputs. */
    method Append(payee: Script, payment: int)
      modifies this
      ensures vout == old(vout) + [Paying(NULL_OUT, payee, payment)] && Total(vout) == Total(old(vout)) + payment
    {
      var i := |vout|;
      ghost var was := vout;
      vout := Resized(vout, i + 1);
      vout := vout[i := vout[i].(scriptPubKey := payee)];
      vout := vout[i := vout[i].(nValue := payment)];
      assert vout == was + [Paying(NULL_OUT, payee, payment)];
      TotalMore(was, Paying(NULL_OUT, payee, payment));
    }

    /** A proof-of-stake block: the payment is appended, and the stake outputs pay for it. */
    method FillStake(payee: Script, payment: int, isMint: Script -> bool)
      requires |vout| >= 1
      modifies this
      ensures StakeFilled(old(vout), vout, payee, payment, isMint)
      ensures Total(vout) == Total(old(vout)) + if Deducts(old(vout), isMint) then 0 else payment
    {
      var i := |vout|;
      Append(payee, payment);
      if !isMint(vout[1].scriptPubKey) {
        if i == 2 {
          TotalAfter(vout, i - 1, vout[i - 1].nValue - payment);
          vout := vout[i - 1 := vout[i - 1].(nValue := vout[i - 1].nValue - payment)];
          assert Share(payment, 1, 1) == payment;
        } else if i > 2 {
          Deduct(payment);
        }
      }
    }

    /** A proof-of-work block: the reward is split into two outputs. */
    method FillWork(payee: Script, payment: int, blockValue: int)
      requires |vout| >= 1
      modifies this
      ensures |vout| == 2 && vout[1] == Paying(Resized(old(vout), 2)[1], payee, payment)
              && vout[0] == old(vout)[0].(nValue := blockValue - payment)
      ensures Total(vout) == blockValue
    {
      vout := Resized(vout, 2);
      vout := vout[1 := vout[1].(scriptPubKey := payee)];
      vout := vout[1 := vout[1].(nValue := payment)];
      vout := vout[0 := vout[0].(nValue := blockValue - payment)];
      assert vout[..1] == [vout[0]] && Total([vout[0]]) == vout[0].nValue;
    }

    /** `payee` is nobody if there is neither a winner of the vote nor any masternode. */
    method FillBlockPayee(payee: Option<Script>, payment: int, blockValue: int, fProofOfStake: bool,
      isMint: Script -> bool)
      requires |vout| >= 1
      modifies this
      ensures payee == None ==> vout == old(vout)
      ensures payee.Some? && fProofOfStake ==>
                StakeFilled(old(vout), vout, payee.value, payment, isMint) &&
                (Total(vout) == Total(old(vout)) <==> Deducts(old(vout), isMint) || payment == 0)
      ensures payee.Some? && !fProofOfStake ==>
                |vout| == 2 && vout[1] == Paying(Resized(old(vout), 2)[1], payee.value, payment)
                  && vout[0].scriptPubKey == old(vout)[0].scriptPubKey &&
                Total(vout) == blockValue
    {
      if payee.Some? {
        if fProofOfStake {
          FillStake(payee.value, payment, isMint);
        } else {
          FillWork(payee.value, payment, blockValue);
        }
      }
    }
  }

  /** A stake that is a mint does not pay: a block with one stake output of 100 pays out 105 once the
      masternode has got 5. */
  lemma MintStakeDoesNotPay(was: seq<TxOut>, vout: seq<TxOut>, mint: Script, payee: Script, isMint: Script -> bool)
    requires isMint(mint) && was == [TxOut(0, [], -10), TxOut(100, mint, -10)]
    requires StakeFilled(was, vout, payee, 5, isMint)
    ensures Total(was) == 100 && Total(vout) == 105
  {
    TotalMore([], was[0]);
    TotalMore([was[0]], was[1]);
    assert [] + [was[0]] == [was[0]];
    TotalMore(was, vout[2]);
    assert vout == was + [vout[2]];
  }

  lemma OneMoreShare(split: int, j: int)
    ensures split * j == split * (j - 1) + split
  {
  }

  /** The last output pays its split and the remainder. */
  lemma LastShare(payment: int, split: int, outputs: nat)
    requires outputs >= 1 && split == Quotient(payment, outputs)
    ensures Share(payment, outputs, outputs) == split + (payment - split * outputs)
  {
    OneMoreShare(split, outputs);
  }

  /** No output pays more than the others but the last one, which pays less than one unit more for each
      output. */
  lemma SharesAreEven(payment: nat, outputs: nat, j: nat, k: nat)
    requires 1 <= j < k <= outputs
    ensures 0 <= Share(payment, outputs, j) <= Share(payment, outputs, k) < Share(payment, outputs, j) + outputs
  {
    DivModEquation(payment, outputs);
    var split := payment / outputs;
    LastShare(payment, split, outputs);
    MulCommutes(split, outputs);
  }
}
