/** Votes for the masternode to be paid (`src/masternode-payments.h`, `src/masternode-payments.cpp`): a
    set of stored votes, and a tally of them for each block height.

    The hash of a vote is an arbitrary function. */
module MasternodeVotes {
  import opened Arithmetic
  import opened Coins
  import opened Options
  import opened Sets

  datatype Winner = Winner(vinMasternode: int, nBlockHeight: int, payee: Script)

  datatype Payee = Payee(scriptPubKey: Script, nVotes: int)

  const SIGNATURES_REQUIRED: int := 6

  // ---------------------------------------------------------------- one tally

  predicate Distinct(v: seq<Payee>) {
    forall i, j :: 0 <= i < j < |v| ==> v[i].scriptPubKey != v[j].scriptPubKey
  }

  /** The votes recorded for a payee. */
  function Recorded(v: seq<Payee>, p: Script): int {
    if v == [] then 0
    else if v[|v| - 1].scriptPubKey == p then v[|v| - 1].nVotes
    else Recorded(v[..|v| - 1], p)
  }

  lemma {:induction false} RecordedAt(v: seq<Payee>, p: Script)
    requires Distinct(v)
    ensures forall i :: 0 <= i < |v| && v[i].scriptPubKey == p ==> Recorded(v, p) == v[i].nVotes
    ensures (forall i :: 0 <= i < |v| ==> v[i].scriptPubKey != p) ==> Recorded(v, p) == 0
  {
    if v != [] { RecordedAt(v[..|v| - 1], p); }
  }

  /** One more list of payees: the votes of `p` grew by `n`, all others are as before. */
  ghost predicate OneMore(v: seq<Payee>, v': seq<Payee>, p: Script, n: int) {
    forall q {:trigger Recorded(v', q)} :: Recorded(v', q) == Recorded(v, q) + if q == p then n else 0
  }

  lemma Increased(v: seq<Payee>, i: nat, p: Script, n: int)
    requires Distinct(v) && i < |v| && v[i].scriptPubKey == p
    ensures var v' := v[i := Payee(p, v[i].nVotes + n)]; Distinct(v') && OneMore(v, v', p, n)
  {
    var v' := v[i := Payee(p, v[i].nVotes + n)];
    forall q ensures Recorded(v', q) == Recorded(v, q) + if q == p then n else 0 {
      RecordedAt(v, q);
      RecordedAt(v', q);
      if j :| 0 <= j < |v| && v[j].scriptPubKey == q {
        assert v'[j].scriptPubKey == q;
      }
    }
  }

  lemma Appended(v: seq<Payee>, p: Script, n: int)
    requires Distinct(v) && forall i :: 0 <= i < |v| ==> v[i].scriptPubKey != p
    ensures Distinct(v + [Payee(p, n)]) && OneMore(v, v + [Payee(p, n)], p, n)
  {
    var v' := v + [Payee(p, n)];
    assert v'[..|v|] == v;
    RecordedAt(v, p);
  }

  /** Payees stay where they are; a new one comes last. */
  ghost predicate OrderKept(v: seq<Payee>, v': seq<Payee>, p: Script) {
    && |v| <= |v'| <= |v| + 1
    && (forall i :: 0 <= i < |v| ==> v'[i].scriptPubKey == v[i].scriptPubKey)
    && (|v'| > |v| ==> v'[|v|].scriptPubKey == p)
  }

  /** Whether the transaction pays at least `required` to the payee. */
  ghost predicate Pays(vout: seq<TxOut>, p: Script, required: int) {
    exists i :: 0 <= i < |vout| && vout[i].scriptPubKey == p && vout[i].nValue >= required
  }

  class CMasternodeBlockPayees {
    var nBlockHeight: int
    var vecPayments: seq<Payee>

    constructor (nBlockHeightIn: int)
      ensures nBlockHeight == nBlockHeightIn && vecPayments == []
    {
      nBlockHeight, vecPayments := nBlockHeightIn, [];
    }

    method AddPayee(payeeIn: Script, nIncrement: int)
      requires Distinct(vecPayments)
      modifies this`vecPayments
      ensures Distinct(vecPayments) && OneMore(old(vecPayments), vecPayments, payeeIn, nIncrement)
      ensures nIncrement > 0 && Positive(old(vecPayments)) ==> Positive(vecPayments)
      ensures OrderKept(old(vecPayments), vecPayments, payeeIn)
    {
      for i := 0 to |vecPayments|
        invariant forall j :: 0 <= j < i ==> vecPayments[j].scriptPubKey != payeeIn
        invariant vecPayments == old(vecPayments)
      {
        if vecPayments[i].scriptPubKey == payeeIn {
          Increased(vecPayments, i, payeeIn, nIncrement);
          vecPayments := vecPayments[i := Payee(payeeIn, vecPayments[i].nVotes + nIncrement)];
          return;
        }
      }
      Appended(vecPayments, payeeIn, nIncrement);
      vecPayments := vecPayments + [Payee(payeeIn, nIncrement)];
    }

    /** The first payee with the most votes, if some payee has no negative number of votes. */
    method GetPayee() returns (found: bool, payee: Script, ghost best: int)
      ensures found <==> exists i :: 0 <= i < |vecPayments| && vecPayments[i].nVotes >= 0
      ensures found ==> 0 <= best < |vecPayments| && vecPayments[best].scriptPubKey == payee
      ensures found ==> forall j :: 0 <= j < |vecPayments| ==> vecPayments[j].nVotes <= vecPayments[best].nVotes
      ensures found ==> forall j :: 0 <= j < best ==> vecPayments[j].nVotes < vecPayments[best].nVotes
    {
      var nVotes := -1;
      payee, best := [], -1;
      for i := 0 to |vecPayments|
        invariant if best == -1 then nVotes == -1
                  else 0 <= best < i && vecPayments[best] == Payee(payee, nVotes)
                       && nVotes >= 0
        invariant forall j :: 0 <= j < i ==> vecPayments[j].nVotes <= nVotes
        invariant forall j :: 0 <= j < best ==> vecPayments[j].nVotes < nVotes
      {
        if vecPayments[i].nVotes > nVotes {
          payee, nVotes := vecPayments[i].scriptPubKey, vecPayments[i].nVotes;
          best := i;
        }
      }
      found := nVotes > -1;
    }

    method HasPayeeWithVotes(payee: Script, nVotesReq: int) returns (r: bool)
      ensures r <==> exists i ::
              0 <= i < |vecPayments| && vecPayments[i].nVotes >= nVotesReq
              && vecPayments[i].scriptPubKey == payee
      ensures Distinct(vecPayments) && nVotesReq > 0 ==> (r <==> Recorded(vecPayments, payee) >= nVotesReq)
    {
      if Distinct(vecPayments) { RecordedAt(vecPayments, payee); }
      for i := 0 to |vecPayments|
        invariant forall j :: 0 <= j < i ==>
                  !(vecPayments[j].nVotes >= nVotesReq && vecPayments[j].scriptPubKey == payee)
      {
        if vecPayments[i].nVotes >= nVotesReq && vecPayments[i].scriptPubKey == payee { return true; }
      }
      return false;
    }

    /** The most votes of a payee with enough signatures, or zero. */
    method MaxSignatures() returns (nMaxSignatures: int)
      ensures nMaxSignatures < SIGNATURES_REQUIRED <==> forall i :: 0 <= i < |vecPayments| ==>
              vecPayments[i].nVotes < SIGNATURES_REQUIRED
    {
      nMaxSignatures := 0;
      for i := 0 to |vecPayments|
        invariant nMaxSignatures == 0 || nMaxSignatures >= SIGNATURES_REQUIRED
        invariant nMaxSignatures == 0 <==> forall j :: 0 <= j < i ==> vecPayments[j].nVotes < SIGNATURES_REQUIRED
      {
        if vecPayments[i].nVotes >= nMaxSignatures && vecPayments[i].nVotes >= SIGNATURES_REQUIRED {
          nMaxSignatures := vecPayments[i].nVotes;
        }
      }
    }

    /** `required` is the payment due at this height. */
    method IsTransactionValid(vout: seq<TxOut>, required: int) returns (r: bool)
      requires Distinct(vecPayments)
      ensures r <==> Approved(vecPayments, vout, required)
    {
      SignedBy(vecPayments, vout, required);
      var nMaxSignatures := MaxSignatures();
      if nMaxSignatures < SIGNATURES_REQUIRED { return true; }
      for i := 0 to |vecPayments|
        invariant forall j :: 0 <= j < i && vecPayments[j].nVotes >= SIGNATURES_REQUIRED ==>
                  !Pays(vout, vecPayments[j].scriptPubKey, required)
      {
        var found := IsPaid(vout, vecPayments[i].scriptPubKey, required);
        if vecPayments[i].nVotes >= SIGNATURES_REQUIRED {
          if found { return true; }
        }
      }
      return false;
    }
  }

  /** Nobody has enough votes, or somebody who has is paid enough. */
  ghost predicate Approved(v: seq<Payee>, vout: seq<TxOut>, required: int) {
    || (forall p :: Recorded(v, p) < SIGNATURES_REQUIRED)
    || exists p :: Recorded(v, p) >= SIGNATURES_REQUIRED && Pays(vout, p, required)
  }

  /** The payees with enough votes are those of the entries with enough votes. */
  lemma SignedBy(v: seq<Payee>, vout: seq<TxOut>, required: int)
    requires Distinct(v)
    ensures Approved(v, vout, required) <==>
              || (forall i :: 0 <= i < |v| ==> v[i].nVotes < SIGNATURES_REQUIRED)
              || exists i ::
                0 <= i < |v| && v[i].nVotes >= SIGNATURES_REQUIRED
                && Pays(vout, v[i].scriptPubKey, required)
  {
    forall i | 0 <= i < |v| ensures Recorded(v, v[i].scriptPubKey) == v[i].nVotes { RecordedAt(v, v[i].scriptPubKey); }
    forall p | Recorded(v, p) >= SIGNATURES_REQUIRED
      ensures exists i :: 0 <= i < |v| && v[i].scriptPubKey == p && v[i].nVotes >= SIGNATURES_REQUIRED
    {
      RecordedAt(v, p);
    }
  }

  method IsPaid(vout: seq<TxOut>, p: Script, required: int) returns (found: bool)
    ensures found <==> Pays(vout, p, required)
  {
    found := false;
    for i := 0 to |vout|
      invariant found <==> Pays(vout[..i], p, required)
    {
      if vout[i].scriptPubKey == p {
        if vout[i].nValue >= required { found := true; }
      }
      assert vout[..i + 1] == vout[..i] + [vout[i]];
      PaysMore(vout[..i], vout[i], p, required);
    }
    assert vout[..|vout|] == vout;
  }

  lemma PaysMore(vout: seq<TxOut>, out: TxOut, p: Script, required: int)
    ensures Pays(vout + [out], p, required) <==>
            Pays(vout, p, required) || (out.scriptPubKey == p && out.nValue >= required)
  {
    if i :| 0 <= i < |vout| && vout[i].scriptPubKey == p && vout[i].nValue >= required {
      assert (vout + [out])[i] == vout[i];
    }
    if out.scriptPubKey == p && out.nValue >= required { assert (vout + [out])[|vout|] == out; }
  }

  ghost predicate Positive(v: seq<Payee>) {
    forall i :: 0 <= i < |v| ==> v[i].nVotes > 0
  }

  // ---------------------------------------------------------------- votes and tallies

  /** The stored votes for a payee at a height. */
  function VotesFor(votes: map<int, Winner>, h: int, p: Script): set<int> {
    set k | k in votes && votes[k].nBlockHeight == h && votes[k].payee == p
  }

  function At(blocks: map<int, seq<Payee>>, h: int): seq<Payee> {
    if h in blocks then blocks[h] else []
  }

  /** The tally of a height counts exactly the stored votes. */
  ghost predicate Counted(votes: map<int, Winner>, v: seq<Payee>, h: int) {
    Distinct(v) && Positive(v) && forall p {:trigger Recorded(v, p)} :: Recorded(v, p) == |VotesFor(votes, h, p)|
  }

  ghost predicate Tallied(votes: map<int, Winner>, blocks: map<int, seq<Payee>>, h: int) {
    Counted(votes, At(blocks, h), h)
  }

  ghost predicate Inv(votes: map<int, Winner>, blocks: map<int, seq<Payee>>) {
    forall h {:trigger Tallied(votes, blocks, h)} :: Tallied(votes, blocks, h)
  }

  /** Storing a vote under a new hash adds one to its payee at its height. */
  lemma StoredVotes(votes: map<int, Winner>, k: int, w: Winner, h: int, p: Script)
    requires k !in votes
    ensures |VotesFor(votes[k := w], h, p)| == |VotesFor(votes, h, p)| + if w.nBlockHeight == h
            && w.payee == p then 1 else 0
  {
    if w.nBlockHeight == h && w.payee == p {
      assert VotesFor(votes[k := w], h, p) == VotesFor(votes, h, p) + {k};
    } else {
      assert VotesFor(votes[k := w], h, p) == VotesFor(votes, h, p);
    }
  }

  /** Storing a vote and adding it to the tally of its height keeps all tallies exact. */
  lemma AddedKeeps(votes: map<int, Winner>, blocks: map<int, seq<Payee>>, mid: map<int, seq<Payee>>, blocks': map<int,
    seq<Payee>>,
                   k: int, w: Winner)
    requires Inv(votes, blocks) && k !in votes && mid == blocks[w.nBlockHeight := At(blocks, w.nBlockHeight)]
    requires blocks' == mid[w.nBlockHeight := At(blocks', w.nBlockHeight)]
    requires var v := At(blocks', w.nBlockHeight);
             Distinct(v) && Positive(v)
             && OneMore(At(blocks, w.nBlockHeight), v, w.payee, 1)
    ensures Inv(votes[k := w], blocks')
  {
    var votes' := votes[k := w];
    forall h ensures Tallied(votes', blocks', h) {
      assert Tallied(votes, blocks, h);
      forall p ensures Recorded(At(blocks', h), p) == |VotesFor(votes', h, p)| {
        StoredVotes(votes, k, w, h, p);
        assert Recorded(At(blocks, h), p) == |VotesFor(votes, h, p)|;
      }
    }
  }

  /** Whether cleaning drops the votes of a height. */
  predicate Stale(h: int, nHeight: int, nLimit: int) { nHeight - h > nLimit }

  /** All votes of stale heights are gone, with the tallies of these heights; nothing else is. */
  ghost predicate CleanResult(votes: map<int, Winner>, votes': map<int, Winner>, blocks: map<int, seq<Payee>>,
                              blocks': map<int, seq<Payee>>, nHeight: int, nLimit: int) {
    && (forall k :: k in votes' <==> k in votes && !Stale(votes[k].nBlockHeight, nHeight, nLimit))
    && (forall k :: k in votes' ==> votes'[k] == votes[k])
    && (forall h :: At(blocks', h) == if Stale(h, nHeight, nLimit) then [] else At(blocks, h))
  }

  /** Cleaning keeps all tallies exact, because it treats all votes of a height alike. */
  lemma CleanedKeeps(votes: map<int, Winner>, votes': map<int, Winner>, blocks: map<int, seq<Payee>>,
                     blocks': map<int, seq<Payee>>, nHeight: int, nLimit: int)
    requires Inv(votes, blocks) && CleanResult(votes, votes', blocks, blocks', nHeight, nLimit)
    ensures Inv(votes', blocks')
  {
    forall h ensures Tallied(votes', blocks', h) {
      assert Tallied(votes, blocks, h);
      forall p ensures Recorded(At(blocks', h), p) == |VotesFor(votes', h, p)| {
        if Stale(h, nHeight, nLimit) {
          NobodyVotes(votes', h, p);
        } else {
          forall k ensures k in VotesFor(votes', h, p) <==> k in VotesFor(votes, h, p) { }
          assert VotesFor(votes', h, p) == VotesFor(votes, h, p);
          assert Recorded(At(blocks, h), p) == |VotesFor(votes, h, p)|;
        }
      }
    }
  }

  /** A tally without stored votes is empty. */
  lemma NoVotesNoTally(votes: map<int, Winner>, blocks: map<int, seq<Payee>>, h: int)
    requires Inv(votes, blocks)
    requires forall k :: k in votes ==> votes[k].nBlockHeight != h
    ensures At(blocks, h) == []
  {
    assert Tallied(votes, blocks, h);
    var v := At(blocks, h);
    if v != [] {
      var p := v[0].scriptPubKey;
      RecordedAt(v, p);
      assert Recorded(v, p) == |VotesFor(votes, h, p)|;
      NobodyVotes(votes, h, p);
    }
  }

  /** A height has a tally exactly if some vote for it is stored. */
  lemma TallyIsVotes(votes: map<int, Winner>, blocks: map<int, seq<Payee>>, h: int)
    requires Inv(votes, blocks)
    ensures At(blocks, h) != [] <==> exists k :: k in votes && votes[k].nBlockHeight == h
  {
    if k :| k in votes && votes[k].nBlockHeight == h {
      assert Tallied(votes, blocks, h);
      assert k in VotesFor(votes, h, votes[k].payee);
      assert Recorded(At(blocks, h), votes[k].payee) == |VotesFor(votes, h, votes[k].payee)|;
    } else {
      NoVotesNoTally(votes, blocks, h);
    }
  }

  /** The entry with the most votes is that of the payee with the most stored votes. */
  lemma MostVotes(votes: map<int, Winner>, blocks: map<int, seq<Payee>>, h: int, best: int)
    requires Inv(votes, blocks) && 0 <= best < |At(blocks, h)|
    requires forall j :: 0 <= j < |At(blocks, h)| ==> At(blocks, h)[j].nVotes <= At(blocks, h)[best].nVotes
    ensures forall q :: |VotesFor(votes, h, q)| <= |VotesFor(votes, h, At(blocks, h)[best].scriptPubKey)|
  {
    var v := At(blocks, h);
    assert Tallied(votes, blocks, h);
    RecordedAt(v, v[best].scriptPubKey);
    assert Recorded(v, v[best].scriptPubKey) == |VotesFor(votes, h, v[best].scriptPubKey)|;
    forall q ensures |VotesFor(votes, h, q)| <= |VotesFor(votes, h, v[best].scriptPubKey)| {
      RecordedAt(v, q);
      assert Recorded(v, q) == |VotesFor(votes, h, q)|;
    }
  }

  lemma TallyIsSound(votes: map<int, Winner>, blocks: map<int, seq<Payee>>, h: int)
    requires Inv(votes, blocks)
    ensures Distinct(At(blocks, h)) && Positive(At(blocks, h))
  {
    assert Tallied(votes, blocks, h);
  }

  lemma NobodyVotes(votes: map<int, Winner>, h: int, p: Script)
    requires forall k :: k in votes ==> votes[k].nBlockHeight != h
    ensures |VotesFor(votes, h, p)| == 0
  {
    forall k ensures k !in VotesFor(votes, h, p) { }
    assert VotesFor(votes, h, p) == {};
  }

  class CMasternodePayments {
    const hashOf: Winner -> int
    var mapMasternodePayeeVotes: map<int, Winner>
    var mapMasternodeBlocks: map<int, CMasternodeBlockPayees>

    /** Every height has a tally of its own. */
    ghost predicate Separate()
      reads this`mapMasternodeBlocks
    {
      && (forall h :: h in mapMasternodeBlocks ==> mapMasternodeBlocks[h] in mapMasternodeBlocks.Values)
      && forall h, g :: h in mapMasternodeBlocks && g in mapMasternodeBlocks && h != g ==>
         mapMasternodeBlocks[h] != mapMasternodeBlocks[g]
    }

    ghost function Blocks(): map<int, seq<Payee>>
      reads this`mapMasternodeBlocks, mapMasternodeBlocks.Values
    {
      map h | h in mapMasternodeBlocks :: mapMasternodeBlocks[h].vecPayments
    }

    ghost predicate Valid()
      reads this, mapMasternodeBlocks.Values
    {
      Separate() && Inv(mapMasternodePayeeVotes, Blocks())
    }

    constructor (hashOf: Winner -> int)
      ensures Valid() && this.hashOf == hashOf && mapMasternodePayeeVotes == map[] && mapMasternodeBlocks == map[]
    {
      this.hashOf := hashOf;
      mapMasternodePayeeVotes, mapMasternodeBlocks := map[], map[];
      new;
      forall h ensures Tallied(mapMasternodePayeeVotes, Blocks(), h) {
        forall p ensures Recorded([], p) == |VotesFor(mapMasternodePayeeVotes, h, p)| {
          NobodyVotes(mapMasternodePayeeVotes, h, p);
        }
      }
    }

    /** `known` says whether the block a hundred heights before is known. */
    method AddWinningMasternode(winner: Winner, known: bool) returns (added: bool)
      requires Valid()
      modifies this, mapMasternodeBlocks.Values
      ensures Valid() && (added <==> known && hashOf(winner) !in old(mapMasternodePayeeVotes))
      ensures mapMasternodePayeeVotes == if added then old(mapMasternodePayeeVotes)[hashOf(winner) := winner]
              else old(mapMasternodePayeeVotes)
      ensures fresh(mapMasternodeBlocks.Values - old(mapMasternodeBlocks.Values))
      ensures forall h :: h != winner.nBlockHeight || !added ==> At(Blocks(), h) == At(old(Blocks()), h)
      ensures added ==>
                OrderKept(At(old(Blocks()), winner.nBlockHeight), At(Blocks(), winner.nBlockHeight), winner.payee)
    {
      if !known { return false; }
      var k := hashOf(winner);
      if k in mapMasternodePayeeVotes { return false; }
      ghost var votes, blocks := mapMasternodePayeeVotes, Blocks();
      mapMasternodePayeeVotes := mapMasternodePayeeVotes[k := winner];
      TallyIsSound(votes, blocks, winner.nBlockHeight);
      Open(winner.nBlockHeight);
      ghost var mid := Blocks();
      assert mid[winner.nBlockHeight] == mapMasternodeBlocks[winner.nBlockHeight].vecPayments;
      Vote(winner.nBlockHeight, winner.payee);
      AddedKeeps(votes, blocks, mid, Blocks(), k, winner);
      return true;
    }

    /** One more vote in the tally of a height. */
    method Vote(h: int, payee: Script)
      requires Separate() && h in mapMasternodeBlocks && Distinct(mapMasternodeBlocks[h].vecPayments)
               && Positive(mapMasternodeBlocks[h].vecPayments)
      modifies mapMasternodeBlocks[h]
      ensures Blocks() == old(Blocks())[h := mapMasternodeBlocks[h].vecPayments]
              && At(Blocks(), h) == mapMasternodeBlocks[h].vecPayments
      ensures var v := At(Blocks(), h); Distinct(v) && Positive(v) && OneMore(At(old(Blocks()), h), v, payee, 1)
      ensures OrderKept(At(old(Blocks()), h), At(Blocks(), h), payee)
    {
      mapMasternodeBlocks[h].AddPayee(payee, 1);
      forall g | g in mapMasternodeBlocks && g != h
        ensures mapMasternodeBlocks[g].vecPayments == old(mapMasternodeBlocks[g].vecPayments) {
        assert mapMasternodeBlocks[g] != mapMasternodeBlocks[h];
      }
    }

    /** `tip` is the height of the best block, if it is known; `count` the number of masternodes. */
    method CleanPaymentList(tip: Option<int>, count: nat)
      requires Valid()
      modifies this`mapMasternodePayeeVotes, this`mapMasternodeBlocks
      ensures Valid()
      ensures tip == None ==> mapMasternodePayeeVotes == old(mapMasternodePayeeVotes) && Blocks() == old(Blocks())
      ensures tip.Some? ==>
              CleanResult(old(mapMasternodePayeeVotes), mapMasternodePayeeVotes, old(Blocks()), Blocks(), tip.value,
                Max(count * 5 / 4, 1000))
      ensures tip.Some? ==> forall k :: k in mapMasternodePayeeVotes <==>
              && k in old(mapMasternodePayeeVotes)
              && tip.value - old(mapMasternodePayeeVotes)[k].nBlockHeight <=
                 (if count <= 800 then 1000 else count * 5 / 4)
    {
      if tip == None { return; }
      var nHeight := tip.value;
      var nLimit := Max(count * 5 / 4, 1000);
      ghost var votes, blocks, was := mapMasternodePayeeVotes, Blocks(), mapMasternodeBlocks;
      ghost var dropped: set<int> := {};
      var todo := mapMasternodePayeeVotes.Keys;
      while todo != {}
        invariant forall k :: k in mapMasternodePayeeVotes <==>
                  k in votes && (k in todo || !Stale(votes[k].nBlockHeight, nHeight, nLimit))
        invariant forall k :: k in mapMasternodePayeeVotes ==> mapMasternodePayeeVotes[k] == votes[k]
        invariant forall h :: h in dropped ==> Stale(h, nHeight, nLimit)
        invariant forall k :: k in votes && k !in mapMasternodePayeeVotes ==> votes[k].nBlockHeight in dropped
        invariant mapMasternodeBlocks == was - dropped
      {
        EmptyOrNot(todo);
        var k: int :| k in todo;
        todo := todo - {k};
        var winner := mapMasternodePayeeVotes[k];
        if nHeight - winner.nBlockHeight > nLimit {
          mapMasternodePayeeVotes := mapMasternodePayeeVotes - {k};
          mapMasternodeBlocks := mapMasternodeBlocks - {winner.nBlockHeight};
          dropped := dropped + {winner.nBlockHeight};
        }
      }
      forall h ensures At(Blocks(), h) == if Stale(h, nHeight, nLimit) then [] else At(blocks, h) {
        if Stale(h, nHeight, nLimit) && h !in dropped { NoVotesNoTally(votes, blocks, h); }
      }
      CleanedKeeps(votes, mapMasternodePayeeVotes, blocks, Blocks(), nHeight, nLimit);
    }

    /** The payee of a height has the most stored votes for it, and is the first of those in its tally. */
    method GetBlockPayee(nBlockHeight: int) returns (found: bool, payee: Script, ghost best: int)
      requires Valid()
      ensures found <==> exists k ::
              k in mapMasternodePayeeVotes
              && mapMasternodePayeeVotes[k].nBlockHeight == nBlockHeight
      ensures found ==> forall q ::
              |VotesFor(mapMasternodePayeeVotes, nBlockHeight, q)| <= |VotesFor(mapMasternodePayeeVotes, nBlockHeight,
                payee)|
      ensures found ==> 0 <= best < |At(Blocks(), nBlockHeight)|
                        && At(Blocks(), nBlockHeight)[best].scriptPubKey == payee
      ensures found ==> forall j :: 0 <= j < best ==>
              At(Blocks(), nBlockHeight)[j].nVotes < At(Blocks(), nBlockHeight)[best].nVotes
    {
      found, payee, best := false, [], -1;
      assert Tallied(mapMasternodePayeeVotes, Blocks(), nBlockHeight);
      TallyIsVotes(mapMasternodePayeeVotes, Blocks(), nBlockHeight);
      if nBlockHeight in mapMasternodeBlocks {
        ghost var v := mapMasternodeBlocks[nBlockHeight].vecPayments;
        TallyIsSound(mapMasternodePayeeVotes, Blocks(), nBlockHeight);
        assert v == At(Blocks(), nBlockHeight) && (v != [] ==> v[0].nVotes >= 0);
        found, payee, best := mapMasternodeBlocks[nBlockHeight].GetPayee();
        if found {
          MostVotes(mapMasternodePayeeVotes, Blocks(), nBlockHeight, best);
        }
      }
    }

    /** A transaction is refused exactly if some payee has six stored votes for this height and no such
        payee is paid enough. */
    method IsTransactionValid(vout: seq<TxOut>, nBlockHeight: int, required: int) returns (r: bool)
      requires Valid()
      ensures !r <==>
                && (exists p :: |VotesFor(mapMasternodePayeeVotes, nBlockHeight, p)| >= 6)
                && (forall p :: |VotesFor(mapMasternodePayeeVotes, nBlockHeight, p)| >= 6 ==>
                   forall i :: 0 <= i < |vout| && vout[i].scriptPubKey == p ==> vout[i].nValue < required)
    {
      assert Tallied(mapMasternodePayeeVotes, Blocks(), nBlockHeight);
      ghost var v := At(Blocks(), nBlockHeight);
      assert forall p :: Recorded(v, p) == |VotesFor(mapMasternodePayeeVotes, nBlockHeight, p)|;
      if nBlockHeight in mapMasternodeBlocks {
        r := mapMasternodeBlocks[nBlockHeight].IsTransactionValid(vout, required);
      } else {
        r := true;
      }
    }

    /** A height that has no tally yet gets an empty one. */
    method Open(h: int)
      requires Separate()
      modifies this`mapMasternodeBlocks
      ensures Separate() && h in mapMasternodeBlocks
      ensures Blocks() == old(Blocks())[h := At(old(Blocks()), h)]
      ensures fresh(mapMasternodeBlocks.Values - old(mapMasternodeBlocks.Values))
    {
      if h !in mapMasternodeBlocks {
        var blockPayees := new CMasternodeBlockPayees(h);
        mapMasternodeBlocks := mapMasternodeBlocks[h := blockPayees];
      }
    }
  }
}
