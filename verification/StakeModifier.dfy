/** The stake modifier (`src/kernel.cpp`): up to 64 rounds, each of which selects a block of the recent
    past and contributes its entropy bit.

    The selection hash is an arbitrary function of the block's proof hash and the previous modifier;
    256-bit hashes are natural numbers. */
module StakeModifier {
  import opened Arithmetic
  import opened Chain
  import opened Options
  import opened Sets

  datatype Config = Config(upgradeBlock: int, targetHash: (nat, nat) -> nat)

  /** Time and hash of a candidate block. */
  type Candidate = (int, nat)

  const MODIFIER_INTERVAL: int := 60
  const MODIFIER_INTERVAL_RATIO: int := 3
  const OLD_MODIFIER_INTERVAL: int := 2087

  // ---------------------------------------------------------------- sections of the interval

  function Section(nSection: nat): int
    requires nSection < 64
  {
    MODIFIER_INTERVAL * 63 / (63 + (63 - nSection) * (MODIFIER_INTERVAL_RATIO - 1))
  }

  /** The time up to which blocks may be selected in round `n - 1`, from the start of the interval. */
  function Sections(n: nat): int
    requires n <= 64
  {
    if n == 0 then 0 else Sections(n - 1) + Section(n - 1)
  }

  /** Sections grow, and the last is `MODIFIER_INTERVAL_RATIO` times as long as the first. */
  lemma SectionsGrow(m: nat, n: nat)
    requires m <= n < 64
    ensures Section(m) <= Section(n)
    ensures Section(0) == 20 && Section(63) == MODIFIER_INTERVAL_RATIO * Section(0)
  {
    var a, b := 63 + (63 - m) * (MODIFIER_INTERVAL_RATIO - 1), 63 + (63 - n) * (MODIFIER_INTERVAL_RATIO - 1);
    QuotientGrows(MODIFIER_INTERVAL * 63, a, b);
  }

  lemma QuotientGrows(x: nat, a: int, b: int)
    requires 0 < b <= a
    ensures x / a <= x / b
  {
    var q, p := x / a, x / b;
    DivModEquation(x, a);
    DivModEquation(x, b);
    MulMonotone(b, a, q);
    MulCommutes(q, a);
    MulCommutes(q, b);
    assert (p + 1) * b == p * b + b;
    if p < q { MulMonotone(p + 1, q, b); }
  }

  /** Four sections of the given lengths. */
  lemma {:induction false} FourMore(n: nat, sum: int, a: int, b: int, c: int, d: int) returns (m: nat, s: int)
    requires n + 4 <= 64 && Sections(n) == sum
    requires a * (189 - 2 * (n + 0)) <= 3780 < (a + 1) * (189 - 2 * (n + 0))
    requires b * (189 - 2 * (n + 1)) <= 3780 < (b + 1) * (189 - 2 * (n + 1))
    requires c * (189 - 2 * (n + 2)) <= 3780 < (c + 1) * (189 - 2 * (n + 2))
    requires d * (189 - 2 * (n + 3)) <= 3780 < (d + 1) * (189 - 2 * (n + 3))
    ensures m == n + 4 && s == sum + a + b + c + d && Sections(m) == s
  {
    SectionIs(n, a);
    SectionIs(n + 1, b);
    SectionIs(n + 2, c);
    SectionIs(n + 3, d);
    m, s := n + 4, sum + a + b + c + d;
    assert Sections(n + 1) == sum + a;
    assert Sections(n + 2) == sum + a + b;
    assert Sections(n + 3) == sum + a + b + c;
  }

  lemma SectionIs(n: nat, q: int)
    requires n < 64 && q * (189 - 2 * n) <= 3780 < (q + 1) * (189 - 2 * n)
    ensures Section(n) == q
  {
    assert (q + 1) * (189 - 2 * n) == q * (189 - 2 * n) + (189 - 2 * n);
    DivModUnique(3780, 189 - 2 * n, q, 3780 - q * (189 - 2 * n));
  }

  /** All sections together are exactly the selection interval. */
  lemma SectionsFill()
    ensures Sections(64) == OLD_MODIFIER_INTERVAL
  {
    var n, s := ThirdQuarter();
    n, s := FourMore(n, s, 40, 41, 42, 43);
    n, s := FourMore(n, s, 44, 45, 46, 47);
    n, s := FourMore(n, s, 49, 50, 51, 53);
    n, s := FourMore(n, s, 54, 56, 58, 60);
  }

  lemma ThirdQuarter() returns (n: nat, s: int)
    ensures n == 48 && s == 1308 && Sections(n) == s
  {
    n, s := SecondQuarter();
    n, s := FourMore(n, s, 30, 30, 31, 31);
    n, s := FourMore(n, s, 32, 32, 33, 34);
    n, s := FourMore(n, s, 34, 35, 36, 36);
    n, s := FourMore(n, s, 37, 38, 38, 39);
  }

  lemma SecondQuarter() returns (n: nat, s: int)
    ensures n == 32 && s == 762 && Sections(n) == s
  {
    n, s := FirstQuarter();
    n, s := FourMore(n, s, 24, 24, 24, 25);
    n, s := FourMore(n, s, 25, 25, 26, 26);
    n, s := FourMore(n, s, 26, 27, 27, 28);
    n, s := FourMore(n, s, 28, 28, 29, 29);
  }

  lemma FirstQuarter() returns (n: nat, s: int)
    ensures n == 16 && s == 341 && Sections(n) == s
  {
    n, s := 0, 0;
    n, s := FourMore(n, s, 20, 20, 20, 20);
    n, s := FourMore(n, s, 20, 21, 21, 21);
    n, s := FourMore(n, s, 21, 22, 22, 22);
    n, s := FourMore(n, s, 22, 23, 23, 23);
  }

  // ---------------------------------------------------------------- bits

  /** A word as its bits, the lowest first; combining it with a bit shifted by `r` changes bit `r`. */
  function Value(bits: seq<bool>): nat {
    if bits == [] then 0 else (if bits[0] then 1 else 0) + 2 * Value(bits[1..])
  }

  function BitAt(n: nat, r: nat): bool {
    if r == 0 then n % 2 == 1 else BitAt(n / 2, r - 1)
  }

  lemma {:induction false} BitOfValue(bits: seq<bool>, r: nat)
    ensures BitAt(Value(bits), r) == if r < |bits| then bits[r] else false
    decreases r
  {
    if bits == [] {
      ZeroBits(r);
    } else if r > 0 {
      BitOfValue(bits[1..], r - 1);
    }
  }

  lemma {:induction false} ZeroBits(r: nat)
    ensures !BitAt(0, r)
  {
    if r > 0 { ZeroBits(r - 1); }
  }

  /** The lowest bit of the block's hash. */
  function EntropyBit(b: BlockIndex): bool { b.hash % 2 == 1 }

  // ---------------------------------------------------------------- selecting one block

  function SelectionHash(cfg: Config, v2: bool, b: BlockIndex, modifierPrev: nat): nat {
    var hashProof := if v2 || !b.proofOfStake then b.hash else 0;
    var hashSelection := cfg.targetHash(hashProof, modifierPrev);
    if b.proofOfStake then hashSelection / 0x1_0000_0000 else hashSelection
  }

  predicate Upgraded(cfg: Config, v: seq<Candidate>, index: map<nat, BlockIndex>) {
    |v| > 0 && v[0].1 in index && index[v[0].1].nHeight >= cfg.upgradeBlock
  }

  /** The selection hash of candidate `i`. */
  function Rank(cfg: Config, v: seq<Candidate>, index: map<nat, BlockIndex>, modifierPrev: nat, i: nat): nat
    requires i < |v|
  {
    if v[i].1 in index then SelectionHash(cfg, Upgraded(cfg, v, index), index[v[i].1], modifierPrev) else 0
  }

  predicate Before(a: Candidate, b: Candidate) { a.0 < b.0 || (a.0 == b.0 && a.1 <= b.1) }

  ghost predicate SortedByTime(v: seq<Candidate>) {
    forall i, j :: 0 <= i < j < |v| ==> Before(v[i], v[j])
  }

  /** The index knows blocks under their hashes, with the times of the candidates. */
  ghost predicate Consistent(v: seq<Candidate>, index: map<nat, BlockIndex>) {
    forall i :: 0 <= i < |v| && v[i].1 in index ==> index[v[i].1].hash == v[i].1 && index[v[i].1].nTime == v[i].0
  }

  predicate Open(v: seq<Candidate>, selected: set<nat>, i: int) {
    0 <= i < |v| && v[i].1 !in selected
  }

  predicate Eligible(v: seq<Candidate>, selected: set<nat>, stop: int, i: int) {
    Open(v, selected, i) && v[i].0 <= stop
  }

  /** Candidate `c` has the least selection hash among the unselected ones up to the stop, the earliest
      of them if there are several; if there are none up to the stop, it is the earliest unselected. */
  ghost predicate Chosen(cfg: Config, v: seq<Candidate>, index: map<nat, BlockIndex>, selected: set<nat>, stop: int,
                         modifierPrev: nat, c: int) {
    && Open(v, selected, c)
    && (forall i :: Eligible(v, selected, stop, i) ==>
          Eligible(v, selected, stop, c)
            && Rank(cfg, v, index, modifierPrev, c) <= Rank(cfg, v, index, modifierPrev, i) &&
          (i < c ==> Rank(cfg, v, index, modifierPrev, c) < Rank(cfg, v, index, modifierPrev, i)))
    && (!Eligible(v, selected, stop, c) ==> forall i :: Open(v, selected, i) ==> c <= i)
  }

  /** What is known after looking at the first `n` candidates. */
  ghost predicate Leading(cfg: Config, v: seq<Candidate>, index: map<nat, BlockIndex>, selected: set<nat>, stop: int,
                          modifierPrev: nat, n: int, c: int) {
    if c == -1 then forall i :: 0 <= i < n ==> !Open(v, selected, i)
    else
      && 0 <= c < n <= |v| && Open(v, selected, c)
      && (forall i :: 0 <= i < n && Open(v, selected, i) ==>
            Rank(cfg, v, index, modifierPrev, c) <= Rank(cfg, v, index, modifierPrev, i) &&
            (i < c ==> Rank(cfg, v, index, modifierPrev, c) < Rank(cfg, v, index, modifierPrev, i)))
      && (Eligible(v, selected, stop, c) || forall i :: 0 <= i < n && Open(v, selected, i) ==> i == c)
  }

  method SelectBlockFromCandidates(cfg: Config, v: seq<Candidate>, index: map<nat, BlockIndex>, selected: set<nat>,
                                   nSelectionIntervalStop: int, nStakeModifierPrev: nat)
    returns (fSelected: bool, pindexSelected: Option<BlockIndex>, ghost c: int)
    requires SortedByTime(v) && Consistent(v, index)
    ensures fSelected ==> Chosen(cfg, v, index, selected, nSelectionIntervalStop, nStakeModifierPrev, c) &&
                          v[c].1 in index && pindexSelected == Some(index[v[c].1])
    ensures !fSelected ==> (exists i :: 0 <= i < |v| && v[i].1 !in index) || forall i :: 0 <= i < |v| ==>
            !Open(v, selected, i)
  {
    var fModifierV2, fFirstRun := false, true;
    fSelected, pindexSelected, c := false, None, -1;
    var hashBest := 0;
    var n := 0;
    while n < |v|
      invariant 0 <= n <= |v|
      invariant n == 0 <==> fFirstRun
      invariant n > 0 ==> v[0].1 in index && fModifierV2 == Upgraded(cfg, v, index)
      invariant fSelected <==> c != -1
      invariant Leading(cfg, v, index, selected, nSelectionIntervalStop, nStakeModifierPrev, n, c)
      invariant fSelected ==>
                v[c].1 in index && pindexSelected == Some(index[v[c].1])
                  && hashBest == Rank(cfg, v, index, nStakeModifierPrev, c)
    {
      if v[n].1 !in index { return false, None, -1; }
      var pindex := index[v[n].1];
      if fSelected && pindex.nTime > nSelectionIntervalStop { break; }
      if fFirstRun {
        fModifierV2 := pindex.nHeight >= cfg.upgradeBlock;
        fFirstRun := false;
      }
      if pindex.hash !in selected {
        var hashSelection := SelectionHash(cfg, fModifierV2, pindex, nStakeModifierPrev);
        if fSelected && hashSelection < hashBest {
          hashBest := hashSelection;
          pindexSelected := Some(pindex);
          c := n;
        } else if !fSelected {
          fSelected := true;
          hashBest := hashSelection;
          pindexSelected := Some(pindex);
          c := n;
        }
      }
      n := n + 1;
    }
  }

  /** The number that is hashed for a candidate: its own hash, but zero for a proof-of-stake block if the first
      candidate is below the upgrade height. */
  predicate ProofIs(cfg: Config, v: seq<Candidate>, index: map<nat, BlockIndex>, i: nat, proof: nat)
    requires i < |v| && v[i].1 in index && v[0].1 in index
  {
    if index[v[i].1].proofOfStake && index[v[0].1].nHeight < cfg.upgradeBlock then proof == 0 else proof == v[i].1
  }

  /** The chosen block against any other that was eligible, by the hashes themselves: those of proof-of-stake blocks
      are divided by 2^32, so a proof-of-work block wins only with a hash that much smaller.  An earlier candidate
      must be beaten strictly. */
  lemma ChosenBeats(cfg: Config, v: seq<Candidate>, index: map<nat, BlockIndex>, selected: set<nat>, stop: int,
                    modifierPrev: nat, c: nat, i: nat, proofC: nat, proofI: nat)
    requires Chosen(cfg, v, index, selected, stop, modifierPrev, c)
    requires i < |v| && v[i].1 !in selected && v[i].0 <= stop
    requires Consistent(v, index) && v[c].1 in index && v[i].1 in index && v[0].1 in index
    requires ProofIs(cfg, v, index, c, proofC) && ProofIs(cfg, v, index, i, proofI)
    ensures var hashC, hashI := cfg.targetHash(proofC, modifierPrev), cfg.targetHash(proofI, modifierPrev);
            match (index[v[c].1].proofOfStake, index[v[i].1].proofOfStake)
            case (false, false) => hashC <= hashI && (i < c ==> hashC < hashI)
            case (false, true) => hashC * 4294967296 <= hashI && (i < c ==> (hashC + 1) * 4294967296 <= hashI)
            case (true, false) => hashC < (hashI + 1) * 4294967296 && (i < c ==> hashC < hashI * 4294967296)
            case (true, true) => hashC / 4294967296 <= hashI / 4294967296 &&
                                 (i < c ==> hashC / 4294967296 < hashI / 4294967296)
    ensures v[c].1 !in selected && v[c].0 <= stop
  {
    assert Eligible(v, selected, stop, i);
    var hashC, hashI := cfg.targetHash(proofC, modifierPrev), cfg.targetHash(proofI, modifierPrev);
    assert Rank(cfg, v, index, modifierPrev, c) <= Rank(cfg, v, index, modifierPrev, i);
    DivModEquation(hashC, 4294967296);
    DivModEquation(hashI, 4294967296);
  }

  /** If every unselected candidate is later than the stop, the first of them is chosen. */
  lemma ChosenIsFirst(cfg: Config, v: seq<Candidate>, index: map<nat, BlockIndex>, selected: set<nat>, stop: int,
                      modifierPrev: nat, c: nat, i: nat)
    requires Chosen(cfg, v, index, selected, stop, modifierPrev, c) && i < |v| && v[i].1 !in selected
    requires forall j :: 0 <= j < |v| && v[j].1 !in selected ==> v[j].0 > stop
    ensures c <= i && v[c].1 !in selected
  {
    assert Open(v, selected, i) && !Eligible(v, selected, stop, c);
  }

  // ---------------------------------------------------------------- all rounds

  ghost predicate DistinctHashes(v: seq<Candidate>) {
    forall i, j :: 0 <= i < j < |v| ==> v[i].1 != v[j].1
  }

  ghost predicate AllIndexed(v: seq<Candidate>, index: map<nat, BlockIndex>) {
    forall i :: 0 <= i < |v| ==> v[i].1 in index
  }

  /** The hashes of the first `n` candidates. */
  function Hashes(v: seq<Candidate>, n: nat): set<nat>
    requires n <= |v|
  {
    set i | 0 <= i < n :: v[i].1
  }

  lemma {:induction false} HashesCount(v: seq<Candidate>, n: nat)
    requires DistinctHashes(v) && n <= |v|
    ensures |Hashes(v, n)| == n
  {
    if n > 0 {
      HashesCount(v, n - 1);
      assert Hashes(v, n) == Hashes(v, n - 1) + {v[n - 1].1};
    }
  }

  /** As long as fewer blocks are selected than there are candidates, one is left. */
  lemma SomeLeft(v: seq<Candidate>, selected: set<nat>)
    requires DistinctHashes(v) && |selected| < |v|
    ensures exists i :: Open(v, selected, i)
  {
    HashesCount(v, |v|);
    if Hashes(v, |v|) <= selected {
      SubsetIsSmaller(Hashes(v, |v|), selected);
    } else {
      var h :| h in Hashes(v, |v|) && h !in selected;
      var i :| 0 <= i < |v| && v[i].1 == h;
      assert Open(v, selected, i);
    }
  }

  /** The hashes of the candidates picked so far. */
  function Picked(v: seq<Candidate>, picks: seq<nat>): set<nat>
    requires forall r :: 0 <= r < |picks| ==> picks[r] < |v|
  {
    set r | 0 <= r < |picks| :: v[picks[r]].1
  }

  /** The result of round `r`: the pick was the right one, and its entropy bit is bit `r`. */
  ghost predicate RoundOk(cfg: Config, v: seq<Candidate>, index: map<nat, BlockIndex>, start: int, modifierPrev: nat,
                          picks: seq<nat>, bits: seq<bool>, r: int)
    requires forall i :: 0 <= i < |picks| ==> picks[i] < |v|
  {
    && 0 <= r < |picks| && r < 64 && |bits| == 64
    && Chosen(cfg, v, index, Picked(v, picks[..r]), start + Sections(r + 1), modifierPrev, picks[r])
    && v[picks[r]].1 in index && bits[r] == EntropyBit(index[v[picks[r]].1])
  }

  ghost predicate RoundsOk(cfg: Config, v: seq<Candidate>, index: map<nat, BlockIndex>, start: int, modifierPrev: nat,
                           picks: seq<nat>, bits: seq<bool>) {
    && (forall i :: 0 <= i < |picks| ==> picks[i] < |v|)
    && |bits| == 64
    && (forall r {:trigger RoundOk(cfg, v, index, start, modifierPrev, picks, bits, r)} ::
          0 <= r < |picks| ==> RoundOk(cfg, v, index, start, modifierPrev, picks, bits, r))
    && forall r :: |picks| <= r < 64 ==> !bits[r]
  }

  /** No round yet. */
  lemma RoundsStart(cfg: Config, v: seq<Candidate>, index: map<nat, BlockIndex>, start: int, modifierPrev: nat,
    bits: seq<bool>)
    returns (picks: seq<nat>)
    requires |bits| == 64 && forall r :: 0 <= r < 64 ==> !bits[r]
    ensures RoundsOk(cfg, v, index, start, modifierPrev, picks, bits) && |picks| == 0 && Picked(v, picks) == {}
  {
    picks := [];
  }

  /** One more round. */
  lemma RoundDone(cfg: Config, v: seq<Candidate>, index: map<nat, BlockIndex>, start: int, modifierPrev: nat,
                  picks: seq<nat>, bits: seq<bool>, c: nat, bits': seq<bool>)
    requires RoundsOk(cfg, v, index, start, modifierPrev, picks, bits) && |picks| < 64
    requires Chosen(cfg, v, index, Picked(v, picks), start + Sections(|picks| + 1), modifierPrev, c) && v[c].1 in index
    requires bits' == bits[|picks| := EntropyBit(index[v[c].1])]
    ensures RoundsOk(cfg, v, index, start, modifierPrev, picks + [c], bits')
  {
    var picks' := picks + [c];
    assert forall i :: 0 <= i < |picks'| ==> picks'[i] < |v|;
    forall r | 0 <= r < |picks'| ensures RoundOk(cfg, v, index, start, modifierPrev, picks', bits', r) {
      assert picks'[..r] == picks[..r];
      if r < |picks| {
        assert RoundOk(cfg, v, index, start, modifierPrev, picks, bits, r);
      } else {
        assert picks[..r] == picks;
      }
    }
  }

  lemma PickedMore(v: seq<Candidate>, picks: seq<nat>, c: nat)
    requires (forall r :: 0 <= r < |picks| ==> picks[r] < |v|) && c < |v|
    ensures forall r :: 0 <= r < |picks + [c]| ==> (picks + [c])[r] < |v|
    ensures Picked(v, picks + [c]) == Picked(v, picks) + {v[c].1}
  {
    var more := picks + [c];
    assert more[|picks|] == c;
    forall h ensures h in Picked(v, more) <==> h in Picked(v, picks) + {v[c].1} {
      if h in Picked(v, picks) {
        var r :| 0 <= r < |picks| && v[picks[r]].1 == h;
        assert more[r] == picks[r];
      }
    }
  }

  /** The rounds of `picks` have been done: the stop, and the hashes of the blocks selected. */
  ghost predicate RoundsDone(cfg: Config, v: seq<Candidate>, index: map<nat, BlockIndex>, start: int, modifierPrev: nat,
                             picks: seq<nat>, bits: seq<bool>, stop: int, selected: set<nat>) {
    && RoundsOk(cfg, v, index, start, modifierPrev, picks, bits) && |picks| <= 64
    && stop == start + Sections(|picks|) && selected == Picked(v, picks) && |selected| == |picks|
  }

  ghost predicate Usable(v: seq<Candidate>, index: map<nat, BlockIndex>) {
    SortedByTime(v) && Consistent(v, index) && AllIndexed(v, index) && DistinctHashes(v)
  }

  /** The lemmas about one round, together. */
  lemma OneRound(cfg: Config, v: seq<Candidate>, index: map<nat, BlockIndex>, start: int, modifierPrev: nat,
    picks: seq<nat>,
                 bits: seq<bool>, stop: int, selected: set<nat>, c: nat, nextStop: int, nextBits: seq<bool>)
    requires RoundsDone(cfg, v, index, start, modifierPrev, picks, bits, stop, selected) && |picks| < 64
    requires nextStop == start + Sections(|picks| + 1)
    requires Chosen(cfg, v, index, selected, nextStop, modifierPrev, c) && v[c].1 in index && v[c].1 !in selected
    requires nextBits == bits[|picks| := EntropyBit(index[v[c].1])]
    ensures RoundsDone(cfg, v, index, start, modifierPrev, picks + [c], nextBits, nextStop, selected + {v[c].1})
  {
    RoundDone(cfg, v, index, start, modifierPrev, picks, bits, c, nextBits);
    PickedMore(v, picks, c);
  }

  /** One round, which succeeds as long as a candidate is left. */
  method SelectOne(cfg: Config, v: seq<Candidate>, index: map<nat, BlockIndex>, ghost start: int, stop: int,
    nStakeModifierPrev: nat,
                   selected: set<nat>, bits: seq<bool>, nRound: nat, ghost picks: seq<nat>)
    returns (fSelected: bool, pindexSelected: Option<BlockIndex>, nextStop: int, nextBits: seq<bool>,
      ghost nextPicks: seq<nat>)
    requires Usable(v, index) && RoundsDone(cfg, v, index, start, nStakeModifierPrev, picks, bits, stop, selected)
    requires |picks| == nRound < Min(64, |v|)
    ensures fSelected && pindexSelected.Some? && pindexSelected.value.hash !in selected && |nextPicks| == nRound + 1
    ensures RoundsDone(cfg, v, index, start, nStakeModifierPrev, nextPicks, nextBits, nextStop,
            selected + {pindexSelected.value.hash})
  {
    nextStop := stop + Section(nRound);
    ghost var c;
    fSelected, pindexSelected, c := SelectBlockFromCandidates(cfg, v, index, selected, nextStop, nStakeModifierPrev);
    SomeLeft(v, selected);
    nextBits := bits[nRound := EntropyBit(pindexSelected.value)];
    nextPicks := picks + [c];
    OneRound(cfg, v, index, start, nStakeModifierPrev, picks, bits, stop, selected, c, nextStop, nextBits);
  }

  lemma OneMoreKey(selected: map<nat, BlockIndex>, h: nat, b: BlockIndex)
    ensures selected[h := b].Keys == selected.Keys + {h}
  {
  }

  /** The rounds of `ComputeNextStakeModifier`: none of them can fail. */
  method SelectBlocks(cfg: Config, v: seq<Candidate>, index: map<nat, BlockIndex>, nSelectionIntervalStart: int,
    nStakeModifierPrev: nat)
    returns (ok: bool, bits: seq<bool>, ghost picks: seq<nat>)
    requires Usable(v, index)
    ensures ok && |picks| == Min(64, |v|)
    ensures RoundsOk(cfg, v, index, nSelectionIntervalStart, nStakeModifierPrev, picks, bits)
  {
    bits := seq(64, i => false);
    picks := RoundsStart(cfg, v, index, nSelectionIntervalStart, nStakeModifierPrev, bits);
    var nSelectionIntervalStop := nSelectionIntervalStart;
    var selected: map<nat, BlockIndex> := map[];
    var nRound := 0;
    while nRound < Min(64, |v|)
      invariant nRound == |picks| <= Min(64, |v|)
      invariant RoundsDone(cfg, v, index, nSelectionIntervalStart, nStakeModifierPrev, picks, bits,
                nSelectionIntervalStop, selected.Keys)
    {
      var pindex;
      ok, pindex, nSelectionIntervalStop, bits, picks :=
        SelectOne(cfg, v, index, nSelectionIntervalStart, nSelectionIntervalStop, nStakeModifierPrev, selected.Keys,
          bits, nRound, picks);
      if !ok { return; }
      OneMoreKey(selected, pindex.value.hash, pindex.value);
      selected := selected[pindex.value.hash := pindex.value];
      nRound := nRound + 1;
    }
    ok := true;
  }

  /** No block is selected twice. */
  lemma PicksDiffer(cfg: Config, v: seq<Candidate>, index: map<nat, BlockIndex>, start: int, modifierPrev: nat,
                    picks: seq<nat>, bits: seq<bool>, q: nat, r: nat)
    requires RoundsOk(cfg, v, index, start, modifierPrev, picks, bits) && q < r < |picks|
    ensures v[picks[q]].1 != v[picks[r]].1
  {
    assert RoundOk(cfg, v, index, start, modifierPrev, picks, bits, r);
    assert picks[..r][q] == picks[q];
    assert v[picks[q]].1 in Picked(v, picks[..r]);
  }

  /** The bits of the modifier: the entropy bits of the selected blocks in turn, which are the lowest bits of their
      hashes, then zeros. */
  lemma ModifierBits(cfg: Config, v: seq<Candidate>, index: map<nat, BlockIndex>, start: int, modifierPrev: nat,
                     picks: seq<nat>, bits: seq<bool>, r: nat)
    requires RoundsOk(cfg, v, index, start, modifierPrev, picks, bits) && |picks| <= 64
    ensures r < |picks| ==> v[picks[r]].1 in index && BitAt(Value(bits), r) == EntropyBit(index[v[picks[r]].1])
    ensures r < |picks| && Consistent(v, index) ==> (BitAt(Value(bits), r) <==> BitAt(v[picks[r]].1, 0))
    ensures r >= |picks| ==> !BitAt(Value(bits), r)
  {
    BitOfValue(bits, r);
    if r < |picks| { assert RoundOk(cfg, v, index, start, modifierPrev, picks, bits, r); }
  }

  // ---------------------------------------------------------------- the candidates

  /** The index knows a block and all its ancestors. */
  predicate Known(b: Option<BlockIndex>, index: map<nat, BlockIndex>) {
    b.Some? ==> b.value.hash in index && index[b.value.hash] == b.value && Known(b.value.pprev, index)
  }

  /** A block and its ancestors, back to the first that is older than `start`; the oldest comes first. */
  function Recent(b: Option<BlockIndex>, start: int): seq<BlockIndex> {
    if b.Some? && b.value.nTime >= start then Recent(b.value.pprev, start) + [b.value] else []
  }

  /** No block from height `h` on is older than `start`. */
  ghost predicate NoneOlder(b: BlockIndex, start: int, h: int)
    requires Linked(b) && 0 <= h <= b.nHeight
  {
    forall g :: h <= g <= b.nHeight ==> Ancestor(b, g).nTime >= start
  }

  /** The candidates are exactly the blocks from which on none is older, and they are in the order of heights. */
  lemma {:induction false} RecentIsEnd(b: BlockIndex, start: int, h: int)
    requires Linked(b) && 0 <= h <= b.nHeight
    ensures Ancestor(b, h) in Recent(Some(b), start) <==> NoneOlder(b, start, h)
    ensures |Recent(Some(b), start)| <= b.nHeight + 1
    ensures forall i :: 0 <= i < |Recent(Some(b), start)| ==>
              Recent(Some(b), start)[i] == Ancestor(b, b.nHeight + 1 - |Recent(Some(b), start)| + i)
  {
    HeightsAreNatural(b);
    assert Ancestor(b, b.nHeight) == b;
    if b.nTime >= start && b.pprev.Some? {
      var p := b.pprev.value;
      HeightsAreNatural(p);
      forall g | 0 <= g < b.nHeight ensures Ancestor(b, g) == Ancestor(p, g) { }
      RecentIsEnd(p, start, if h < b.nHeight then h else b.nHeight - 1);
      assert h < b.nHeight ==> (NoneOlder(b, start, h) <==> NoneOlder(p, start, h));
    }
  }

  function CandidateOf(b: BlockIndex): Candidate { (b.nTime, b.hash) }

  lemma {:induction false} RecentDistinct(b: Option<BlockIndex>, start: int, index: map<nat, BlockIndex>)
    requires LinkedOrNull(b) && Known(b, index)
    ensures forall x :: x in Recent(b, start) ==>
            b.Some? && x.nHeight <= b.value.nHeight && x.hash in index && index[x.hash] == x
    ensures forall i, j :: 0 <= i < j < |Recent(b, start)| ==> Recent(b, start)[i].hash != Recent(b, start)[j].hash
  {
    if b.Some? && b.value.nTime >= start {
      RecentDistinct(b.value.pprev, start, index);
      var older := Recent(b.value.pprev, start);
      forall i | 0 <= i < |older| ensures older[i].hash != b.value.hash {
        assert older[i] in older;
      }
    }
  }

  /** The candidates of a list of blocks, without repetition. */
  ghost predicate CandidatesOf(v: seq<Candidate>, blocks: seq<BlockIndex>) {
    && |v| == |blocks| && DistinctHashes(v)
    && (forall a :: a in v ==> exists b :: b in blocks && a == CandidateOf(b))
    && forall b :: b in blocks ==> CandidateOf(b) in v
  }

  /** The place of a candidate in a sorted list. */
  function Ordered(v: seq<Candidate>, a: Candidate): seq<Candidate> {
    if v == [] || Before(a, v[0]) then [a] + v else [v[0]] + Ordered(v[1..], a)
  }

  lemma {:induction false} OrderedKeeps(v: seq<Candidate>, a: Candidate)
    requires SortedByTime(v)
    ensures SortedByTime(Ordered(v, a)) && |Ordered(v, a)| == |v| + 1
    ensures forall x :: x in Ordered(v, a) <==> x in v || x == a
  {
    if v != [] && !Before(a, v[0]) {
      OrderedKeeps(v[1..], a);
      var rest := Ordered(v[1..], a);
      forall j | 0 <= j < |rest| ensures Before(v[0], rest[j]) {
        assert rest[j] in rest;
      }
    }
  }

  lemma {:induction false} OrderedDistinct(v: seq<Candidate>, a: Candidate)
    requires SortedByTime(v) && DistinctHashes(v) && forall x :: x in v ==> x.1 != a.1
    ensures DistinctHashes(Ordered(v, a))
  {
    if v != [] && !Before(a, v[0]) {
      OrderedKeeps(v[1..], a);
      OrderedDistinct(v[1..], a);
      var rest := Ordered(v[1..], a);
      forall j | 0 <= j < |rest| ensures v[0].1 != rest[j].1 {
        assert rest[j] in rest;
      }
    }
  }

  /** `std::sort`, by time and then by hash. */
  method Sort(v: seq<Candidate>) returns (r: seq<Candidate>)
    requires DistinctHashes(v)
    ensures SortedByTime(r) && DistinctHashes(r) && |r| == |v| && forall x :: x in r <==> x in v
    ensures forall i, j :: 0 <= i < j < |r| ==> r[i].0 < r[j].0 || (r[i].0 == r[j].0 && r[i].1 < r[j].1)
  {
    r := [];
    for i := 0 to |v|
      invariant SortedByTime(r) && DistinctHashes(r) && |r| == i
      invariant forall x :: x in r <==> x in v[..i]
    {
      assert v[..i + 1] == v[..i] + [v[i]];
      OrderedKeeps(r, v[i]);
      OrderedDistinct(r, v[i]);
      r := Ordered(r, v[i]);
    }
    assert v[..|v|] == v;
  }

  function Candidates(blocks: seq<BlockIndex>): seq<Candidate> {
    seq(|blocks|, i requires 0 <= i < |blocks| => CandidateOf(blocks[i]))
  }

  lemma SortedAreCandidates(blocks: seq<BlockIndex>, v: seq<Candidate>)
    requires DistinctHashes(v) && |v| == |blocks| && forall x :: x in v <==> x in Candidates(blocks)
    ensures CandidatesOf(v, blocks)
  {
    forall a | a in v ensures exists b :: b in blocks && a == CandidateOf(b) {
      var i :| 0 <= i < |blocks| && Candidates(blocks)[i] == a;
      assert blocks[i] in blocks;
    }
    forall b | b in blocks ensures CandidateOf(b) in v {
      var i :| 0 <= i < |blocks| && blocks[i] == b;
      assert Candidates(blocks)[i] in Candidates(blocks);
    }
  }

  lemma CandidatesKnown(blocks: seq<BlockIndex>, v: seq<Candidate>, index: map<nat, BlockIndex>)
    requires CandidatesOf(v, blocks) && forall b :: b in blocks ==> b.hash in index && index[b.hash] == b
    ensures Consistent(v, index) && AllIndexed(v, index)
  {
    forall i | 0 <= i < |v| ensures v[i].1 in index && index[v[i].1].hash == v[i].1 && index[v[i].1].nTime == v[i].0 {
      assert v[i] in v;
      var b :| b in blocks && v[i] == CandidateOf(b);
    }
  }

  /** The walk back to the first block that is older than the start; the list is reversed. */
  method RecentCandidates(pindexPrev: BlockIndex, nSelectionIntervalStart: int) returns (v: seq<Candidate>)
    ensures v == Candidates(Recent(Some(pindexPrev), nSelectionIntervalStart))
  {
    ghost var all := Recent(Some(pindexPrev), nSelectionIntervalStart);
    v := [];
    ghost var taken: seq<BlockIndex> := [];
    var pindex := Some(pindexPrev);
    while pindex.Some? && pindex.value.nTime >= nSelectionIntervalStart
      invariant all == Recent(pindex, nSelectionIntervalStart) + taken
      invariant v == Candidates(taken)
      decreases pindex
    {
      v := [(pindex.value.nTime, pindex.value.hash)] + v;
      taken := [pindex.value] + taken;
      pindex := pindex.value.pprev;
    }
    assert all == taken;
  }

  method SortedCandidates(pindexPrev: BlockIndex, nSelectionIntervalStart: int, ghost index: map<nat, BlockIndex>)
    returns (v: seq<Candidate>)
    requires LinkedOrNull(Some(pindexPrev)) && Known(Some(pindexPrev), index)
    ensures SortedByTime(v) && CandidatesOf(v, Recent(Some(pindexPrev), nSelectionIntervalStart))
    ensures Consistent(v, index) && AllIndexed(v, index)
  {
    ghost var all := Recent(Some(pindexPrev), nSelectionIntervalStart);
    RecentDistinct(Some(pindexPrev), nSelectionIntervalStart, index);
    var recent := RecentCandidates(pindexPrev, nSelectionIntervalStart);
    v := Sort(recent);
    SortedAreCandidates(all, v);
    CandidatesKnown(all, v, index);
  }

  // ---------------------------------------------------------------- the next modifier

  /** The nearest block, from this one back, that generated a modifier. */
  function LastGenerated(b: Option<BlockIndex>): Option<BlockIndex> {
    if b == None then None
    else if b.value.generatedModifier then b
    else LastGenerated(b.value.pprev)
  }

  /** It is the nearest ancestor that generated a modifier. */
  lemma {:induction false} LastGeneratedIsNearest(b: BlockIndex)
    requires Linked(b)
    ensures LastGenerated(Some(b)).Some? ==>
              var g := LastGenerated(Some(b)).value;
              && 0 <= g.nHeight <= b.nHeight && g == Ancestor(b, g.nHeight) && g.generatedModifier
              && forall h :: g.nHeight < h <= b.nHeight ==> !Ancestor(b, h).generatedModifier
    ensures LastGenerated(Some(b)) == None ==> forall h :: 0 <= h <= b.nHeight ==> !Ancestor(b, h).generatedModifier
  {
    HeightsAreNatural(b);
    if !b.generatedModifier && b.pprev.Some? { LastGeneratedIsNearest(b.pprev.value); }
  }

  method GetLastStakeModifier(pindex: Option<BlockIndex>) returns (found: bool, nStakeModifier: nat, nModifierTime: nat)
    ensures found <==> LastGenerated(pindex).Some?
    ensures found ==>
            nStakeModifier == LastGenerated(pindex).value.nStakeModifier
            && nModifierTime == LastGenerated(pindex).value.nTime
  {
    if pindex == None { return false, 0, 0; }
    var b := pindex.value;
    while b.pprev.Some? && !b.generatedModifier
      invariant LastGenerated(Some(b)) == LastGenerated(pindex)
      decreases b
    {
      b := b.pprev.value;
    }
    if !b.generatedModifier { return false, 0, 0; }
    return true, b.nStakeModifier, b.nTime;
  }

  function IntervalStart(time: nat): int {
    time / MODIFIER_INTERVAL * MODIFIER_INTERVAL - OLD_MODIFIER_INTERVAL
  }

  /** The modifier was computed anew, from the recent blocks. */
  ghost predicate Renewed(cfg: Config, prev: BlockIndex, index: map<nat, BlockIndex>, modifierPrev: nat,
    v: seq<Candidate>,
                          picks: seq<nat>, bits: seq<bool>) {
    && SortedByTime(v) && CandidatesOf(v, Recent(Some(prev), IntervalStart(prev.nTime)))
    && |picks| == Min(64, |v|)
    && RoundsOk(cfg, v, index, IntervalStart(prev.nTime), modifierPrev, picks, bits)
  }

  /** `firstModifier` is the fixed modifier of the first block after genesis. */
  method ComputeNextStakeModifier(cfg: Config, pindexPrev: Option<BlockIndex>, index: map<nat, BlockIndex>,
    firstModifier: nat)
    returns (ok: bool, nStakeModifier: nat, fGenerated: bool, ghost v: seq<Candidate>, ghost picks: seq<nat>,
      ghost bits: seq<bool>)
    requires LinkedOrNull(pindexPrev) && Known(pindexPrev, index)
    ensures pindexPrev == None ==> ok && fGenerated && nStakeModifier == 0
    ensures pindexPrev.Some? && pindexPrev.value.nHeight == 0 ==> ok && fGenerated && nStakeModifier == firstModifier
    ensures pindexPrev.Some? && pindexPrev.value.nHeight > 0 ==>
              var last := LastGenerated(pindexPrev);
              && (ok <==> last.Some?)
              && (ok ==> (fGenerated <==>
                 last.value.nTime / 60 < pindexPrev.value.nTime / 60))
              && (ok && !fGenerated ==> nStakeModifier == last.value.nStakeModifier)
              && (ok && fGenerated ==> nStakeModifier == Value(bits))
              && (ok && fGenerated ==> Renewed(cfg, pindexPrev.value, index, last.value.nStakeModifier, v, picks, bits))
    ensures forall i, j :: 0 <= i < j < |v| ==> v[i].0 < v[j].0 || (v[i].0 == v[j].0 && v[i].1 < v[j].1)
  {
    ok, nStakeModifier, fGenerated, v, picks, bits := true, 0, false, [], [], [];
    if pindexPrev == None { return true, 0, true, [], [], []; }
    var prev := pindexPrev.value;
    if prev.nHeight == 0 { return true, firstModifier, true, [], [], []; }
    var found, modifierPrev, nModifierTime := GetLastStakeModifier(pindexPrev);
    if !found { return false, 0, false, [], [], []; }
    if nModifierTime / MODIFIER_INTERVAL >= prev.nTime / MODIFIER_INTERVAL {
      return true, modifierPrev, false, [], [], [];
    }
    var nSelectionIntervalStart := IntervalStart(prev.nTime);
    var vSortedByTimestamp := SortedCandidates(prev, nSelectionIntervalStart, index);
    v := vSortedByTimestamp;
    var nStakeModifierNew;
    ok, nStakeModifierNew, picks := SelectBlocks(cfg, vSortedByTimestamp, index, nSelectionIntervalStart, modifierPrev);
    bits := nStakeModifierNew;
    nStakeModifier := Value(nStakeModifierNew);
    fGenerated := true;
  }

  /** The block before is always a candidate, so a new modifier has at least one round; after all 64
      rounds the stop is the start of the present interval. */
  lemma IntervalIsCovered(prev: BlockIndex)
    ensures prev in Recent(Some(prev), IntervalStart(prev.nTime))
    ensures IntervalStart(prev.nTime) + Sections(64) == prev.nTime / MODIFIER_INTERVAL * MODIFIER_INTERVAL <= prev.nTime
  {
    SectionsFill();
    DivModEquation(prev.nTime, MODIFIER_INTERVAL);
  }
}
