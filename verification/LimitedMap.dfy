/** `limitedmap` of `src/limitedmap.h`: a map with an index of its elements ordered by value.

    An iterator into the map is represented by its key. */
module LimitedMap {
  import opened Options

  /** The index: pairs of value and key; elements of equal value stay in the order of insertion. */
  type Index<K> = seq<(int, K)>

  /** Elements are in the order of their values, and none occurs twice. */
  predicate InOrder<K(==)>(r: Index<K>, i: int, j: int) {
    0 <= i < j < |r| ==> r[i].0 <= r[j].0 && r[i].1 != r[j].1
  }

  predicate EntryOk<K(==)>(m: map<K, int>, r: Index<K>, i: int) {
    0 <= i < |r| ==> r[i].1 in m && m[r[i].1] == r[i].0
  }

  predicate Indexed<K(==)>(m: map<K, int>, r: Index<K>, k: K) {
    k in m ==> (m[k], k) in r
  }

  ghost predicate Sorted<K(!new)>(r: Index<K>) {
    forall i, j {:trigger InOrder(r, i, j)} :: InOrder(r, i, j)
  }

  /** The index, sorted by value, holds every element of the map once, and nothing else. */
  ghost predicate Inverse<K(!new)>(m: map<K, int>, r: Index<K>) {
    && (forall i {:trigger EntryOk(m, r, i)} :: EntryOk(m, r, i))
    && (forall k {:trigger Indexed(m, r, k)} :: Indexed(m, r, k))
    && Sorted(r)
  }

  function Removed<K>(r: Index<K>, i: nat): Index<K>
    requires i < |r|
  {
    r[..i] + r[i + 1..]
  }

  function Inserted<K>(r: Index<K>, i: nat, v: int, k: K): Index<K>
    requires i <= |r|
  {
    r[..i] + [(v, k)] + r[i..]
  }

  /** Where an entry of the shorter index comes from. */
  function Source(i: nat, j: int): int { if j < i then j else j + 1 }

  lemma RemovedAt<K>(r: Index<K>, i: nat, j: int)
    requires i < |r| && 0 <= j < |r| - 1
    ensures Removed(r, i)[j] == r[Source(i, j)]
  {
  }

  lemma InsertedAt<K>(r: Index<K>, i: nat, v: int, k: K, j: int)
    requires i <= |r| && 0 <= j < |r|
    ensures Inserted(r, i, v, k)[Source(i, j)] == r[j]
  {
  }

  lemma RemovedKeeps<K(!new)>(m: map<K, int>, r: Index<K>, i: nat)
    requires Inverse(m, r) && i < |r|
    ensures r[i].1 in m && Inverse(m - {r[i].1}, Removed(r, i))
  {
    var m', r' := m - {r[i].1}, Removed(r, i);
    assert EntryOk(m, r, i);
    forall j ensures EntryOk(m', r', j) {
      if 0 <= j < |r'| {
        RemovedAt(r, i, j);
        assert EntryOk(m, r, Source(i, j)) && InOrder(r, i, j + 1) && InOrder(r, j, i);
      }
    }
    forall j, l ensures InOrder(r', j, l) {
      if 0 <= j < l < |r'| {
        RemovedAt(r, i, j);
        RemovedAt(r, i, l);
        assert InOrder(r, Source(i, j), Source(i, l));
      }
    }
    forall j ensures Indexed(m', r', j) {
      assert Indexed(m, r, j);
      if j in m' {
        var p :| 0 <= p < |r| && r[p] == (m[j], j);
        RemovedAt(r, i, if p < i then p else p - 1);
      }
    }
  }

  lemma InsertedKeeps<K(!new)>(m: map<K, int>, r: Index<K>, i: nat, v: int, k: K)
    requires Inverse(m, r) && i <= |r| && k !in m
    requires forall j :: 0 <= j < i ==> r[j].0 <= v
    requires forall j :: i <= j < |r| ==> v <= r[j].0
    ensures Inverse(m[k := v], Inserted(r, i, v, k))
  {
    var m', r' := m[k := v], Inserted(r, i, v, k);
    assert r'[i] == (v, k);
    forall j ensures EntryOk(m', r', j) {
      if 0 <= j < |r'| && j != i {
        InsertedAt(r, i, v, k, if j < i then j else j - 1);
        assert EntryOk(m, r, if j < i then j else j - 1);
      }
    }
    forall j, l ensures InOrder(r', j, l) {
      if 0 <= j < l < |r'| { InsertedInOrder(m, r, i, v, k, j, l); }
    }
    forall j ensures Indexed(m', r', j) {
      assert Indexed(m, r, j);
      if j in m' && j != k {
        var p :| 0 <= p < |r| && r[p] == (m[j], j);
        InsertedAt(r, i, v, k, p);
      }
    }
  }

  lemma InsertedInOrder<K(!new)>(m: map<K, int>, r: Index<K>, i: nat, v: int, k: K, j: int, l: int)
    requires Inverse(m, r) && i <= |r| && k !in m && 0 <= j < l <= |r|
    requires forall p :: 0 <= p < i ==> r[p].0 <= v
    requires forall p :: i <= p < |r| ==> v <= r[p].0
    ensures InOrder(Inserted(r, i, v, k), j, l)
  {
    var p, q := if j < i then j else j - 1, if l < i then l else l - 1;
    if j != i { InsertedAt(r, i, v, k, p); }
    if l != i { InsertedAt(r, i, v, k, q); }
    assert InOrder(r, p, q);
    assert EntryOk(m, r, p) && EntryOk(m, r, q);
  }

  /** The index is as long as the map is large. */
  lemma {:induction false} SameSize<K(!new)>(m: map<K, int>, r: Index<K>)
    requires Inverse(m, r)
    ensures |r| == |m|
    decreases |r|
  {
    if |r| > 0 {
      RemovedKeeps(m, r, 0);
      SameSize(m - {r[0].1}, Removed(r, 0));
      assert m.Keys == (m - {r[0].1}).Keys + {r[0].1};
    } else {
      forall k ensures k !in m { assert Indexed(m, r, k); }
      assert m == map[];
    }
  }

  /** The first element of the index has the least value. */
  lemma FirstIsLeast<K(!new)>(m: map<K, int>, r: Index<K>)
    requires Inverse(m, r) && |r| > 0
    ensures IsLeast(m, r[0].1)
  {
    assert EntryOk(m, r, 0);
    forall k | k in m ensures r[0].0 <= m[k] {
      assert Indexed(m, r, k);
      var p :| 0 <= p < |r| && r[p] == (m[k], k);
      assert InOrder(r, 0, p);
    }
  }

  // ---------------------------------------------------------------- what the operations do

  ghost predicate IsLeast<K(!new)>(m: map<K, int>, e: K) {
    e in m && forall k :: k in m ==> m[e] <= m[k]
  }

  /** Whether an insertion makes room first. */
  predicate Evicts<K(==)>(m: map<K, int>, k: K, maxSize: nat) {
    k !in m && maxSize != 0 && |m| + 1 == maxSize
  }

  /** Insertion of an unknown key; `evicted` is the element that made room. */
  ghost predicate InsertResult<K(!new)>(m: map<K, int>, m': map<K, int>, k: K, v: int, maxSize: nat,
    evicted: Option<K>) {
    && (k in m ==> m' == m)
    && (evicted.Some? <==> Evicts(m, k, maxSize))
    && (k !in m ==>
          match evicted
          case Some(e) => IsLeast(m, e) && m' == (m - {e})[k := v]
          case None => m' == m[k := v])
  }

  /** No dropped element has a higher value than a kept one. */
  ghost predicate KeepsHighest<K(!new)>(all: map<K, int>, kept: map<K, int>) {
    && (forall k :: k in kept ==> k in all && kept[k] == all[k])
    && forall k, d :: k in kept && d in all && d !in kept ==> all[d] <= all[k]
  }

  /** The container "only keeps the elements with the highest value": an evicting insertion does so
      exactly if the new value is not below all earlier ones. */
  lemma InsertKeepsHighest<K(!new)>(m: map<K, int>, m': map<K, int>, k: K, v: int, maxSize: nat, e: K)
    requires k !in m && InsertResult(m, m', k, v, maxSize, Some(e))
    ensures KeepsHighest(m[k := v], m') <==> m[e] <= v
  {
    assert k in m' && e !in m';
  }

  /** A new element of lower value than all others drives out a higher one. */
  lemma HigherElementDropped()
    ensures InsertResult(map[1 := 5, 2 := 6], map[2 := 6, 3 := 0], 3, 0, 3, Some(1))
    ensures !KeepsHighest(map[1 := 5, 2 := 6][3 := 0], map[2 := 6, 3 := 0])
  {
    var m: map<int, int> := map[1 := 5, 2 := 6];
    assert m.Keys == {1, 2};
    assert |m| == 2;
    var m' := map[2 := 6, 3 := 0];
    assert m' == (m - {1})[3 := 0];
    assert 3 in m' && 1 !in m' && 1 in m[3 := 0];
  }

  /** With a limit above one, an insertion of a new key keeps the size below the limit exactly if it was
      below; at the limit or above, the container grows. */
  lemma InsertBound<K(!new)>(m: map<K, int>, m': map<K, int>, k: K, v: int, maxSize: nat, evicted: Option<K>)
    requires maxSize > 1 && k !in m && InsertResult(m, m', k, v, maxSize, evicted)
    ensures |m'| < maxSize <==> |m| < maxSize
    ensures |m| >= maxSize ==> |m'| == |m| + 1
  {
    InsertSize(m, m', k, v, maxSize, evicted);
  }

  lemma InsertSize<K(!new)>(m: map<K, int>, m': map<K, int>, k: K, v: int, maxSize: nat, evicted: Option<K>)
    requires k !in m && InsertResult(m, m', k, v, maxSize, evicted)
    ensures |m'| == |m| + if evicted.Some? then 0 else 1
  {
    match evicted
    case Some(e) =>
      RemovedSize(m, e);
      AddedSize(m - {e}, k, v);
    case None =>
      AddedSize(m, k, v);
  }

  lemma AddedSize<K>(m: map<K, int>, k: K, v: int)
    requires k !in m
    ensures |m[k := v]| == |m| + 1
  {
    assert m[k := v].Keys == m.Keys + {k};
  }

  lemma RemovedSize<K>(m: map<K, int>, k: K)
    requires k in m
    ensures |m - {k}| == |m| - 1
  {
    assert m.Keys == (m - {k}).Keys + {k};
  }

  /** The result of changing the limit. */
  ghost predicate ShrinkResult<K(!new)>(m: map<K, int>, m': map<K, int>, s: nat) {
    && (s == 0 || |m| <= s ==> m' == m)
    && (s != 0 && |m| > s ==> |m'| == s && KeepsHighest(m, m'))
  }

  /** After setting a limit other than zero the next insertion of a new key breaks it exactly if the
      container was shrunk or just full. */
  lemma LimitThenInsert<K(!new)>(m: map<K, int>, m': map<K, int>, m'': map<K, int>, s: nat, k: K, v: int,
    evicted: Option<K>)
    requires s > 1 && ShrinkResult(m, m', s) && k !in m' && InsertResult(m', m'', k, v, s, evicted)
    ensures |m''| > s <==> |m| >= s
  {
    InsertSize(m', m'', k, v, s, evicted);
  }

  /** A new element comes behind all that are not greater; so of equal elements the oldest is first, and the
      first to be dropped. */
  ghost predicate AddedLast<K(!new)>(r: Index<K>, r': Index<K>, v: int, k: K) {
    exists i: nat ::
      && i <= |r| && r' == r[..i] + [(v, k)] + r[i..]
      && (forall j :: 0 <= j < i ==> r[j].0 <= v) && (forall j :: i <= j < |r| ==> v < r[j].0)
  }

  // ---------------------------------------------------------------- the container

  class Limited<K(==, !new)> {
    var elements: map<K, int>
    var rmap: Index<K>
    var nMaxSize: nat

    ghost predicate Valid()
      reads this
    {
      Inverse(elements, rmap)
    }

    constructor (nMaxSizeIn: nat)
      ensures Valid() && elements == map[] && nMaxSize == nMaxSizeIn
    {
      elements, rmap, nMaxSize := map[], [], nMaxSizeIn;
    }

    method LowerBound(v: int) returns (i: nat)
      requires Valid()
      ensures i <= |rmap|
      ensures forall j :: 0 <= j < i ==> rmap[j].0 < v
      ensures i < |rmap| ==> v <= rmap[i].0
    {
      i := 0;
      while i < |rmap| && rmap[i].0 < v
        invariant 0 <= i <= |rmap|
        invariant forall j :: 0 <= j < i ==> rmap[j].0 < v
      {
        i := i + 1;
      }
    }

    /** The element of least value is dropped. */
    method DropFirst() returns (ghost e: K)
      requires Valid() && |rmap| > 0
      modifies this`elements, this`rmap
      ensures Valid() && IsLeast(old(elements), e) && elements == old(elements) - {e}
              && |elements| == |old(elements)| - 1
      ensures e == old(rmap)[0].1 && rmap == old(rmap)[1..]
    {
      e := rmap[0].1;
      FirstIsLeast(elements, rmap);
      RemovedKeeps(elements, rmap, 0);
      assert Removed(rmap, 0) == rmap[1..];
      elements := elements - {rmap[0].1};
      rmap := rmap[1..];
      assert old(elements).Keys == elements.Keys + {e};
    }

    /** With a limit of one, the first insertion would evict from an empty index. */
    method Insert(k: K, v: int) returns (ghost evicted: Option<K>)
      requires Valid() && !(nMaxSize == 1 && elements == map[] && k !in elements)
      modifies this`elements, this`rmap
      ensures Valid() && InsertResult(old(elements), elements, k, v, nMaxSize, evicted)
      ensures k in old(elements) ==> rmap == old(rmap)
      ensures k !in old(elements) ==>
                match evicted
                case None => AddedLast(old(rmap), rmap, v, k)
                case Some(e) => |old(rmap)| > 0 && e == old(rmap)[0].1 && AddedLast(old(rmap)[1..], rmap, v, k)
    {
      evicted := None;
      if k in elements { return; }
      SameSize(elements, rmap);
      assert elements[k := v].Keys == elements.Keys + {k};
      if nMaxSize != 0 && |elements| + 1 == nMaxSize {
        ghost var e := DropFirst();
        evicted := Some(e);
      }
      var i := UpperBound(rmap, v);
      InsertedKeeps(elements, rmap, i, v, k);
      elements := elements[k := v];
      rmap := Inserted(rmap, i, v, k);
    }

    /** The place of a known key in the index; the search among the elements of equal value cannot
        fail. */
    method Locate(k: K) returns (i: nat)
      requires Valid() && k in elements
      ensures i < |rmap| && rmap[i] == (elements[k], k)
    {
      assert Indexed(elements, rmap, k);
      ghost var p: nat :| p < |rmap| && rmap[p] == (elements[k], k);
      i := LowerBound(elements[k]);
      while i < |rmap| && rmap[i].0 == elements[k]
        invariant 0 <= i <= p
        invariant rmap[i].0 >= elements[k] && InOrder(rmap, i, p)
        decreases |rmap| - i
      {
        assert EntryOk(elements, rmap, i);
        if rmap[i].1 == k { return; }
        assert InOrder(rmap, i, p) && InOrder(rmap, i + 1, p) && InOrder(rmap, i, i + 1);
        i := i + 1;
      }
      assert false;
    }

    method Erase(k: K)
      requires Valid()
      modifies this`elements, this`rmap
      ensures Valid() && elements == old(elements) - {k}
      ensures k in old(elements) ==> exists i: nat :: i < |old(rmap)| && old(rmap)[i].1 == k
                                                      && rmap == Removed(old(rmap), i)
      ensures k !in old(elements) ==> rmap == old(rmap)
    {
      if k !in elements { return; }
      var i := Locate(k);
      RemovedKeeps(elements, rmap, i);
      rmap := Removed(rmap, i);
      elements := elements - {k};
    }

    method Update(k: K, v: int)
      requires Valid()
      modifies this`elements, this`rmap
      ensures Valid() && elements == if k in old(elements) then old(elements)[k := v] else old(elements)
      ensures k in old(elements) ==> exists i: nat :: i < |old(rmap)| && old(rmap)[i].1 == k
                                                      && AddedLast(Removed(old(rmap), i), rmap, v, k)
      ensures k !in old(elements) ==> rmap == old(rmap)
    {
      if k !in elements { return; }
      var i := Locate(k);
      RemovedKeeps(elements, rmap, i);
      rmap := Removed(rmap, i);
      ghost var rest := elements - {k};
      var j := UpperBound(rmap, v);
      InsertedKeeps(rest, rmap, j, v, k);
      assert rest[k := v] == elements[k := v];
      elements := elements[k := v];
      rmap := Inserted(rmap, j, v, k);
    }

    method MaxSize(s: nat)
      requires Valid()
      modifies this
      ensures Valid() && nMaxSize == s && ShrinkResult(old(elements), elements, s)
      ensures |rmap| <= |old(rmap)| && rmap == old(rmap)[|old(rmap)| - |rmap|..]
    {
      if s != 0 {
        while |elements| > s
          invariant Valid() && KeepsHighest(old(elements), elements)
          invariant |rmap| <= |old(rmap)| && rmap == old(rmap)[|old(rmap)| - |rmap|..]
          invariant if |old(elements)| <= s then elements == old(elements) else |elements| >= s
        {
          SameSize(elements, rmap);
          ghost var e := DropFirst();
        }
      }
      nMaxSize := s;
    }
  }

  /** Where an index takes a new element: behind all that are not greater. */
  method UpperBound<K(!new)>(r: Index<K>, v: int) returns (i: nat)
    requires Sorted(r)
    ensures i <= |r|
    ensures forall j :: 0 <= j < i ==> r[j].0 <= v
    ensures forall j :: i <= j < |r| ==> v < r[j].0
  {
    i := 0;
    while i < |r| && r[i].0 <= v
      invariant 0 <= i <= |r|
      invariant forall j :: 0 <= j < i ==> r[j].0 <= v
    {
      i := i + 1;
    }
    forall j | i <= j < |r| ensures v < r[j].0 { assert InOrder(r, i, j); }
  }
}
