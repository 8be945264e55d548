/** The file format of the address manager (`src/addrman.h`): what is written, what is read, and that
    reading what was written gives the same entries in the same places, up to the numbering of the
    entries.

    A stream is a list of numbers and entries; their bytes are not modelled. */
module AddrManDisk {
  import opened Options
  import opened AddrTables

  /** What is stored of an entry. */
  datatype DiskInfo = DiskInfo(
    addr: Service,
    source: Ip,
    nTime: int,
    nServices: set<nat>,
    nLastSuccess: int,
    nAttempts: int)

  datatype Token = Num(n: int) | Entry(e: DiskInfo)

  /** The contents of a file. */
  datatype Image = Image(
    version: nat,
    key: int,
    nNew: int,
    nTried: int,
    nUBuckets: int,
    news: seq<DiskInfo>,
    trieds: seq<DiskInfo>,
    buckets: seq<seq<int>>)

  function DiskOf(i: Info): DiskInfo {
    DiskInfo(i.addr, i.source, i.nTime, i.nServices, i.nLastSuccess, i.nAttempts)
  }

  function InfoOf(e: DiskInfo, place: int, tried: bool): Info {
    Info(e.addr, e.source, e.nTime, e.nServices, 0, e.nLastSuccess, e.nAttempts, 0, tried, place)
  }

  // ---------------------------------------------------------------- the format

  const BIT30: int := 0x4000_0000

  /** `n ^ (1 << 30)`. */
  function FlipBit30(n: int): int {
    if n / BIT30 % 2 == 0 then n + BIT30 else n - BIT30
  }

  lemma FlippedTwice(n: int)
    ensures FlipBit30(FlipBit30(n)) == n
  {
  }

  /** On 32-bit words, bit 30 is turned around and no other. */
  lemma FlippedBit(n: int)
    requires -0x8000_0000 <= n < 0x8000_0000
    ensures FlipBit30(n) == if 0 <= n < 0x4000_0000 || n < -0x4000_0000 then n + 0x4000_0000 else n - 0x4000_0000
  {
  }

  type Read<A> = Option<(A, seq<Token>)>

  function ReadNum(t: seq<Token>): Read<int> {
    if |t| > 0 && t[0].Num? then Some((t[0].n, t[1..])) else None
  }

  function ReadEntry(t: seq<Token>): Read<DiskInfo> {
    if |t| > 0 && t[0].Entry? then Some((t[0].e, t[1..])) else None
  }

  /** Reads `n` items, or as many as there are before the stream breaks off; and what is left. */
  function ReadMany<A>(read: seq<Token> -> Read<A>, t: seq<Token>, n: nat): (r: (seq<A>, seq<Token>))
    ensures |r.0| <= n
    decreases n
  {
    if n == 0 || read(t) == None then ([], t)
    else
      var (a, rest) := read(t).value;
      var (more, after) := ReadMany(read, rest, n - 1);
      ([a] + more, after)
  }

  function WriteMany<A>(write: A -> seq<Token>, xs: seq<A>): seq<Token> {
    if xs == [] then [] else write(xs[0]) + WriteMany(write, xs[1..])
  }

  /** Reading gives back what was written, and leaves what follows. */
  ghost predicate Inverse<A(!new)>(read: seq<Token> -> Read<A>, write: A -> seq<Token>) {
    forall a, rest {:trigger read(write(a) + rest)} :: read(write(a) + rest) == Some((a, rest))
  }

  lemma {:induction false} ManyInverse<A(!new)>(read: seq<Token> -> Read<A>, write: A -> seq<Token>, xs: seq<A>,
    rest: seq<Token>)
    requires Inverse(read, write)
    ensures ReadMany(read, WriteMany(write, xs) + rest, |xs|) == (xs, rest)
  {
    if xs == [] {
      assert WriteMany(write, xs) + rest == rest;
    } else {
      ManyInverse(read, write, xs[1..], rest);
      var tail := WriteMany(write, xs[1..]) + rest;
      assert WriteMany(write, xs) + rest == write(xs[0]) + tail;
      assert [xs[0]] + xs[1..] == xs;
    }
  }

  function WriteNum(n: int): seq<Token> { [Num(n)] }

  function WriteEntry(e: DiskInfo): seq<Token> { [Entry(e)] }

  function AsCount(n: int): nat { if n < 0 then 0 else n }

  function ReadBucket(t: seq<Token>): Read<seq<int>> {
    match ReadNum(t)
    case None => None
    case Some((nSize, rest)) =>
      var (indexes, after) := ReadMany(ReadNum, rest, AsCount(nSize));
      if |indexes| < AsCount(nSize) then None else Some((indexes, after))
  }

  function WriteBucket(b: seq<int>): seq<Token> {
    [Num(|b|)] + WriteMany(WriteNum, b)
  }

  lemma NumInverse()
    ensures Inverse(ReadNum, WriteNum)
  {
    forall n, rest ensures ReadNum(WriteNum(n) + rest) == Some((n, rest)) {
      assert (WriteNum(n) + rest)[1..] == rest;
    }
  }

  lemma EntryInverse()
    ensures Inverse(ReadEntry, WriteEntry)
  {
    forall e, rest ensures ReadEntry(WriteEntry(e) + rest) == Some((e, rest)) {
      assert (WriteEntry(e) + rest)[1..] == rest;
    }
  }

  lemma BucketInverse()
    ensures Inverse(ReadBucket, WriteBucket)
  {
    NumInverse();
    forall b, rest ensures ReadBucket(WriteBucket(b) + rest) == Some((b, rest)) {
      ManyInverse(ReadNum, WriteNum, b, rest);
      assert (WriteBucket(b) + rest)[1..] == WriteMany(WriteNum, b) + rest;
    }
  }

  function Header(img: Image): seq<Token> {
    [Num(img.version), Num(32), Num(img.key), Num(img.nNew), Num(img.nTried), Num(FlipBit30(img.nUBuckets))]
  }

  function Body(img: Image): seq<Token> {
    WriteMany(WriteEntry, img.news) + (WriteMany(WriteEntry, img.trieds) + WriteMany(WriteBucket, img.buckets))
  }

  function Format(img: Image): seq<Token> {
    Header(img) + Body(img)
  }

  /** The counts of an image fit its lists. */
  predicate Matching(img: Image) {
    && |img.news| == AsCount(img.nNew) && |img.trieds| == AsCount(img.nTried) && |img.buckets| == AsCount(img.nUBuckets)
  }

  /** The numbers of the header that are read: none if the version is not a byte, and two if the size of
      the key is wrong. */
  function HeaderNums(t: seq<Token>): (nums: seq<int>)
    ensures |nums| <= 6 && (|nums| > 0 ==> nums[0] >= 0) && (|nums| > 2 ==> nums[1] == 32)
  {
    var nums := ReadMany(ReadNum, t, 6).0;
    if |nums| > 0 && nums[0] < 0 then []
    else if |nums| > 1 && nums[1] != 32 then nums[..2]
    else nums
  }

  /** The header of an image, still without its lists. */
  function ReadHeader(t: seq<Token>): Read<Image> {
    var nums := HeaderNums(t);
    if |nums| < 6 then None
    else
      var nUBuckets := if nums[0] != 0 then FlipBit30(nums[5]) else nums[5];
      Some((Image(nums[0], nums[2], nums[3], nums[4], nUBuckets, [], [], []), ReadMany(ReadNum, t, 6).1))
  }

  function ReadBody(img: Image, t: seq<Token>): Option<Image> {
    var (news, t1) := ReadMany(ReadEntry, t, AsCount(img.nNew));
    var (trieds, t2) := ReadMany(ReadEntry, t1, AsCount(img.nTried));
    var (buckets, _) := ReadMany(ReadBucket, t2, AsCount(img.nUBuckets));
    var all := img.(news := news, trieds := trieds, buckets := buckets);
    if Matching(all) then Some(all) else None
  }

  function Parse(t: seq<Token>): Option<Image> {
    match ReadHeader(t)
    case None => None
    case Some((img, rest)) => ReadBody(img, rest)
  }

  lemma {:induction false} NumsWritten(xs: seq<int>)
    ensures |WriteMany(WriteNum, xs)| == |xs| && forall i :: 0 <= i < |xs| ==> WriteMany(WriteNum, xs)[i] == Num(xs[i])
  {
    if xs != [] { NumsWritten(xs[1..]); }
  }

  lemma HeaderRead(img: Image, rest: seq<Token>)
    requires img.version != 0
    ensures HeaderNums(Header(img) + rest) == [img.version, 32, img.key, img.nNew, img.nTried, FlipBit30(img.nUBuckets)]
    ensures ReadHeader(Header(img) + rest) == Some((img.(news := [], trieds := [], buckets := []), rest))
  {
    FlippedTwice(img.nUBuckets);
    NumInverse();
    var nums := [img.version, 32, img.key, img.nNew, img.nTried, FlipBit30(img.nUBuckets)];
    NumsWritten(nums);
    assert WriteMany(WriteNum, nums) == Header(img);
    ManyInverse(ReadNum, WriteNum, nums, rest);
  }

  /** The header as it is read: the version, the size of the key, which is 32, the key, both counts and the number
      of buckets, of which bit 30 is turned around unless the version is 0. */
  lemma HeaderLayout(version: nat, size: int, key: int, nNew: int, nTried: int, buckets: int, rest: seq<Token>)
    ensures var t := [Num(version), Num(size), Num(key), Num(nNew), Num(nTried), Num(buckets)] + rest;
            var nUBuckets := if version == 0 then buckets else FlipBit30(buckets);
            && ReadHeader(t) ==
                 (if size == 32 then Some((Image(version, key, nNew, nTried, nUBuckets, [], [], []), rest)) else None)
            && (size == 32 ==> forall randomKey :: FileKey(randomKey, t) == key)
  {
    NumInverse();
    var nums := [version, size, key, nNew, nTried, buckets];
    NumsWritten(nums);
    var t := [Num(version), Num(size), Num(key), Num(nNew), Num(nTried), Num(buckets)] + rest;
    assert WriteMany(WriteNum, nums) + rest == t;
    ManyInverse(ReadNum, WriteNum, nums, rest);
  }

  /** The key is known as soon as it has been read. */
  lemma KeyIsRead(version: nat, key: int, randomKey: int, rest: seq<Token>)
    ensures FileKey(randomKey, [Num(version), Num(32), Num(key)] + rest) == key
    ensures FileKey(randomKey, [Num(version), Num(32)]) == randomKey
  {
    var t := [Num(version), Num(32), Num(key)] + rest;
    assert t[1..] == [Num(32), Num(key)] + rest && t[1..][1..] == [Num(key)] + rest && t[1..][1..][1..] == rest;
    var x := ReadMany(ReadNum, rest, 3).0;
    assert ReadMany(ReadNum, [Num(key)] + rest, 4).0 == [key] + x;
    assert ReadMany(ReadNum, [Num(32), Num(key)] + rest, 5).0 == [32] + ([key] + x);
    assert ReadMany(ReadNum, t, 6).0 == [version] + ([32] + ([key] + x));
    assert ReadMany(ReadNum, [Num(32)], 5).0 == [32];
  }

  lemma HeaderInverse(img: Image)
    requires img.version != 0
    ensures HeaderNums(Format(img)) == [img.version, 32, img.key, img.nNew, img.nTried, FlipBit30(img.nUBuckets)]
    ensures ReadHeader(Format(img)) == Some((img.(news := [], trieds := [], buckets := []), Body(img)))
  {
    HeaderRead(img, Body(img));
  }

  /** Parsing a written image gives it back. */
  lemma ParseFormat(img: Image)
    requires Matching(img) && img.version != 0
    ensures Parse(Format(img)) == Some(img)
  {
    HeaderInverse(img);
    EntryInverse();
    BucketInverse();
    var t2 := WriteMany(WriteBucket, img.buckets);
    ManyInverse(ReadEntry, WriteEntry, img.news, WriteMany(WriteEntry, img.trieds) + t2);
    ManyInverse(ReadEntry, WriteEntry, img.trieds, t2);
    ManyInverse(ReadBucket, WriteBucket, img.buckets, []);
    assert t2 + [] == t2;
  }

  // ---------------------------------------------------------------- what is written

  predicate Wanted(i: Info, tried: bool) {
    if tried then i.fInTried else i.nRefCount != 0
  }

  /** The ids below `n` of the entries in one of the tables, in order. */
  function Listed(m: map<int, Info>, tried: bool, n: nat): seq<int> {
    if n == 0 then []
    else Listed(m, tried, n - 1) + if n - 1 in m && Wanted(m[n - 1], tried) then [n - 1] else []
  }

  lemma {:induction false} ListedFacts(m: map<int, Info>, tried: bool, n: nat)
    ensures forall id :: id in Listed(m, tried, n) <==> 0 <= id < n && id in m && Wanted(m[id], tried)
    ensures forall i, j :: 0 <= i < j < |Listed(m, tried, n)| ==> Listed(m, tried, n)[i] < Listed(m, tried, n)[j]
  {
    if n > 0 {
      ListedFacts(m, tried, n - 1);
      var before := Listed(m, tried, n - 1);
      forall i | 0 <= i < |before| ensures before[i] < n - 1 { assert before[i] in before; }
    }
  }

  /** The number of an entry of the "new" table in the file. */
  function Rank(m: map<int, Info>, id: int): nat {
    |Listed(m, false, AsCount(id))|
  }

  lemma {:induction false} RankAt(m: map<int, Info>, tried: bool, id: nat, n: nat)
    requires id < n && id in m && Wanted(m[id], tried)
    ensures |Listed(m, tried, id)| < |Listed(m, tried, n)| && Listed(m, tried, n)[|Listed(m, tried, id)|] == id
  {
    if id < n - 1 { RankAt(m, tried, id, n - 1); }
  }

  function Entries(m: map<int, Info>, ids: seq<int>): seq<DiskInfo>
    requires forall i :: 0 <= i < |ids| ==> ids[i] in m
  {
    seq(|ids|, i requires 0 <= i < |ids| => DiskOf(m[ids[i]]))
  }

  /** The file's numbers for the entries of the first `n` positions of a bucket. */
  function Indexes(s: Tables, b: int, n: nat): seq<int> {
    if n == 0 then []
    else Indexes(s, b, n - 1) + if (b, n - 1) in s.vvNew then [Rank(s.mapInfo, s.vvNew[(b, n - 1)])] else []
  }

  function ListedEntries(m: map<int, Info>, tried: bool, n: nat): (es: seq<DiskInfo>)
    ensures |es| == |Listed(m, tried, n)|
  {
    ListedFacts(m, tried, n);
    assert forall i :: 0 <= i < |Listed(m, tried, n)| ==> Listed(m, tried, n)[i] in Listed(m, tried, n);
    Entries(m, Listed(m, tried, n))
  }

  function ImageOf(cfg: Config, key: int, s: Tables): Image {
    Image(1, key, s.nNew, s.nTried, cfg.newCount,
          ListedEntries(s.mapInfo, false, AsCount(s.nIdCount)),
          ListedEntries(s.mapInfo, true, AsCount(s.nIdCount)),
          seq(cfg.newCount, b => Indexes(s, b, cfg.bucketSize)))
  }

  // ---------------------------------------------------------------- what is read

  /** Reading into an entry that is there already keeps what the file does not hold. */
  function ReadInto(before: Option<Info>, e: DiskInfo, place: int): Info {
    match before
    case None => InfoOf(e, place, false)
    case Some(i) =>
      i.(addr := e.addr, source := e.source, nTime := e.nTime, nServices := e.nServices, nLastSuccess := e.nLastSuccess,
         nAttempts := e.nAttempts, nRandomPos := place)
  }

  /** An entry of the "new" table gets the next number; if the buckets of the file cannot be used, it
      gets a place by its source at once. */
  function NewEntry(cfg: Config, s: Tables, e: DiskInfo, usable: bool): Tables {
    var id, t := |s.vRandom|, NewSlot(cfg, cfg.newBucket(e.addr, e.source), e.addr);
    var i := ReadInto(Get(s.mapInfo, id), e, id);
    var r := s.(mapInfo := s.mapInfo[id := i], mapAddr := s.mapAddr[e.addr.ip := id], vRandom := s.vRandom + [id]);
    if !usable && t !in s.vvNew then Placed(r, id, t, i.nRefCount + 1) else r
  }

  function NewEntries(cfg: Config, s: Tables, es: seq<DiskInfo>, usable: bool): Tables {
    if es == [] then s else NewEntry(cfg, NewEntries(cfg, s, es[..|es| - 1], usable), es[|es| - 1], usable)
  }

  /** An entry of the "tried" table is lost if its place is taken.  The number -1 leaves a place empty. */
  function TriedEntry(cfg: Config, s: Tables, e: DiskInfo): Tables {
    var id, t := s.nIdCount, TriedSlot(cfg, e.addr);
    if t in s.vvTried then s.(nTried := s.nTried - 1)
    else
      s.(mapInfo := s.mapInfo[id := InfoOf(e, |s.vRandom|, true)], mapAddr := s.mapAddr[e.addr.ip := id],
         vRandom := s.vRandom + [id], vvTried := if id == -1 then s.vvTried else s.vvTried[t := id], nIdCount := id + 1)
  }

  function TriedEntries(cfg: Config, s: Tables, es: seq<DiskInfo>): Tables {
    if es == [] then s else TriedEntry(cfg, TriedEntries(cfg, s, es[..|es| - 1]), es[|es| - 1])
  }

  /** One number of a bucket. */
  function PlaceIndex(cfg: Config, s: Tables, b: int, index: int, usable: bool, nNew: int): Tables {
    if 0 <= index < nNew && index in s.mapInfo then
      var i := s.mapInfo[index];
      var t := NewSlot(cfg, b, i.addr);
      if usable && t !in s.vvNew && i.nRefCount < MAX_REFERENCES then Placed(s, index, t, i.nRefCount + 1) else s
    else s
  }

  function PlaceIndexes(cfg: Config, s: Tables, b: int, indexes: seq<int>, usable: bool, nNew: int): Tables {
    if indexes == [] then s
    else PlaceIndex(cfg, PlaceIndexes(cfg, s, b, indexes[..|indexes| - 1], usable, nNew), b, indexes[|indexes| - 1],
      usable, nNew)
  }

  function PlaceBuckets(cfg: Config, s: Tables, buckets: seq<seq<int>>, usable: bool, nNew: int): Tables {
    if buckets == [] then s
    else
      var b := |buckets| - 1;
      PlaceIndexes(cfg, PlaceBuckets(cfg, s, buckets[..b], usable, nNew), b, buckets[b], usable, nNew)
  }

  /** Entries below `n` without a place are deleted. */
  ghost function Pruned(s: Tables, n: nat): Tables {
    if n == 0 then s
    else
      var r := Pruned(s, n - 1);
      if n - 1 in r.mapInfo && !r.mapInfo[n - 1].fInTried && r.mapInfo[n - 1].nRefCount == 0
        && CanDelete(r, n - 1) then Deleted(r, n - 1)
      else r
  }

  predicate Usable(cfg: Config, img: Image) {
    img.version == 1 && img.nUBuckets == cfg.newCount
  }

  /** The state `s` with the entries of the file, without their places in the "new" table. */
  function EntriesOver(cfg: Config, s: Tables, img: Image): Tables {
    var s0 := s.(nNew := img.nNew, nTried := img.nTried);
    TriedEntries(cfg, NewEntries(cfg, s0, img.news, Usable(cfg, img)).(nIdCount := img.nNew), img.trieds)
  }

  /** Reading a file over the state `s`. */
  ghost function LoadOver(cfg: Config, s: Tables, img: Image): Tables {
    var r := PlaceBuckets(cfg, EntriesOver(cfg, s, img), img.buckets, Usable(cfg, img), img.nNew);
    Pruned(r, AsCount(r.nIdCount))
  }

  /** The entries of the file in a new manager. */
  function EntriesLoaded(cfg: Config, img: Image): Tables {
    EntriesOver(cfg, FRESH, img)
  }

  /** Reading a file into a new manager. */
  ghost function Load(cfg: Config, img: Image): Tables {
    LoadOver(cfg, FRESH, img)
  }

  // ---------------------------------------------------------------- a stream that may break off

  /** The numbers that are read of the bucket in which the stream breaks off. */
  function BucketStart(t: seq<Token>): seq<int> {
    match ReadNum(t)
    case None => []
    case Some((nSize, rest)) => ReadMany(ReadNum, rest, AsCount(nSize)).0
  }

  /** What reading leaves, and whether it succeeds.  The entry in which the stream breaks off is known
      already, with the part `part` that was read of it. */
  ghost function BodyRead(cfg: Config, img: Image, part: DiskInfo, t: seq<Token>): (Tables, bool) {
    var (news, t1) := ReadMany(ReadEntry, t, AsCount(img.nNew));
    var s1 := NewEntries(cfg, FRESH.(nNew := img.nNew, nTried := img.nTried), news, Usable(cfg, img));
    if |news| < AsCount(img.nNew) then (s1.(mapInfo := s1.mapInfo[|news| := InfoOf(part, -1, false)]), false)
    else
      var (trieds, t2) := ReadMany(ReadEntry, t1, AsCount(img.nTried));
      var s2 := TriedEntries(cfg, s1.(nIdCount := img.nNew), trieds);
      if |trieds| < AsCount(img.nTried) then (s2.(nTried := img.nTried), false)
      else
        var (buckets, t3) := ReadMany(ReadBucket, t2, AsCount(img.nUBuckets));
        var s3 := PlaceBuckets(cfg, s2, buckets, Usable(cfg, img), img.nNew);
        if |buckets| < AsCount(img.nUBuckets) then
          (PlaceIndexes(cfg, s3, |buckets|, BucketStart(t3), Usable(cfg, img), img.nNew), false)
        else
          (Pruned(s3, AsCount(s3.nIdCount)), true)
  }

  /** The key of the hashes: the one of the file, if reading gets that far. */
  function FileKey(randomKey: int, t: seq<Token>): int {
    if |HeaderNums(t)| < 3 then randomKey else HeaderNums(t)[2]
  }

  ghost function FileRead(cfg: Config, part: DiskInfo, t: seq<Token>): (Tables, bool) {
    var nums := HeaderNums(t);
    if |nums| < 6 then
      (FRESH.(nNew := if |nums| < 4 then 0 else nums[3], nTried := if |nums| < 5 then 0 else nums[4]), false)
    else
      BodyRead(cfg, ReadHeader(t).value.0, part, ReadHeader(t).value.1)
  }

  /** Reading succeeds exactly for a whole image, and then loads it. */
  lemma FileReadIsLoad(cfg: Config, part: DiskInfo, t: seq<Token>)
    ensures FileRead(cfg, part, t).1 <==> Parse(t).Some?
    ensures Parse(t).Some? ==> FileRead(cfg, part, t).0 == Load(cfg, Parse(t).value)
  {
  }

  // ---------------------------------------------------------------- the entries after reading

  ghost predicate EntryAt(r: Tables, es: seq<DiskInfo>, first: nat, k: int)
    requires 0 <= k < |es|
  {
    && k in r.mapInfo && r.mapInfo[k] == InfoOf(es[k], k, k >= first)
    && Get(r.mapAddr, es[k].addr.ip) == Some(k)
  }

  ghost predicate AddressAt(r: Tables, es: seq<DiskInfo>, ip: Ip) {
    ip in r.mapAddr ==> 0 <= r.mapAddr[ip] < |es| && es[r.mapAddr[ip]].addr.ip == ip
  }

  ghost predicate TriedAt(cfg: Config, r: Tables, es: seq<DiskInfo>, first: nat, t: Slot) {
    t in r.vvTried ==> first <= r.vvTried[t] < |es| && t == TriedSlot(cfg, es[r.vvTried[t]].addr)
  }

  /** The entries `es` have been read, those from number `first` on into the "tried" table. */
  ghost predicate Filled(cfg: Config, r: Tables, es: seq<DiskInfo>, first: nat) {
    && |r.vRandom| == |es| && (forall k :: 0 <= k < |es| ==> r.vRandom[k] == k)
    && (forall k {:trigger k in r.mapInfo} :: k in r.mapInfo ==> 0 <= k < |es|)
    && (forall k {:trigger EntryAt(r, es, first, k)} :: 0 <= k < |es| ==> EntryAt(r, es, first, k))
    && (forall ip {:trigger AddressAt(r, es, ip)} :: AddressAt(r, es, ip))
    && (forall t {:trigger TriedAt(cfg, r, es, first, t)} :: TriedAt(cfg, r, es, first, t))
    && (forall k :: first <= k < |es| ==> Get(r.vvTried, TriedSlot(cfg, es[k].addr)) == Some(k))
    && r.vvNew == map[]
  }

  /** The entries have different addresses, and those of the "tried" table different places. */
  ghost predicate Unlike(cfg: Config, es: seq<DiskInfo>, first: nat) {
    && (forall i, j :: 0 <= i < j < |es| ==> es[i].addr.ip != es[j].addr.ip)
    && forall i, j :: first <= i < j < |es| ==> TriedSlot(cfg, es[i].addr) != TriedSlot(cfg, es[j].addr)
  }

  lemma FilledNew(cfg: Config, r: Tables, es: seq<DiskInfo>, e: DiskInfo, first: nat)
    requires Filled(cfg, r, es, first) && Unlike(cfg, es + [e], first) && |es| < first
    ensures Filled(cfg, NewEntry(cfg, r, e, true), es + [e], first)
  {
    var r', es' := NewEntry(cfg, r, e, true), es + [e];
    forall k | 0 <= k < |es'| ensures EntryAt(r', es', first, k) {
      if k < |es| { assert EntryAt(r, es, first, k); assert es'[k].addr.ip != es'[|es|].addr.ip; }
    }
    forall ip ensures AddressAt(r', es', ip) { assert AddressAt(r, es, ip); }
    forall t ensures TriedAt(cfg, r', es', first, t) { assert TriedAt(cfg, r, es, first, t); }
  }

  lemma PlaceFree(cfg: Config, r: Tables, es: seq<DiskInfo>, e: DiskInfo, first: nat)
    requires Filled(cfg, r, es, first) && Unlike(cfg, es + [e], first) && |es| >= first
    ensures TriedSlot(cfg, e.addr) !in r.vvTried
  {
    var es' := es + [e];
    forall k | first <= k < |es| ensures TriedSlot(cfg, es[k].addr) != TriedSlot(cfg, e.addr) {
      assert es'[k] == es[k] && es'[|es|] == e;
    }
    assert TriedAt(cfg, r, es, first, TriedSlot(cfg, e.addr));
  }

  lemma FilledTried(cfg: Config, r: Tables, es: seq<DiskInfo>, e: DiskInfo, first: nat)
    requires Filled(cfg, r, es, first) && Unlike(cfg, es + [e], first) && |es| >= first && r.nIdCount == |es|
    ensures Filled(cfg, TriedEntry(cfg, r, e), es + [e], first)
    ensures TriedEntry(cfg, r, e).nIdCount == |es| + 1 && TriedEntry(cfg, r, e).nTried == r.nTried
  {
    var es' := es + [e];
    PlaceFree(cfg, r, es, e, first);
    var r' := TriedEntry(cfg, r, e);
    forall k | 0 <= k < |es'| ensures EntryAt(r', es', first, k) {
      if k < |es| { assert EntryAt(r, es, first, k); assert es'[k].addr.ip != es'[|es|].addr.ip; }
    }
    forall ip ensures AddressAt(r', es', ip) { assert AddressAt(r, es, ip); }
    forall t ensures TriedAt(cfg, r', es', first, t) { assert TriedAt(cfg, r, es, first, t); }
  }

  lemma {:induction false} NewsFilled(cfg: Config, s0: Tables, es: seq<DiskInfo>, first: nat)
    requires Filled(cfg, s0, [], first) && Unlike(cfg, es, first) && |es| <= first
    ensures var r := NewEntries(cfg, s0, es, true);
            && Filled(cfg, r, es, first) && r.nNew == s0.nNew && r.nTried == s0.nTried && r.nIdCount == s0.nIdCount
  {
    if es != [] {
      var n := |es| - 1;
      NewsFilled(cfg, s0, es[..n], first);
      assert es == es[..n] + [es[n]];
      FilledNew(cfg, NewEntries(cfg, s0, es[..n], true), es[..n], es[n], first);
    }
  }

  /** No entry of the "tried" table is lost. */
  lemma {:induction false} TriedFilled(cfg: Config, r: Tables, news: seq<DiskInfo>, es: seq<DiskInfo>)
    requires Filled(cfg, r, news, |news|) && Unlike(cfg, news + es, |news|) && r.nIdCount == |news|
    ensures var r' := TriedEntries(cfg, r, es);
            && Filled(cfg, r', news + es, |news|) && r'.nNew == r.nNew && r'.nTried == r.nTried
               && r'.nIdCount == |news| + |es|
  {
    if es == [] {
      assert news + es == news;
    } else {
      var n := |es| - 1;
      var all := news + es;
      assert all[..|all| - 1] == news + es[..n];
      TriedFilled(cfg, r, news, es[..n]);
      assert news + es == news + es[..n] + [es[n]];
      FilledTried(cfg, TriedEntries(cfg, r, es[..n]), news + es[..n], es[n], |news|);
    }
  }

  // ---------------------------------------------------------------- entries of a well-formed manager

  /** The ids in the order of the file. */
  function FileIds(s: Tables): seq<int> {
    Listed(s.mapInfo, false, AsCount(s.nIdCount)) + Listed(s.mapInfo, true, AsCount(s.nIdCount))
  }

  lemma {:induction false} SetOfList(ids: seq<int>)
    requires forall i, j :: 0 <= i < j < |ids| ==> ids[i] != ids[j]
    ensures |set id | id in ids| == |ids|
  {
    if ids != [] {
      var n := |ids| - 1;
      SetOfList(ids[..n]);
      assert (set id | id in ids) == (set id | id in ids[..n]) + {ids[n]};
      assert forall i :: 0 <= i < n ==> ids[..n][i] == ids[i];
    }
  }

  /** Both lists together hold every id once; the first holds those of the "new" table. */
  lemma FileIdsFacts(cfg: Config, s: Tables)
    requires Inv(cfg, s)
    ensures |FileIds(s)| == s.nNew + s.nTried && |Listed(s.mapInfo, false, AsCount(s.nIdCount))| == s.nNew
    ensures forall k :: 0 <= k < |FileIds(s)| ==>
            FileIds(s)[k] in s.mapInfo && (s.mapInfo[FileIds(s)[k]].fInTried <==> k >= s.nNew)
    ensures forall id :: id in s.mapInfo ==> id in FileIds(s)
    ensures forall i, j :: 0 <= i < j < |FileIds(s)| ==> FileIds(s)[i] != FileIds(s)[j]
  {
    var n := AsCount(s.nIdCount);
    var ns, ts := Listed(s.mapInfo, false, n), Listed(s.mapInfo, true, n);
    ListedFacts(s.mapInfo, false, n);
    ListedFacts(s.mapInfo, true, n);
    SetOfList(ns);
    SetOfList(ts);
    TablesListed(cfg, s);
    assert (set id | id in ns) == NewIds(s.mapInfo);
    assert (set id | id in ts) == TriedIds(s.mapInfo);
    forall k | 0 <= k < |ns| ensures FileIds(s)[k] in s.mapInfo && !s.mapInfo[FileIds(s)[k]].fInTried {
      assert ns[k] in ns;
    }
    forall k | |ns| <= k < |ns| + |ts| ensures FileIds(s)[k] in s.mapInfo && s.mapInfo[FileIds(s)[k]].fInTried {
      assert ts[k - |ns|] in ts;
    }
  }

  /** Every entry is in exactly one of the lists. */
  lemma TablesListed(cfg: Config, s: Tables)
    requires Inv(cfg, s)
    ensures forall id :: id in Listed(s.mapInfo, false, AsCount(s.nIdCount)) <==>
            id in s.mapInfo && !s.mapInfo[id].fInTried
    ensures forall id :: id in Listed(s.mapInfo, true, AsCount(s.nIdCount)) <==>
            id in s.mapInfo && s.mapInfo[id].fInTried
  {
    ListedFacts(s.mapInfo, false, AsCount(s.nIdCount));
    ListedFacts(s.mapInfo, true, AsCount(s.nIdCount));
    forall id | id in s.mapInfo
      ensures 0 <= id < s.nIdCount && (s.mapInfo[id].fInTried <==> s.mapInfo[id].nRefCount == 0) {
      assert InfoOk(cfg, s, id, {});
    }
  }

  /** Entries of a well-formed manager have different addresses and places. */
  lemma EntriesUnlike(cfg: Config, s: Tables, ids: seq<int>, first: nat)
    requires Inv(cfg, s) && forall k :: 0 <= k < |ids| ==>
             ids[k] in s.mapInfo && (k >= first ==> s.mapInfo[ids[k]].fInTried)
    requires forall i, j :: 0 <= i < j < |ids| ==> ids[i] != ids[j]
    ensures Unlike(cfg, Entries(s.mapInfo, ids), first)
  {
    var es := Entries(s.mapInfo, ids);
    forall i, j | 0 <= i < j < |es| ensures es[i].addr.ip != es[j].addr.ip {
      assert InfoOk(cfg, s, ids[i], {}) && InfoOk(cfg, s, ids[j], {});
    }
    forall i, j | first <= i < j < |es| ensures TriedSlot(cfg, es[i].addr) != TriedSlot(cfg, es[j].addr) {
      assert InfoOk(cfg, s, ids[i], {}) && InfoOk(cfg, s, ids[j], {});
    }
  }

  lemma {:induction false} EntriesWritten(es: seq<DiskInfo>)
    ensures |WriteMany(WriteEntry, es)| == |es|
    ensures forall i :: 0 <= i < |es| ==> WriteMany(WriteEntry, es)[i] == Entry(es[i])
  {
    if es != [] { EntriesWritten(es[1..]); }
  }

  lemma FormatParts(img: Image)
    ensures var all, t := img.news + img.trieds, Format(img);
            && |t| >= 6 + |all| && t[..6] == Header(img)
            && (forall k :: 0 <= k < |all| ==> t[6 + k] == Entry(all[k]))
            && t[6 + |all|..] == WriteMany(WriteBucket, img.buckets)
  {
    EntriesWritten(img.news);
    EntriesWritten(img.trieds);
    var es, bs := WriteMany(WriteEntry, img.news) + WriteMany(WriteEntry, img.trieds),
      WriteMany(WriteBucket, img.buckets);
    assert Format(img) == Header(img) + es + bs;
  }

  /** The entries of the file are those of its ids. */
  lemma FileEntryAt(cfg: Config, key: int, s: Tables, k: nat)
    requires k < |FileIds(s)|
    ensures FileIds(s)[k] in s.mapInfo
    ensures var img := ImageOf(cfg, key, s);
            && |img.news + img.trieds| == |FileIds(s)|
            && (img.news + img.trieds)[k] == DiskOf(s.mapInfo[FileIds(s)[k]])
  {
    FileEntries(s, AsCount(s.nIdCount));
    var img := ImageOf(cfg, key, s);
    assert img.news + img.trieds == Entries(s.mapInfo, FileIds(s));
    assert (img.news + img.trieds)[k] == Entries(s.mapInfo, FileIds(s))[k];
  }

  /** The ids within each table ascend. */
  lemma FileIdsAscend(s: Tables, j: nat, k: nat)
    requires var n := |Listed(s.mapInfo, false, AsCount(s.nIdCount))|; j < k < |FileIds(s)| && (k < n || n <= j)
    ensures FileIds(s)[j] < FileIds(s)[k]
  {
    ListedFacts(s.mapInfo, false, AsCount(s.nIdCount));
    ListedFacts(s.mapInfo, true, AsCount(s.nIdCount));
  }

  /** A written file, number by number: the six numbers of the header, one entry for each id, then the buckets. */
  lemma FileLayout(cfg: Config, key: int, s: Tables)
    requires Inv(cfg, s) && cfg.newCount < 0x4000_0000
    ensures |FileIds(s)| == s.nNew + s.nTried && s.nNew >= 0 && s.nTried >= 0
    ensures var t, n := Format(ImageOf(cfg, key, s)), |FileIds(s)|;
            && |t| >= 6 + n
            && t[..6] == [Num(1), Num(32), Num(key), Num(s.nNew), Num(s.nTried), Num(cfg.newCount + 0x4000_0000)]
            && t[6 + n..] == WriteMany(WriteBucket, seq(cfg.newCount, b => Indexes(s, b, cfg.bucketSize)))
  {
    FileIdsFacts(cfg, s);
    FormatParts(ImageOf(cfg, key, s));
  }

  /** The entries of a written file: those of the "new" table and then those of the "tried" table, each in the order of
      their ids, with all that is stored of them. */
  lemma EntryLayout(cfg: Config, key: int, s: Tables, j: nat, k: nat)
    requires Inv(cfg, s) && k < |FileIds(s)|
    ensures FileIds(s)[k] in s.mapInfo && |Format(ImageOf(cfg, key, s))| > 6 + k
    ensures var i := s.mapInfo[FileIds(s)[k]];
            && Format(ImageOf(cfg, key, s))[6 + k] ==
                 Entry(DiskInfo(i.addr, i.source, i.nTime, i.nServices, i.nLastSuccess, i.nAttempts))
            && (i.fInTried <==> k >= s.nNew)
    ensures j < k && (k < s.nNew || s.nNew <= j) ==> FileIds(s)[j] < FileIds(s)[k]
  {
    FileIdsFacts(cfg, s);
    FormatParts(ImageOf(cfg, key, s));
    FileEntryAt(cfg, key, s, k);
    if j < k && (k < s.nNew || s.nNew <= j) { FileIdsAscend(s, j, k); }
  }

  lemma EntriesJoin(m: map<int, Info>, a: seq<int>, b: seq<int>)
    requires (forall i :: 0 <= i < |a| ==> a[i] in m) && (forall i :: 0 <= i < |b| ==> b[i] in m)
    ensures Entries(m, a) + Entries(m, b) == Entries(m, a + b)
  {
  }

  /** After reading, entry `k` is that of id `k` of the file, and no place is taken in the "new" table. */
  lemma LoadedEntries(cfg: Config, s: Tables, key: int)
    requires Inv(cfg, s)
    ensures forall k :: 0 <= k < |FileIds(s)| ==> FileIds(s)[k] in s.mapInfo
    ensures s.nNew >= 0
    ensures var r := EntriesLoaded(cfg, ImageOf(cfg, key, s));
            && Filled(cfg, r, Entries(s.mapInfo, FileIds(s)), s.nNew)
            && r.nNew == s.nNew && r.nTried == s.nTried && r.nIdCount == s.nNew + s.nTried
  {
    FileIdsFacts(cfg, s);
    var n := AsCount(s.nIdCount);
    var s0 := Tables(0, map[], map[], [], s.nTried, map[], s.nNew, map[]);
    EntriesUnlike(cfg, s, FileIds(s), s.nNew);
    FileEntries(s, n);
    LoadedFrom(cfg, s0, ListedEntries(s.mapInfo, false, n), ListedEntries(s.mapInfo, true, n), s.nNew);
  }

  lemma FileEntries(s: Tables, n: nat)
    requires n == AsCount(s.nIdCount)
    ensures forall k :: 0 <= k < |FileIds(s)| ==> FileIds(s)[k] in s.mapInfo
    ensures ListedEntries(s.mapInfo, false, n) + ListedEntries(s.mapInfo, true, n) == Entries(s.mapInfo, FileIds(s))
  {
    var ns, ts := Listed(s.mapInfo, false, n), Listed(s.mapInfo, true, n);
    ListedFacts(s.mapInfo, false, n);
    ListedFacts(s.mapInfo, true, n);
    assert forall i :: 0 <= i < |ns| ==> ns[i] in ns;
    assert forall i :: 0 <= i < |ts| ==> ts[i] in ts;
    EntriesJoin(s.mapInfo, ns, ts);
  }

  lemma LoadedFrom(cfg: Config, s0: Tables, news: seq<DiskInfo>, trieds: seq<DiskInfo>, first: nat)
    requires Filled(cfg, s0, [], first) && Unlike(cfg, news + trieds, first) && |news| == first
    ensures var r := TriedEntries(cfg, NewEntries(cfg, s0, news, true).(nIdCount := first), trieds);
            && Filled(cfg, r, news + trieds, first)
            && r.nNew == s0.nNew && r.nTried == s0.nTried && r.nIdCount == |news| + |trieds|
  {
    assert Unlike(cfg, news, first) by {
      var all := news + trieds;
      assert forall k :: 0 <= k < |news| ==> all[k] == news[k];
    }
    NewsFilled(cfg, s0, news, first);
    var r1 := NewEntries(cfg, s0, news, true);
    var r2 := r1.(nIdCount := first);
    forall k | 0 <= k < |news| ensures EntryAt(r2, news, first, k) { assert EntryAt(r1, news, first, k); }
    forall ip ensures AddressAt(r2, news, ip) { assert AddressAt(r1, news, ip); }
    forall t ensures TriedAt(cfg, r2, news, first, t) { assert TriedAt(cfg, r1, news, first, t); }
    TriedFilled(cfg, r2, news, trieds);
  }
}
