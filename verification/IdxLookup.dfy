/** Looking up a decoded pack index: hash to offset by binary search, and offset to hash
    through a map that is filled as it is needed. */
module IdxLookup {
  import opened Bytes
  import opened IdxFormat

  // --- Hashes ---------------------------------------------------------------------------------

  /** An object id has room for 32 bytes; a SHA-1 hash uses the first 20. */
  datatype ObjectID = ObjectID(raw: Bytes)

  const ROOM := 32

  ghost predicate IsID(h: ObjectID) { |h.raw| == ROOM }

  function Sha1(h: ObjectID): Bytes
    requires |h.raw| == ROOM
  {
    h.raw[..ID_SIZE]
  }

  const ZERO_ID := ObjectID(seq(ROOM, _ => 0))

  /** The id of a hash, with zeros behind. */
  function FromBytes(s: Bytes): (h: ObjectID)
    requires |s| == ID_SIZE
    ensures IsID(h)
  {
    ObjectID(s + seq(ROOM - ID_SIZE, _ => 0))
  }

  /** `Write` copies as many bytes as there is room for. */
  function Write(h: ObjectID, s: Bytes): (r: ObjectID)
    requires |h.raw| == ROOM
    ensures IsID(r)
  {
    if |s| >= ROOM then ObjectID(s[..ROOM]) else ObjectID(s + h.raw[|s|..])
  }

  // --- Entries --------------------------------------------------------------------------------

  /** The fanout grows, and no bucket is too large for 32 bits. */
  ghost predicate Counted(f: seq<nat>) {
    && Fanout(f)
    && forall k :: 0 <= k < FANOUT ==> (k > 0 ==> f[k - 1] <= f[k]) && Size(f, k) * ID_SIZE < U32_LIMIT
  }

  ghost predicate IsEntry(idx: Idx, k: nat, i: nat) {
    Fanout(idx.fanout) && k < FANOUT && i < Size(idx.fanout, k)
  }

  /** The tables have room for every entry. */
  ghost predicate Roomy(idx: Idx) {
    WellFormed(idx) && Counted(idx.fanout)
  }

  lemma {:induction false} EntryRoom(idx: Idx, k: nat, i: nat)
    requires Roomy(idx) && IsEntry(idx, k, i)
    ensures var r := Rank(idx.fanout, k);
            && |idx.mapping| == FANOUT && idx.mapping[k] == r < |idx.names| == |idx.crc32| == |idx.offset32|
            && |idx.names[r]| == 20 * Size(idx.fanout, k)
            && |idx.crc32[r]| == |idx.offset32[r]| == 4 * Size(idx.fanout, k)
  {
    hide Size, Rank;
    PlaceInRange(idx.fanout, k);
    assert BucketFilled(idx.fanout, ID_SIZE, idx.names, k);
    assert BucketFilled(idx.fanout, 4, idx.crc32, k);
    assert BucketFilled(idx.fanout, 4, idx.offset32, k);
  }

  ghost function NameAt(idx: Idx, k: nat, i: nat): (s: Bytes)
    requires Roomy(idx) && IsEntry(idx, k, i)
    ensures |s| == ID_SIZE
  {
    EntryRoom(idx, k, i);
    idx.names[Rank(idx.fanout, k)][20 * i..20 * i + 20]
  }

  ghost function CrcAt(idx: Idx, k: nat, i: nat): nat
    requires Roomy(idx) && IsEntry(idx, k, i)
  {
    EntryRoom(idx, k, i);
    Get32(idx.crc32[Rank(idx.fanout, k)][4 * i..4 * i + 4])
  }

  ghost function Ofs32At(idx: Idx, k: nat, i: nat): nat
    requires Roomy(idx) && IsEntry(idx, k, i)
  {
    EntryRoom(idx, k, i);
    Get32(idx.offset32[Rank(idx.fanout, k)][4 * i..4 * i + 4])
  }

  /** Large offsets lead to the table of eight-byte offsets. */
  ghost predicate WideOk(idx: Idx, k: nat, i: nat)
    requires Roomy(idx) && IsEntry(idx, k, i)
  {
    Ofs32At(idx, k, i) >= MSB32 ==> 8 * (Ofs32At(idx, k, i) - MSB32) + 8 <= |idx.offset64|
  }

  ghost function OffsetAt(idx: Idx, k: nat, i: nat): int
    requires Roomy(idx) && IsEntry(idx, k, i) && WideOk(idx, k, i)
  {
    var ofs := Ofs32At(idx, k, i);
    if ofs >= MSB32 then ToInt64(Get64(idx.offset64[8 * (ofs - MSB32)..8 * (ofs - MSB32) + 8])) else ofs
  }

  /** A word below 2^31 is the offset itself; any other one points to the 64-bit word of that number,
      from 2^31 on. */
  lemma OffsetIs(idx: Idx, k: nat, i: nat, n: nat, v: nat)
    requires Roomy(idx) && IsEntry(idx, k, i) && WideOk(idx, k, i) && n < 0x8000_0000 && v < 0x8000_0000_0000_0000
    ensures Ofs32At(idx, k, i) == n ==> OffsetAt(idx, k, i) == n
    ensures Ofs32At(idx, k, i) == 0x8000_0000 + n && idx.offset64[8 * n..8 * n + 8] == U64(v) ==>
              OffsetAt(idx, k, i) == v
  {
    hide Get64, U64;
    Get64U64(v);
  }

  /** Names are in the bucket of their first byte, in order. */
  ghost predicate Searchable(idx: Idx) {
    && Roomy(idx)
    && (forall k: nat, i: nat :: IsEntry(idx, k, i) ==> NameAt(idx, k, i)[0] == k && WideOk(idx, k, i))
    && (forall k: nat, i: nat, j: nat :: IsEntry(idx, k, i) && IsEntry(idx, k, j) && i < j ==> Before(NameAt(idx, k, i), NameAt(idx, k, j)))
  }

  /** The hash is in the index, anywhere. */
  ghost predicate Contains(idx: Idx, h: Bytes)
    requires Roomy(idx)
  {
    exists k: nat, i: nat :: IsEntry(idx, k, i) && NameAt(idx, k, i) == h
  }

  ghost predicate OffsetsApart(idx: Idx)
    requires Searchable(idx)
  {
    forall k: nat, i: nat, k': nat, i': nat :: IsEntry(idx, k, i) && IsEntry(idx, k', i') && OffsetAt(idx, k, i) == OffsetAt(idx, k', i')
                           ==> k == k' && i == i'
  }

  // --- Search ---------------------------------------------------------------------------------

  /** `findHashIndex`: finds the hash exactly if it is in the index.  In a well-formed index a
      bucket that has a place has names. */
  method FindHashIndex(idx: Idx, h: ObjectID) returns (i: nat, found: bool)
    requires Searchable(idx) && IsID(h)
    ensures found <==> Contains(idx, Sha1(h))
    ensures found ==> IsEntry(idx, h.raw[0], i) && NameAt(idx, h.raw[0], i) == Sha1(h)
  {
    hide Rank, Size, WellFormed, Counted;
    var b := h.raw[0];
    PlaceOf(idx, b);
    var k := idx.mapping[b];
    if k == NO_MAPPING {
      OnlyBucket(idx, Sha1(h));
      return 0, false;
    }
    assert IsEntry(idx, b, 0);
    EntryRoom(idx, b, 0);
    var data := idx.names[k];
    var low, high := 0, |idx.offset32[k]| / 4;
    while low < high
      invariant 0 <= low <= high <= Size(idx.fanout, b)
      invariant forall j :: 0 <= j < low ==> IsEntry(idx, b, j) && Before(NameAt(idx, b, j), Sha1(h))
      invariant forall j :: high <= j < Size(idx.fanout, b) ==> IsEntry(idx, b, j) && Before(Sha1(h), NameAt(idx, b, j))
    {
      var mid := (low + high) / 2;
      assert IsEntry(idx, b, mid);
      var name := data[mid * ID_SIZE..mid * ID_SIZE + ID_SIZE];
      assert name == NameAt(idx, b, mid);
      BeforeOrder(Sha1(h), name);
      if Before(Sha1(h), name) {
        Above(idx, b, mid, Sha1(h));
        high := mid;
      } else if Sha1(h) == name {
        return mid, true;
      } else {
        Below(idx, b, mid, Sha1(h));
        low := mid + 1;
      }
    }
    NotBetween(idx, Sha1(h), low);
    return 0, false;
  }

  lemma PlaceOf(idx: Idx, b: nat)
    requires Roomy(idx) && b < FANOUT
    ensures |idx.mapping| == FANOUT && Fanout(idx.fanout)
    ensures idx.mapping[b] == NO_MAPPING <==> Size(idx.fanout, b) == 0
  {
  }

  /** A hash can only be in the bucket of its first byte. */
  lemma OnlyBucket(idx: Idx, h: Bytes)
    requires Searchable(idx) && |h| == ID_SIZE
    ensures Contains(idx, h) ==> exists i: nat :: IsEntry(idx, h[0], i) && NameAt(idx, h[0], i) == h
  {
    hide Rank, Size, WellFormed, Counted, NameAt, Roomy;
    if Contains(idx, h) {
      var k, i :| IsEntry(idx, k, i) && NameAt(idx, k, i) == h;
      assert NameAt(idx, k, i)[0] == k;
    }
  }

  lemma {:induction false} Above(idx: Idx, b: nat, mid: nat, h: Bytes)
    requires Searchable(idx) && IsEntry(idx, b, mid) && Before(h, NameAt(idx, b, mid))
    ensures forall j :: mid <= j < Size(idx.fanout, b) ==> IsEntry(idx, b, j) && Before(h, NameAt(idx, b, j))
  {
    hide Rank, Size, WellFormed, Counted, NameAt, Roomy, Before;
    forall j | mid <= j < Size(idx.fanout, b) ensures IsEntry(idx, b, j) && Before(h, NameAt(idx, b, j)) {
      if j > mid {
        BeforeTransitive(h, NameAt(idx, b, mid), NameAt(idx, b, j));
      }
    }
  }

  lemma {:induction false} Below(idx: Idx, b: nat, mid: nat, h: Bytes)
    requires Searchable(idx) && IsEntry(idx, b, mid) && Before(NameAt(idx, b, mid), h)
    ensures forall j :: 0 <= j <= mid ==> IsEntry(idx, b, j) && Before(NameAt(idx, b, j), h)
  {
    hide Rank, Size, WellFormed, Counted, NameAt, Roomy, Before;
    forall j | 0 <= j <= mid ensures IsEntry(idx, b, j) && Before(NameAt(idx, b, j), h) {
      if j < mid {
        BeforeTransitive(NameAt(idx, b, j), NameAt(idx, b, mid), h);
      }
    }
  }

  lemma {:induction false} NotBetween(idx: Idx, h: Bytes, low: nat)
    requires Searchable(idx) && |h| == ID_SIZE
    requires forall j :: 0 <= j < low ==> IsEntry(idx, h[0], j) && Before(NameAt(idx, h[0], j), h)
    requires forall j :: low <= j < Size(idx.fanout, h[0]) ==> IsEntry(idx, h[0], j) && Before(h, NameAt(idx, h[0], j))
    ensures !Contains(idx, h)
  {
    hide Rank, Size, WellFormed, Counted, NameAt, Roomy, Before;
    OnlyBucket(idx, h);
    BeforeOrder(h, h);
  }

  /** `getOffset`. */
  method GetOffset(idx: Idx, b: nat, i: nat) returns (offset: nat)
    requires Searchable(idx) && IsEntry(idx, b, i)
    ensures offset < U64_LIMIT && ToInt64(offset) == OffsetAt(idx, b, i)
  {
    hide Rank, Size, WellFormed, Counted, Get32, Get64;
    EntryRoom(idx, b, i);
    assert WideOk(idx, b, i);
    var table := idx.offset32[idx.mapping[b]];
    var ofs := Get32(table[4 * i..4 * i + 4]);
    Ofs32Range(table[4 * i..4 * i + 4]);
    if ofs >= MSB32 {
      var p := 8 * (ofs - MSB32);
      offset := Get64(idx.offset64[p..p + 8]);
      Ofs64Range(idx.offset64[p..p + 8]);
    } else {
      offset := ofs;
    }
  }

  lemma Ofs32Range(s: Bytes)
    requires |s| == 4
    ensures Get32(s) < U32_LIMIT
  {
  }

  lemma Ofs64Range(s: Bytes)
    requires |s| == 8
    ensures Get64(s) < U64_LIMIT
  {
  }

  // --- What is remembered of a name -------------------------------------------------------------

  const TAIL := ROOM - ID_SIZE

  ghost function ZeroTail(): (t: Bytes)
    ensures |t| == TAIL
  {
    seq(TAIL, _ => 0)
  }

  /** What is behind the hash when a walk through all names comes to bucket `k`: the beginning of
      the last name of the last bucket before with two names or more. */
  ghost function TailBefore(idx: Idx, k: nat): (t: Bytes)
    requires Roomy(idx) && k <= FANOUT
    ensures |t| == TAIL
  {
    if k == 0 then ZeroTail()
    else
      var n := Size(idx.fanout, k - 1);
      if n >= 2 then NameAt(idx, k - 1, n - 1)[..TAIL] else TailBefore(idx, k - 1)
  }

  /** What is behind it once entry `i` of bucket `k` has been written: the beginning of the next
      name of the bucket, or of the name itself if it is the last but not the only one. */
  ghost function TailAt(idx: Idx, k: nat, i: nat): (t: Bytes)
    requires Roomy(idx) && IsEntry(idx, k, i)
    ensures |t| == TAIL
  {
    if IsEntry(idx, k, i + 1) then NameAt(idx, k, i + 1)[..TAIL]
    else if i > 0 then NameAt(idx, k, i)[..TAIL]
    else TailBefore(idx, k)
  }

  /** The id under which the walk remembers an entry. */
  ghost function Stored(idx: Idx, k: nat, i: nat): (h: ObjectID)
    requires Roomy(idx) && IsEntry(idx, k, i)
    ensures IsID(h) && Sha1(h) == NameAt(idx, k, i)
  {
    ObjectID(NameAt(idx, k, i) + TailAt(idx, k, i))
  }

  /** What is behind the hash before entry `i` of bucket `k` is written, or the bucket is left. */
  ghost predicate Carries(idx: Idx, k: nat, i: nat, hash: ObjectID)
    requires Roomy(idx) && k < FANOUT && i <= Size(idx.fanout, k)
  {
    IsID(hash) && hash.raw[ID_SIZE..] == if i == 0 then TailBefore(idx, k) else TailAt(idx, k, i - 1)
  }

  lemma Written(idx: Idx, k: nat, i: nat, hash: ObjectID)
    requires Roomy(idx) && IsEntry(idx, k, i) && Carries(idx, k, i, hash)
    ensures |idx.mapping| == FANOUT && 0 <= idx.mapping[k] < |idx.names| && 20 * i <= |idx.names[idx.mapping[k]]|
    ensures IsID(hash) && Write(hash, idx.names[idx.mapping[k]][20 * i..]) == Stored(idx, k, i)
  {
    hide Rank, Size, WellFormed, Counted, TailBefore;
    EntryRoom(idx, k, i);
    var rest := idx.names[idx.mapping[k]][20 * i..];
    assert rest[..20] == NameAt(idx, k, i);
    if IsEntry(idx, k, i + 1) {
      EntryRoom(idx, k, i + 1);
      assert rest[20..32] == NameAt(idx, k, i + 1)[..TAIL];
      assert rest[..32] == rest[..20] + rest[20..32];
    } else {
      assert rest == rest[..20];
    }
  }

  lemma Carried(idx: Idx, k: nat, i: nat)
    requires Roomy(idx) && IsEntry(idx, k, i)
    ensures Carries(idx, k, i + 1, Stored(idx, k, i))
  {
    hide Rank, Size, WellFormed, Counted, TailBefore, TailAt, NameAt;
  }

  lemma {:induction false} CarriedOver(idx: Idx, k: nat, hash: ObjectID)
    requires Roomy(idx) && k < FANOUT && Carries(idx, k, Size(idx.fanout, k), hash)
    ensures IsID(hash) && hash.raw[ID_SIZE..] == TailBefore(idx, k + 1)
  {
    hide Rank, Size, WellFormed, Counted, NameAt;
  }

  ghost predicate StartsWithZeros(s: Bytes)
    requires |s| == ID_SIZE
  {
    s[..TAIL] == ZeroTail()
  }

  /** Nothing is behind the id of an entry: no bucket up to its own has two names, save for the
      first bucket if the name that comes last there, or next to the entry, starts with twelve
      zeros. */
  ghost predicate TailClear(idx: Idx, k: nat, i: nat)
    requires Roomy(idx) && IsEntry(idx, k, i)
  {
    var n := Size(idx.fanout, 0);
    && (forall j :: 0 < j <= k ==> Size(idx.fanout, j) < 2)
    && (n >= 2 ==> StartsWithZeros(NameAt(idx, 0, if k == 0 && i + 1 < n then i + 1 else n - 1)))
  }

  lemma {:induction false} TailBeforeClear(idx: Idx, k: nat)
    requires Searchable(idx) && 0 < k <= FANOUT
    ensures var n := Size(idx.fanout, 0);
            TailBefore(idx, k) == ZeroTail() <==>
              (forall j :: 0 < j < k ==> Size(idx.fanout, j) < 2) && (n >= 2 ==> StartsWithZeros(NameAt(idx, 0, n - 1)))
  {
    hide Rank, Size, WellFormed, NameAt, Before;
    if k == 1 {
      assert TailBefore(idx, 0) == ZeroTail();
    } else {
      TailBeforeClear(idx, k - 1);
      var n := Size(idx.fanout, k - 1);
      if n >= 2 {
        NotZeros(idx, k - 1, n - 1);
      }
    }
  }

  lemma NotZeros(idx: Idx, k: nat, i: nat)
    requires Searchable(idx) && IsEntry(idx, k, i) && k > 0
    ensures !StartsWithZeros(NameAt(idx, k, i))
  {
    hide Rank, Size, WellFormed, Counted, NameAt, Before;
    var name := NameAt(idx, k, i);
    assert name[..TAIL][0] == name[0] == k;
    assert ZeroTail()[0] == 0;
  }

  /** Exactly when an entry is remembered under the id of its hash. */
  lemma StoredExactly(idx: Idx, k: nat, i: nat)
    requires Searchable(idx) && IsEntry(idx, k, i)
    ensures Stored(idx, k, i) == FromBytes(NameAt(idx, k, i)) <==> TailClear(idx, k, i)
  {
    hide Rank, Size, WellFormed, Counted, NameAt, Before, TailBefore, TailAt;
    var name, tail := NameAt(idx, k, i), TailAt(idx, k, i);
    assert Stored(idx, k, i).raw[ID_SIZE..] == tail && FromBytes(name).raw[ID_SIZE..] == ZeroTail();
    TailAtClear(idx, k, i);
  }

  lemma TailAtClear(idx: Idx, k: nat, i: nat)
    requires Searchable(idx) && IsEntry(idx, k, i)
    ensures TailAt(idx, k, i) == ZeroTail() <==> TailClear(idx, k, i)
  {
    hide Rank, Size, WellFormed, NameAt, TailBefore, Before, Searchable;
    SearchableIs(idx);
    if k == 0 {
      FirstTail(idx, i);
    } else if Size(idx.fanout, k) >= 2 {
      NotZeros(idx, k, if i + 1 < Size(idx.fanout, k) then i + 1 else i);
    } else {
      TailBeforeClear(idx, k);
    }
  }

  lemma FirstTail(idx: Idx, i: nat)
    requires Roomy(idx) && IsEntry(idx, 0, i)
    ensures TailAt(idx, 0, i) == ZeroTail() <==> TailClear(idx, 0, i)
  {
    hide Rank, Size, WellFormed, NameAt;
  }

  // --- The reverse map ------------------------------------------------------------------------

  /** What the map says is in the index. */
  ghost predicate CacheSound(idx: Idx, m: map<int, ObjectID>)
    requires Searchable(idx)
  {
    forall o :: o in m ==> IsID(m[o]) && exists k: nat, i: nat :: IsEntry(idx, k, i) && OffsetAt(idx, k, i) == o && NameAt(idx, k, i) == Sha1(m[o])
  }

  /** The entry is in the map, and if no other has its offset, as the walk remembers it. */
  ghost predicate EntryCached(idx: Idx, m: map<int, ObjectID>, k: nat, i: nat)
    requires Searchable(idx) && IsEntry(idx, k, i)
  {
    var o := OffsetAt(idx, k, i);
    o in m && (OffsetsApart(idx) ==> m[o] == Stored(idx, k, i))
  }

  /** The entries of the first `k` buckets, and the first `n` of bucket `k`, are in the map. */
  ghost predicate CachedUpTo(idx: Idx, m: map<int, ObjectID>, k: nat, n: nat)
    requires Searchable(idx)
  {
    forall k': nat, i: nat :: IsEntry(idx, k', i) && (k' < k || (k' == k && i < n)) ==> EntryCached(idx, m, k', i)
  }

  datatype Lookup<T> = Found(value: T) | NotFound

  class MemoryIndex {
    const idx: Idx
    var offsetHash: map<int, ObjectID>
    var offsetHashIsFull: bool

    /** The map may be empty, partly filled or full. */
    ghost predicate Valid()
      reads this
    {
      && Searchable(idx) && CacheSound(idx, offsetHash)
      && (offsetHashIsFull ==> CachedUpTo(idx, offsetHash, FANOUT, 0))
    }

    constructor (idx: Idx)
      requires Searchable(idx)
      ensures Valid() && this.idx == idx && offsetHash == map[] && !offsetHashIsFull
    {
      this.idx, offsetHash, offsetHashIsFull := idx, map[], false;
    }

    /** `FindOffset`: also remembers the hash under its offset. */
    method FindOffset(h: ObjectID) returns (r: Lookup<int>)
      requires Valid() && IsID(h)
      modifies this
      ensures Valid() && offsetHashIsFull == old(offsetHashIsFull)
      ensures r.Found? <==> Contains(idx, Sha1(h))
      ensures r.Found? ==> exists i: nat :: IsEntry(idx, h.raw[0], i) && NameAt(idx, h.raw[0], i) == Sha1(h) && r.value == OffsetAt(idx, h.raw[0], i)
      ensures r.Found? && !offsetHashIsFull ==> r.value in offsetHash && offsetHash[r.value] == h
    {
      hide Searchable, OffsetAt, NameAt, IsEntry, Contains;
      var i, ok := FindHashIndex(idx, h);
      if !ok {
        return NotFound;
      }
      var offset := GetOffset(idx, h.raw[0], i);
      var o := ToInt64(offset);
      if !offsetHashIsFull {
        offsetHash := offsetHash[o := h];
      }
      return Found(o);
    }

    /** `FindCRC32`. */
    method FindCRC32(h: ObjectID) returns (r: Lookup<nat>)
      requires Valid() && IsID(h)
      ensures r.Found? <==> Contains(idx, Sha1(h))
      ensures r.Found? ==> exists i: nat :: IsEntry(idx, h.raw[0], i) && NameAt(idx, h.raw[0], i) == Sha1(h) && r.value == CrcAt(idx, h.raw[0], i)
    {
      hide Searchable, NameAt, IsEntry, Contains, Get32, Rank;
      var i, ok := FindHashIndex(idx, h);
      if !ok {
        return NotFound;
      }
      CrcIs(idx, h.raw[0], i);
      return Found(Get32(idx.crc32[idx.mapping[h.raw[0]]][4 * i..4 * i + 4]));
    }

    /** `genOffsetHash`: fills the map with every entry. */
    method GenOffsetHash()
      requires Valid()
      modifies this
      ensures Valid() && offsetHashIsFull
      ensures OffsetsApart(idx) ==> forall k: nat, i: nat :: IsEntry(idx, k, i) ==> RememberedAs(idx, offsetHash, k, i)
    {
      hide Searchable, OffsetAt, NameAt, Rank, Size, CacheSound, CachedUpTo, Roomy, Carries, TailBefore, Stored;
      offsetHash, offsetHashIsFull := map[], true;
      var hash := ZERO_ID;
      var i := 0;
      NothingCached(idx);
      SizeIs(idx, 0);
      for k := 0 to FANOUT
        invariant Searchable(idx) && CacheSound(idx, offsetHash) && offsetHashIsFull
        invariant Roomy(idx) && IsID(hash) && hash.raw[ID_SIZE..] == TailBefore(idx, k)
        invariant Fanout(idx.fanout) && i == if k == 0 then 0 else idx.fanout[k - 1]
        invariant CachedUpTo(idx, offsetHash, k, 0)
      {
        SizeIs(idx, k);
        CarriesStart(idx, k, hash);
        var second := 0;
        while i < idx.fanout[k]
          invariant Searchable(idx) && CacheSound(idx, offsetHash) && offsetHashIsFull
          invariant 0 <= second <= Size(idx.fanout, k) && i + Size(idx.fanout, k) == idx.fanout[k] + second
          invariant CachedUpTo(idx, offsetHash, k, second) && Carries(idx, k, second, hash)
        {
          assert IsEntry(idx, k, second);
          Written(idx, k, second, hash);
          hash := Write(hash, idx.names[idx.mapping[k]][second * ID_SIZE..]);
          var offset := GetOffset(idx, k, second);
          CacheMore(idx, offsetHash, k, second);
          Carried(idx, k, second);
          offsetHash := offsetHash[ToInt64(offset) := hash];
          second, i := second + 1, i + 1;
        }
        CachedBucket(idx, offsetHash, k);
        CarriedOver(idx, k, hash);
      }
      AllRemembered(idx, offsetHash);
    }

    /** `FindHash`: some hash with this offset, if there is one. */
    method FindHash(o: int) returns (r: Lookup<ObjectID>)
      requires Valid()
      modifies this
      ensures Valid()
      ensures r.Found? ==> IsID(r.value) && exists k: nat, i: nat ::
                IsEntry(idx, k, i) && OffsetAt(idx, k, i) == o && NameAt(idx, k, i) == Sha1(r.value)
      ensures r.NotFound? ==> forall k: nat, i: nat :: IsEntry(idx, k, i) ==> OffsetAt(idx, k, i) != o
      ensures if o in old(offsetHash) then r == Found(old(offsetHash)[o]) else offsetHashIsFull
      ensures offsetHashIsFull && (o !in old(offsetHash) || old(offsetHashIsFull)) && OffsetsApart(idx) ==>
                forall k: nat, i: nat :: IsEntry(idx, k, i) && OffsetAt(idx, k, i) == o ==> r == Found(Stored(idx, k, i))
    {
      hide Searchable, OffsetAt, NameAt, IsEntry, Stored, CacheSound, CachedUpTo;
      CacheMeans(idx, offsetHash);
      if o in offsetHash {
        if offsetHashIsFull {
          AllRemembered(idx, offsetHash);
        }
        return Found(offsetHash[o]);
      }
      if !offsetHashIsFull {
        GenOffsetHash();
        CacheMeans(idx, offsetHash);
        if o in offsetHash {
          return Found(offsetHash[o]);
        }
      }
      AllCached(idx, offsetHash, o);
      return NotFound;
    }

    /** With different offsets, looking up the offset of a hash leads back to the hash, however
        much of the map has been filled. */
    method ThereAndBack(h: ObjectID) returns (o: Lookup<int>, g: Lookup<ObjectID>)
      requires Valid() && IsID(h) && OffsetsApart(idx)
      modifies this
      ensures Valid() && (o.Found? <==> Contains(idx, Sha1(h)))
      ensures o.Found? ==> g.Found? && IsID(g.value) && Sha1(g.value) == Sha1(h)
      ensures o.Found? && !old(offsetHashIsFull) ==> g == Found(h)
      ensures o.Found? && h == FromBytes(Sha1(h)) ==>
                exists i: nat :: IsEntry(idx, h.raw[0], i) && NameAt(idx, h.raw[0], i) == Sha1(h)
                                 && (g == Found(h) <==> !old(offsetHashIsFull) || TailClear(idx, h.raw[0], i))
    {
      hide Searchable, OffsetAt, NameAt, IsEntry, Contains, Stored, TailClear, FromBytes;
      o := FindOffset(h);
      g := NotFound;
      if o.Found? {
        g := FindHash(o.value);
        SearchableIs(idx);
        ghost var i: nat :| IsEntry(idx, h.raw[0], i) && NameAt(idx, h.raw[0], i) == Sha1(h) && o.value == OffsetAt(idx, h.raw[0], i);
        StoredExactly(idx, h.raw[0], i);
      }
    }
  }

  /** The id under the offset of an entry: its hash with what the walk leaves behind it. */
  ghost predicate RememberedAs(idx: Idx, m: map<int, ObjectID>, k: nat, i: nat)
    requires Searchable(idx) && IsEntry(idx, k, i)
  {
    OffsetAt(idx, k, i) in m && m[OffsetAt(idx, k, i)] == Stored(idx, k, i)
  }

  lemma AllRemembered(idx: Idx, m: map<int, ObjectID>)
    requires Searchable(idx) && CachedUpTo(idx, m, FANOUT, 0)
    ensures OffsetsApart(idx) ==> forall k: nat, i: nat :: IsEntry(idx, k, i) ==> RememberedAs(idx, m, k, i)
  {
    hide OffsetAt, NameAt, Rank, Size, Roomy, Stored, OffsetsApart;
    forall k: nat, i: nat | IsEntry(idx, k, i) ensures OffsetsApart(idx) ==> RememberedAs(idx, m, k, i) {
      assert EntryCached(idx, m, k, i);
    }
  }

  lemma CacheMeans(idx: Idx, m: map<int, ObjectID>)
    requires Searchable(idx) && CacheSound(idx, m)
    ensures forall o :: o in m ==> IsID(m[o])
    ensures forall o :: o in m ==> exists k: nat, i: nat :: IsEntry(idx, k, i) && OffsetAt(idx, k, i) == o && NameAt(idx, k, i) == Sha1(m[o])
  {
    hide OffsetAt, NameAt, IsEntry;
  }

  lemma SearchableIs(idx: Idx)
    requires Searchable(idx)
    ensures Roomy(idx) && forall k: nat, i: nat :: IsEntry(idx, k, i) ==> WideOk(idx, k, i)
  {
    hide OffsetAt, NameAt, IsEntry, Roomy, WideOk;
  }

  lemma {:induction false} CarriesStart(idx: Idx, k: nat, hash: ObjectID)
    requires Searchable(idx) && k < FANOUT && IsID(hash) && hash.raw[ID_SIZE..] == TailBefore(idx, k)
    ensures Roomy(idx) && Carries(idx, k, 0, hash)
  {
  }

  lemma CrcIs(idx: Idx, k: nat, i: nat)
    requires Searchable(idx) && IsEntry(idx, k, i)
    ensures |idx.mapping| == FANOUT && 0 <= idx.mapping[k] < |idx.crc32| && 4 * i + 4 <= |idx.crc32[idx.mapping[k]]|
    ensures CrcAt(idx, k, i) == Get32(idx.crc32[idx.mapping[k]][4 * i..4 * i + 4])
  {
    hide Rank, Size, WellFormed, Counted, Get32;
    EntryRoom(idx, k, i);
  }

  lemma SizeIs(idx: Idx, k: nat)
    requires Searchable(idx) && k < FANOUT
    ensures Fanout(idx.fanout)
    ensures Size(idx.fanout, k) == idx.fanout[k] - (if k == 0 then 0 else idx.fanout[k - 1]) >= 0
  {
    hide WellFormed, NameAt, WideOk, Before;
    if k > 0 {
      SmallModulo(idx.fanout[k] - idx.fanout[k - 1]);
    }
  }

  lemma SmallModulo(n: nat)
    requires n < U32_LIMIT
    ensures n % U32_LIMIT == n
  {
  }

  lemma {:induction false} NothingCached(idx: Idx)
    requires Searchable(idx)
    ensures CacheSound(idx, map[]) && CachedUpTo(idx, map[], 0, 0)
    ensures Roomy(idx) && ZERO_ID.raw[ID_SIZE..] == TailBefore(idx, 0)
  {
    hide OffsetAt, NameAt, Rank, Size, WellFormed, Counted;
  }

  lemma CacheMore(idx: Idx, m: map<int, ObjectID>, k: nat, i: nat)
    requires Searchable(idx) && IsEntry(idx, k, i)
    requires CacheSound(idx, m) && CachedUpTo(idx, m, k, i)
    ensures var m' := m[OffsetAt(idx, k, i) := Stored(idx, k, i)]; CacheSound(idx, m') && CachedUpTo(idx, m', k, i + 1)
  {
    hide OffsetAt, NameAt, IsEntry, Roomy, Stored, Sha1;
    var m' := m[OffsetAt(idx, k, i) := Stored(idx, k, i)];
    forall k': nat, j: nat | IsEntry(idx, k', j) && (k' < k || (k' == k && j < i + 1)) ensures EntryCached(idx, m', k', j) {
      if k' != k || j != i {
        assert EntryCached(idx, m, k', j);
      }
    }
  }

  lemma CachedBucket(idx: Idx, m: map<int, ObjectID>, k: nat)
    requires Searchable(idx) && k < FANOUT && CachedUpTo(idx, m, k, Size(idx.fanout, k))
    ensures CachedUpTo(idx, m, k + 1, 0)
  {
    hide OffsetAt, NameAt, Rank, Size, WellFormed, Counted, EntryCached;
  }

  lemma AllCached(idx: Idx, m: map<int, ObjectID>, o: int)
    requires Searchable(idx) && CachedUpTo(idx, m, FANOUT, 0) && o !in m
    ensures forall k: nat, i: nat :: IsEntry(idx, k, i) ==> OffsetAt(idx, k, i) != o
  {
    hide OffsetAt, NameAt, Rank, Size, Roomy;
    forall k: nat, i: nat | IsEntry(idx, k, i) ensures OffsetAt(idx, k, i) != o {
      assert EntryCached(idx, m, k, i);
    }
  }

  // --- Two names in one bucket ------------------------------------------------------------------

  function Padded(s: Bytes): (r: Bytes)
    requires |s| <= ID_SIZE
    ensures |r| == ID_SIZE
  {
    s + seq(ID_SIZE - |s|, _ => 0)
  }

  /** Two names that start with the byte 1 and one that starts with the byte 2. */
  function ThreeNames(): Idx {
    Idx(2, seq(FANOUT, k => if k == 0 then 0 else if k == 1 then 2 else 3),
        seq(FANOUT, k => if k == 1 then 0 else if k == 2 then 1 else NO_MAPPING),
        [Padded([1]) + Padded([1, 1]), Padded([2])], [[0, 0, 0, 0, 0, 0, 0, 0], [0, 0, 0, 0]],
        [[0, 0, 0, 12, 0, 0, 0, 40], [0, 0, 0, 70]], [], Padded([]), Padded([]))
  }

  lemma ThreeSizes()
    ensures var f := ThreeNames().fanout;
            Fanout(f) && forall k: nat :: k < FANOUT ==> Size(f, k) == if k == 1 then 2 else if k == 2 then 1 else 0
  {
    var f := ThreeNames().fanout;
    forall k: nat | k < FANOUT ensures Size(f, k) == if k == 1 then 2 else if k == 2 then 1 else 0 {
      if k > 0 {
        assert f[k] - f[k - 1] == if k == 1 then 2 else if k == 2 then 1 else 0;
      }
    }
  }

  lemma {:induction false} ThreeRanks(k: nat)
    requires k <= FANOUT && Fanout(ThreeNames().fanout)
    ensures Rank(ThreeNames().fanout, k) == if k <= 1 then 0 else if k == 2 then 1 else 2
  {
    ThreeSizes();
    hide ThreeNames, Size;
    if k > 0 {
      ThreeRanks(k - 1);
    }
  }

  lemma ThreeWellFormed()
    ensures WellFormed(ThreeNames()) && Counted(ThreeNames().fanout)
  {
    var idx := ThreeNames();
    var f := idx.fanout;
    ThreeSizes();
    forall k: nat | k <= FANOUT ensures Rank(f, k) == if k <= 1 then 0 else if k == 2 then 1 else 2 {
      ThreeRanks(k);
    }
    hide Rank, Size;
    assert idx.mapping == MappingOf(f);
    assert BucketFilled(f, ID_SIZE, idx.names, 1) && BucketFilled(f, ID_SIZE, idx.names, 2);
    assert BucketFilled(f, 4, idx.crc32, 1) && BucketFilled(f, 4, idx.crc32, 2);
    assert BucketFilled(f, 4, idx.offset32, 1) && BucketFilled(f, 4, idx.offset32, 2);
    NoneWide(idx.offset32[0], idx.offset32[1]);
  }

  lemma NoneWide(a: Bytes, b: Bytes)
    requires a == [0, 0, 0, 12, 0, 0, 0, 40] && b == [0, 0, 0, 70]
    ensures Wide([a, b]) == 0
  {
    assert WideTo(a, 0) == 0 && WideTo(a, 1) == 0 && WideTo(a, 2) == 0 && WideTo(b, 0) == 0 && WideTo(b, 1) == 0;
    assert [a, b][..1] == [a] && [a][..0] == [];
    assert Wide([a]) == 0;
  }

  lemma SmallNumber(b: Byte)
    ensures Get32([0, 0, 0, b]) == b
  {
    var s: Bytes := [0, 0, 0, b];
    assert s[..3][..2] == s[..2] && s[..2][..1] == s[..1] && s[..1][..0] == [];
    assert Number(s[..1]) == 0 && Number(s[..2]) == 0 && Number(s[..3]) == 0;
  }

  lemma ThreeEntries(k: nat, i: nat)
    requires Roomy(ThreeNames()) && IsEntry(ThreeNames(), k, i)
    ensures (k == 1 && i < 2) || (k == 2 && i == 0)
    ensures NameAt(ThreeNames(), k, i) == if k == 2 then Padded([2]) else if i == 0 then Padded([1]) else Padded([1, 1])
    ensures Ofs32At(ThreeNames(), k, i) == if k == 2 then 70 else if i == 0 then 12 else 40
  {
    ThreeSizes();
    ThreeRanks(k);
    hide Rank, Size, Get32;
    SmallNumber(12);
    SmallNumber(40);
    SmallNumber(70);
    var idx := ThreeNames();
    assert idx.offset32[0][..4] == [0, 0, 0, 12] && idx.offset32[0][4..8] == [0, 0, 0, 40] && idx.offset32[1][..4] == [0, 0, 0, 70];
  }

  lemma ThreeSearchable()
    ensures Searchable(ThreeNames()) && OffsetsApart(ThreeNames())
    ensures IsEntry(ThreeNames(), 1, 0) && IsEntry(ThreeNames(), 1, 1) && IsEntry(ThreeNames(), 2, 0)
  {
    ThreeWellFormed();
    ThreeSizes();
    var idx := ThreeNames();
    hide Rank, Size, Ofs32At, NameAt, WellFormed, Counted;
    forall k: nat, i: nat | IsEntry(idx, k, i) ensures NameAt(idx, k, i)[0] == k && WideOk(idx, k, i) {
      ThreeEntries(k, i);
    }
    forall k: nat, i: nat, j: nat | IsEntry(idx, k, i) && IsEntry(idx, k, j) && i < j
      ensures Before(NameAt(idx, k, i), NameAt(idx, k, j))
    {
      ThreeEntries(k, i);
      ThreeEntries(k, j);
      InOrder();
    }
    forall k: nat, i: nat, k': nat, i': nat | IsEntry(idx, k, i) && IsEntry(idx, k', i') && OffsetAt(idx, k, i) == OffsetAt(idx, k', i')
      ensures k == k' && i == i'
    {
      ThreeEntries(k, i);
      ThreeEntries(k', i');
    }
  }

  lemma InOrder()
    ensures Before(Padded([1]), Padded([1, 1]))
  {
    var a, b := Padded([1]), Padded([1, 1]);
    assert a[1..][0] == 0 && b[1..][0] == 1;
  }

  /** None of the three is remembered under the id of its hash: not the first of two, not the
      last, and not the only one of the next bucket. */
  lemma ThreeTails()
    ensures var idx := ThreeNames();
            && Searchable(idx) && IsEntry(idx, 1, 0) && IsEntry(idx, 1, 1) && IsEntry(idx, 2, 0)
            && Stored(idx, 1, 0) != FromBytes(Padded([1])) && Stored(idx, 1, 1) != FromBytes(Padded([1, 1]))
            && Stored(idx, 2, 0) != FromBytes(Padded([2]))
  {
    ThreeSearchable();
    ThreeSizes();
    var idx := ThreeNames();
    hide Searchable, Stored, FromBytes, Size;
    SearchableIs(idx);
    StoredExactly(idx, 1, 0);
    StoredExactly(idx, 1, 1);
    StoredExactly(idx, 2, 0);
    ThreeEntries(1, 0);
    ThreeEntries(1, 1);
    ThreeEntries(2, 0);
  }

  /** Looking up the offset of the last one finds its hash, but not its id. */
  method TailExample() returns (r: Lookup<ObjectID>)
    ensures r.Found? && IsID(r.value) && Sha1(r.value) == Padded([2]) && r.value != FromBytes(Padded([2]))
  {
    ThreeSearchable();
    ThreeTails();
    ghost var idx := ThreeNames();
    hide Searchable, Stored, FromBytes, ThreeNames;
    SearchableIs(idx);
    ThreeEntries(2, 0);
    var index := new MemoryIndex(ThreeNames());
    r := index.FindHash(70);
  }
}
