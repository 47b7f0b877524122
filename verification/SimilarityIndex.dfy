/** The similarity index of rename detection: an open-addressing table from block hashes to
    byte counts that grows as it fills, and is sorted by key for comparison. */
module SimilarityIndex {
  import opened Wrappers

  const MAX_COUNT := 0xffff_ffff
  const KEY_LIMIT := 0x8000_0000
  const MIN_BITS := 8
  const MAX_BITS := 30

  function Pow2(n: nat): (r: nat)
    ensures r > 0
  {
    if n == 0 then 1 else 2 * Pow2(n - 1)
  }

  /** A key with its count.  The zero pair is an empty slot. */
  datatype Pair = Pair(key: nat, count: nat)

  const EMPTY := Pair(0, 0)

  predicate Occupied(p: Pair) { p != EMPTY }

  type Table = seq<Pair>

  // --- Slots --------------------------------------------------------------------------------

  function ShiftRight(x: nat, n: nat): nat {
    if n == 0 then x else ShiftRight(x, n - 1) / 2
  }

  /** The home slot of a key: its high bits. */
  function Slot(key: nat, bits: nat): nat
    requires bits <= 31
  {
    ShiftRight(key, 31 - bits)
  }

  /** The share of `n` slots that may be used, for `b` bits. */
  function UsableShare(n: nat, b: nat): int
    requires b > 0
  {
    n * (b - 3) / b
  }

  function GrowAt(bits: nat): int
    requires bits >= MIN_BITS
  {
    UsableShare(Pow2(bits), bits)
  }

  lemma {:induction false} ShiftBelow(x: nat, a: nat, n: nat)
    requires x < Pow2(a + n)
    ensures ShiftRight(x, n) < Pow2(a)
    decreases n
  {
    if n > 0 {
      ShiftBelow(x, a + 1, n - 1);
    }
  }

  lemma {:induction false} SlotInRange(key: nat, bits: nat)
    requires bits <= 31 && key < KEY_LIMIT
    ensures Slot(key, bits) < Pow2(bits)
  {
    assert Pow2(8) == 0x100;
    assert Pow2(16) == 0x1_0000;
    assert Pow2(24) == 0x100_0000;
    assert Pow2(31) == KEY_LIMIT;
    ShiftBelow(key, bits, 31 - bits);
  }

  lemma PartIsLess(n: nat, b: nat)
    requires n > 0 && b >= 3
    ensures UsableShare(n, b) < n
  {
    var q := UsableShare(n, b);
    assert q * b <= n * (b - 3) == n * b - 3 * n;
    PositiveFactor(n - q, b);
  }

  lemma PositiveFactor(x: int, b: nat)
    requires x * b > 0
    ensures x > 0
  {
  }

  lemma {:induction false} GrowAtInRange(bits: nat)
    requires bits >= MIN_BITS
    ensures GrowAt(bits) < Pow2(bits)
  {
    PartIsLess(Pow2(bits), bits);
  }

  /** How far slot `p` is from `home`, walking up and around. */
  function Offset(home: nat, p: nat, n: nat): int {
    if p >= home then p - home else p - home + n
  }

  /** Number of occupied slots. */
  ghost function Used(t: Table): nat {
    if t == [] then 0
    else if Occupied(t[|t| - 1]) then Used(t[..|t| - 1]) + 1
    else Used(t[..|t| - 1])
  }

  ghost function Total(t: Table): nat {
    if t == [] then 0 else Total(t[..|t| - 1]) + t[|t| - 1].count
  }

  lemma {:induction false} UsedUpdate(t: Table, j: nat, p: Pair)
    requires j < |t| && Occupied(p)
    ensures Used(t[j := p]) == if Occupied(t[j]) then Used(t) else Used(t) + 1
    ensures Total(t[j := p]) + t[j].count == Total(t) + p.count
  {
    var n := |t| - 1;
    if j < n {
      UsedUpdate(t[..n], j, p);
      assert t[j := p][..n] == t[..n][j := p];
    } else {
      assert t[j := p][..n] == t[..n];
    }
  }

  lemma {:induction false} HasEmpty(t: Table) returns (p: nat)
    requires Used(t) < |t|
    ensures p < |t| && !Occupied(t[p])
  {
    var n := |t| - 1;
    if Occupied(t[n]) {
      p := HasEmpty(t[..n]);
    } else {
      p := n;
    }
  }

  // --- The table ------------------------------------------------------------------------------

  ghost predicate Slots(bits: nat, t: Table) {
    && MIN_BITS <= bits <= MAX_BITS && |t| == Pow2(bits)
    && forall j :: 0 <= j < |t| && Occupied(t[j]) ==> t[j].key < KEY_LIMIT && 0 < t[j].count <= MAX_COUNT
  }

  ghost predicate Unique(t: Table) {
    forall j, k :: 0 <= j < |t| && 0 <= k < |t| && Occupied(t[j]) && Occupied(t[k]) && t[j].key == t[k].key ==> j == k
  }

  /** Slots from the home of `key` up to `j` are taken. */
  ghost predicate Taken(bits: nat, t: Table, key: nat, j: nat)
    requires bits <= 31
  {
    forall p :: 0 <= p < |t| && Offset(Slot(key, bits), p, |t|) < Offset(Slot(key, bits), j, |t|) ==> Occupied(t[p])
  }

  /** Every key is found by walking from its home slot without meeting an empty slot. */
  ghost predicate Probes(bits: nat, t: Table)
    requires bits <= 31
  {
    forall j :: 0 <= j < |t| && Occupied(t[j]) ==> Taken(bits, t, t[j].key, j)
  }

  ghost predicate TableOk(bits: nat, t: Table) {
    Slots(bits, t) && Unique(t) && Probes(bits, t)
  }

  ghost predicate Holds(t: Table, p: Pair) {
    exists j :: 0 <= j < |t| && t[j] == p
  }

  ghost predicate Lacks(t: Table, key: nat) {
    forall j :: 0 <= j < |t| && Occupied(t[j]) ==> t[j].key != key
  }

  /** The table stands for the map. */
  ghost predicate Represents(t: Table, m: map<nat, nat>) {
    && (forall j :: 0 <= j < |t| && Occupied(t[j]) ==> t[j].key in m && m[t[j].key] == t[j].count)
    && (forall k :: k in m ==> m[k] > 0 && Holds(t, Pair(k, m[k])))
  }

  /** Other keys are in the slots from the home of `key` up to `j`. */
  ghost predicate OthersUpTo(bits: nat, t: Table, key: nat, j: nat)
    requires bits <= 31
  {
    forall p :: 0 <= p < |t| && Offset(Slot(key, bits), p, |t|) < Offset(Slot(key, bits), j, |t|) ==> t[p].key != key
  }

  /** Two slots equally far from a home are one. */
  lemma OffsetInjective(home: nat, p: nat, q: nat, n: nat)
    requires home < n && p < n && q < n && Offset(home, p, n) == Offset(home, q, n)
    ensures p == q
  {
  }

  /** A key that is stored is met before the first empty slot. */
  lemma MetBefore(bits: nat, t: Table, k: nat, j: nat)
    requires TableOk(bits, t) && k < |t| && j < |t| && Occupied(t[k]) && !Occupied(t[j])
    ensures Offset(Slot(t[k].key, bits), k, |t|) < Offset(Slot(t[k].key, bits), j, |t|)
  {
    hide Pow2, Slot;
    var home := Slot(t[k].key, bits);
    SlotInRange(t[k].key, bits);
    assert Taken(bits, t, t[k].key, k);
    if Offset(home, k, |t|) == Offset(home, j, |t|) {
      OffsetInjective(home, k, j, |t|);
    }
  }

  /** An empty slot on the way means that the key is nowhere. */
  lemma NotStored(bits: nat, t: Table, key: nat, j: nat)
    requires TableOk(bits, t) && j < |t| && OthersUpTo(bits, t, key, j) && !Occupied(t[j])
    ensures Lacks(t, key)
  {
    hide Pow2, Slot, TableOk;
    forall k | 0 <= k < |t| && Occupied(t[k]) ensures t[k].key != key {
      MetBefore(bits, t, k, j);
    }
  }

  lemma KeepsProbes(bits: nat, t: Table, j: nat, p: Pair)
    requires bits <= 31 && Probes(bits, t) && j < |t| && Occupied(p) && Taken(bits, t, p.key, j)
    ensures Probes(bits, t[j := p])
  {
    hide Slot, Offset, Occupied;
    var t' := t[j := p];
    forall k | 0 <= k < |t'| && Occupied(t'[k]) ensures Taken(bits, t', t'[k].key, k) {
      if k != j {
        assert Taken(bits, t, t[k].key, k);
      }
    }
  }

  lemma KeepsRepresenting(t: Table, m: map<nat, nat>, j: nat, p: Pair)
    requires Represents(t, m) && j < |t| && p.count > 0
    requires if Occupied(t[j]) then t[j].key == p.key && Unique(t) else Lacks(t, p.key)
    ensures Represents(t[j := p], m[p.key := p.count])
  {
    var t', m' := t[j := p], m[p.key := p.count];
    forall k | k in m' ensures m'[k] > 0 && Holds(t', Pair(k, m'[k])) {
      if k == p.key {
        assert t'[j] == p;
      } else {
        assert Holds(t, Pair(k, m[k]));
        var i :| 0 <= i < |t| && t[i] == Pair(k, m[k]);
        assert t'[i] == t[i];
      }
    }
  }

  /** Storing a new key in the first empty slot on its way. */
  lemma StoreNew(bits: nat, t: Table, m: map<nat, nat>, key: nat, count: nat, j: nat)
    requires TableOk(bits, t) && Represents(t, m) && key < KEY_LIMIT && 0 < count <= MAX_COUNT
    requires j < |t| && Taken(bits, t, key, j) && !Occupied(t[j]) && Lacks(t, key)
    ensures var t' := t[j := Pair(key, count)];
            TableOk(bits, t') && Represents(t', m[key := count]) && Used(t') == Used(t) + 1
            && Total(t') == Total(t) + count
    ensures key !in m
  {
    hide Pow2, Slot, Probes, Taken, Used, Total;
    UsedUpdate(t, j, Pair(key, count));
    KeepsProbes(bits, t, j, Pair(key, count));
    KeepsRepresenting(t, m, j, Pair(key, count));
    assert key in m ==> Holds(t, Pair(key, m[key]));
  }

  /** Counting a key that is there. */
  lemma StoreMore(bits: nat, t: Table, m: map<nat, nat>, count: nat, j: nat)
    requires TableOk(bits, t) && Represents(t, m) && j < |t| && Occupied(t[j]) && 0 < count <= MAX_COUNT
    ensures var t' := t[j := Pair(t[j].key, count)];
            TableOk(bits, t') && Represents(t', m[t[j].key := count]) && Used(t') == Used(t)
            && Total(t') + t[j].count == Total(t) + count
    ensures t[j].key in m && m[t[j].key] == t[j].count
  {
    hide Pow2, Slot, Taken, Used, Total;
    UsedUpdate(t, j, Pair(t[j].key, count));
    KeepsProbes(bits, t, j, Pair(t[j].key, count));
    KeepsRepresenting(t, m, j, Pair(t[j].key, count));
  }

  // --- Adding and growing -----------------------------------------------------------------------

  const FACTOR := 0x9e37_0001
  const INVERSE := 0x61c9_0001

  /** The key of a block hash: scattered over 31 bits. */
  function KeyOf(hash: nat): (key: nat)
    ensures key < KEY_LIMIT
  {
    (hash % 0x1_0000_0000 * FACTOR) % 0x1_0000_0000 / 2
  }

  /** The factor can be divided by, so no information is lost but the lowest bit. */
  lemma Undone(a: nat)
    requires a < 0x1_0000_0000
    ensures (a * FACTOR) % 0x1_0000_0000 * INVERSE % 0x1_0000_0000 == a
    ensures (a * FACTOR) % 0x1_0000_0000 % 2 == a % 2
  {
    var q := a * FACTOR / 0x1_0000_0000;
    var u := a * FACTOR % 0x1_0000_0000;
    assert FACTOR * INVERSE == 1 + 1013911600 * 0x1_0000_0000;
    assert u == a * FACTOR - q * 0x1_0000_0000;
    assert u * INVERSE == a + (a * 1013911600 - q * INVERSE) * 0x1_0000_0000;
    Remainder(u * INVERSE, a * 1013911600 - q * INVERSE, a);
    assert u == 2 * (a / 2 * FACTOR - q * 0x8000_0000 + (a % 2) * 0x4f1b_8000) + a % 2;
  }

  lemma Remainder(x: int, k: int, a: nat)
    requires x == a + k * 0x1_0000_0000 && a < 0x1_0000_0000
    ensures x % 0x1_0000_0000 == a
  {
  }

  /** At most two block hashes of 32 bits share a key: different ones with the same lowest bit do
      not. */
  lemma KeysApart(a: nat, b: nat)
    requires KeyOf(a) == KeyOf(b) && a % 2 == b % 2
    ensures a % 0x1_0000_0000 == b % 0x1_0000_0000
  {
    hide KeyOf;
    var x, y := a % 0x1_0000_0000, b % 0x1_0000_0000;
    Undone(x);
    Undone(y);
    KeyIs(a);
    KeyIs(b);
    SameHalves(x * FACTOR % 0x1_0000_0000, y * FACTOR % 0x1_0000_0000);
  }

  lemma KeyIs(a: nat)
    ensures var x := a % 0x1_0000_0000; KeyOf(a) == x * FACTOR % 0x1_0000_0000 / 2 && x % 2 == a % 2
  {
  }

  lemma SameHalves(u: nat, v: nat)
    requires u / 2 == v / 2 && u % 2 == v % 2
    ensures u == v
  {
  }

  class Index {
    var hashed: nat
    var numHashes: nat
    var growAt: int
    var hashes: Table
    var hashBits: nat

    ghost predicate Valid()
      reads this
    {
      && TableOk(hashBits, hashes) && growAt == GrowAt(hashBits)
      && Used(hashes) == numHashes < |hashes|
    }

    constructor ()
      ensures Valid() && Represents(hashes, map[]) && hashed == Total(hashes) == 0
      ensures hashBits == MIN_BITS && numHashes == 0
    {
      hashed, numHashes, growAt, hashBits := 0, 0, GrowAt(MIN_BITS), MIN_BITS;
      hashes := seq(Pow2(MIN_BITS), _ => EMPTY);
      new;
      AllEmpty(hashes);
    }

    /** Walks on to the next empty slot for `key`. */
    method FirstEmpty(t: Table, bits: nat, key: nat) returns (j: nat)
      requires TableOk(bits, t) && Used(t) < |t| && key < KEY_LIMIT
      ensures j < |t| && !Occupied(t[j]) && Taken(bits, t, key, j)
    {
      hide Pow2, Slot, Used, TableOk;
      Sized(bits, t);
      SlotInRange(key, bits);
      ghost var e := HasEmpty(t);
      j := Slot(key, bits);
      while Occupied(t[j])
        invariant j < |t| && Taken(bits, t, key, j)
        decreases |t| - Offset(Slot(key, bits), j, |t|)
      {
        NextSlot(Slot(key, bits), j, e, |t|);
        j := j + 1;
        if j >= |t| {
          j := 0;
        }
      }
    }

    /** `grow`: twice as many slots, every pair in a place of its own. */
    method Grow(ghost m: map<nat, nat>) returns (ok: bool)
      requires Valid() && Represents(hashes, m)
      modifies this
      ensures ok <==> old(hashBits) != MAX_BITS
      ensures Valid() && Represents(hashes, m) && Total(hashes) == old(Total(hashes))
      ensures hashed == old(hashed) && numHashes == old(numHashes)
      ensures ok ==> hashBits == old(hashBits) + 1
      ensures !ok ==> hashes == old(hashes)
    {
      hide Pow2, Slot, TableOk, Used, Total, Represents, Rehashed, GrowAt;
      Sized(hashBits, hashes);
      if hashBits == MAX_BITS {
        return false;
      }
      var before := hashes;
      hashBits := hashBits + 1;
      growAt := GrowAt(hashBits);
      hashes := seq(Pow2(hashBits), _ => EMPTY);
      TwiceAsMany(old(hashBits));
      ghost var n: map<nat, nat> := map[];
      RehashStart(hashBits, before, hashes);
      for i := 0 to |before|
        invariant hashed == old(hashed) && numHashes == old(numHashes)
        invariant hashBits == old(hashBits) + 1 && growAt == GrowAt(hashBits)
        invariant Rehashed(hashBits, before, i, hashes, n)
      {
        if Occupied(before[i]) {
          RehashRoom(old(hashBits), hashBits, before, i, hashes, n);
          var j := FirstEmpty(hashes, hashBits, before[i].key);
          RehashOne(old(hashBits), hashBits, before, i, hashes, n, j);
          hashes := hashes[j := before[i]];
          n := n[before[i].key := before[i].count];
        } else {
          RehashSkip(hashBits, before, i, hashes, n);
        }
      }
      RehashEnd(hashBits, before, hashes, m, n);
      return true;
    }

    /** Where a walk for `key` stands: at slot `j`, past slots with other keys. */
    ghost predicate Walking(key: nat, j: nat)
      reads this
    {
      && Valid() && key < KEY_LIMIT && j < |hashes|
      && hashBits <= MAX_BITS && Taken(hashBits, hashes, key, j) && OthersUpTo(hashBits, hashes, key, j)
    }

    lemma StartWalk(key: nat)
      requires Valid() && key < KEY_LIMIT
      ensures hashBits <= MAX_BITS && Slot(key, hashBits) < |hashes| && Walking(key, Slot(key, hashBits))
    {
      hide Pow2, Slot, Probes, Unique, GrowAt;
      SlotInRange(key, hashBits);
    }

    /** Past a slot with another key. */
    lemma WalkOn(key: nat, j: nat)
      requires Walking(key, j) && Occupied(hashes[j]) && hashes[j].key != key
      ensures var j' := if j + 1 >= |hashes| then 0 else j + 1;
              Walking(key, j') && Offset(Slot(key, hashBits), j', |hashes|) == Offset(Slot(key, hashBits), j, |hashes|) + 1
      ensures Offset(Slot(key, hashBits), j, |hashes|) < |hashes|
    {
      hide Pow2, Slot, TableOk, Used, GrowAt;
      Sized(hashBits, hashes);
      SlotInRange(key, hashBits);
      var e := HasEmpty(hashes);
      NextSlot(Slot(key, hashBits), j, e, |hashes|);
    }

    /** `add`: counts the block, unless the table or the count is full. */
    method Add(hash: nat, cnt: nat, ghost m: map<nat, nat>) returns (ok: bool)
      requires Valid() && Represents(hashes, m) && cnt > 0
      modifies this
      ensures hashed == old(hashed)
      ensures ok ==> Valid() && Represents(hashes, Counted(m, KeyOf(hash), cnt)) && Total(hashes) == old(Total(hashes)) + cnt
      ensures ok ==> numHashes == old(numHashes) + if KeyOf(hash) in m then 0 else 1
      ensures ok && old(numHashes) < old(growAt) ==> hashBits == old(hashBits)
      ensures !ok ==> Counted(m, KeyOf(hash), cnt)[KeyOf(hash)] > MAX_COUNT || old(numHashes) >= GrowAt(MAX_BITS)
    {
      hide Pow2, Slot, TableOk, Used, Total, Represents, GrowAt, Taken, OthersUpTo, KeyOf, Offset;
      var key := KeyOf(hash);
      Sized(hashBits, hashes);
      StartWalk(key);
      var j: nat := Slot(key, hashBits);
      while true
        invariant Walking(key, j) && Represents(hashes, m)
        invariant hashed == old(hashed) && numHashes == old(numHashes) && Total(hashes) == old(Total(hashes))
        invariant old(numHashes) < old(growAt) ==> hashBits == old(hashBits)
        decreases MAX_BITS - hashBits, |hashes| - Offset(Slot(key, hashBits), j, |hashes|)
      {
        var v := hashes[j];
        if !Occupied(v) {
          if growAt <= numHashes {
            ok := Grow(m);
            if !ok {
              return;
            }
            Sized(hashBits, hashes);
            StartWalk(key);
            j := Slot(key, hashBits);
            continue;
          }
          NotStored(hashBits, hashes, key, j);
          if cnt > MAX_COUNT {
            return false;
          }
          GrowAtInRange(hashBits);
          Sized(hashBits, hashes);
          StoreNew(hashBits, hashes, m, key, cnt, j);
          hashes := hashes[j := Pair(key, cnt)];
          numHashes := numHashes + 1;
          return true;
        } else if v.key == key {
          StoredCount(hashes, m, j);
          if v.count + cnt > MAX_COUNT {
            hashes := hashes[j := EMPTY];
            return false;
          }
          StoreMore(hashBits, hashes, m, v.count + cnt, j);
          hashes := hashes[j := Pair(key, v.count + cnt)];
          return true;
        }
        WalkOn(key, j);
        j := if j + 1 >= |hashes| then 0 else j + 1;
      }
    }

    /** `hashContent`: counts the blocks of a file of `size` bytes.  Every byte that matters is
        counted once. */
    method HashContent(content: seq<nat>, size: nat, isBin: bool) returns (r: HashResult, ghost m: map<nat, nat>)
      requires Valid() && Represents(hashes, map[]) && hashed == Total(hashes) == 0
      modifies this
      ensures r.Hashed? ==> Valid() && Represents(hashes, m) && hashed == Total(hashes)
      ensures r.Hashed? ==> BlockCounts(content, isBin, size) == Some(m)
      ensures r.Hashed? && size == |content| ==> hashed == Significant(content, isBin, size)
      ensures r.Eof? ==> BlockCounts(content, isBin, size) == None && size > |content|
      ensures r.Full? ==> |content| >= GrowAt(MAX_BITS)
    {
      hide Pow2, TableOk, Used, Total, Represents, GrowAt, Ignored, KeyOf, Significant, CountsFrom, FirstEnd, Counted;
      m := map[];
      var pos: nat, remaining: int := 0, size;
      SignificantNone(content, isBin);
      while 0 < remaining
        invariant Valid() && Represents(hashes, m) && hashed == Total(hashes)
        invariant pos <= |content| && (size <= |content| ==> pos + remaining <= |content|)
        invariant size == |content| ==> pos + remaining == size
        invariant hashed == Significant(content, isBin, pos)
        invariant BlockCounts(content, isBin, size) == CountsFrom(content, isBin, pos, remaining, m)
        decreases remaining
      {
        var found, hash, cnt, n := NextBlock(content, isBin, pos, remaining);
        CountsStep(content, isBin, pos, remaining, m, found, n);
        if !found {
          return Eof, m;
        }
        SignificantBlock(content, isBin, pos, n);
        SignificantAtMost(content, isBin, pos + n);
        ghost var before := hashes;
        hashed := hashed + cnt;
        var ok := Add(hash, cnt, m);
        if !ok {
          TooMuch(before, m, KeyOf(hash), cnt);
          return Full, m;
        }
        m := Counted(m, KeyOf(hash), cnt);
        pos, remaining := pos + n, remaining - n;
      }
      CountsEnd(content, isBin, pos, remaining, m);
      return Hashed, m;
    }
  }

  /** A block of `n` bytes from `pos` ends: with a line, or when it is long enough. */
  ghost predicate Ends(content: seq<nat>, isBin: bool, pos: nat, n: nat, remaining: nat)
    requires 0 < n && pos + n <= |content|
  {
    !Ignored(content, isBin, pos + n - 1) && (content[pos + n - 1] == '\n' as int || n >= 64 || n >= remaining)
  }

  /** The hash of the bytes of a block that matter, the line feed aside. */
  ghost function BlockHash(content: seq<nat>, isBin: bool, pos: nat, n: nat): nat
    requires pos + n <= |content|
  {
    if n == 0 then 5381
    else if Ignored(content, isBin, pos + n - 1) || content[pos + n - 1] == '\n' as int
    then BlockHash(content, isBin, pos, n - 1)
    else BlockHash(content, isBin, pos, n - 1) * 33 + content[pos + n - 1]
  }

  ghost function BlockCount(content: seq<nat>, isBin: bool, pos: nat, n: nat): nat
    requires pos + n <= |content|
  {
    if n == 0 then 0
    else if Ignored(content, isBin, pos + n - 1) then BlockCount(content, isBin, pos, n - 1)
    else BlockCount(content, isBin, pos, n - 1) + 1
  }

  /** The length of the shortest block from `pos` that ends and is not shorter than `n`; zero if
      the file stops before. */
  ghost function FirstEnd(content: seq<nat>, isBin: bool, pos: nat, n: nat, remaining: nat): (r: nat)
    requires 0 < n && pos <= |content|
    ensures r == 0 || (n <= r && pos + r <= |content|)
    decreases |content| + 1 - pos - n
  {
    if pos + n > |content| then 0
    else if Ends(content, isBin, pos, n, remaining) then n
    else FirstEnd(content, isBin, pos, n + 1, remaining)
  }

  /** The counts `m` with those of the blocks from `pos` on, if the file is long enough for them. */
  ghost function CountsFrom(content: seq<nat>, isBin: bool, pos: nat, remaining: int, m: map<nat, nat>): Option<map<nat, nat>>
    requires pos <= |content|
    decreases |content| - pos
  {
    if remaining <= 0 then Some(m)
    else
      var n := FirstEnd(content, isBin, pos, 1, remaining);
      if n == 0 then None
      else
        var key := KeyOf(BlockHash(content, isBin, pos, n));
        CountsFrom(content, isBin, pos + n, remaining - n, Counted(m, key, BlockCount(content, isBin, pos, n)))
  }

  /** For every key the bytes that matter in the blocks with that key. */
  ghost function BlockCounts(content: seq<nat>, isBin: bool, size: nat): Option<map<nat, nat>> {
    CountsFrom(content, isBin, 0, size, map[])
  }

  /** A block has no line feed but at its end.  It ends with one, or with the file, or when it has 64
      bytes; it is longer only if a carriage return that does not count comes before the line feed. */
  lemma {:induction false} BlockIs(content: seq<nat>, isBin: bool, pos: nat, remaining: nat)
    requires pos <= |content| && remaining > 0 && FirstEnd(content, isBin, pos, 1, remaining) > 0
    ensures var n := FirstEnd(content, isBin, pos, 1, remaining);
            && (forall k :: pos <= k < pos + n - 1 ==> content[k] != '\n' as int)
            && (content[pos + n - 1] == '\n' as int || n == 64 || n >= remaining)
            && n <= 65 && (n == 65 ==> content[pos + 63] == '\r' as int && content[pos + 64] == '\n' as int)
  {
    var n := FirstEnd(content, isBin, pos, 1, remaining);
    FirstEndFirst(content, isBin, pos, 1, remaining);
    forall k | pos <= k < pos + n - 1 ensures content[k] != '\n' as int {
      assert !Ends(content, isBin, pos, k - pos + 1, remaining);
    }
    if n > 64 {
      assert !Ends(content, isBin, pos, 64, remaining);
    }
  }

  lemma {:induction false} FirstEndFirst(content: seq<nat>, isBin: bool, pos: nat, k: nat, remaining: nat)
    requires 0 < k && pos <= |content|
    ensures var n := FirstEnd(content, isBin, pos, k, remaining);
            n > 0 ==> Ends(content, isBin, pos, n, remaining)
                      && forall j :: k <= j < n ==> !Ends(content, isBin, pos, j, remaining)
    decreases |content| + 1 - pos - k
  {
    hide Ends;
    if pos + k <= |content| && !Ends(content, isBin, pos, k, remaining) {
      FirstEndFirst(content, isBin, pos, k + 1, remaining);
    }
  }

  ghost function Pow33(n: nat): nat { if n == 0 then 1 else 33 * Pow33(n - 1) }

  /** The first `k` of `n` bytes from `pos`, each times the power of 33 of the number of bytes after
      it. */
  ghost function Weighted(content: seq<nat>, pos: nat, n: nat, k: nat): nat
    requires pos + n <= |content| && k <= n
  {
    if k == 0 then 0 else Weighted(content, pos, n, k - 1) + content[pos + k - 1] * Pow33(n - k)
  }

  lemma {:induction false} WeightedLonger(content: seq<nat>, pos: nat, n: nat, k: nat)
    requires pos + n + 1 <= |content| && k <= n
    ensures Weighted(content, pos, n + 1, k) == 33 * Weighted(content, pos, n, k)
  {
    if k > 0 {
      WeightedLonger(content, pos, n, k - 1);
      var b, p := content[pos + k - 1], Pow33(n - k);
      assert Pow33(n + 1 - k) == 33 * p;
      assert b * (33 * p) == 33 * (b * p);
    }
  }

  /** The hash of a block all of whose bytes count: 5381 and the bytes, weighted by powers of 33. */
  lemma {:induction false} BlockHashIs(content: seq<nat>, isBin: bool, pos: nat, n: nat)
    requires pos + n <= |content|
    requires forall k :: pos <= k < pos + n ==> content[k] != '\n' as int && !Ignored(content, isBin, k)
    ensures BlockHash(content, isBin, pos, n) == 5381 * Pow33(n) + Weighted(content, pos, n, n)
  {
    if n > 0 {
      BlockHashIs(content, isBin, pos, n - 1);
      WeightedLonger(content, pos, n - 1, n - 1);
      var p := Pow33(n - 1);
      assert 5381 * (33 * p) == (5381 * p) * 33;
    }
  }

  lemma {:induction false} FirstEndIs(content: seq<nat>, isBin: bool, pos: nat, n: nat, k: nat, remaining: nat)
    requires 0 < k <= n && pos + n <= |content| && Ends(content, isBin, pos, n, remaining)
    requires forall j :: k <= j < n ==> !Ends(content, isBin, pos, j, remaining)
    ensures FirstEnd(content, isBin, pos, k, remaining) == n
    decreases n - k
  {
    hide Ends;
    if k < n {
      FirstEndIs(content, isBin, pos, n, k + 1, remaining);
    }
  }

  /** A file that is one block. */
  lemma {:induction false} OneBlock(content: seq<nat>, isBin: bool)
    requires content != [] && Ends(content, isBin, 0, |content|, |content|)
    requires forall j :: 0 < j < |content| ==> !Ends(content, isBin, 0, j, |content|)
    ensures BlockCounts(content, isBin, |content|) ==
              Some(map[KeyOf(BlockHash(content, isBin, 0, |content|)) := BlockCount(content, isBin, 0, |content|)])
  {
    hide Ends, BlockHash, BlockCount, KeyOf;
    var n := |content|;
    CountsStep(content, isBin, 0, n, map[], true, n);
    CountsEnd(content, isBin, n, 0, Counted(map[], KeyOf(BlockHash(content, isBin, 0, n)), BlockCount(content, isBin, 0, n)));
  }

  lemma {:induction false} AllCount(content: seq<nat>, isBin: bool, n: nat)
    requires n <= |content| && forall k :: 0 <= k < n ==> !Ignored(content, isBin, k)
    ensures BlockCount(content, isBin, 0, n) == n
  {
    if n > 0 {
      AllCount(content, isBin, n - 1);
    }
  }

  lemma {:induction false} WeightedPrefix(x: seq<nat>, y: seq<nat>, k: nat)
    requires k <= |x|
    ensures Weighted(x + y, 0, |x|, k) == Weighted(x, 0, |x|, k)
  {
    if k > 0 {
      WeightedPrefix(x, y, k - 1);
    }
  }

  /** The hash of a line without its end. */
  ghost function LineHash(x: seq<nat>): nat { 5381 * Pow33(|x|) + Weighted(x, 0, |x|, |x|) }

  ghost predicate ShortLine(x: seq<nat>) {
    |x| <= 62 && forall k :: 0 <= k < |x| ==> x[k] != '\n' as int && x[k] != '\r' as int
  }

  lemma {:induction false} LineStart(x: seq<nat>, end: seq<nat>, isBin: bool)
    requires ShortLine(x)
    ensures BlockHash(x + end, isBin, 0, |x|) == LineHash(x) && BlockCount(x + end, isBin, 0, |x|) == |x|
  {
    BlockHashIs(x + end, isBin, 0, |x|);
    AllCount(x + end, isBin, |x|);
    WeightedPrefix(x, end, |x|);
  }

  /** A short line has one key and counts all its bytes. */
  lemma OneLine(x: seq<nat>, isBin: bool)
    requires ShortLine(x)
    ensures var counts: map<nat, nat> := map[KeyOf(LineHash(x)) := |x| + 1];
            BlockCounts(x + ['\n' as int], isBin, |x| + 1) == Some(counts)
  {
    hide LineHash, KeyOf;
    LineStart(x, ['\n' as int], isBin);
    OneBlock(x + ['\n' as int], isBin);
  }

  /** With a carriage return it has the same key and the same count if it is text; in a binary file
      the carriage return is one more byte. */
  lemma OneLineReturn(x: seq<nat>)
    requires ShortLine(x)
    ensures var (text: map<nat, nat>, binary: map<nat, nat>) :=
              (map[KeyOf(LineHash(x)) := |x| + 1], map[KeyOf(LineHash(x) * 33 + '\r' as int) := |x| + 2]);
            && BlockCounts(x + ['\r' as int, '\n' as int], false, |x| + 2) == Some(text)
            && BlockCounts(x + ['\r' as int, '\n' as int], true, |x| + 2) == Some(binary)
  {
    hide LineHash, KeyOf;
    LineStart(x, ['\r' as int, '\n' as int], false);
    LineStart(x, ['\r' as int, '\n' as int], true);
    OneBlock(x + ['\r' as int, '\n' as int], false);
    OneBlock(x + ['\r' as int, '\n' as int], true);
  }

  lemma {:induction false} NoFirstEnd(content: seq<nat>, isBin: bool, pos: nat, k: nat, remaining: nat)
    requires 0 < k && pos <= |content|
    requires forall j :: k <= j && pos + j <= |content| ==> !Ends(content, isBin, pos, j, remaining)
    ensures FirstEnd(content, isBin, pos, k, remaining) == 0
    decreases |content| + 1 - pos - k
  {
    hide Ends;
    if pos + k <= |content| {
      NoFirstEnd(content, isBin, pos, k + 1, remaining);
    }
  }

  lemma CountsStep(content: seq<nat>, isBin: bool, pos: nat, remaining: nat, m: map<nat, nat>, found: bool, n: nat)
    requires pos <= |content| && 0 < remaining
    requires found ==> 0 < n && pos + n <= |content| && Ends(content, isBin, pos, n, remaining)
    requires found ==> forall k :: 0 < k < n ==> !Ends(content, isBin, pos, k, remaining)
    requires !found ==> forall k :: 0 < k && pos + k <= |content| ==> !Ends(content, isBin, pos, k, remaining)
    ensures CountsFrom(content, isBin, pos, remaining, m) ==
              if found then
                CountsFrom(content, isBin, pos + n, remaining - n,
                           Counted(m, KeyOf(BlockHash(content, isBin, pos, n)), BlockCount(content, isBin, pos, n)))
              else None
  {
    hide Ends, BlockHash, BlockCount, Counted, KeyOf;
    if found {
      FirstEndIs(content, isBin, pos, n, 1, remaining);
    } else {
      NoFirstEnd(content, isBin, pos, 1, remaining);
    }
  }

  lemma {:induction false} CountsEnd(content: seq<nat>, isBin: bool, pos: nat, remaining: int, m: map<nat, nat>)
    requires pos <= |content| && remaining <= 0
    ensures CountsFrom(content, isBin, pos, remaining, m) == Some(m)
  {
  }

  /** Only a very large file fills the table or a count. */
  lemma {:induction false} TooMuch(t: Table, m: map<nat, nat>, key: nat, cnt: nat)
    requires Represents(t, m)
    ensures Used(t) <= Total(t)
    ensures Counted(m, key, cnt)[key] > MAX_COUNT ==> Total(t) + cnt >= GrowAt(MAX_BITS)
  {
    hide GrowAt, Total, Used;
    UsedWeighs(t);
    Shares();
    if key in m {
      assert Holds(t, Pair(key, m[key]));
      var j :| 0 <= j < |t| && t[j] == Pair(key, m[key]);
      CountAtMost(t, j);
    }
  }

  lemma Shares()
    ensures GrowAt(MIN_BITS) == 160 && 2 < GrowAt(MAX_BITS) < MAX_COUNT
  {
    assert Pow2(8) == 0x100;
    assert Pow2(16) == 0x1_0000;
    assert Pow2(24) == 0x100_0000;
    assert Pow2(30) == 0x4000_0000;
  }

  lemma {:induction false} UsedWeighs(t: Table)
    requires forall j :: 0 <= j < |t| && Occupied(t[j]) ==> t[j].count > 0
    ensures Used(t) <= Total(t)
  {
    if t != [] {
      UsedWeighs(t[..|t| - 1]);
    }
  }

  lemma {:induction false} CountAtMost(t: Table, j: nat)
    requires j < |t|
    ensures t[j].count <= Total(t)
  {
    if j < |t| - 1 {
      CountAtMost(t[..|t| - 1], j);
    }
  }

  lemma {:induction false} SignificantNone(content: seq<nat>, isBin: bool)
    ensures Significant(content, isBin, 0) == 0
  {
  }

  lemma {:induction false} SignificantAtMost(content: seq<nat>, isBin: bool, k: nat)
    requires k <= |content|
    ensures Significant(content, isBin, k) <= k
  {
    if k > 0 {
      SignificantAtMost(content, isBin, k - 1);
    }
  }

  /** The shortest block from `pos` that ends, with its hash and its size. */
  method NextBlock(content: seq<nat>, isBin: bool, pos: nat, remaining: nat) returns (found: bool, hash: nat, cnt: nat, n: nat)
    requires pos <= |content| && 0 < remaining
    ensures !found ==> pos + remaining > |content|
    ensures !found ==> forall k :: 0 < k && pos + k <= |content| ==> !Ends(content, isBin, pos, k, remaining)
    ensures found ==> 0 < n && pos + n <= |content| && Ends(content, isBin, pos, n, remaining)
    ensures found ==> forall k :: 0 < k < n ==> !Ends(content, isBin, pos, k, remaining)
    ensures found ==> hash == BlockHash(content, isBin, pos, n) && cnt == BlockCount(content, isBin, pos, n) && cnt > 0
    ensures found && pos + remaining == |content| ==> n <= remaining
  {
    hash, cnt, n := 5381, 0, 0;
    while true
      invariant pos + n <= |content|
      invariant forall k :: 0 < k <= n ==> !Ends(content, isBin, pos, k, remaining)
      invariant hash == BlockHash(content, isBin, pos, n) && cnt == BlockCount(content, isBin, pos, n)
      invariant n < remaining || Ignored(content, isBin, pos + n - 1)
      invariant pos + remaining == |content| ==> n < remaining
      decreases |content| - pos - n
    {
      if pos + n == |content| {
        return false, 0, 0, 0;
      }
      var c := content[pos + n];
      n := n + 1;
      if Ignored(content, isBin, pos + n - 1) {
        continue;
      }
      cnt := cnt + 1;
      if c == '\n' as int {
        return true, hash, cnt, n;
      }
      hash := hash * 33 + c;
      if n >= 64 || n >= remaining {
        return true, hash, cnt, n;
      }
    }
  }

  lemma {:induction false} SignificantBlock(content: seq<nat>, isBin: bool, pos: nat, n: nat)
    requires pos + n <= |content|
    ensures Significant(content, isBin, pos + n) == Significant(content, isBin, pos) + BlockCount(content, isBin, pos, n)
  {
    if n > 0 {
      SignificantBlock(content, isBin, pos, n - 1);
    }
  }

  datatype HashResult = Hashed | Eof | Full

  /** A carriage return before a line feed in a text file.  It is overlooked when a buffer of
      4096 bytes ends in between. */
  predicate Ignored(content: seq<nat>, isBin: bool, p: nat)
    requires p < |content|
  {
    && !isBin && content[p] == '\r' as int
    && (p + 1) % 4096 != 0 && p + 1 < |content| && content[p + 1] == '\n' as int
  }

  /** How many of the first `k` bytes are not ignored. */
  ghost function Significant(content: seq<nat>, isBin: bool, k: nat): nat
    requires k <= |content|
  {
    if k == 0 then 0
    else if Ignored(content, isBin, k - 1) then Significant(content, isBin, k - 1)
    else Significant(content, isBin, k - 1) + 1
  }

  ghost predicate LineBreakAt(content: seq<nat>, p: nat) {
    p + 1 < |content| && content[p] == '\r' as int && content[p + 1] == '\n' as int
  }

  /** How many carriage returns before a line feed the first `k` bytes hold. */
  ghost function Returns(content: seq<nat>, k: nat): nat {
    if k == 0 then 0 else Returns(content, k - 1) + if LineBreakAt(content, k - 1) then 1 else 0
  }

  /** All bytes of a binary file count, and those of a text but for the carriage returns before line
      feeds: if and only if none of these is the last byte of a buffer. */
  lemma {:induction false} ReturnsIgnored(content: seq<nat>, k: nat)
    requires k <= |content|
    ensures Significant(content, true, k) == k
    ensures Significant(content, false, k) + Returns(content, k) >= k
    ensures Significant(content, false, k) + Returns(content, k) == k
            <==> forall p | 0 <= p < k && LineBreakAt(content, p) :: p % 4096 != 4095
  {
    if k > 0 {
      ReturnsIgnored(content, k - 1);
    }
  }

  lemma StoredCount(t: Table, m: map<nat, nat>, j: nat)
    requires Represents(t, m) && j < |t| && Occupied(t[j])
    ensures t[j].key in m && m[t[j].key] == t[j].count
  {
  }

  /** The map with `count` more for `key`. */
  ghost function Counted(m: map<nat, nat>, key: nat, count: nat): map<nat, nat> {
    m[key := (if key in m then m[key] else 0) + count]
  }

  /** The first `i` slots of the old table have been moved to the new one. */
  ghost predicate Rehashed(bits: nat, before: Table, i: nat, t: Table, n: map<nat, nat>) {
    && i <= |before| && TableOk(bits, t) && |t| == 2 * |before|
    && Represents(t, n) && Represents(before[..i], n)
    && Used(t) == Used(before[..i]) && Total(t) == Total(before[..i])
  }

  lemma {:induction false} RehashStart(bits: nat, before: Table, t: Table)
    requires MIN_BITS <= bits <= MAX_BITS && |t| == Pow2(bits) == 2 * |before|
    requires forall j :: 0 <= j < |t| ==> t[j] == EMPTY
    ensures Rehashed(bits, before, 0, t, map[])
  {
    hide Pow2;
    EmptyTable(bits, t);
    assert before[..0] == [];
  }

  lemma {:induction false} RehashRoom(oldBits: nat, bits: nat, before: Table, i: nat, t: Table, n: map<nat, nat>)
    requires TableOk(oldBits, before) && Rehashed(bits, before, i, t, n) && i < |before| && Occupied(before[i])
    ensures TableOk(bits, t) && Used(t) < |t| && before[i].key < KEY_LIMIT
  {
    hide Pow2, Represents, Probes, Unique;
    UsedPrefix(before, i);
  }

  lemma RehashOne(oldBits: nat, bits: nat, before: Table, i: nat, t: Table, n: map<nat, nat>, j: nat)
    requires TableOk(oldBits, before) && Rehashed(bits, before, i, t, n) && i < |before| && Occupied(before[i])
    requires j < |t| && !Occupied(t[j]) && bits <= MAX_BITS && Taken(bits, t, before[i].key, j)
    ensures Rehashed(bits, before, i + 1, t[j := before[i]], n[before[i].key := before[i].count])
  {
    hide Pow2, Represents, Probes, Used, Total, Taken, Unique;
    var v := before[i];
    assert v == Pair(v.key, v.count);
    UsedPrefix(before, i);
    PrefixLacks(before, i, t, n);
    StoreNew(bits, t, n, v.key, v.count, j);
    RepresentsNext(before, i, n);
  }

  lemma RehashSkip(bits: nat, before: Table, i: nat, t: Table, n: map<nat, nat>)
    requires Rehashed(bits, before, i, t, n) && i < |before| && !Occupied(before[i])
    ensures Rehashed(bits, before, i + 1, t, n)
  {
    hide TableOk, Represents, Used, Total;
    UsedPrefix(before, i);
    RepresentsSkip(before, i, n);
  }

  lemma {:induction false} RehashEnd(bits: nat, before: Table, t: Table, m: map<nat, nat>, n: map<nat, nat>)
    requires Rehashed(bits, before, |before|, t, n) && Represents(before, m)
    ensures n == m && TableOk(bits, t) && Represents(t, m) && Used(t) == Used(before) && Total(t) == Total(before)
    ensures |t| == 2 * |before|
  {
    hide TableOk, Represents, Used, Total;
    assert before[..|before|] == before;
    SameMap(before, m, n);
  }

  lemma {:induction false} Sized(bits: nat, t: Table)
    requires TableOk(bits, t)
    ensures MIN_BITS <= bits <= MAX_BITS && |t| == Pow2(bits)
  {
  }

  lemma {:induction false} AllEmpty(t: Table)
    requires forall j :: 0 <= j < |t| ==> t[j] == EMPTY
    ensures Used(t) == 0 && Total(t) == 0
  {
    if t != [] {
      AllEmpty(t[..|t| - 1]);
    }
  }

  lemma {:induction false} EmptyTable(bits: nat, t: Table)
    requires MIN_BITS <= bits <= MAX_BITS && |t| == Pow2(bits) && forall j :: 0 <= j < |t| ==> t[j] == EMPTY
    ensures TableOk(bits, t) && Represents(t, map[]) && Used(t) == 0 && Total(t) == 0
  {
    AllEmpty(t);
  }

  lemma TwiceAsMany(bits: nat)
    ensures Pow2(bits + 1) == 2 * Pow2(bits)
  {
  }

  /** With an empty slot ahead, the walk goes one step on. */
  lemma NextSlot(home: nat, j: nat, e: nat, n: nat)
    requires home < n && j < n && e < n && Offset(home, j, n) < Offset(home, e, n)
    ensures Offset(home, if j + 1 >= n then 0 else j + 1, n) == Offset(home, j, n) + 1
    ensures forall p: nat :: p < n && Offset(home, p, n) < Offset(home, j, n) + 1 ==> p == j || Offset(home, p, n) < Offset(home, j, n)
  {
  }

  lemma UsedPrefix(t: Table, i: nat)
    requires i < |t|
    ensures Used(t[..i + 1]) == Used(t[..i]) + if Occupied(t[i]) then 1 else 0
    ensures Total(t[..i + 1]) == Total(t[..i]) + t[i].count
    ensures Used(t[..i]) <= i
  {
    assert t[..i + 1][..i] == t[..i];
    UsedAtMost(t[..i]);
  }

  lemma {:induction false} UsedAtMost(t: Table)
    ensures Used(t) <= |t|
  {
    if t != [] {
      UsedAtMost(t[..|t| - 1]);
    }
  }

  /** A pair not moved yet is not in the new table. */
  lemma PrefixLacks(before: Table, i: nat, t: Table, n: map<nat, nat>)
    requires i < |before| && Unique(before) && Occupied(before[i]) && Represents(before[..i], n) && Represents(t, n)
    ensures Lacks(t, before[i].key)
  {
    var key := before[i].key;
    forall j | 0 <= j < |t| && Occupied(t[j]) ensures t[j].key != key {
      assert Holds(before[..i], Pair(t[j].key, n[t[j].key]));
      var k :| 0 <= k < i && before[..i][k] == Pair(t[j].key, n[t[j].key]);
      assert before[k].key == t[j].key;
    }
  }

  lemma RepresentsNext(before: Table, i: nat, n: map<nat, nat>)
    requires i < |before| && Represents(before[..i], n) && before[i].count > 0 && before[i].key !in n
    ensures Represents(before[..i + 1], n[before[i].key := before[i].count])
  {
    var t, t', v := before[..i], before[..i + 1], before[i];
    var n' := n[v.key := v.count];
    assert forall j :: 0 <= j < i ==> t'[j] == t[j];
    forall k | k in n' ensures n'[k] > 0 && Holds(t', Pair(k, n'[k])) {
      if k == v.key {
        assert t'[i] == v;
      } else {
        assert Holds(t, Pair(k, n[k]));
        var j :| 0 <= j < |t| && t[j] == Pair(k, n[k]);
        assert t'[j] == t[j];
      }
    }
  }

  lemma RepresentsSkip(before: Table, i: nat, n: map<nat, nat>)
    requires i < |before| && Represents(before[..i], n) && !Occupied(before[i])
    ensures Represents(before[..i + 1], n)
  {
    var t, t' := before[..i], before[..i + 1];
    assert forall j :: 0 <= j < i ==> t'[j] == t[j];
    forall k | k in n ensures n[k] > 0 && Holds(t', Pair(k, n[k])) {
      assert Holds(t, Pair(k, n[k]));
      var j :| 0 <= j < |t| && t[j] == Pair(k, n[k]);
      assert t'[j] == t[j];
    }
  }

  /** A table stands for one map only. */
  lemma SameMap(t: Table, m: map<nat, nat>, n: map<nat, nat>)
    requires Represents(t, m) && Represents(t, n)
    ensures m == n
  {
    assert forall k :: k in m ==> Holds(t, Pair(k, m[k]));
    assert forall k :: k in n ==> Holds(t, Pair(k, n[k]));
  }

  // --- Sorting --------------------------------------------------------------------------------

  predicate Less(p: Pair, q: Pair) {
    p.key < q.key || (p.key == q.key && p.count < q.count)
  }

  /** The pair put after all that are not greater. */
  function Insert(t: Table, p: Pair): Table {
    if t == [] || !Less(p, t[|t| - 1]) then t + [p]
    else Insert(t[..|t| - 1], p) + [t[|t| - 1]]
  }

  function Sort(t: Table): Table {
    if t == [] then [] else Insert(Sort(t[..|t| - 1]), t[|t| - 1])
  }

  ghost predicate Sorted(t: Table) {
    forall i, j :: 0 <= i < j < |t| ==> !Less(t[j], t[i])
  }

  lemma {:induction false} InsertMembers(t: Table, p: Pair)
    ensures multiset(Insert(t, p)) == multiset(t) + multiset{p}
  {
    if t != [] && Less(p, t[|t| - 1]) {
      var n := |t| - 1;
      InsertMembers(t[..n], p);
      assert t == t[..n] + [t[n]];
    }
  }

  lemma {:induction false} InsertFrom(t: Table, p: Pair, i: nat)
    requires i < |Insert(t, p)|
    ensures Insert(t, p)[i] == p || exists k :: 0 <= k < |t| && Insert(t, p)[i] == t[k]
  {
    if t != [] && Less(p, t[|t| - 1]) {
      var n := |t| - 1;
      if i < |Insert(t[..n], p)| {
        InsertFrom(t[..n], p, i);
      }
    } else if i < |t| {
      assert Insert(t, p)[i] == t[i];
    }
  }

  lemma {:induction false} InsertSorts(t: Table, p: Pair)
    requires Sorted(t)
    ensures Sorted(Insert(t, p))
  {
    if t != [] && Less(p, t[|t| - 1]) {
      var n := |t| - 1;
      InsertSorts(t[..n], p);
      var r := Insert(t[..n], p);
      forall i | 0 <= i < |r| ensures !Less(t[n], r[i]) {
        InsertFrom(t[..n], p, i);
      }
    }
  }

  lemma {:induction false} SortSorts(t: Table)
    ensures Sorted(Sort(t)) && multiset(Sort(t)) == multiset(t)
  {
    hide Sorted, Insert;
    assert Sorted([]) by { NoneSorted(); }
    if t != [] {
      var n := |t| - 1;
      SortSorts(t[..n]);
      InsertSorts(Sort(t[..n]), t[n]);
      InsertMembers(Sort(t[..n]), t[n]);
      assert t == t[..n] + [t[n]];
    }
  }

  lemma NoneSorted()
    ensures Sorted([])
  {
  }

  lemma {:induction false} SortCounts(t: Table)
    ensures |Sort(t)| == |t| && Used(Sort(t)) == Used(t) && Total(Sort(t)) == Total(t)
  {
    if t != [] {
      var n := |t| - 1;
      SortCounts(t[..n]);
      InsertCounts(Sort(t[..n]), t[n]);
    }
  }

  lemma {:induction false} InsertCounts(t: Table, p: Pair)
    ensures var r := Insert(t, p);
            |r| == |t| + 1 && Used(r) == Used(t) + (if Occupied(p) then 1 else 0) && Total(r) == Total(t) + p.count
  {
    var r := Insert(t, p);
    if t == [] || !Less(p, t[|t| - 1]) {
      assert r[..|t|] == t;
    } else {
      InsertCounts(t[..|t| - 1], p);
      assert r[..|t|] == Insert(t[..|t| - 1], p);
    }
  }

  /** Empty slots first, then pairs with growing keys. */
  ghost predicate Ordered(t: Table, z: nat) {
    && z <= |t| && (forall i :: 0 <= i < z ==> t[i] == EMPTY)
    && (forall i :: z <= i < |t| ==> t[i].count > 0)
    && (forall i, j :: z <= i < j < |t| ==> t[i].key < t[j].key)
  }

  lemma {:induction false} SameMembers(t: Table, s: Table, p: Pair)
    requires multiset(t) == multiset(s) && p in t
    ensures p in s
  {
    assert p in multiset(t);
  }

  /** Two different slots hold different pairs, also after moving them around. */
  lemma TwoSlots(t: Table, s: Table, i: nat, j: nat)
    requires multiset(t) == multiset(s) && Unique(t) && i < j < |s| && Occupied(s[i]) && Occupied(s[j])
    ensures s[i].key != s[j].key
  {
    if s[i] == s[j] {
      var rest := s[..j] + s[j + 1..];
      assert s == s[..j] + [s[j]] + s[j + 1..];
      assert rest[i] == s[j];
      assert multiset(s)[s[j]] >= 2;
      TwiceInTable(t, s[j]);
    } else {
      assert s[i] in multiset(s) && s[j] in multiset(s);
    }
  }

  lemma {:induction false} TwiceInTable(t: Table, p: Pair)
    requires multiset(t)[p] >= 2 && Occupied(p)
    ensures !Unique(t)
  {
    var a :| 0 <= a < |t| && t[a] == p;
    var rest := t[..a] + t[a + 1..];
    assert t == t[..a] + [t[a]] + t[a + 1..];
    assert multiset(rest)[p] >= 1;
    assert p in rest;
    var b :| 0 <= b < |rest| && rest[b] == p;
    var c := if b < a then b else b + 1;
    assert t[c] == p && c != a;
  }

  /** What sorting makes of a table. */
  lemma {:induction false} SortOrders(bits: nat, t: Table, m: map<nat, nat>)
    requires TableOk(bits, t) && Represents(t, m)
    ensures Used(t) <= |t| && Ordered(Sort(t), |t| - Used(t)) && Represents(Sort(t), m)
    ensures Total(Sort(t)) == Total(t)
  {
    hide Pow2, Probes, Used, Total, Sort, Represents;
    var s := Sort(t);
    SortSorts(t);
    SortCounts(t);
    UsedAtMost(t);
    RepresentsSame(t, s, m);
    assert forall i :: 0 <= i < |s| ==> s[i] in multiset(s);
    forall i, j | 0 <= i < j < |s| && Occupied(s[i]) ensures Occupied(s[j]) && s[i].key < s[j].key {
      assert s[i] in multiset(s) && s[j] in multiset(s);
      if Occupied(s[j]) {
        TwoSlots(t, s, i, j);
      }
    }
    EmptiesFirst(s);
  }

  lemma RepresentsSame(t: Table, s: Table, m: map<nat, nat>)
    requires multiset(t) == multiset(s) && Represents(t, m)
    ensures Represents(s, m)
  {
    forall j | 0 <= j < |s| && Occupied(s[j]) ensures s[j].key in m && m[s[j].key] == s[j].count {
      assert s[j] in multiset(s);
    }
    forall k | k in m ensures m[k] > 0 && Holds(s, Pair(k, m[k])) {
      assert Holds(t, Pair(k, m[k]));
      SameMembers(t, s, Pair(k, m[k]));
    }
  }

  lemma {:induction false} EmptiesFirst(s: Table)
    requires forall i, j :: 0 <= i < j < |s| && Occupied(s[i]) ==> Occupied(s[j])
    ensures Used(s) <= |s| && forall i :: 0 <= i < |s| ==> (Occupied(s[i]) <==> i >= |s| - Used(s))
  {
    if s != [] {
      var n := |s| - 1;
      EmptiesFirst(s[..n]);
      UsedAtMost(s[..n]);
    }
  }
}
