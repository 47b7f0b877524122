/** How similar two files are, computed from their sorted similarity tables. */
module SimilarityScore {
  import opened SimilarityIndex
  import opened Wrappers

  function Min(a: nat, b: nat): nat { if a < b then a else b }

  /** What is common to the tables from two positions on, found by merging. */
  function Merge(a: Table, b: Table, i: nat, j: nat): nat
    requires i <= |a| && j <= |b|
    decreases |a| - i + |b| - j
  {
    if i == |a| || j == |b| then 0
    else if a[i].key == b[j].key then Min(a[i].count, b[j].count) + Merge(a, b, i + 1, j + 1)
    else if a[i].key < b[j].key then Merge(a, b, i + 1, j)
    else Merge(a, b, i, j + 1)
  }

  /** `common`. */
  method Common(a: Table, numA: nat, b: Table, numB: nat) returns (common: nat)
    requires numA == Used(a) && numB == Used(b)
    ensures common == if numA == 0 || numB == 0 then 0 else Merge(a, b, 0, 0)
  {
    if numA == 0 || numB == 0 {
      return 0;
    }
    var i, j := 0, 0;
    common := 0;
    while true
      invariant i < |a| && j < |b|
      invariant common + Merge(a, b, i, j) == Merge(a, b, 0, 0)
      decreases |a| - i + |b| - j
    {
      if a[i].key == b[j].key {
        common := common + Min(a[i].count, b[j].count);
        i := i + 1;
        if i == |a| {
          break;
        }
        j := j + 1;
        if j == |b| {
          break;
        }
      } else if a[i].key < b[j].key {
        i := i + 1;
        if i == |a| {
          break;
        }
      } else {
        j := j + 1;
        if j == |b| {
          break;
        }
      }
    }
  }

  // --- Symmetry and bounds ----------------------------------------------------------------------

  lemma {:induction false} MergeSymmetric(a: Table, b: Table, i: nat, j: nat)
    requires i <= |a| && j <= |b|
    ensures Merge(a, b, i, j) == Merge(b, a, j, i)
    decreases |a| - i + |b| - j
  {
    if i < |a| && j < |b| {
      if a[i].key == b[j].key {
        MergeSymmetric(a, b, i + 1, j + 1);
      } else if a[i].key < b[j].key {
        MergeSymmetric(a, b, i + 1, j);
      } else {
        MergeSymmetric(a, b, i, j + 1);
      }
    }
  }

  ghost function TotalFrom(a: Table, i: nat): nat
    requires i <= |a|
    decreases |a| - i
  {
    if i == |a| then 0 else a[i].count + TotalFrom(a, i + 1)
  }

  lemma {:induction false} TotalSplit(a: Table, i: nat)
    requires i <= |a|
    ensures Total(a[..i]) + TotalFrom(a, i) == Total(a)
    decreases |a| - i
  {
    if i == |a| {
      assert a[..i] == a;
    } else {
      TotalSplit(a, i + 1);
      assert a[..i + 1][..i] == a[..i];
    }
  }

  lemma {:induction false} MergeAtMost(a: Table, b: Table, i: nat, j: nat)
    requires i <= |a| && j <= |b|
    ensures Merge(a, b, i, j) <= TotalFrom(a, i)
    decreases |a| - i + |b| - j
  {
    if i < |a| && j < |b| {
      if a[i].key == b[j].key {
        MergeAtMost(a, b, i + 1, j + 1);
      } else if a[i].key < b[j].key {
        MergeAtMost(a, b, i + 1, j);
      } else {
        MergeAtMost(a, b, i, j + 1);
      }
    }
  }

  /** No more is common than either side has. */
  lemma {:induction false} CommonBounded(a: Table, b: Table)
    ensures Merge(a, b, 0, 0) <= Total(a) && Merge(a, b, 0, 0) <= Total(b)
  {
    MergeAtMost(a, b, 0, 0);
    TotalSplit(a, 0);
    MergeSymmetric(a, b, 0, 0);
    MergeAtMost(b, a, 0, 0);
    TotalSplit(b, 0);
    assert a[..0] == [] && b[..0] == [];
  }

  // --- What merging computes ---------------------------------------------------------------------

  /** The count of a key from position `j` on. */
  ghost function CountFrom(b: Table, j: nat, key: nat): nat
    requires j <= |b|
    decreases |b| - j
  {
    if j == |b| then 0
    else if b[j].key == key && b[j].count > 0 then b[j].count
    else CountFrom(b, j + 1, key)
  }

  /** Key by key, the smaller of the two counts. */
  ghost function SharedFrom(a: Table, i: nat, b: Table, j: nat): nat
    requires i <= |a| && j <= |b|
    decreases |a| - i
  {
    if i == |a| then 0 else Min(a[i].count, CountFrom(b, j, a[i].key)) + SharedFrom(a, i + 1, b, j)
  }

  lemma {:induction false} AllGreater(b: Table, j: nat, key: nat)
    requires j <= |b| && forall k :: j <= k < |b| ==> b[k].key > key
    ensures CountFrom(b, j, key) == 0
    decreases |b| - j
  {
    if j < |b| {
      AllGreater(b, j + 1, key);
    }
  }

  /** A pair of `b` that no later key of `a` matches can be left out. */
  lemma {:induction false} DropHead(a: Table, i: nat, b: Table, j: nat)
    requires i <= |a| && j < |b| && forall k :: i <= k < |a| ==> a[k].key != b[j].key
    ensures SharedFrom(a, i, b, j) == SharedFrom(a, i, b, j + 1)
    decreases |a| - i
  {
    if i < |a| {
      DropHead(a, i + 1, b, j);
    }
  }

  /** Among pairs with growing keys, merging finds all that is shared. */
  lemma {:induction false} MergeShares(a: Table, za: nat, i: nat, b: Table, zb: nat, j: nat)
    requires Ordered(a, za) && Ordered(b, zb) && za <= i <= |a| && zb <= j <= |b|
    ensures Merge(a, b, i, j) == SharedFrom(a, i, b, j)
    decreases |a| - i + |b| - j
  {
    if i == |a| {
    } else if j == |b| {
      NothingLeft(a, i, b);
    } else if a[i].key == b[j].key {
      MergeShares(a, za, i + 1, b, zb, j + 1);
      DropHead(a, i + 1, b, j);
    } else if a[i].key < b[j].key {
      MergeShares(a, za, i + 1, b, zb, j);
      AllGreater(b, j, a[i].key);
    } else {
      MergeShares(a, za, i, b, zb, j + 1);
      DropHead(a, i, b, j);
    }
  }

  lemma {:induction false} NothingLeft(a: Table, i: nat, b: Table)
    requires i <= |a|
    ensures SharedFrom(a, i, b, |b|) == 0
    decreases |a| - i
  {
    if i < |a| {
      NothingLeft(a, i + 1, b);
    }
  }

  /** Empty slots on both sides are passed together. */
  lemma {:induction false} BothEmpty(a: Table, za: nat, b: Table, zb: nat, k: nat)
    requires Ordered(a, za) && Ordered(b, zb) && k <= za && k <= zb
    ensures Merge(a, b, 0, 0) == Merge(a, b, k, k)
  {
    if k > 0 {
      BothEmpty(a, za, b, zb, k - 1);
    }
  }

  /** Before a key above zero, empty slots of the other side are passed. */
  lemma {:induction false} PassEmpty(a: Table, za: nat, i: nat, b: Table, zb: nat, j: nat)
    requires Ordered(a, za) && Ordered(b, zb) && za <= i <= |a| && j <= zb && (i < |a| ==> a[i].key > 0)
    ensures Merge(a, b, i, j) == Merge(a, b, i, zb)
    decreases zb - j
  {
    if j < zb && i < |a| {
      PassEmpty(a, za, i, b, zb, j + 1);
    }
  }

  /** Whether the table has the key zero, which empty slots have too. */
  ghost predicate HasZero(a: Table, za: nat)
    requires za <= |a|
  {
    za < |a| && a[za].key == 0
  }

  /** What the key zero contributes. */
  ghost function ZeroShare(a: Table, za: nat, b: Table, zb: nat): nat
    requires za <= |a| && zb <= |b|
  {
    if HasZero(a, za) && HasZero(b, zb) then Min(a[za].count, b[zb].count) else 0
  }

  /** With fewer empty slots in `a`, its key zero is merged with an empty slot of `b`. */
  lemma {:induction false} FewerEmpty(a: Table, za: nat, b: Table, zb: nat)
    requires Ordered(a, za) && Ordered(b, zb) && za < zb
    ensures Merge(a, b, 0, 0) + ZeroShare(a, za, b, zb) == SharedFrom(a, za, b, zb)
  {
    BothEmpty(a, za, b, zb, za);
    if HasZero(a, za) {
      assert Merge(a, b, za, za) == Merge(a, b, za + 1, za + 1);
      PassEmpty(a, za, za + 1, b, zb, za + 1);
      MergeShares(a, za, za + 1, b, zb, zb);
      ZeroCount(b, zb);
    } else {
      PassEmpty(a, za, za, b, zb, za);
      MergeShares(a, za, za, b, zb, zb);
    }
  }

  lemma {:induction false} ZeroCount(b: Table, zb: nat)
    requires Ordered(b, zb)
    ensures CountFrom(b, zb, 0) == if HasZero(b, zb) then b[zb].count else 0
  {
    if zb < |b| && !HasZero(b, zb) {
      AllGreater(b, zb, 0);
    }
  }

  lemma {:induction false} SharedSymmetric(a: Table, za: nat, b: Table, zb: nat)
    requires Ordered(a, za) && Ordered(b, zb)
    ensures SharedFrom(a, za, b, zb) == SharedFrom(b, zb, a, za)
  {
    MergeShares(a, za, za, b, zb, zb);
    MergeShares(b, zb, zb, a, za, za);
    MergeSymmetric(a, b, za, zb);
  }

  /** Merging finds what is shared, except for the key zero when the tables do not have
      equally many empty slots. */
  lemma {:induction false} MergeExact(a: Table, za: nat, b: Table, zb: nat)
    requires Ordered(a, za) && Ordered(b, zb)
    ensures Merge(a, b, 0, 0) + (if za == zb then 0 else ZeroShare(a, za, b, zb)) == SharedFrom(a, za, b, zb)
  {
    if za < zb {
      FewerEmpty(a, za, b, zb);
    } else if za > zb {
      FewerEmpty(b, zb, a, za);
      MergeSymmetric(a, b, 0, 0);
      SharedSymmetric(a, za, b, zb);
    } else {
      BothEmpty(a, za, b, zb, za);
      MergeShares(a, za, za, b, zb, zb);
    }
  }

  /** Over all keys of a table, the smaller of its count and the one in `m`. */
  ghost function SharedWith(a: Table, m: map<nat, nat>): nat {
    if a == [] then 0
    else
      var p := a[|a| - 1];
      SharedWith(a[..|a| - 1], m) + Min(p.count, if p.key in m then m[p.key] else 0)
  }

  lemma {:induction false} CountIsLookup(b: Table, zb: nat, j: nat, m: map<nat, nat>, key: nat)
    requires Ordered(b, zb) && Represents(b, m) && zb <= j <= |b| && forall k :: zb <= k < j ==> b[k].key != key
    ensures CountFrom(b, j, key) == if key in m then m[key] else 0
    decreases |b| - j
  {
    if j == |b| {
      assert key in m ==> Holds(b, Pair(key, m[key]));
    } else if b[j].key != key {
      CountIsLookup(b, zb, j + 1, m, key);
    }
  }

  lemma {:induction false} SharedIsLookup(a: Table, i: nat, b: Table, zb: nat, m: map<nat, nat>)
    requires Ordered(b, zb) && Represents(b, m) && i <= |a|
    ensures SharedWith(a[..i], m) + SharedFrom(a, i, b, zb) == SharedWith(a, m)
    decreases |a| - i
  {
    if i == |a| {
      assert a[..i] == a;
    } else {
      SharedIsLookup(a, i + 1, b, zb, m);
      assert a[..i + 1][..i] == a[..i];
      CountIsLookup(b, zb, zb, m, a[i].key);
    }
  }

  lemma {:induction false} EmptyShares(a: Table, i: nat, m: map<nat, nat>)
    requires i <= |a| && forall k :: 0 <= k < i ==> a[k] == EMPTY
    ensures SharedWith(a[..i], m) == 0
  {
    if i > 0 {
      EmptyShares(a, i - 1, m);
      assert a[..i][..i - 1] == a[..i - 1];
    }
  }

  /** Exactly when merging finds the sum over shared keys of the smaller count: unless both
      have the key zero and differ in the number of their empty slots. */
  lemma {:induction false} CommonExact(a: Table, za: nat, ma: map<nat, nat>, b: Table, zb: nat, mb: map<nat, nat>)
    requires Ordered(a, za) && Represents(a, ma) && Ordered(b, zb) && Represents(b, mb)
    ensures Merge(a, b, 0, 0) == SharedWith(a, mb) <==> !(0 in ma && 0 in mb && za != zb)
    ensures Merge(a, b, 0, 0) <= SharedWith(a, mb)
  {
    hide Merge;
    MergeExact(a, za, b, zb);
    EmptyShares(a, za, mb);
    SharedIsLookup(a, za, b, zb, mb);
    ZeroIsKey(a, za, ma);
    ZeroIsKey(b, zb, mb);
  }

  lemma ZeroIsKey(a: Table, za: nat, ma: map<nat, nat>)
    requires Ordered(a, za) && Represents(a, ma)
    ensures HasZero(a, za) <==> 0 in ma
  {
    assert 0 in ma ==> Holds(a, Pair(0, ma[0]));
  }

  lemma {:induction false} NoneShared(a: Table, m: map<nat, nat>, i: nat)
    requires i <= |a| && forall j :: 0 <= j < |a| && Occupied(a[j]) ==> a[j].key !in m
    ensures SharedWith(a[..i], m) == 0
  {
    if i > 0 {
      NoneShared(a, m, i - 1);
      assert a[..i][..i - 1] == a[..i - 1];
    }
  }

  /** Files without a common key have nothing in common. */
  lemma {:induction false} KeysApartNothingCommon(a: Table, za: nat, ma: map<nat, nat>, b: Table, zb: nat, mb: map<nat, nat>)
    requires Ordered(a, za) && Represents(a, ma) && Ordered(b, zb) && Represents(b, mb) && ma.Keys !! mb.Keys
    ensures Merge(a, b, 0, 0) == 0
  {
    hide Merge, Ordered, SharedWith;
    CommonExact(a, za, ma, b, zb, mb);
    NoneShared(a, mb, |a|);
    assert a[..|a|] == a;
  }

  /** Two files of one block each, whose hashes differ but not in the lowest bit alone, have nothing
      in common. */
  lemma {:induction false} OneBlockEach(a: Table, za: nat, ma: map<nat, nat>, b: Table, zb: nat, mb: map<nat, nat>, x: nat, y: nat)
    requires Ordered(a, za) && Represents(a, ma) && Ordered(b, zb) && Represents(b, mb)
    requires x % 0x1_0000_0000 != y % 0x1_0000_0000 && x % 2 == y % 2
    requires ma.Keys == {KeyOf(x)} && mb.Keys == {KeyOf(y)}
    ensures Merge(a, b, 0, 0) == 0
  {
    hide Merge, Ordered, Represents, KeyOf;
    if KeyOf(x) == KeyOf(y) {
      KeysApart(x, y);
    }
    KeysApartNothingCommon(a, za, ma, b, zb, mb);
  }

  // --- Score --------------------------------------------------------------------------------------

  function ScoreOf(common: nat, hashedA: nat, hashedB: nat, maxScore: nat): nat {
    var maxHashed := if hashedA < hashedB then hashedB else hashedA;
    if maxHashed == 0 then maxScore else common * maxScore / maxHashed
  }

  /** `score`: between nothing and `maxScore`, and the same both ways. */
  method Score(a: Table, numA: nat, hashedA: nat, b: Table, numB: nat, hashedB: nat, maxScore: nat) returns (score: nat)
    requires numA == Used(a) && numB == Used(b) && hashedA == Total(a) && hashedB == Total(b)
    ensures score <= maxScore
    ensures score == ScoreOf(Merge(a, b, 0, 0), hashedA, hashedB, maxScore)
                  == ScoreOf(Merge(b, a, 0, 0), hashedB, hashedA, maxScore)
    ensures a == b ==> score == maxScore
    ensures hashedA <= hashedB && hashedB > 0 ==>
              score * hashedB <= Merge(a, b, 0, 0) * maxScore < (score + 1) * hashedB
    ensures hashedB <= hashedA && hashedA > 0 ==>
              score * hashedA <= Merge(a, b, 0, 0) * maxScore < (score + 1) * hashedA
    ensures hashedA == hashedB == 0 ==> score == maxScore
  {
    hide Merge, Used, Total, ScoreOf;
    CommonBounded(a, b);
    MergeSymmetric(a, b, 0, 0);
    ScoreIs(Merge(a, b, 0, 0), hashedA, hashedB, maxScore);
    if numA == 0 {
      NoneUsed(a, b);
    }
    if numB == 0 {
      NoneUsed(b, a);
    }
    var maxHashed := if hashedA < hashedB then hashedB else hashedA;
    if a == b {
      SameTable(a);
    }
    if maxHashed == 0 {
      return maxScore;
    }
    var common := Common(a, numA, b, numB);
    score := common * maxScore / maxHashed;
    Floor(common * maxScore, maxHashed);
  }

  lemma Floor(x: nat, y: nat)
    requires y > 0
    ensures x / y * y <= x < (x / y + 1) * y
  {
    assert x == x / y * y + x % y;
  }

  lemma ScoreIs(common: nat, hashedA: nat, hashedB: nat, maxScore: nat)
    requires common <= hashedA && common <= hashedB
    ensures var maxHashed := if hashedA < hashedB then hashedB else hashedA;
            var score := ScoreOf(common, hashedA, hashedB, maxScore);
            && score == (if maxHashed == 0 then maxScore else common * maxScore / maxHashed)
            && score == ScoreOf(common, hashedB, hashedA, maxScore) <= maxScore
            && (common == hashedA == hashedB ==> score == maxScore)
  {
    var maxHashed := if hashedA < hashedB then hashedB else hashedA;
    if maxHashed > 0 {
      FractionAtMost(common, maxScore, maxHashed);
    }
  }

  /** A table has all it has in common with itself. */
  lemma {:induction false} SameTable(a: Table)
    ensures Merge(a, a, 0, 0) == Total(a)
  {
    MergeSelf(a, 0);
    TotalSplit(a, 0);
    assert a[..0] == [];
    EmptyTotal();
  }

  lemma EmptyTotal()
    ensures Total([]) == 0
  {
  }

  /** A file is fully similar to itself. */
  lemma {:induction false} MergeSelf(a: Table, i: nat)
    requires i <= |a|
    ensures Merge(a, a, i, i) == TotalFrom(a, i)
    decreases |a| - i
  {
    if i < |a| {
      MergeSelf(a, i + 1);
    }
  }

  lemma {:induction false} UsedNone(a: Table)
    requires Used(a) == 0
    ensures Total(a) == 0
  {
    if a != [] {
      UsedNone(a[..|a| - 1]);
    }
  }

  lemma {:induction false} NoneUsed(a: Table, b: Table)
    requires Used(a) == 0
    ensures Merge(a, b, 0, 0) == Merge(b, a, 0, 0) == 0
  {
    UsedNone(a);
    CommonBounded(a, b);
    MergeSymmetric(a, b, 0, 0);
  }

  lemma ProductGrows(n: nat, x: nat, y: nat)
    requires x <= y
    ensures n * x <= n * y
  {
    assert n * y == n * x + n * (y - x);
  }

  lemma QuotientAtMost(p: nat, k: nat, n: nat)
    requires n > 0 && p <= n * k
    ensures p / n <= k && (p == n * k ==> p / n == k)
  {
    var q := p / n;
    assert n * q <= p < n * q + n;
    if q < k {
      ProductGrows(n, q + 1, k);
      assert n * (q + 1) == n * q + n;
    } else {
      PositiveFactor(k + 1 - q, n) by {
        assert (k + 1 - q) * n == n * k + n - n * q;
      }
    }
  }

  lemma FractionAtMost(x: nat, k: nat, n: nat)
    requires x <= n && n > 0
    ensures x * k / n <= k && (x == n ==> x * k / n == k)
  {
    ProductGrows(k, x, n);
    QuotientAtMost(x * k, k, n);
  }

  /** Two files share a block with key zero, and one of them has another block besides: the
      shared block is not counted, because an empty slot takes its place. */
  method ZeroKeyLost() returns (common: nat, a: Table, b: Table)
    ensures Represents(a, map[0 := 1, KeyOf(2) := 1]) && Represents(b, map[0 := 1]) && |a| == |b| == Pow2(MIN_BITS)
    ensures common < SharedWith(a, map[0 := 1])
  {
    hide Represents, TableOk, Used, Total, Ordered, Sort, GrowAt, SharedWith;
    var one := new Index();
    var two := new Index();
    Shares();
    assert KeyOf(0) == 0 && KeyOf(2) != 0;
    ghost var none: map<nat, nat> := map[];
    var ok1 := one.Add(0, 1, none);
    assert ok1 && Counted(none, 0, 1) == map[0 := 1];
    var ok2 := one.Add(2, 1, map[0 := 1]);
    assert ok2 && Counted(map[0 := 1], KeyOf(2), 1) == map[0 := 1, KeyOf(2) := 1];
    var ok3 := two.Add(0, 1, none);
    assert ok3;
    Sized(one.hashBits, one.hashes);
    Sized(two.hashBits, two.hashes);
    SortOrders(one.hashBits, one.hashes, map[0 := 1, KeyOf(2) := 1]);
    SortOrders(two.hashBits, two.hashes, map[0 := 1]);
    SortCounts(one.hashes);
    SortCounts(two.hashes);
    a, b := Sort(one.hashes), Sort(two.hashes);
    common := Common(a, one.numHashes, b, two.numHashes);
    CommonExact(a, |a| - 2, map[0 := 1, KeyOf(2) := 1], b, |b| - 1, map[0 := 1]);
  }

  /** `fileSimilarityIndex`: the sorted table of a file. */
  method FileSimilarityIndex(content: seq<nat>, size: nat, isBin: bool)
    returns (r: HashResult, table: Table, num: nat, hashed: nat, ghost m: map<nat, nat>)
    ensures r.Hashed? ==> num == Used(table) <= |table| && hashed == Total(table)
    ensures r.Hashed? ==> Ordered(table, |table| - num) && Represents(table, m)
    ensures r.Hashed? ==> BlockCounts(content, isBin, size) == Some(m)
    ensures r.Hashed? && size == |content| ==> hashed == Significant(content, isBin, size)
    ensures r.Eof? ==> BlockCounts(content, isBin, size) == None && size > |content|
    ensures r.Full? ==> |content| >= GrowAt(MAX_BITS)
  {
    hide Pow2, Used, Total, TableOk, Represents, Ordered, Sort, Significant, BlockCounts, GrowAt;
    var idx := new Index();
    r, m := idx.HashContent(content, size, isBin);
    table, num, hashed := idx.hashes, idx.numHashes, idx.hashed;
    if r.Hashed? {
      SortOrders(idx.hashBits, table, m);
      SortCounts(table);
      table := Sort(table);
    }
  }

  /** The files "a" and "e", each with a line feed: their hashes differ by four, so nothing is
      common. */
  method LinesApart() returns (common: nat)
    ensures common == 0
  {
    hide Ordered, Represents, Used, Total, GrowAt, KeyOf, Merge;
    Shares();
    var r, a, na, _, ma := FileSimilarityIndex([97, 10], 2, false);
    var r', b, nb, _, mb := FileSimilarityIndex([101, 10], 2, false);
    OneLine([97], false);
    OneLine([101], false);
    assert [97] + ['\n' as int] == [97, 10] && [101] + ['\n' as int] == [101, 10];
    common := Common(a, na, b, nb);
    OneBlockEach(a, |a| - na, ma, b, |b| - nb, mb, 177670, 177674);
  }
}
