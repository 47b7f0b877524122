/** The size-bounded caches of buffers and of objects: a map into a list that is ordered by
    use, refined from the list alone. */
module Lru {
  import opened Wrappers

  /** A buffer under its offset, or an object under its hash, with its size. */
  datatype Entry<K, V> = Entry(key: K, value: V, size: nat)

  // --- The list, last used first --------------------------------------------------------------

  ghost function Sum<K, V>(s: seq<Entry<K, V>>): nat {
    if s == [] then 0 else Sum(s[..|s| - 1]) + s[|s| - 1].size
  }

  ghost predicate KeysApart<K, V>(s: seq<Entry<K, V>>) {
    forall i, j :: 0 <= i < j < |s| ==> s[i].key != s[j].key
  }

  ghost predicate Has<K, V>(s: seq<Entry<K, V>>, k: K) {
    exists i :: 0 <= i < |s| && s[i].key == k
  }

  ghost function Find<K, V>(s: seq<Entry<K, V>>, k: K): (i: nat)
    requires Has(s, k)
    ensures i < |s| && s[i].key == k
  {
    var i :| 0 <= i < |s| && s[i].key == k; i
  }

  ghost function Dropped<K, V>(s: seq<Entry<K, V>>, k: K): seq<Entry<K, V>> {
    if Has(s, k) then s[..Find(s, k)] + s[Find(s, k) + 1..] else s
  }

  /** What is left when the last ones go until the rest fits. */
  ghost function Fit<K, V>(s: seq<Entry<K, V>>, max: nat): seq<Entry<K, V>> {
    if Sum(s) <= max then s else Fit(s[..|s| - 1], max)
  }

  /** A value for a new key that does not fit at all is refused. */
  ghost function AfterPut<K, V>(s: seq<Entry<K, V>>, e: Entry<K, V>, max: int): seq<Entry<K, V>> {
    if !Has(s, e.key) && e.size > max then s else if max < 0 then [] else Fit([e] + Dropped(s, e.key), max)
  }

  ghost function AfterGet<K, V>(s: seq<Entry<K, V>>, k: K): seq<Entry<K, V>> {
    if Has(s, k) then [s[Find(s, k)]] + Dropped(s, k) else s
  }

  lemma {:induction false} SumConcat<K, V>(s: seq<Entry<K, V>>, t: seq<Entry<K, V>>)
    ensures Sum(s + t) == Sum(s) + Sum(t)
  {
    if t == [] {
      assert s + t == s;
    } else {
      SumConcat(s, t[..|t| - 1]);
      assert (s + t)[..|s + t| - 1] == s + t[..|t| - 1];
    }
  }

  lemma SumOne<K, V>(e: Entry<K, V>)
    ensures Sum([e]) == e.size
  {
    assert [e][..0] == [];
  }

  /** The longest beginning that fits. */
  lemma {:induction false} FitIsLongest<K, V>(s: seq<Entry<K, V>>, max: nat)
    ensures Fit(s, max) <= s && Sum(Fit(s, max)) <= max
    ensures forall t :: t <= s && |Fit(s, max)| < |t| ==> Sum(t) > max
  {
    if Sum(s) > max {
      FitIsLongest(s[..|s| - 1], max);
      forall t | t <= s && |Fit(s, max)| < |t| ensures Sum(t) > max {
        if |t| == |s| {
          assert t == s;
        } else {
          assert t <= s[..|s| - 1];
        }
      }
    }
  }

  lemma {:induction false} SumRemoved<K, V>(s: seq<Entry<K, V>>, i: nat)
    requires i < |s|
    ensures Sum(s) == Sum(s[..i] + s[i + 1..]) + s[i].size
  {
    hide Sum;
    assert s == s[..i] + ([s[i]] + s[i + 1..]);
    SumConcat(s[..i], [s[i]] + s[i + 1..]);
    SumConcat([s[i]], s[i + 1..]);
    SumConcat(s[..i], s[i + 1..]);
    SumOne(s[i]);
  }

  lemma Removed<K, V>(s: seq<Entry<K, V>>, i: nat)
    requires KeysApart(s) && i < |s|
    ensures var t := s[..i] + s[i + 1..];
            KeysApart(t) && !Has(t, s[i].key) && forall x :: x in t ==> x in s && x.key != s[i].key
  {
    var t := s[..i] + s[i + 1..];
    assert forall j :: 0 <= j < |t| ==> t[j] == s[if j < i then j else j + 1];
  }

  lemma {:induction false} DroppedApart<K, V>(s: seq<Entry<K, V>>, k: K)
    requires KeysApart(s)
    ensures KeysApart(Dropped(s, k)) && !Has(Dropped(s, k), k)
    ensures Has(s, k) ==> Sum(s) == Sum(Dropped(s, k)) + s[Find(s, k)].size
    ensures forall x :: x in Dropped(s, k) ==> x in s && x.key != k
  {
    hide KeysApart, Sum;
    if Has(s, k) {
      Removed(s, Find(s, k));
      SumRemoved(s, Find(s, k));
    }
  }

  lemma FindIs<K, V>(s: seq<Entry<K, V>>, i: nat)
    requires KeysApart(s) && i < |s|
    ensures Has(s, s[i].key) && Find(s, s[i].key) == i
  {
  }

  /** The entries with other keys, in order. */
  ghost function Others<K, V>(s: seq<Entry<K, V>>, k: K): seq<Entry<K, V>> {
    if s == [] then []
    else
      var n := |s| - 1;
      Others(s[..n], k) + if s[n].key == k then [] else [s[n]]
  }

  lemma {:induction false} NoneDropped<K, V>(s: seq<Entry<K, V>>, k: K)
    requires !Has(s, k)
    ensures Others(s, k) == s
  {
    if s != [] {
      var n := |s| - 1;
      assert s[n].key != k;
      assert !Has(s[..n], k) by {
        assert forall i :: 0 <= i < n ==> s[..n][i] == s[i];
      }
      NoneDropped(s[..n], k);
    }
  }

  lemma {:induction false} OneDropped<K, V>(s: seq<Entry<K, V>>, i: nat)
    requires KeysApart(s) && i < |s|
    ensures Others(s, s[i].key) == s[..i] + s[i + 1..]
  {
    var n, k := |s| - 1, s[i].key;
    if i == n {
      assert !Has(s[..n], k);
      NoneDropped(s[..n], k);
      assert s[n + 1..] == [];
    } else {
      OneDropped(s[..n], i);
      assert s[..n][..i] == s[..i] && s[i + 1..] == s[..n][i + 1..] + [s[n]];
    }
  }

  lemma {:induction false} DroppedIsOthers<K, V>(s: seq<Entry<K, V>>, k: K)
    requires KeysApart(s)
    ensures Dropped(s, k) == Others(s, k)
  {
    if Has(s, k) {
      OneDropped(s, Find(s, k));
    } else {
      NoneDropped(s, k);
    }
  }

  lemma {:induction false} FirstWeighs<K, V>(s: seq<Entry<K, V>>)
    ensures s == [] || Sum(s) >= s[0].size
  {
    if |s| > 1 {
      FirstWeighs(s[..|s| - 1]);
    }
  }

  /** After a put of something that fits at all, it comes first.  The others follow in their order,
      and as many of them as fit are kept.  Something that does not fit is refused, or empties the
      cache when its key is there. */
  lemma {:induction false} PutIs<K, V>(s: seq<Entry<K, V>>, e: Entry<K, V>, max: nat)
    requires KeysApart(s)
    ensures var r := AfterPut(s, e, max);
            if e.size <= max then
              && r != [] && r[0] == e && r[1..] <= Others(s, e.key) && Sum(r) <= max
              && forall n :: |r[1..]| < n <= |Others(s, e.key)| ==> Sum([e] + Others(s, e.key)[..n]) > max
            else r == if Has(s, e.key) then [] else s
  {
    hide Others;
    DroppedIsOthers(s, e.key);
    var all := [e] + Others(s, e.key);
    FitIsLongest(all, max);
    assert [e] <= all;
    SumOne(e);
    forall n | 0 <= n <= |Others(s, e.key)| ensures [e] + Others(s, e.key)[..n] <= all {
    }
    FirstWeighs(Fit(all, max));
  }

  /** After a hit, what was found comes first, and the others follow in their order. */
  lemma {:induction false} GetIs<K, V>(s: seq<Entry<K, V>>, k: K)
    requires KeysApart(s)
    ensures var r := AfterGet(s, k);
            if Has(s, k) then r != [] && r[0] in s && r[0].key == k && r[1..] == Others(s, k) else r == s
  {
    DroppedIsOthers(s, k);
  }

  // --- Whole runs -----------------------------------------------------------------------------

  datatype Op<K, V> = Put(entry: Entry<K, V>) | Get(key: K) | Clear

  ghost function Run<K, V>(ops: seq<Op<K, V>>, max: int): seq<Entry<K, V>> {
    if ops == [] then []
    else
      var s := Run(ops[..|ops| - 1], max);
      match ops[|ops| - 1]
      case Put(e) => AfterPut(s, e, max)
      case Get(k) => AfterGet(s, k)
      case Clear => []
  }

  /** What was last put under a key since the last clearing. */
  ghost function LastPut<K, V>(ops: seq<Op<K, V>>, k: K): Option<Entry<K, V>> {
    if ops == [] then None
    else
      match ops[|ops| - 1]
      case Put(e) => if e.key == k then Some(e) else LastPut(ops[..|ops| - 1], k)
      case Get(_) => LastPut(ops[..|ops| - 1], k)
      case Clear => None
  }

  /** After any run the keys are different, the sizes stay within the bound, and whatever is
      there is what was last put under its key. */
  lemma {:induction false} RunKeeps<K, V>(ops: seq<Op<K, V>>, max: int)
    ensures var s := Run(ops, max);
            KeysApart(s) && (if max < 0 then s == [] else Sum(s) <= max)
            && forall e :: e in s ==> LastPut(ops, e.key) == Some(e)
  {
    if ops != [] {
      var before := ops[..|ops| - 1];
      RunKeeps(before, max);
      var s := Run(before, max);
      match ops[|ops| - 1] {
        case Put(e) =>
          PutKeeps(s, e, max);
        case Get(k) =>
          if Has(s, k) {
            DroppedApart(s, k);
            SumConcat([s[Find(s, k)]], Dropped(s, k));
            SumOne(s[Find(s, k)]);
          }
        case Clear =>
      }
    }
  }

  lemma {:induction false} PutKeeps<K, V>(s: seq<Entry<K, V>>, e: Entry<K, V>, max: int)
    requires KeysApart(s) && if max < 0 then s == [] else Sum(s) <= max
    ensures var t := AfterPut(s, e, max);
            KeysApart(t) && (if max < 0 then t == [] else Sum(t) <= max)
            && forall x :: x in t ==> x == e || (x in s && x.key != e.key)
  {
    hide Sum, Fit, Dropped;
    if max >= 0 && (Has(s, e.key) || e.size <= max) {
      DroppedApart(s, e.key);
      FitIsLongest([e] + Dropped(s, e.key), max);
      PushedApart(e, Dropped(s, e.key), Fit([e] + Dropped(s, e.key), max));
    } else if max >= 0 {
      assert forall x :: x in s ==> Has(s, x.key);
    }
  }

  lemma PushedApart<K, V>(e: Entry<K, V>, rest: seq<Entry<K, V>>, t: seq<Entry<K, V>>)
    requires KeysApart(rest) && !Has(rest, e.key) && t <= [e] + rest
    ensures KeysApart(t) && forall x :: x in t ==> x == e || x in rest
  {
    assert forall i :: 0 <= i < |t| ==> t[i] == if i == 0 then e else rest[i - 1];
  }

  // --- The cache ------------------------------------------------------------------------------

  /** An element of the list. */
  class Element<K, V> {
    var entry: Entry<K, V>

    constructor (entry: Entry<K, V>)
      ensures this.entry == entry
    {
      this.entry := entry;
    }
  }

  /** The map leads to the elements of the list, and to nothing else. */
  ghost predicate Linked<K, V>(s: seq<Entry<K, V>>, ll: seq<Element<K, V>>, cache: map<K, Element<K, V>>) {
    && |s| == |ll| && KeysApart(s)
    && (forall i :: 0 <= i < |s| ==> s[i].key in cache && cache[s[i].key] == ll[i])
    && (forall k :: k in cache ==> Has(s, k))
  }

  lemma LinkedKeys<K, V>(s: seq<Entry<K, V>>, ll: seq<Element<K, V>>, cache: map<K, Element<K, V>>)
    requires Linked(s, ll, cache)
    ensures KeysApart(s)
  {
  }

  lemma LinkedApart<K, V>(s: seq<Entry<K, V>>, ll: seq<Element<K, V>>, cache: map<K, Element<K, V>>, i: nat, j: nat)
    requires Linked(s, ll, cache) && i < |ll| && j < |ll| && ll[i] == ll[j] && ll[i].entry.key == s[i].key && ll[j].entry.key == s[j].key
    ensures i == j
  {
  }

  /** Where position `j` comes from when `i` moves to the front. */
  function Source(i: nat, j: nat): nat {
    if j == 0 then i else if j <= i then j - 1 else j
  }

  /** The element at `i` in front of the others. */
  function Moved<T>(s: seq<T>, i: nat): (r: seq<T>)
    requires i < |s|
    ensures |r| == |s| && forall j :: 0 <= j < |s| ==> r[j] == s[Source(i, j)]
  {
    [s[i]] + (s[..i] + s[i + 1..])
  }

  lemma {:induction false} MovedIsGet<K, V>(s: seq<Entry<K, V>>, i: nat)
    requires KeysApart(s) && i < |s|
    ensures AfterGet(s, s[i].key) == Moved(s, i) && Sum(Moved(s, i)) == Sum(s)
  {
    hide Sum;
    FindIs(s, i);
    SumRemoved(s, i);
    SumConcat([s[i]], s[..i] + s[i + 1..]);
    SumOne(s[i]);
  }

  lemma LinkedMove<K, V>(s: seq<Entry<K, V>>, ll: seq<Element<K, V>>, cache: map<K, Element<K, V>>, i: nat)
    requires Linked(s, ll, cache) && i < |s|
    ensures Linked(Moved(s, i), Moved(ll, i), cache)
  {
    hide KeysApart;
    var t := Moved(s, i);
    MovedApart(s, i);
    forall k | k in cache ensures Has(t, k) {
      var j :| 0 <= j < |s| && s[j].key == k;
      var x := if j == i then 0 else if j < i then j + 1 else j;
      assert Source(i, x) == j && t[x] == s[j];
    }
  }

  lemma MovedApart<K, V>(s: seq<Entry<K, V>>, i: nat)
    requires KeysApart(s) && i < |s|
    ensures KeysApart(Moved(s, i))
  {
    var t := Moved(s, i);
    forall j, k | 0 <= j < k < |t| ensures t[j].key != t[k].key {
      assert t[j] == s[Source(i, j)] && t[k] == s[Source(i, k)];
    }
  }

  lemma LinkedDrop<K, V>(s: seq<Entry<K, V>>, ll: seq<Element<K, V>>, cache: map<K, Element<K, V>>)
    requires Linked(s, ll, cache) && s != []
    ensures Linked(s[..|s| - 1], ll[..|s| - 1], cache - {s[|s| - 1].key})
  {
    var n := |s| - 1;
    forall k | k in cache - {s[n].key} ensures Has(s[..n], k) {
      var j :| 0 <= j < |s| && s[j].key == k;
      assert s[..n][j] == s[j];
    }
  }

  lemma LinkedPush<K, V>(s: seq<Entry<K, V>>, ll: seq<Element<K, V>>, cache: map<K, Element<K, V>>, e: Entry<K, V>, ee: Element<K, V>)
    requires Linked(s, ll, cache) && !Has(s, e.key)
    ensures Linked([e] + s, [ee] + ll, cache[e.key := ee])
  {
    var t := [e] + s;
    forall k | k in cache[e.key := ee] ensures Has(t, k) {
      if k == e.key {
        assert t[0].key == k;
      } else {
        var j :| 0 <= j < |s| && s[j].key == k;
        assert t[j + 1] == s[j];
      }
    }
  }

  lemma LinkedReplace<K, V>(s: seq<Entry<K, V>>, ll: seq<Element<K, V>>, cache: map<K, Element<K, V>>, e: Entry<K, V>)
    requires Linked(s, ll, cache) && s != [] && s[0].key == e.key
    ensures Linked([e] + s[1..], ll, cache)
  {
    var t := [e] + s[1..];
    assert forall j :: 0 <= j < |t| ==> t[j].key == s[j].key;
    forall k | k in cache ensures Has(t, k) {
      var j :| 0 <= j < |s| && s[j].key == k;
      assert t[j].key == k;
    }
  }

  class Cache<K(==), V> {
    const maxSize: int
    var actualSize: int
    var ll: seq<Element<K, V>>
    var cache: map<K, Element<K, V>>

    ghost function Contents(): (s: seq<Entry<K, V>>)
      reads this, ll
    {
      Entries(ll)
    }

    /** The map and the list hold the same keys, and the sizes add up. */
    ghost predicate Consistent()
      reads this, ll
    {
      Linked(Contents(), ll, cache) && actualSize == Sum(Contents())
    }

    ghost predicate Valid()
      reads this, ll
    {
      Consistent() && if maxSize < 0 then ll == [] else actualSize <= maxSize
    }

    constructor (maxSize: int)
      ensures Valid() && Contents() == [] && this.maxSize == maxSize
    {
      this.maxSize, actualSize, ll, cache := maxSize, 0, [], map[];
    }

    /** `MoveToFront`. */
    method MoveToFront(key: K, ee: Element<K, V>)
      requires Consistent() && key in cache && cache[key] == ee
      modifies this`ll
      ensures Consistent() && Contents() == AfterGet(old(Contents()), key) && Has(old(Contents()), key)
      ensures ll != [] && ll[0] == ee && ee.entry.key == key
      ensures forall e :: e in ll ==> e in old(ll)
    {
      hide Sum, AfterGet, Moved, Entries, KeysApart;
      ghost var s := Contents();
      EntriesAt(ll);
      assert Has(s, key);
      ghost var i := Find(s, key);
      assert ll[i] == ee;
      var k := 0;
      while ll[k] != ee
        invariant 0 <= k <= i
        decreases i - k
      {
        k := k + 1;
      }
      LinkedApart(s, ll, cache, k, i);
      MovedIsGet(s, k);
      LinkedMove(s, ll, cache, k);
      EntriesMoved(ll, k);
      ll := Moved(ll, k);
    }

    /** Drops the least recently used entries until the rest fits. */
    method Evict()
      requires Consistent() && maxSize >= 0
      modifies this
      ensures Valid() && Contents() == Fit(old(Contents()), maxSize)
      ensures forall e :: e in ll ==> e in old(ll)
    {
      hide Linked;
      while actualSize > maxSize
        invariant Consistent() && Fit(Contents(), maxSize) == Fit(old(Contents()), maxSize)
        invariant forall e :: e in ll ==> e in old(ll)
        decreases |ll|
      {
        EntriesAt(ll);
        var last := ll[|ll| - 1];
        LinkedDrop(Contents(), ll, cache);
        ll := ll[..|ll| - 1];
        cache := cache - {last.entry.key};
        actualSize := actualSize - last.entry.size;
      }
    }

    /** A new value for a key that is there. */
    method Replace(e: Entry<K, V>)
      requires Valid() && e.key in cache
      modifies this, ll
      ensures Consistent() && Has(old(Contents()), e.key)
      ensures Contents() == [e] + AfterGet(old(Contents()), e.key)[1..]
      ensures forall x :: x in ll ==> x in old(ll)
    {
      hide Sum, Linked, AfterGet, Entries;
      KeyOfMap(Contents(), ll, cache, e.key);
      var ee := cache[e.key];
      var delta := e.size - ee.entry.size;
      MoveToFront(e.key, ee);
      ghost var t := Contents();
      EntriesAt(ll);
      Replaced(t, e);
      LinkedReplace(t, ll, cache, e);
      FirstOnly(t, ll, cache);
      ee.entry := e;
      actualSize := actualSize + delta;
      EntriesAt(ll);
      assert Contents() == [e] + t[1..];
    }

    /** `Put`. */
    method PutEntry(e: Entry<K, V>)
      requires Valid()
      modifies this, ll
      ensures Valid() && Contents() == AfterPut(old(Contents()), e, maxSize)
      ensures e.size <= maxSize ==> Contents() != [] && Contents()[0] == e
      ensures forall x :: x in ll ==> x in old(ll) || fresh(x)
    {
      hide Sum, Linked, Fit, Dropped, Entries;
      ghost var s := Contents();
      if e.size <= maxSize {
        LinkedKeys(s, ll, cache);
        PutIs(s, e, maxSize);
      }
      KeyOfMap(s, ll, cache, e.key);
      if e.key in cache {
        EntriesAt(ll);
        Replace(e);
        assert AfterGet(s, e.key)[1..] == Dropped(s, e.key);
      } else {
        if e.size > maxSize {
          return;
        }
        var ee := new Element(e);
        LinkedPush(s, ll, cache, e, ee);
        EntriesPush(ee, ll);
        ll := [ee] + ll;
        cache := cache[e.key := ee];
        actualSize := actualSize + e.size;
        SumConcat([e], s);
        SumOne(e);
        NotDropped(s, e.key);
      }
      Evict();
    }

    /** `Get`. */
    method GetEntry(k: K) returns (r: Option<V>)
      requires Valid()
      modifies this`ll
      ensures Valid() && Contents() == AfterGet(old(Contents()), k)
      ensures r.Some? <==> Has(old(Contents()), k)
      ensures r.Some? ==> r.value == old(Contents())[Find(old(Contents()), k)].value
    {
      hide Sum, Linked;
      KeyOfMap(Contents(), ll, cache, k);
      if k !in cache {
        return None;
      }
      var ee := cache[k];
      MoveToFront(k, ee);
      EntriesAt(ll);
      return Some(ee.entry.value);
    }

    /** `Clear`. */
    method ClearAll()
      modifies this
      ensures Valid() && Contents() == []
    {
      ll, cache, actualSize := [], map[], 0;
    }
  }

  lemma KeyOfMap<K, V>(s: seq<Entry<K, V>>, ll: seq<Element<K, V>>, cache: map<K, Element<K, V>>, k: K)
    requires Linked(s, ll, cache)
    ensures k in cache <==> Has(s, k)
    ensures k in cache ==> cache[k] in ll
  {
  }

  lemma NotDropped<K, V>(s: seq<Entry<K, V>>, k: K)
    requires !Has(s, k)
    ensures Dropped(s, k) == s
  {
  }

  /** The first element is in the list once. */
  lemma FirstOnly<K, V>(s: seq<Entry<K, V>>, ll: seq<Element<K, V>>, cache: map<K, Element<K, V>>)
    requires Linked(s, ll, cache) && s != [] && forall i :: 0 <= i < |ll| ==> ll[i].entry == s[i]
    ensures forall i :: 0 < i < |ll| ==> ll[i] != ll[0]
  {
  }

  lemma {:induction false} EntriesMoved<K, V>(ll: seq<Element<K, V>>, k: nat)
    requires k < |ll|
    ensures |Entries(ll)| == |ll| && Entries(Moved(ll, k)) == Moved(Entries(ll), k)
  {
    hide Entries;
    EntriesAt(ll);
    EntriesAt(Moved(ll, k));
  }

  lemma {:induction false} EntriesPush<K, V>(ee: Element<K, V>, ll: seq<Element<K, V>>)
    ensures Entries([ee] + ll) == [ee.entry] + Entries(ll)
  {
    EntriesAt([ee] + ll);
    EntriesAt(ll);
  }

  ghost function Entries<K, V>(ll: seq<Element<K, V>>): (s: seq<Entry<K, V>>)
    reads ll
  {
    if ll == [] then [] else Entries(ll[..|ll| - 1]) + [ll[|ll| - 1].entry]
  }

  lemma {:induction false} EntriesAt<K, V>(ll: seq<Element<K, V>>)
    ensures |Entries(ll)| == |ll| && forall i :: 0 <= i < |ll| ==> Entries(ll)[i] == ll[i].entry
  {
    if ll != [] {
      EntriesAt(ll[..|ll| - 1]);
    }
  }

  lemma {:induction false} Replaced<K, V>(t: seq<Entry<K, V>>, e: Entry<K, V>)
    requires t != []
    ensures Sum([e] + t[1..]) == Sum(t) - t[0].size + e.size
  {
    assert t == [t[0]] + t[1..];
    SumConcat([t[0]], t[1..]);
    SumConcat([e], t[1..]);
    SumOne(t[0]);
    SumOne(e);
  }
}
