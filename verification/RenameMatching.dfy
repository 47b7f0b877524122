/** Pairing deletions with additions: renames of the same content first, then renames of
    similar content.  A change is a value, so a list of changes without repetitions stands
    for a list of pointers without repetitions. */
module RenameMatching {
  import opened Graph
  import opened ObjectGraph
  import NameSimilarity
  import opened Sequences
  import opened Wrappers

  datatype Side = Nothing | Something(name: string, mode: Mode, hash: Hash)

  datatype Change = Change(from: Side, to: Side)

  /** Insertions and deletions have one side, modifications both. */
  predicate IsInsert(c: Change) { c.from.Nothing? && c.to.Something? }

  predicate IsDelete(c: Change) { c.from.Something? && c.to.Nothing? }

  predicate Malformed(c: Change) { c.from.Nothing? && c.to.Nothing? }

  /** The side that names a change here: the new one if there is one. */
  function Key(c: Change): Side { if c.to.Something? then c.to else c.from }

  function HashOf(c: Change): Hash { if Key(c).Something? then Key(c).hash else 0 }

  function NameOf(c: Change): string { if Key(c).Something? then Key(c).name else "" }

  function ModeOf(c: Change): Mode { if Key(c).Something? then Key(c).mode else 0 }

  predicate SameMode(a: Change, b: Change) { ModeOf(a) == ModeOf(b) }

  /** The path of a file, not of a directory. */
  predicate Named(c: Change) {
    !Malformed(c) && NameSimilarity.File(Key(c).name) != []
  }

  ghost predicate AllNamed(s: seq<Change>) {
    forall i :: 0 <= i < |s| ==> Named(s[i])
  }

  ghost predicate NoRepeats(s: seq<Change>) {
    forall c :: multiset(s)[c] <= 1
  }

  // --- Matching -------------------------------------------------------------------------------

  /** A pair of indices with its score. */
  datatype Pair = Pair(added: nat, deleted: nat, score: nat)

  predicate Worse(p: Pair, q: Pair) {
    if p.score != q.score then p.score < q.score
    else if p.added != q.added then p.added < q.added
    else p.deleted < q.deleted
  }

  ghost predicate WorstFirst(m: seq<Pair>) {
    forall i, j :: 0 <= i < j < |m| ==> !Worse(m[j], m[i])
  }

  /** `sort.Stable` of a matrix. */
  method SortMatrix(m: seq<Pair>) returns (r: seq<Pair>)
    ensures WorstFirst(r) && multiset(r) == multiset(m)
  {
    r := [];
    for n := 0 to |m|
      invariant WorstFirst(r) && multiset(r) == multiset(m[..n])
    {
      var k := |r|;
      while k > 0 && Worse(m[n], r[k - 1])
        invariant 0 <= k <= |r| && forall i :: k <= i < |r| ==> Worse(m[n], r[i])
      {
        k := k - 1;
      }
      assert r == r[..k] + r[k..];
      assert m[..n + 1] == m[..n] + [m[n]];
      InsertedPair(r, k, m[n]);
      r := r[..k] + [m[n]] + r[k..];
    }
    assert m[..|m|] == m;
  }

  lemma InsertedPair(r: seq<Pair>, k: nat, p: Pair)
    requires WorstFirst(r) && k <= |r| && (k > 0 ==> !Worse(p, r[k - 1]))
    requires forall i :: k <= i < |r| ==> Worse(p, r[i])
    ensures WorstFirst(r[..k] + [p] + r[k..])
  {
    var s := r[..k] + [p] + r[k..];
    assert forall i :: 0 <= i < |s| ==> s[i] == if i < k then r[i] else if i == k then p else r[i - 1];
  }

  /** Changes that may have been crossed out. */
  type Slots = seq<Option<Change>>

  function Live(s: Slots): seq<Change> {
    if s == [] then []
    else if s[|s| - 1].Some? then Live(s[..|s| - 1]) + [s[|s| - 1].value]
    else Live(s[..|s| - 1])
  }

  function AllLive(s: seq<Change>): (r: Slots)
    ensures |r| == |s| && forall i :: 0 <= i < |s| ==> r[i] == Some(s[i])
  {
    seq(|s|, i requires 0 <= i < |s| => Some(s[i]))
  }

  lemma {:induction false} LiveAll(s: seq<Change>)
    ensures Live(AllLive(s)) == s
  {
    if s != [] {
      var n := |s| - 1;
      assert AllLive(s)[..n] == AllLive(s[..n]);
      LiveAll(s[..n]);
      assert s == s[..n] + [s[n]];
    }
  }

  lemma {:induction false} CrossOut(s: Slots, i: nat)
    requires i < |s| && s[i].Some?
    ensures multiset(Live(s)) == multiset(Live(s[i := None])) + multiset{s[i].value}
  {
    var n := |s| - 1;
    if i == n {
      assert s[i := None][..n] == s[..n];
    } else {
      CrossOut(s[..n], i);
      assert s[i := None][..n] == s[..n][i := None];
    }
  }

  /** `compactChanges`. */
  method CompactChanges(s: Slots) returns (r: seq<Change>)
    ensures r == Live(s)
  {
    r := [];
    for i := 0 to |s|
      invariant r == Live(s[..i])
    {
      assert s[..i + 1][..i] == s[..i];
      if s[i].Some? {
        r := r + [s[i].value];
      }
    }
    assert s[..|s|] == s;
  }

  ghost predicate InRange(m: seq<Pair>, srcs: seq<Change>, dsts: seq<Change>) {
    forall i :: 0 <= i < |m| ==> m[i].deleted < |srcs| && m[i].added < |dsts|
  }

  predicate Clash(p: Pair, q: Pair) {
    p.added == q.added || p.deleted == q.deleted
  }

  /** A stable matching, as positions in the matrix: no two pairs share a side, and a pair
      left out shares a side with a chosen one that is not worse. */
  ghost predicate StableMatching(m: seq<Pair>, chosen: seq<nat>) {
    && (forall i :: 0 <= i < |chosen| ==> chosen[i] < |m|)
    && (forall i, j :: 0 <= i < j < |chosen| ==> chosen[i] > chosen[j] && !Clash(m[chosen[i]], m[chosen[j]]))
    && (forall k :: 0 <= k < |m| ==> Outdone(m, chosen, k))
  }

  /** The pair is chosen itself, or clashes with one that is not worse. */
  ghost predicate Outdone(m: seq<Pair>, chosen: seq<nat>, k: nat)
    requires k < |m|
  {
    exists i :: 0 <= i < |chosen| && k <= chosen[i] < |m| && Clash(m[k], m[chosen[i]]) && !Worse(m[chosen[i]], m[k])
  }

  /** A pair that is left out shares a file with a chosen one whose score is not lower; of equal
      scores the later addition is chosen, and of these the later deletion. */
  lemma ChosenScores(m: seq<Pair>, chosen: seq<nat>, k: nat) returns (i: nat)
    requires StableMatching(m, chosen) && k < |m|
    ensures i < |chosen| && chosen[i] < |m|
    ensures var (p, q) := (m[k], m[chosen[i]]);
            && (p.added == q.added || p.deleted == q.deleted) && p.score <= q.score
            && (p.score == q.score ==> p.added <= q.added && (p.added == q.added ==> p.deleted <= q.deleted))
  {
    assert Outdone(m, chosen, k);
    i :| 0 <= i < |chosen| && k <= chosen[i] < |m| && Clash(m[k], m[chosen[i]]) && !Worse(m[chosen[i]], m[k]);
  }

  function Deletions(pairs: seq<(Change, Change)>): seq<Change> {
    seq(|pairs|, i requires 0 <= i < |pairs| => pairs[i].0)
  }

  function Additions(pairs: seq<(Change, Change)>): seq<Change> {
    seq(|pairs|, i requires 0 <= i < |pairs| => pairs[i].1)
  }

  function Renames(pairs: seq<(Change, Change)>): seq<Change> {
    seq(|pairs|, i requires 0 <= i < |pairs| => Change(pairs[i].0.from, pairs[i].1.to))
  }

  lemma OnePair(d: Change, a: Change)
    ensures Deletions([(d, a)]) == [d] && Additions([(d, a)]) == [a] && Renames([(d, a)]) == [Change(d.from, a.to)]
  {
  }

  lemma NoPairs()
    ensures Deletions([]) == [] && Additions([]) == [] && Renames([]) == []
  {
  }

  lemma PairsConcat(p: seq<(Change, Change)>, q: seq<(Change, Change)>)
    ensures Deletions(p + q) == Deletions(p) + Deletions(q)
    ensures Additions(p + q) == Additions(p) + Additions(q)
    ensures Renames(p + q) == Renames(p) + Renames(q)
  {
  }

  function At(all: seq<Change>, used: seq<nat>): (r: seq<Change>)
    requires forall i :: 0 <= i < |used| ==> used[i] < |all|
    ensures |r| == |used|
  {
    seq(|used|, i requires 0 <= i < |used| => all[used[i]])
  }

  /** Exactly the positions in `used` are crossed out, each of them once. */
  ghost predicate CrossedOut(all: seq<Change>, used: seq<nat>, s: Slots) {
    && |s| == |all|
    && (forall i :: 0 <= i < |used| ==> used[i] < |all|)
    && (forall a :: 0 <= a < |all| ==> if a in used then s[a].None? else s[a] == Some(all[a]))
    && multiset(all) == multiset(Live(s)) + multiset(At(all, used))
  }

  lemma CrossedOutStart(all: seq<Change>)
    ensures CrossedOut(all, [], AllLive(all))
  {
    LiveAll(all);
  }

  lemma CrossedOutOne(all: seq<Change>, used: seq<nat>, s: Slots, a: nat)
    requires CrossedOut(all, used, s) && a < |all| && a !in used
    ensures CrossedOut(all, used + [a], s[a := None])
    ensures At(all, used + [a]) == At(all, used) + [all[a]]
  {
    hide Live;
    CrossOut(s, a);
    assert At(all, used + [a]) == At(all, used) + [all[a]];
  }

  function Rows(m: seq<Pair>, chosen: seq<nat>): (r: seq<nat>)
    requires forall i :: 0 <= i < |chosen| ==> chosen[i] < |m|
  {
    seq(|chosen|, i requires 0 <= i < |chosen| => m[chosen[i]].deleted)
  }

  function Columns(m: seq<Pair>, chosen: seq<nat>): (r: seq<nat>)
    requires forall i :: 0 <= i < |chosen| ==> chosen[i] < |m|
  {
    seq(|chosen|, i requires 0 <= i < |chosen| => m[chosen[i]].added)
  }

  /** What holds while the pairs below `i` are still to come. */
  ghost predicate Matching(m: seq<Pair>, chosen: seq<nat>, i: nat) {
    && i <= |m|
    && (forall a :: 0 <= a < |chosen| ==> i <= chosen[a] < |m|)
    && (forall a, b :: 0 <= a < b < |chosen| ==> chosen[a] > chosen[b] && !Clash(m[chosen[a]], m[chosen[b]]))
    && (forall k :: i <= k < |m| ==> Outdone(m, chosen, k))
  }

  lemma LeaveOut(m: seq<Pair>, chosen: seq<nat>, i: nat)
    requires WorstFirst(m) && i < |m| && Matching(m, chosen, i + 1)
    requires m[i].deleted in Rows(m, chosen) || m[i].added in Columns(m, chosen)
    ensures Matching(m, chosen, i)
  {
    var a: nat;
    if m[i].deleted in Rows(m, chosen) {
      a :| 0 <= a < |chosen| && Rows(m, chosen)[a] == m[i].deleted;
    } else {
      a :| 0 <= a < |chosen| && Columns(m, chosen)[a] == m[i].added;
    }
    assert Clash(m[i], m[chosen[a]]);
    assert Outdone(m, chosen, i);
  }

  lemma Choose(m: seq<Pair>, chosen: seq<nat>, i: nat)
    requires i < |m| && Matching(m, chosen, i + 1)
    requires m[i].deleted !in Rows(m, chosen) && m[i].added !in Columns(m, chosen)
    ensures Matching(m, chosen + [i], i)
    ensures Rows(m, chosen + [i]) == Rows(m, chosen) + [m[i].deleted]
    ensures Columns(m, chosen + [i]) == Columns(m, chosen) + [m[i].added]
  {
    var c := chosen + [i];
    forall a | 0 <= a < |chosen| ensures !Clash(m[chosen[a]], m[i]) {
      assert Rows(m, chosen)[a] == m[chosen[a]].deleted && Columns(m, chosen)[a] == m[chosen[a]].added;
    }
    forall k | i <= k < |m| ensures Outdone(m, c, k) {
      if k == i {
        assert c[|chosen|] == i && Clash(m[i], m[i]);
      } else {
        assert Outdone(m, chosen, k);
        var a :| 0 <= a < |chosen| && k <= chosen[a] < |m| && Clash(m[k], m[chosen[a]]) && !Worse(m[chosen[a]], m[k]);
        assert c[a] == chosen[a];
      }
    }
  }

  function Zip(ss: seq<Change>, ds: seq<Change>): (r: seq<(Change, Change)>)
    requires |ss| == |ds|
    ensures Deletions(r) == ss && Additions(r) == ds
  {
    seq(|ss|, i requires 0 <= i < |ss| => (ss[i], ds[i]))
  }

  ghost predicate Conserved(all: seq<Change>, left: seq<Change>, used: seq<Change>) {
    multiset(all) == multiset(left) + multiset(used)
  }

  /** Best pairs first, each side at most once. */
  method MatchGreedily(m: seq<Pair>, srcs: seq<Change>, dsts: seq<Change>)
    returns (ss: Slots, ds: Slots, renames: seq<Change>, ghost chosen: seq<nat>)
    requires WorstFirst(m) && InRange(m, srcs, dsts)
    ensures StableMatching(m, chosen)
    ensures CrossedOut(srcs, Rows(m, chosen), ss) && CrossedOut(dsts, Columns(m, chosen), ds)
    ensures renames == Renames(Zip(At(srcs, Rows(m, chosen)), At(dsts, Columns(m, chosen))))
  {
    hide Live, Outdone;
    ss, ds, renames, chosen := AllLive(srcs), AllLive(dsts), [], [];
    CrossedOutStart(srcs);
    CrossedOutStart(dsts);
    var i: nat := |m|;
    while i > 0
      invariant Matching(m, chosen, i)
      invariant CrossedOut(srcs, Rows(m, chosen), ss) && CrossedOut(dsts, Columns(m, chosen), ds)
      invariant renames == Renames(Zip(At(srcs, Rows(m, chosen)), At(dsts, Columns(m, chosen))))
    {
      i := i - 1;
      var src, dst := ss[m[i].deleted], ds[m[i].added];
      if dst.None? || src.None? {
        LeaveOut(m, chosen, i);
        continue;
      }
      CrossedOutOne(srcs, Rows(m, chosen), ss, m[i].deleted);
      CrossedOutOne(dsts, Columns(m, chosen), ds, m[i].added);
      Choose(m, chosen, i);
      renames := renames + [Change(src.value.from, dst.value.to)];
      ss, ds := ss[m[i].deleted := None], ds[m[i].added := None];
      chosen := chosen + [i];
    }
  }

  /** A chosen pair or a clash for every pair of the matrix: nothing in it is left over on both
      sides. */
  lemma NoneLeft(m: seq<Pair>, chosen: seq<nat>, p: Pair)
    requires StableMatching(m, chosen) && p in m
    ensures p.deleted in Rows(m, chosen) || p.added in Columns(m, chosen)
  {
    var k :| 0 <= k < |m| && m[k] == p;
    assert Outdone(m, chosen, k);
    var i :| 0 <= i < |chosen| && k <= chosen[i] < |m| && Clash(m[k], m[chosen[i]]) && !Worse(m[chosen[i]], m[k]);
    assert Rows(m, chosen)[i] == m[chosen[i]].deleted && Columns(m, chosen)[i] == m[chosen[i]].added;
  }

  lemma {:induction false} LiveFrom(s: Slots, c: Change) returns (i: nat)
    requires c in Live(s)
    ensures i < |s| && s[i] == Some(c)
  {
    var n := |s| - 1;
    if s[n] == Some(c) {
      i := n;
    } else {
      i := LiveFrom(s[..n], c);
    }
  }

  // --- Groups by hash -------------------------------------------------------------------------

  type Groups = map<Hash, seq<Change>>

  function Group(s: seq<Change>, h: Hash): seq<Change> {
    if s == [] then []
    else if HashOf(s[|s| - 1]) == h then Group(s[..|s| - 1], h) + [s[|s| - 1]]
    else Group(s[..|s| - 1], h)
  }

  function Get(m: Groups, h: Hash): seq<Change> { if h in m then m[h] else [] }

  ghost predicate Grouped(m: Groups) {
    forall h, i :: h in m && 0 <= i < |m[h]| ==> HashOf(m[h][i]) == h
  }

  ghost function CountIn(m: Groups, c: Change): nat { multiset(Get(m, HashOf(c)))[c] }

  /** The groups and what was taken out of them are all there was. */
  ghost predicate Balanced(all: seq<Change>, m: Groups, used: seq<Change>) {
    Grouped(m) && forall c :: CountIn(m, c) + multiset(used)[c] == multiset(all)[c]
  }

  lemma {:induction false} GroupCounts(s: seq<Change>, h: Hash)
    ensures forall c :: multiset(Group(s, h))[c] == if HashOf(c) == h then multiset(s)[c] else 0
    ensures forall i :: 0 <= i < |Group(s, h)| ==> HashOf(Group(s, h)[i]) == h && Group(s, h)[i] in s
  {
    if s != [] {
      var n := |s| - 1;
      GroupCounts(s[..n], h);
      assert s == s[..n] + [s[n]];
    }
  }

  /** `groupChangesByHash`. */
  method GroupChangesByHash(s: seq<Change>) returns (m: Groups)
    ensures forall h :: Get(m, h) == Group(s, h)
    ensures forall h :: h in m ==> m[h] != []
    ensures Balanced(s, m, [])
  {
    m := map[];
    for i := 0 to |s|
      invariant forall h :: Get(m, h) == Group(s[..i], h)
      invariant forall h :: h in m ==> m[h] != []
    {
      assert s[..i + 1][..i] == s[..i];
      var h := HashOf(s[i]);
      m := m[h := Get(m, h) + [s[i]]];
    }
    assert s[..|s|] == s;
    forall c ensures CountIn(m, c) == multiset(s)[c] {
      GroupCounts(s, HashOf(c));
    }
    forall h, i | h in m && 0 <= i < |m[h]| ensures HashOf(m[h][i]) == h {
      GroupCounts(s, h);
      assert m[h] == Get(m, h);
    }
  }

  /** Taking some changes out of one group. */
  lemma Rebalance(all: seq<Change>, m: Groups, used: seq<Change>, h: Hash, after: seq<Change>, more: seq<Change>)
    requires Balanced(all, m, used) && Conserved(Get(m, h), after, more)
    ensures Balanced(all, m[h := after], used + more)
  {
    hide HashOf;
    forall i | 0 <= i < |after| ensures HashOf(after[i]) == h {
      assert after[i] in multiset(after);
      assert after[i] in multiset(Get(m, h));
    }
    forall c ensures CountIn(m[h := after], c) + multiset(used + more)[c] == multiset(all)[c] {
      assert CountIn(m, c) + multiset(used)[c] == multiset(all)[c];
      if HashOf(c) != h {
        assert forall x :: x in Get(m, h) ==> HashOf(x) == h;
        assert c !in multiset(Get(m, h));
      }
    }
  }

  /** All the groups in one list, in whatever order the map is walked. */
  method Ungroup(m: Groups) returns (r: seq<Change>)
    requires Grouped(m)
    ensures forall c :: multiset(r)[c] == CountIn(m, c)
  {
    r := [];
    var todo := m.Keys;
    while todo != {}
      invariant todo <= m.Keys
      invariant forall c :: multiset(r)[c] == if HashOf(c) in todo then 0 else CountIn(m, c)
      decreases todo
    {
      var h :| h in todo;
      forall c | HashOf(c) != h ensures multiset(m[h])[c] == 0 {
        assert c !in m[h];
      }
      r := r + m[h];
      todo := todo - {h};
    }
  }

  /** The hashes of the changes are all different. */
  ghost predicate HashesApart(s: seq<Change>) {
    forall i, j :: 0 <= i < j < |s| ==> HashOf(s[i]) != HashOf(s[j])
  }

  /** How often a change is in the groups outside `todo` that have one member, or that have
      several. */
  ghost function CountOf(m: Groups, todo: set<Hash>, one: bool, c: Change): nat {
    if HashOf(c) in todo || (|Get(m, HashOf(c))| == 1) != one then 0 else CountIn(m, c)
  }

  ghost predicate Holds(m: Groups, todo: set<Hash>, one: bool, s: seq<Change>) {
    forall c :: multiset(s)[c] == CountOf(m, todo, one, c)
  }

  lemma TakeGroup(m: Groups, todo: set<Hash>, one: bool, s: seq<Change>, h: Hash)
    requires Grouped(m) && h in todo && todo <= m.Keys && Holds(m, todo, one, s)
    ensures Holds(m, todo - {h}, one, if (|m[h]| == 1) == one then s + m[h] else s)
  {
    hide HashOf;
    var s' := if (|m[h]| == 1) == one then s + m[h] else s;
    forall c ensures multiset(s')[c] == CountOf(m, todo - {h}, one, c) {
      assert multiset(s)[c] == CountOf(m, todo, one, c);
      if HashOf(c) != h {
        assert c !in m[h];
      }
    }
  }

  ghost predicate SeveralOfOneHash(g: seq<Change>) {
    |g| > 1 && forall i :: 0 <= i < |g| ==> HashOf(g[i]) == HashOf(g[0])
  }

  /** Groups of one and groups of several, in whatever order the map is walked. */
  method SplitGroups(m: Groups) returns (unique: seq<Change>, nonUnique: seq<seq<Change>>)
    requires Grouped(m) && forall h :: h in m ==> m[h] != []
    ensures Holds(m, {}, true, unique) && Holds(m, {}, false, Flat(nonUnique))
    ensures HashesApart(unique)
    ensures forall i :: 0 <= i < |nonUnique| ==> SeveralOfOneHash(nonUnique[i])
  {
    hide HashOf, Holds;
    unique, nonUnique := [], [];
    var todo := m.Keys;
    HoldsNone(m);
    while todo != {}
      invariant todo <= m.Keys && Holds(m, todo, true, unique) && Holds(m, todo, false, Flat(nonUnique))
      invariant HashesApart(unique) && forall i :: 0 <= i < |unique| ==> HashOf(unique[i]) !in todo
      invariant forall i :: 0 <= i < |nonUnique| ==> SeveralOfOneHash(nonUnique[i])
      decreases todo
    {
      var h :| h in todo;
      TakeGroup(m, todo, true, unique, h);
      TakeGroup(m, todo, false, Flat(nonUnique), h);
      if |m[h]| == 1 {
        assert m[h] == [m[h][0]];
        unique := unique + [m[h][0]];
      } else {
        FlatPush(nonUnique, m[h]);
        nonUnique := nonUnique + [m[h]];
      }
      todo := todo - {h};
    }
  }

  lemma HoldsNone(m: Groups)
    ensures forall one :: Holds(m, m.Keys, one, [])
  {
  }

  // --- The best name --------------------------------------------------------------------------

  function NameScore(c: Change, d: Change): nat { NameSimilarity.Score(NameOf(c), NameOf(d)) }

  function Best(c: Change, s: seq<Change>): Option<Change> {
    if s == [] then None
    else if NameScore(c, s[|s| - 1]) > BestScore(c, s[..|s| - 1]) then Some(s[|s| - 1])
    else Best(c, s[..|s| - 1])
  }

  function BestScore(c: Change, s: seq<Change>): nat {
    if s == [] then 0
    else if NameScore(c, s[|s| - 1]) > BestScore(c, s[..|s| - 1]) then NameScore(c, s[|s| - 1])
    else BestScore(c, s[..|s| - 1])
  }

  /** The best match has the highest score, and is the first that has it; there is none when no name
      has anything in common. */
  lemma {:induction false} BestIsHighest(c: Change, s: seq<Change>)
    ensures Best(c, s).Some? ==> Best(c, s).value in s && NameScore(c, Best(c, s).value) == BestScore(c, s) > 0
    ensures forall i :: 0 <= i < |s| ==> NameScore(c, s[i]) <= BestScore(c, s)
    ensures Best(c, s).None? <==> BestScore(c, s) == 0
    ensures Best(c, s).Some? ==>
              exists k :: 0 <= k < |s| && s[k] == Best(c, s).value && Leads(c, s, k)
  {
    hide NameScore;
    if s != [] {
      var n := |s| - 1;
      BestIsHighest(c, s[..n]);
      if NameScore(c, s[n]) > BestScore(c, s[..n]) {
        assert Leads(c, s, n);
      } else if Best(c, s).Some? {
        var k :| 0 <= k < n && s[..n][k] == Best(c, s).value && Leads(c, s[..n], k);
        assert s[k] == s[..n][k] && Leads(c, s, k);
      }
    }
  }

  /** The names before this one are less similar. */
  ghost predicate Leads(c: Change, s: seq<Change>, k: nat)
    requires k < |s|
  {
    forall i :: 0 <= i < k ==> NameScore(c, s[i]) < NameScore(c, s[k])
  }

  /** `bestNameMatch`. */
  method BestNameMatch(c: Change, s: seq<Change>) returns (r: Option<Change>)
    requires Named(c) && AllNamed(s)
    ensures r == Best(c, s)
  {
    hide HashOf;
    r := None;
    var bestScore := 0;
    for i := 0 to |s|
      invariant r == Best(c, s[..i]) && bestScore == BestScore(c, s[..i])
    {
      assert s[..i + 1][..i] == s[..i];
      var score := NameSimilarity.NameSimilarityScore(NameOf(c), NameOf(s[i]));
      if score > bestScore {
        bestScore := score;
        r := Some(s[i]);
      }
    }
    assert s[..|s|] == s;
  }

  function Without(s: seq<Change>, x: Change): seq<Change> {
    if s == [] then []
    else if s[|s| - 1] == x then Without(s[..|s| - 1], x)
    else Without(s[..|s| - 1], x) + [s[|s| - 1]]
  }

  lemma {:induction false} WithoutCounts(s: seq<Change>, x: Change)
    ensures forall c :: multiset(Without(s, x))[c] == if c == x then 0 else multiset(s)[c]
  {
    if s != [] {
      WithoutCounts(s[..|s| - 1], x);
      assert s == s[..|s| - 1] + [s[|s| - 1]];
    }
  }

  method RemoveMatch(s: seq<Change>, x: Change) returns (r: seq<Change>)
    requires NoRepeats(s) && x in s
    ensures Conserved(s, r, [x])
  {
    r := [];
    for i := 0 to |s|
      invariant r == Without(s[..i], x)
    {
      assert s[..i + 1][..i] == s[..i];
      if s[i] != x {
        r := r + [s[i]];
      }
    }
    assert s[..|s|] == s;
    WithoutCounts(s, x);
    assert x in multiset(s) && multiset(s)[x] <= 1;
  }

  // --- Renames of the same content ------------------------------------------------------------

  /** Additions and deletions with the same hash. */
  ghost predicate SameHash(pairs: seq<(Change, Change)>) {
    forall i :: 0 <= i < |pairs| ==> HashOf(pairs[i].0) == HashOf(pairs[i].1)
  }

  /** Whether a single addition facing these deletions is dropped: several of them, and the one
      with the best name has another mode, or no name is alike. */
  predicate DroppedBy(c: Change, deleted: seq<Change>) {
    |deleted| > 1 && (Best(c, deleted).None? || !SameMode(c, Best(c, deleted).value))
  }

  /** The only addition with its hash. */
  method MatchUnique(c: Change, deleted: seq<Change>)
    returns (left: seq<Change>, deleted': seq<Change>, renames: seq<Change>, ghost pairs: seq<(Change, Change)>)
    requires Named(c) && AllNamed(deleted) && NoRepeats(deleted)
    requires forall i :: 0 <= i < |deleted| ==> HashOf(deleted[i]) == HashOf(c)
    ensures renames == Renames(pairs) && SameHash(pairs)
    ensures Conserved(deleted, deleted', Deletions(pairs))
    ensures Conserved([c], left, if DroppedBy(c, deleted) then [c] else Additions(pairs))
    ensures DroppedBy(c, deleted) ==> pairs == []
  {
    hide NameScore, HashOf, Best, Deletions, Additions, Renames;
    NoPairs();
    left, deleted', renames, pairs := [], deleted, [], [];
    if |deleted| == 1 {
      if SameMode(c, deleted[0]) {
        renames, deleted', pairs := [Change(deleted[0].from, c.to)], [], [(deleted[0], c)];
        OnePair(deleted[0], c);
        assert deleted == [deleted[0]];
      } else {
        left := [c];
      }
    } else if |deleted| > 1 {
      var best := BestNameMatch(c, deleted);
      BestIsHighest(c, deleted);
      if best.Some? && SameMode(c, best.value) {
        renames, pairs := [Change(best.value.from, c.to)], [(best.value, c)];
        deleted' := RemoveMatch(deleted, best.value);
        OnePair(best.value, c);
      }
    } else {
      left := [c];
    }
  }

  function NameRow(d: nat, deleted: Change, added: seq<Change>): seq<Pair> {
    seq(|added|, a requires 0 <= a < |added| => Pair(a, d, NameScore(added[a], deleted)))
  }

  /** All pairs of the first `n` deletions, row by row. */
  function NameMatrix(deleted: seq<Change>, added: seq<Change>, n: nat): seq<Pair>
    requires n <= |deleted|
  {
    if n == 0 then [] else NameMatrix(deleted, added, n - 1) + NameRow(n - 1, deleted[n - 1], added)
  }

  lemma {:induction false} NameMatrixHas(deleted: seq<Change>, added: seq<Change>, n: nat)
    requires n <= |deleted|
    ensures InRange(NameMatrix(deleted, added, n), deleted, added)
    ensures forall d, a :: 0 <= d < n && 0 <= a < |added| ==> Pair(a, d, NameScore(added[a], deleted[d])) in NameMatrix(deleted, added, n)
  {
    hide NameScore;
    if n > 0 {
      NameMatrixHas(deleted, added, n - 1);
      var row := NameRow(n - 1, deleted[n - 1], added);
      forall a | 0 <= a < |added| ensures Pair(a, n - 1, NameScore(added[a], deleted[n - 1])) in row {
        assert row[a] == Pair(a, n - 1, NameScore(added[a], deleted[n - 1]));
      }
    }
  }

  lemma RowSize(d: nat, deleted: Change, added: seq<Change>)
    ensures |NameRow(d, deleted, added)| == |added|
  {
  }

  lemma {:induction false} NameMatrixSize(deleted: seq<Change>, added: seq<Change>, n: nat)
    requires n <= |deleted|
    ensures |NameMatrix(deleted, added, n)| == n * |added|
  {
    if n > 0 {
      RowSize(n - 1, deleted[n - 1], added);
      hide NameRow;
      NameMatrixSize(deleted, added, n - 1);
      assert (n - 1) * |added| + |added| == n * |added|;
    }
  }

  lemma {:induction false} NameMatrixGrows(deleted: seq<Change>, added: seq<Change>, n: nat, k: nat)
    requires n <= k <= |deleted|
    ensures NameMatrix(deleted, added, n) <= NameMatrix(deleted, added, k)
  {
    hide NameRow;
    if n < k {
      NameMatrixGrows(deleted, added, n, k - 1);
    }
  }

  /** One row of the matrix, or as much of it as the limit allows. */
  method AddNameRow(m: seq<Pair>, d: nat, deleted: Change, added: seq<Change>, maxSize: nat) returns (r: seq<Pair>)
    requires Named(deleted) && AllNamed(added) && |m| < maxSize
    ensures r <= m + NameRow(d, deleted, added) && |r| <= maxSize
    ensures |r| < maxSize ==> r == m + NameRow(d, deleted, added)
  {
    hide NameScore;
    r := m;
    ghost var row := NameRow(d, deleted, added);
    for a := 0 to |added|
      invariant r == m + row[..a] && |r| < maxSize
    {
      NameScoreIs(added[a], deleted);
      var score := NameSimilarity.NameSimilarityScore(NameOf(added[a]), NameOf(deleted));
      assert row[..a + 1] == row[..a] + [row[a]];
      r := r + [Pair(a, d, score)];
      if |r| >= maxSize {
        assert r == (m + row)[..|m| + a + 1];
        return;
      }
    }
    assert row[..|added|] == row;
  }

  lemma NameScoreIs(c: Change, d: Change)
    ensures NameScore(c, d) == NameSimilarity.Score(NameOf(c), NameOf(d))
  {
  }

  /** As many pairs as the limit allows. */
  method BuildNameMatrix(deleted: seq<Change>, added: seq<Change>, maxSize: nat) returns (m: seq<Pair>)
    requires AllNamed(deleted) && AllNamed(added) && maxSize > 0
    ensures m <= NameMatrix(deleted, added, |deleted|) && |m| <= maxSize
    ensures |m| < maxSize ==> m == NameMatrix(deleted, added, |deleted|)
  {
    hide NameRow;
    m := [];
    for d := 0 to |deleted|
      invariant m == NameMatrix(deleted, added, d) && |m| < maxSize
    {
      NameMatrixGrows(deleted, added, d + 1, |deleted|);
      m := AddNameRow(m, d, deleted[d], added, maxSize);
      if |m| >= maxSize {
        return;
      }
    }
  }

  lemma InRangeKept(m: seq<Pair>, n: seq<Pair>, srcs: seq<Change>, dsts: seq<Change>)
    requires InRange(m, srcs, dsts) && forall p :: p in n ==> p in m
    ensures InRange(n, srcs, dsts)
  {
    assert forall i :: 0 <= i < |n| ==> n[i] in n;
  }

  /** Several deletions and several additions of one hash, by their names. */
  method MatchByName(added: seq<Change>, deleted: seq<Change>, limit: int)
    returns (left: seq<Change>, deleted': seq<Change>, renames: seq<Change>, ghost pairs: seq<(Change, Change)>)
    requires AllNamed(added) && AllNamed(deleted) && NoRepeats(added) && NoRepeats(deleted)
    requires |added| > 1 && |deleted| > 1
    ensures renames == Renames(pairs)
    ensures Conserved(deleted, deleted', Deletions(pairs)) && Conserved(added, left, Additions(pairs))
    ensures limit <= 0 ==> left == [] || deleted' == []
  {
    hide Live, NameMatrix, NameRow, Outdone;
    var maxSize := |deleted| * |added|;
    if limit > 0 && limit < maxSize {
      maxSize := limit;
    }
    var matrix := BuildNameMatrix(deleted, added, maxSize);
    NameMatrixHas(deleted, added, |deleted|);
    ghost var whole := NameMatrix(deleted, added, |deleted|);
    ghost var built := matrix;
    matrix := SortMatrix(matrix);
    assert forall p :: p in matrix <==> p in built by {
      assert forall p :: p in matrix <==> p in multiset(matrix);
    }
    assert forall p :: p in built ==> p in whole;
    InRangeKept(whole, matrix, deleted, added);
    var ss, ds, rs, chosen := MatchGreedily(matrix, deleted, added);
    ghost var usedDeletes, usedAdds := At(deleted, Rows(matrix, chosen)), At(added, Columns(matrix, chosen));
    left := CompactChanges(ds);
    deleted' := CompactChanges(ss);
    renames, pairs := rs, Zip(usedDeletes, usedAdds);
    if limit <= 0 && left != [] && deleted' != [] {
      NameMatrixSize(deleted, added, |deleted|);
      ghost var d := LiveFrom(ss, deleted'[0]);
      ghost var a := LiveFrom(ds, left[0]);
      NoneLeft(matrix, chosen, Pair(a, d, NameScore(added[a], deleted[d])));
    }
  }

  /** Several additions of one hash. */
  method MatchSeveral(added: seq<Change>, deleted: seq<Change>, limit: int)
    returns (left: seq<Change>, deleted': seq<Change>, renames: seq<Change>, ghost pairs: seq<(Change, Change)>)
    requires AllNamed(added) && AllNamed(deleted) && NoRepeats(added) && NoRepeats(deleted) && |added| > 1
    ensures renames == Renames(pairs)
    ensures Conserved(deleted, deleted', Deletions(pairs)) && Conserved(added, left, Additions(pairs))
    ensures limit <= 0 && |deleted| > 1 ==> left == [] || deleted' == []
  {
    hide NameScore, HashOf, Best, Deletions, Additions, Renames;
    NoPairs();
    left, deleted', renames, pairs := added, deleted, [], [];
    if |deleted| == 1 {
      var best := BestNameMatch(deleted[0], added);
      BestIsHighest(deleted[0], added);
      if best.Some? && SameMode(deleted[0], best.value) {
        renames, deleted', pairs := [Change(deleted[0].from, best.value.to)], [], [(deleted[0], best.value)];
        left := RemoveMatch(added, best.value);
        OnePair(deleted[0], best.value);
        assert deleted == [deleted[0]];
      }
    } else if |deleted| > 1 {
      left, deleted', renames, pairs := MatchByName(added, deleted, limit);
    }
  }

  /** The additions that come out nowhere: single ones that several deletions drop. */
  predicate IsDropped(c: Change, added: seq<Change>, deleted: seq<Change>) {
    |Group(added, HashOf(c))| == 1 && DroppedBy(c, Group(deleted, HashOf(c)))
  }

  function DroppedIn(s: seq<Change>, added: seq<Change>, deleted: seq<Change>): seq<Change> {
    if s == [] then []
    else if IsDropped(s[|s| - 1], added, deleted) then DroppedIn(s[..|s| - 1], added, deleted) + [s[|s| - 1]]
    else DroppedIn(s[..|s| - 1], added, deleted)
  }

  lemma {:induction false} DroppedCounts(s: seq<Change>, added: seq<Change>, deleted: seq<Change>)
    ensures forall c :: multiset(DroppedIn(s, added, deleted))[c] == if IsDropped(c, added, deleted) then multiset(s)[c] else 0
  {
    hide IsDropped;
    if s != [] {
      DroppedCounts(s[..|s| - 1], added, deleted);
      assert s == s[..|s| - 1] + [s[|s| - 1]];
    }
  }

  /** What a group of deletions looks like at any time. */
  lemma GroupOk(all: seq<Change>, m: Groups, used: seq<Change>, h: Hash)
    requires Balanced(all, m, used) && AllNamed(all) && NoRepeats(all)
    ensures AllNamed(Get(m, h)) && NoRepeats(Get(m, h))
    ensures forall i :: 0 <= i < |Get(m, h)| ==> HashOf(Get(m, h)[i]) == h
  {
    hide HashOf, Named;
    var g := Get(m, h);
    forall c ensures multiset(g)[c] <= multiset(all)[c] {
      assert CountIn(m, c) + multiset(used)[c] == multiset(all)[c];
      if HashOf(c) != h {
        assert c !in g;
      }
    }
    forall i | 0 <= i < |g| ensures Named(g[i]) {
      assert g[i] in multiset(g);
      assert g[i] in multiset(all);
    }
  }

  /** Groups not met so far are as they were. */
  ghost predicate Untouched(m: Groups, deleted: seq<Change>, touched: set<Hash>) {
    forall h :: h !in touched ==> Get(m, h) == Group(deleted, h)
  }

  /** The additions handled so far are left, renamed or dropped. */
  ghost predicate Settled(done: seq<Change>, left: seq<Change>, pairs: seq<(Change, Change)>, dropped: seq<Change>) {
    multiset(done) == multiset(left) + multiset(Additions(pairs)) + multiset(dropped)
  }

  /** One more single addition. */
  lemma {:induction false} SettleOne(unique: seq<Change>, i: nat, added: seq<Change>, deleted: seq<Change>,
                                     left: seq<Change>, more: seq<Change>, pairs: seq<(Change, Change)>,
                                     newly: seq<(Change, Change)>)
    requires i < |unique| && Settled(unique[..i], left, pairs, DroppedIn(unique[..i], added, deleted))
    requires var c := unique[i];
             Conserved([c], more, if IsDropped(c, added, deleted) then [c] else Additions(newly))
             && (IsDropped(c, added, deleted) ==> newly == [])
    ensures Settled(unique[..i + 1], left + more, pairs + newly, DroppedIn(unique[..i + 1], added, deleted))
  {
    hide IsDropped, Additions, Deletions, Renames;
    NoPairs();
    PairsConcat(pairs, newly);
    assert unique[..i + 1] == unique[..i] + [unique[i]];
    assert unique[..i + 1][..i] == unique[..i];
  }

  lemma {:induction false} SettleNone(added: seq<Change>, deleted: seq<Change>)
    ensures Settled([], [], [], DroppedIn([], added, deleted))
  {
  }

  method MatchUniques(unique: seq<Change>, m: Groups, ghost added: seq<Change>, ghost deleted: seq<Change>)
    returns (left: seq<Change>, m': Groups, renames: seq<Change>, ghost pairs: seq<(Change, Change)>)
    requires AllNamed(unique) && AllNamed(deleted) && NoRepeats(deleted) && HashesApart(unique)
    requires forall i :: 0 <= i < |unique| ==> |Group(added, HashOf(unique[i]))| == 1
    requires Balanced(deleted, m, []) && Untouched(m, deleted, {})
    ensures renames == Renames(pairs) && SameHash(pairs)
    ensures Balanced(deleted, m', Deletions(pairs))
    ensures Settled(unique, left, pairs, DroppedIn(unique, added, deleted))
  {
    hide HashOf, Named, NameScore, Group, Renames, Deletions, Additions, NoRepeats, Balanced, DroppedBy, DroppedIn, Settled;
    left, m', renames, pairs := [], m, [], [];
    NoPairs();
    assert unique[..0] == [];
    ghost var touched: set<Hash> := {};
    SettleNone(added, deleted);
    for i := 0 to |unique|
      invariant renames == Renames(pairs) && SameHash(pairs)
      invariant Balanced(deleted, m', Deletions(pairs)) && Untouched(m', deleted, touched)
      invariant forall k :: i <= k < |unique| ==> HashOf(unique[k]) !in touched
      invariant Settled(unique[..i], left, pairs, DroppedIn(unique[..i], added, deleted))
    {
      var c := unique[i];
      var h := HashOf(c);
      var group := Get(m', h);
      assert group == Group(deleted, h);
      GroupOk(deleted, m', Deletions(pairs), h);
      var more, group', rs, newly := MatchUnique(c, group);
      SettleOne(unique, i, added, deleted, left, more, pairs, newly);
      PairsConcat(pairs, newly);
      Rebalance(deleted, m', Deletions(pairs), h, group', Deletions(newly));
      left, renames, pairs := left + more, renames + rs, pairs + newly;
      m', touched := m'[h := group'], touched + {h};
    }
    assert unique[..|unique|] == unique;
  }

  lemma {:induction false} FlatHas(gs: seq<seq<Change>>, i: nat, j: nat)
    requires i < |gs| && j < |gs[i]|
    ensures gs[i][j] in Flat(gs)
  {
    if i < |gs| - 1 {
      FlatHas(gs[..|gs| - 1], i, j);
    }
  }

  lemma {:induction false} FlatRepeats(gs: seq<seq<Change>>, i: nat)
    requires i < |gs| && NoRepeats(Flat(gs))
    ensures NoRepeats(gs[i])
  {
    var n := |gs| - 1;
    forall c ensures multiset(gs[i])[c] <= 1 && multiset(Flat(gs[..n]))[c] <= 1 {
      assert multiset(Flat(gs))[c] == multiset(Flat(gs[..n]))[c] + multiset(gs[n])[c];
      if i < n {
        assert NoRepeats(Flat(gs[..n])) by {
          forall x ensures multiset(Flat(gs[..n]))[x] <= 1 {
            assert multiset(Flat(gs))[x] == multiset(Flat(gs[..n]))[x] + multiset(gs[n])[x];
          }
        }
        FlatRepeats(gs[..n], i);
      }
    }
  }

  method MatchSeverals(groups: seq<seq<Change>>, m: Groups, limit: int, ghost deleted: seq<Change>, ghost used: seq<Change>)
    returns (left: seq<Change>, m': Groups, renames: seq<Change>, ghost pairs: seq<(Change, Change)>)
    requires AllNamed(Flat(groups)) && NoRepeats(Flat(groups)) && AllNamed(deleted) && NoRepeats(deleted)
    requires forall i :: 0 <= i < |groups| ==> SeveralOfOneHash(groups[i])
    requires Balanced(deleted, m, used)
    ensures renames == Renames(pairs) && SameHash(pairs)
    ensures Balanced(deleted, m', used + Deletions(pairs))
    ensures Conserved(Flat(groups), left, Additions(pairs))
  {
    hide HashOf, Named, NameScore, Group, Renames, Deletions, Additions, NoRepeats, Balanced, Flat;
    left, m', renames, pairs := [], m, [], [];
    NoPairs();
    assert groups[..0] == [] && used + [] == used;
    FlatNone<Change>();
    for i := 0 to |groups|
      invariant renames == Renames(pairs) && SameHash(pairs)
      invariant Balanced(deleted, m', used + Deletions(pairs))
      invariant Conserved(Flat(groups[..i]), left, Additions(pairs))
    {
      var g := groups[i];
      var h := HashOf(g[0]);
      GroupOk(deleted, m', used + Deletions(pairs), h);
      forall j | 0 <= j < |g| ensures Named(g[j]) {
        FlatHas(groups, i, j);
      }
      FlatRepeats(groups, i);
      var more, group', rs, newly := MatchSeveral(g, Get(m', h), limit);
      AllSameHash(g, Get(m', h), h, more, group', newly);
      PairsConcat(pairs, newly);
      Rebalance(deleted, m', used + Deletions(pairs), h, group', Deletions(newly));
      assert used + (Deletions(pairs) + Deletions(newly)) == used + Deletions(pairs) + Deletions(newly);
      FlatPush(groups[..i], g);
      assert groups[..i + 1] == groups[..i] + [g];
      left, renames, pairs := left + more, renames + rs, pairs + newly;
      m' := m'[h := group'];
    }
    assert groups[..|groups|] == groups;
  }

  lemma AllSameHash(added: seq<Change>, deleted: seq<Change>, h: Hash, left: seq<Change>, deleted': seq<Change>, pairs: seq<(Change, Change)>)
    requires Conserved(deleted, deleted', Deletions(pairs)) && Conserved(added, left, Additions(pairs))
    requires forall i :: 0 <= i < |added| ==> HashOf(added[i]) == h
    requires forall i :: 0 <= i < |deleted| ==> HashOf(deleted[i]) == h
    ensures SameHash(pairs)
  {
    hide HashOf;
    forall i | 0 <= i < |pairs| ensures HashOf(pairs[i].0) == HashOf(pairs[i].1) {
      assert Deletions(pairs)[i] == pairs[i].0 && Additions(pairs)[i] == pairs[i].1;
      assert pairs[i].0 in multiset(Deletions(pairs)) && pairs[i].1 in multiset(Additions(pairs));
      assert pairs[i].0 in multiset(deleted) && pairs[i].1 in multiset(added);
    }
  }
}
