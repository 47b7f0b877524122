/** Writing a whole commit-graph file. */
module CommitGraphWriter {
  import opened Bytes
  import opened Sequences
  import opened CommitGraphFile
  import opened CommitGraphEncoder

  // --- Order does not matter for counting -----------------------------------------------------

  ghost predicate Apart(s: seq<Commit>) {
    forall i, j :: 0 <= i < j < |s| ==> s[i] != s[j]
  }

  lemma {:induction false} ApartCounts(s: seq<Commit>, c: Commit)
    requires Apart(s)
    ensures multiset(s)[c] == if c in s then 1 else 0
  {
    if s != [] {
      var n := |s| - 1;
      ApartCounts(s[..n], c);
      assert s == s[..n] + [s[n]];
    }
  }

  lemma SamePermutation(s: seq<Commit>, t: seq<Commit>)
    requires Apart(s) && Apart(t) && forall c :: c in s <==> c in t
    ensures multiset(s) == multiset(t)
  {
    forall c ensures multiset(s)[c] == multiset(t)[c] {
      ApartCounts(s, c);
      ApartCounts(t, c);
    }
  }

  /** What one commit adds: extra edges and large offsets. */
  ghost function Weight(c: Commit, edges: bool): nat {
    if edges then ExtraCount(c) else if V2Data(c) >= U32_LIMIT then 1 else 0
  }

  ghost function Weights(s: seq<Commit>, edges: bool): nat {
    if s == [] then 0 else Weights(s[..|s| - 1], edges) + Weight(s[|s| - 1], edges)
  }

  lemma {:induction false} WeightsConcat(s: seq<Commit>, t: seq<Commit>, edges: bool)
    ensures Weights(s + t, edges) == Weights(s, edges) + Weights(t, edges)
  {
    hide Weight;
    if t == [] {
      assert s + t == s;
    } else {
      WeightsConcat(s, t[..|t| - 1], edges);
      assert (s + t)[..|s + t| - 1] == s + t[..|t| - 1];
    }
  }

  lemma {:induction false} WeightsRemoved(t: seq<Commit>, i: nat, edges: bool)
    requires i < |t|
    ensures Weights(t, edges) == Weights(t[..i] + t[i + 1..], edges) + Weights([t[i]], edges)
    ensures multiset(t[..i] + t[i + 1..]) == multiset(t) - multiset{t[i]}
  {
    hide Weights;
    assert t == t[..i] + ([t[i]] + t[i + 1..]);
    WeightsConcat(t[..i], [t[i]] + t[i + 1..], edges);
    WeightsConcat([t[i]], t[i + 1..], edges);
    WeightsConcat(t[..i], t[i + 1..], edges);
  }

  lemma {:induction false} WeightsPermuted(s: seq<Commit>, t: seq<Commit>, edges: bool)
    requires multiset(s) == multiset(t)
    ensures Weights(s, edges) == Weights(t, edges)
  {
    hide Weights;
    if s != [] {
      var n := |s| - 1;
      assert s[n] in multiset(s) && s[n] in multiset(t);
      var i :| 0 <= i < |t| && t[i] == s[n];
      WeightsRemoved(t, i, edges);
      WeightsRemoved(s, n, edges);
      assert s[..n] + s[n + 1..] == s[..n];
      WeightsPermuted(s[..n], t[..i] + t[i + 1..], edges);
    } else {
      assert |multiset(t)| == 0;
      assert t == [];
    }
  }

  lemma {:induction false} ExtraIsWeight(s: seq<Commit>, n: nat)
    requires n <= |s|
    ensures ExtraTo(s, n) == Weights(s[..n], true)
  {
    if n > 0 {
      ExtraIsWeight(s, n - 1);
      assert s[..n][..n - 1] == s[..n - 1];
    }
  }

  lemma {:induction false} DeclaredIsWeight(s: seq<Commit>)
    ensures Declared(s) == Weights(s, false)
  {
    if s != [] {
      DeclaredIsWeight(s[..|s| - 1]);
    }
  }

  /** Counting the commits as they were added or as they are written gives the same. */
  lemma {:induction false} CountsAgree(s: seq<Commit>, t: seq<Commit>)
    requires multiset(s) == multiset(t)
    ensures |s| == |t| && ExtraTo(s, |s|) == ExtraTo(t, |t|) && Declared(s) == Declared(t)
  {
    hide Weights;
    assert |s| == |multiset(s)| && |t| == |multiset(t)|;
    WeightsPermuted(s, t, true);
    WeightsPermuted(s, t, false);
    ExtraIsWeight(s, |s|);
    ExtraIsWeight(t, |t|);
    assert s[..|s|] == s && t[..|t|] == t;
    DeclaredIsWeight(s);
    DeclaredIsWeight(t);
  }

  // --- Preparing ------------------------------------------------------------------------------

  /** The commits of the hashes. */
  ghost function EntriesOf(commits: seq<Commit>, indexMap: map<Bytes, nat>, hs: seq<Bytes>): (es: seq<Commit>)
    requires forall i :: 0 <= i < |hs| ==> hs[i] in indexMap && indexMap[hs[i]] < |commits|
    ensures |es| == |hs| && forall i :: 0 <= i < |hs| ==> es[i] == commits[indexMap[hs[i]]]
  {
    seq(|hs|, i requires 0 <= i < |hs| => commits[indexMap[hs[i]]])
  }

  /** Those of the first `k` commits whose hash was not added again. */
  ghost function KeptTo(commits: seq<Commit>, indexMap: map<Bytes, nat>, k: nat): (r: seq<Commit>)
    requires k <= |commits|
    ensures |r| <= k
  {
    if k == 0 then []
    else
      var c := commits[k - 1];
      KeptTo(commits, indexMap, k - 1) + if c.hash in indexMap && indexMap[c.hash] == k - 1 then [c] else []
  }

  ghost function Kept(commits: seq<Commit>, indexMap: map<Bytes, nat>): seq<Commit> {
    KeptTo(commits, indexMap, |commits|)
  }

  lemma {:induction false} KeptAre(commits: seq<Commit>, indexMap: map<Bytes, nat>, k: nat)
    requires k <= |commits| && Indexed(commits, indexMap)
    ensures var r := KeptTo(commits, indexMap, k);
            && (forall c :: c in r ==> c.hash in indexMap && indexMap[c.hash] < k && commits[indexMap[c.hash]] == c)
            && (forall h :: h in indexMap && indexMap[h] < k ==> commits[indexMap[h]] in r)
  {
    if k > 0 {
      KeptAre(commits, indexMap, k - 1);
      var before, r, c := KeptTo(commits, indexMap, k - 1), KeptTo(commits, indexMap, k), commits[k - 1];
      assert forall e :: e in r <==> e in before || (e == c && indexMap[c.hash] == k - 1);
      forall h | h in indexMap && indexMap[h] == k - 1 ensures commits[indexMap[h]] in r {
        assert c.hash == h;
      }
    }
  }

  lemma {:induction false} KeptApart(commits: seq<Commit>, indexMap: map<Bytes, nat>, k: nat)
    requires k <= |commits| && Indexed(commits, indexMap)
    ensures var r := KeptTo(commits, indexMap, k); forall i, j :: 0 <= i < j < |r| ==> r[i].hash != r[j].hash
  {
    if k > 0 {
      KeptApart(commits, indexMap, k - 1);
      KeptAre(commits, indexMap, k - 1);
      var before, r := KeptTo(commits, indexMap, k - 1), KeptTo(commits, indexMap, k);
      forall i, j | 0 <= i < j < |r| ensures r[i].hash != r[j].hash {
        assert before[i] in before && indexMap[before[i].hash] < k - 1;
        assert j < |before| || indexMap[r[j].hash] == k - 1;
      }
    }
  }

  /** With no hash added twice, everything is kept. */
  lemma {:induction false} AllKept(commits: seq<Commit>, indexMap: map<Bytes, nat>, k: nat)
    requires k <= |commits| && Indexed(commits, indexMap)
    requires forall i, j :: 0 <= i < j < |commits| ==> commits[i].hash != commits[j].hash
    ensures KeptTo(commits, indexMap, k) == commits[..k]
  {
    if k > 0 {
      AllKept(commits, indexMap, k - 1);
      assert indexMap[commits[k - 1].hash] == k - 1;
    }
  }

  /** The table counts the first commits that were added, as many as there are different hashes;
      what is written are those that were kept.  Both have the same extra edges and large offsets. */
  ghost predicate CountsMatch(commits: seq<Commit>, indexMap: map<Bytes, nat>, v2: bool) {
    var kept := Kept(commits, indexMap);
    && ExtraTo(commits, |kept|) == ExtraTo(kept, |kept|)
    && (v2 ==> Declared(commits[..|kept|]) == Declared(kept))
  }

  /** The index can be written: everything is in range, and the counts match. */
  ghost predicate Writable(mi: MemoryIndex)
    reads mi
  {
    var kept := Kept(mi.commits, mi.indexMap);
    && mi.Valid() && |kept| < PARENT_NONE && ExtraTo(kept, |kept|) < MSB32
    && (forall i :: 0 <= i < |kept| ==> CommitOk(kept[i], mi.indexMap))
    && (forall i :: 0 <= i < |kept| ==> ParentsKnown(mi.commits[i], mi.indexMap))
    && CountsMatch(mi.commits, mi.indexMap, mi.hasGenerationV2)
  }

  ghost predicate ParentsKnown(c: Commit, indexMap: map<Bytes, nat>) {
    forall k :: 0 <= k < |c.parents| ==> c.parents[k] in indexMap
  }

  /** Counts match whenever no hash was added twice. */
  lemma OnceEachWritable(mi: MemoryIndex)
    requires mi.Valid() && |mi.commits| < PARENT_NONE && ExtraTo(mi.commits, |mi.commits|) < MSB32
    requires forall i, j :: 0 <= i < j < |mi.commits| ==> mi.commits[i].hash != mi.commits[j].hash
    requires forall i :: 0 <= i < |mi.commits| ==> CommitOk(mi.commits[i], mi.indexMap)
    ensures Writable(mi) && Kept(mi.commits, mi.indexMap) == mi.commits
  {
    hide ExtraTo, Declared;
    AllKept(mi.commits, mi.indexMap, |mi.commits|);
    assert mi.commits[..|mi.commits|] == mi.commits;
    forall i | 0 <= i < |mi.commits| ensures ParentsKnown(mi.commits[i], mi.indexMap) {
      assert CommitOk(mi.commits[i], mi.indexMap);
    }
  }

  /** The chunk table is the right one if and only if the counts match. */
  lemma CountsTell(n: nat, extra: nat, declared: nat, extra': nat, declared': nat, v2: bool)
    ensures ChunkSizes(n, extra, v2, declared) == ChunkSizes(n, extra', v2, declared') <==>
            extra == extra' && (v2 ==> declared == declared')
  {
    var a, b := ChunkSizes(n, extra, v2, declared), ChunkSizes(n, extra', v2, declared');
    if a == b && extra > 0 {
      assert a[3] == (EDGE, 4 * extra);
    }
    if a == b && extra' > 0 {
      assert b[3] == (EDGE, 4 * extra');
    }
    if a == b && v2 {
      assert a[|a| - 1] == b[|b| - 1];
    }
  }

  /** A merge of three parents is added, then its parent, then another commit under the hash of the
      merge: the table counts two extra edges, and none is written. */
  method AddedTwice(h: Bytes, p: Bytes, tree: Bytes) returns (mi: MemoryIndex)
    requires |h| == |p| == |tree| == HASH && h != p
    ensures fresh(mi) && mi.Valid() && !CountsMatch(mi.commits, mi.indexMap, mi.hasGenerationV2)
    ensures forall i :: 0 <= i < |mi.commits| ==> CommitOk(mi.commits[i], mi.indexMap)
  {
    hide CountsMatch, Indexed, AllDated, NoneUnset;
    mi := new MemoryIndex();
    mi.Add(Commit(h, tree, [p, p, p], 2, 0, 0));
    mi.Add(Commit(p, tree, [], 1, 0, 0));
    mi.Add(Commit(h, tree, [], 1, 0, 0));
    MergeReplaced(mi.commits, mi.indexMap, h, p, mi.hasGenerationV2);
  }

  lemma MergeReplaced(commits: seq<Commit>, indexMap: map<Bytes, nat>, h: Bytes, p: Bytes, v2: bool)
    requires |commits| == 3 && h in indexMap && indexMap[h] == 2 && p in indexMap && indexMap[p] == 1
    requires commits[0].hash == h && commits[1].hash == p && commits[2].hash == h
    requires |commits[0].parents| == 3 && commits[1].parents == [] && commits[2].parents == []
    ensures !CountsMatch(commits, indexMap, v2)
  {
    assert KeptTo(commits, indexMap, 1) == [];
    assert KeptTo(commits, indexMap, 2) == [commits[1]];
    var kept := [commits[1], commits[2]];
    assert KeptTo(commits, indexMap, 3) == kept;
    assert ExtraTo(commits, 1) == 2 && ExtraTo(commits, 2) == 2;
    assert ExtraTo(kept, 1) == 0 && ExtraTo(kept, 2) == 0;
  }

  /** The commits in the order of their hashes are those that were kept. */
  lemma EntriesPermute(mi: MemoryIndex, hs: seq<Bytes>, es: seq<Commit>)
    requires Writable(mi) && (forall h :: h in hs <==> h in mi.indexMap)
    requires forall i, j :: 0 <= i < j < |hs| ==> Before(hs[i], hs[j])
    requires es == EntriesOf(mi.commits, mi.indexMap, hs)
    ensures multiset(es) == multiset(Kept(mi.commits, mi.indexMap)) && forall i :: 0 <= i < |es| ==> es[i].hash == hs[i]
    ensures Ascending(es)
  {
    hide Before, CountsMatch, KeptTo, ExtraTo, CommitOk, ParentsKnown;
    var kept := Kept(mi.commits, mi.indexMap);
    KeptAre(mi.commits, mi.indexMap, |mi.commits|);
    KeptApart(mi.commits, mi.indexMap, |mi.commits|);
    forall i, j | 0 <= i < j < |es| ensures es[i] != es[j] {
      assert Before(hs[i], hs[j]);
      BeforeOrder(hs[i], hs[j]);
    }
    forall c ensures c in es <==> c in kept {
      if c in kept {
        assert c.hash in hs;
        var i :| 0 <= i < |hs| && hs[i] == c.hash;
        assert es[i] == c;
      }
      if c in es {
        var i :| 0 <= i < |es| && es[i] == c;
        assert hs[i] in hs && mi.indexMap[hs[i]] < |mi.commits|;
      }
    }
    SamePermutation(es, kept);
  }

  lemma {:induction false} EntriesEncodable(mi: MemoryIndex, hs: seq<Bytes>, es: seq<Commit>, ix: map<Bytes, nat>)
    requires Writable(mi) && (forall h :: h in hs <==> h in mi.indexMap)
    requires forall i, j :: 0 <= i < j < |hs| ==> Before(hs[i], hs[j])
    requires es == EntriesOf(mi.commits, mi.indexMap, hs) && Positions(es, ix)
    ensures multiset(es) == multiset(Kept(mi.commits, mi.indexMap)) && Encodable(es, ix)
    ensures |es| <= |mi.commits| && ExtraTo(mi.commits, |es|) == ExtraTo(es, |es|)
    ensures mi.hasGenerationV2 ==> Declared(mi.commits[..|es|]) == Declared(es)
  {
    hide Before, ExtraTo, Declared, KeptTo;
    var kept := Kept(mi.commits, mi.indexMap);
    EntriesPermute(mi, hs, es);
    CountsAgree(es, kept);
    forall i | 0 <= i < |es| ensures CommitOk(es[i], ix) {
      assert es[i] in multiset(es) && es[i] in multiset(kept);
      var k :| 0 <= k < |kept| && kept[k] == es[i];
      assert CommitOk(kept[k], mi.indexMap);
      ParentsThere(es[i], mi.indexMap, hs, es, ix);
    }
  }

  lemma ParentsThere(c: Commit, indexMap: map<Bytes, nat>, hs: seq<Bytes>, es: seq<Commit>, ix: map<Bytes, nat>)
    requires CommitOk(c, indexMap) && (forall h :: h in hs <==> h in indexMap) && Positions(es, ix)
    requires |es| == |hs| && forall i :: 0 <= i < |es| ==> es[i].hash == hs[i]
    ensures CommitOk(c, ix)
  {
    forall k | 0 <= k < |c.parents| ensures c.parents[k] in ix {
      assert c.parents[k] in hs;
      var j :| 0 <= j < |hs| && hs[j] == c.parents[k];
      assert es[j].hash == hs[j];
    }
  }

  /** How many hashes start with the byte `b`. */
  ghost function CountAt(es: seq<Commit>, b: nat): nat {
    if es == [] then 0
    else CountAt(es[..|es| - 1], b) + if |es[|es| - 1].hash| > 0 && es[|es| - 1].hash[0] == b then 1 else 0
  }

  lemma {:induction false} CountStep(es: seq<Commit>, b: nat)
    ensures CountUpTo(es, b) == (if b == 0 then 0 else CountUpTo(es, b - 1)) + CountAt(es, b)
  {
    if es != [] {
      CountStep(es[..|es| - 1], b);
    }
  }

  /** The first part of `prepare`: the position of every hash, and the fanout. */
  method Prepare(hs: seq<Bytes>, ghost es: seq<Commit>) returns (ix: map<Bytes, nat>, fanout: seq<nat>)
    requires |hs| == |es| && forall i :: 0 <= i < |hs| ==> hs[i] == es[i].hash && |hs[i]| == HASH
    requires Ascending(es)
    ensures Positions(es, ix) && fanout == FanoutOf(es)
  {
    hide Before, CountUpTo, CountAt;
    ix := map[];
    var counts := new nat[FANOUT](_ => 0);
    CountNone();
    assert es[..0] == [];
    for i := 0 to |hs|
      invariant forall b :: 0 <= b < FANOUT ==> counts[b] == CountAt(es[..i], b)
      invariant Positions(es[..i], ix)
    {
      PositionsMore(es, i, ix);
      ix := ix[hs[i] := i];
      forall b ensures CountAt(es[..i + 1], b) == CountAt(es[..i], b) + if hs[i][0] == b then 1 else 0 {
        CountOneMore(es, i, b);
      }
      var first := hs[i][0];
      counts[first] := counts[first] + 1;
    }
    assert es[..|hs|] == es;
    CountStep(es, 0);
    for b := 1 to FANOUT
      invariant forall k :: 0 <= k < b ==> counts[k] == CountUpTo(es, k)
      invariant forall k :: b <= k < FANOUT ==> counts[k] == CountAt(es, k)
    {
      CountStep(es, b);
      counts[b] := counts[b] + counts[b - 1];
    }
    fanout := counts[..];
  }

  lemma CountNone()
    ensures forall b :: CountAt([], b) == 0
  {
  }

  lemma {:induction false} CountOneMore(es: seq<Commit>, i: nat, b: nat)
    requires i < |es| && |es[i].hash| == HASH
    ensures CountAt(es[..i + 1], b) == CountAt(es[..i], b) + if es[i].hash[0] == b then 1 else 0
  {
    assert es[..i + 1][..i] == es[..i];
  }

  lemma PositionsMore(es: seq<Commit>, i: nat, ix: map<Bytes, nat>)
    requires Ascending(es) && i < |es| && Positions(es[..i], ix)
    ensures Positions(es[..i + 1], ix[es[i].hash := i])
  {
    hide Before;
    var s, ix' := es[..i + 1], ix[es[i].hash := i];
    forall k | 0 <= k < |s| ensures s[k].hash in ix' && ix'[s[k].hash] == k {
      if k < i {
        assert es[..i][k] == es[k];
        assert Before(es[k].hash, es[i].hash);
        BeforeOrder(es[k].hash, es[i].hash);
      }
    }
    forall h | h in ix' ensures ix'[h] < |s| && s[ix'[h]].hash == h {
      if h != es[i].hash {
        assert es[..i][ix[h]] == es[ix[h]];
      }
    }
  }

  /** The commit at an index that is there. */
  method FetchAt(mi: MemoryIndex, i: nat) returns (c: Commit)
    requires mi.Valid() && i < |mi.commits| && ParentsKnown(mi.commits[i], mi.indexMap)
    ensures c == mi.commits[i]
  {
    var r := mi.GetCommitDataByIndex(i);
    c := r.value;
  }

  lemma DeclaredStep(s: seq<Commit>, i: nat)
    requires i < |s|
    ensures Declared(s[..i + 1]) == Declared(s[..i]) + if V2Data(s[i]) >= U32_LIMIT then 1 else 0
  {
    hide V2Data;
    assert s[..i + 1][..i] == s[..i];
  }

  /** The second part of `prepare`: how many extra edges and large offsets the first `n` commits
      have, in the order in which they were added. */
  method CountExtras(mi: MemoryIndex, n: nat, v2: bool) returns (extra: nat, declared: nat)
    requires mi.Valid() && n <= |mi.commits| && forall i :: 0 <= i < n ==> ParentsKnown(mi.commits[i], mi.indexMap)
    ensures extra == ExtraTo(mi.commits, n) && declared == if v2 then Declared(mi.commits[..n]) else 0
  {
    hide V2Data, Declared, ParentsKnown;
    extra, declared := 0, 0;
    assert mi.commits[..0] == [] && Declared([]) == 0 by {
      NoneDeclared();
    }
    for i := 0 to n
      invariant extra == ExtraTo(mi.commits, i) && declared == if v2 then Declared(mi.commits[..i]) else 0
    {
      DeclaredStep(mi.commits, i);
      var c := FetchAt(mi, i);
      if |c.parents| > 2 {
        extra := extra + |c.parents| - 1;
      }
      if v2 && V2Data(c) >= U32_LIMIT {
        declared := declared + 1;
      }
    }
  }

  lemma NoneDeclared()
    ensures Declared([]) == 0
  {
  }

  // --- Encoding -------------------------------------------------------------------------------

  /** `encodeCommitData`. */
  method EncodeCommitData(mi: MemoryIndex, hs: seq<Bytes>, ix: map<Bytes, nat>, ghost es: seq<Commit>)
    returns (out: Bytes, edges: seq<nat>, v2: seq<nat>)
    requires Writable(mi) && Encodable(es, ix) && |hs| == |es|
    requires forall i :: 0 <= i < |hs| ==> hs[i] == es[i].hash && hs[i] in mi.indexMap && es[i] == mi.commits[mi.indexMap[hs[i]]]
    ensures out == Flat(CommitRows(es, ix, |es|)) && edges == EdgesTo(es, ix, |es|) && v2 == V2Datas(es)
  {
    hide Flat, CommitRow, EdgeWords, V2Data, Encodable, Writable, Parent1, Parent2, ExtraTo;
    out, edges, v2 := [], [], [];
    FlatNone<Byte>();
    for i := 0 to |hs|
      invariant out == Flat(CommitRows(es, ix, i)) && edges == EdgesTo(es, ix, i)
      invariant |v2| == i && forall k :: 0 <= k < i ==> v2[k] == V2Data(es[k])
    {
      RowFits(es, ix, i);
      var c := Fetch(mi, hs[i]);
      var parent1, parent2, edges' := EncodeParents(ix, c.parents, edges);
      FlatPush(CommitRows(es, ix, i), CommitRow(c, parent1, parent2));
      out := out + CommitRow(c, parent1, parent2);
      edges, v2 := edges', v2 + [V2Data(c)];
    }
  }

  /** The commit under a hash is in range, and its parents are there. */
  lemma KeptOk(mi: MemoryIndex, h: Bytes)
    requires Writable(mi) && h in mi.indexMap
    ensures mi.indexMap[h] < |mi.commits| && |h| == HASH && ParentsKnown(mi.commits[mi.indexMap[h]], mi.indexMap)
  {
    hide ExtraTo, Declared, KeptTo;
    KeptAre(mi.commits, mi.indexMap, |mi.commits|);
    var kept := Kept(mi.commits, mi.indexMap);
    assert mi.commits[mi.indexMap[h]] in kept;
    var k :| 0 <= k < |kept| && kept[k] == mi.commits[mi.indexMap[h]];
    assert CommitOk(kept[k], mi.indexMap);
  }

  /** The commit of a hash that is there. */
  method Fetch(mi: MemoryIndex, h: Bytes) returns (c: Commit)
    requires Writable(mi) && h in mi.indexMap
    ensures mi.indexMap[h] < |mi.commits| && c == mi.commits[mi.indexMap[h]]
  {
    hide CommitOk, ExtraTo;
    assert mi.commits[mi.indexMap[h]].hash == h;
    var index := mi.GetIndexByHash(h);
    KeptOk(mi, h);
    c := FetchAt(mi, index.value);
  }

  /** `encodeOidLookup`. */
  method EncodeOidLookup(hs: seq<Bytes>) returns (out: Bytes)
    ensures out == Flat(hs)
  {
    hide Flat;
    out := [];
    FlatNone<Byte>();
    assert hs[..0] == [];
    for i := 0 to |hs|
      invariant out == Flat(hs[..i])
    {
      assert hs[..i + 1] == hs[..i] + [hs[i]];
      FlatPush(hs[..i], hs[i]);
      out := out + hs[i];
    }
    assert hs[..|hs|] == hs;
  }

  /** The two chunks of corrected dates. */
  method EncodeGenerations(v2: seq<nat>, ghost es: seq<Commit>) returns (gens: Bytes, overs: Bytes)
    requires |es| < PARENT_NONE && v2 == V2Datas(es)
    ensures gens == Flat(GenerationRows(es)) && overs == Flat(OverflowRows(es))
  {
    hide Flat, V2Datas, GenerationWords, Overflows;
    var a := new nat[|v2|](i requires 0 <= i < |v2| => v2[i]);
    assert a[..] == v2;
    var words, head := EncodeGenerationV2Data(a);
    OverflowsFit(V2Datas(es), |es|);
    var large := EncodeWords64(a[..head]);
    return words, large;
  }

  /** Everything but the checksum. */
  method EncodeBody(mi: MemoryIndex, hs: seq<Bytes>, ix: map<Bytes, nat>, fanout: seq<nat>, sizes: seq<(nat, nat)>, ghost es: seq<Commit>)
    returns (out: Bytes)
    requires Writable(mi) && Encodable(es, ix) && |hs| == |es| && |sizes| < 256
    requires forall i :: 0 <= i < |hs| ==> hs[i] == es[i].hash && hs[i] in mi.indexMap && es[i] == mi.commits[mi.indexMap[hs[i]]]
    requires fanout == FanoutOf(es)
    requires TableRows(es, ix, mi.hasGenerationV2) == ChunkRows(sizes, |sizes|) + [ChunkRow(CHUNKS, StartOf(sizes, |sizes|))]
    ensures out == Flat(Sections(es, ix, mi.hasGenerationV2))
  {
    hide Flat, Encodable, Writable, CommitRows, V2Datas, FanoutOf, ChunkRows, StartOf, TableRows, EdgesTo, ChunkRow;
    EncodableParts(es, ix);
    var headers := EncodeChunkHeaders(sizes);
    var fan := EncodeWords32(fanout);
    var oids := EncodeOidLookup(hs);
    assert hs == CommitGraphEncoder.Hashes(es);
    var rows, edges, v2 := EncodeCommitData(mi, hs, ix, es);
    EdgesFit(es, ix, |es|);
    var extras := EncodeWords32(edges);
    var gens, overs := [], [];
    if mi.hasGenerationV2 {
      gens, overs := EncodeGenerations(v2, es);
    }
    out := Header(|sizes|) + headers + fan + oids + rows + extras + gens + overs;
    assert Sections(es, ix, mi.hasGenerationV2) == [Header(|sizes|), headers, fan, oids, rows, extras, gens, overs];
    FlatEight(Header(|sizes|), headers, fan, oids, rows, extras, gens, overs);
  }

  /** `Encode`: the file of the graph, with the checksum that `digest` computes. */
  method Encode(mi: MemoryIndex, digest: Bytes -> Bytes) returns (out: Bytes, ghost es: seq<Commit>, ghost ix: map<Bytes, nat>)
    requires Writable(mi)
    ensures Encodable(es, ix) && multiset(es) == multiset(Kept(mi.commits, mi.indexMap))
    ensures out == Flat(Sections(es, ix, mi.hasGenerationV2)) + digest(Flat(Sections(es, ix, mi.hasGenerationV2)))
  {
    hide Flat, Encodable, Before, FanoutOf, ChunkRows, ChunkSizes, StartOf, ExtraTo, Declared, Sections, Positions, TableRows, ChunkRow, CommitOk;
    var hs := mi.Hashes();
    hs := SortHashes(hs);
    es := EntriesOf(mi.commits, mi.indexMap, hs);
    EntriesPermute(mi, hs, es);
    forall i | 0 <= i < |hs| ensures |hs[i]| == HASH {
      assert hs[i] in hs;
      KeptOk(mi, hs[i]);
    }
    var positions, fanout := Prepare(hs, es);
    ix := positions;
    EntriesEncodable(mi, hs, es, ix);
    assert |es| == |Kept(mi.commits, mi.indexMap)| by { CountsAgree(es, Kept(mi.commits, mi.indexMap)); }
    var extra, declared := CountExtras(mi, |hs|, mi.hasGenerationV2);
    var sizes := ChunkSizes(|hs|, extra, mi.hasGenerationV2, declared);
    SameSizes(es, ix, mi.hasGenerationV2, declared);
    out := EncodeBody(mi, hs, positions, fanout, sizes, es);
    out := out + digest(out);
  }

  lemma {:induction false} EncodableParts(es: seq<Commit>, ix: map<Bytes, nat>)
    requires Encodable(es, ix)
    ensures |es| < PARENT_NONE && ExtraTo(es, |es|) < MSB32 && forall h :: h in ix ==> ix[h] < PARENT_NONE
    ensures Words32(FanoutOf(es))
  {
    hide ExtraTo, Before;
  }

  /** Without corrected dates the number of large offsets does not matter. */
  lemma {:induction false} SameSizes(es: seq<Commit>, ix: map<Bytes, nat>, v2: bool, declared: nat)
    requires Encodable(es, ix) && declared == (if v2 then Declared(es) else 0)
    ensures var sizes := ChunkSizes(|es|, ExtraTo(es, |es|), v2, declared);
            && sizes == ChunkSizes(|es|, ExtraTo(es, |es|), v2, Declared(es)) && 3 <= |sizes| <= 6
            && TableRows(es, ix, v2) == ChunkRows(sizes, |sizes|) + [ChunkRow(CHUNKS, StartOf(sizes, |sizes|))]
  {
    hide Encodable, ChunkRows, StartOf, ExtraTo, Declared;
  }

  lemma FlatEight(a: Bytes, b: Bytes, c: Bytes, d: Bytes, e: Bytes, f: Bytes, g: Bytes, h: Bytes)
    ensures Flat([a, b, c, d, e, f, g, h]) == a + b + c + d + e + f + g + h
  {
    hide Flat;
    FlatNone<Byte>();
    FlatPush([], a);
    FlatPush([a], b);
    FlatPush([a, b], c);
    FlatPush([a, b, c], d);
    FlatPush([a, b, c, d], e);
    FlatPush([a, b, c, d, e], f);
    FlatPush([a, b, c, d, e, f], g);
    FlatPush([a, b, c, d, e, f, g], h);
    assert [] + [a] == [a] && [a] + [b] == [a, b] && [a, b] + [c] == [a, b, c] && [a, b, c] + [d] == [a, b, c, d];
    assert [a, b, c, d] + [e] == [a, b, c, d, e] && [a, b, c, d, e] + [f] == [a, b, c, d, e, f];
    assert [a, b, c, d, e, f] + [g] == [a, b, c, d, e, f, g] && [a, b, c, d, e, f, g] + [h] == [a, b, c, d, e, f, g, h];
    assert [] + a == a;
  }

  // --- The bytes of a file --------------------------------------------------------------------

  /** The signatures of the fanout and of the hashes: OIDF and OIDL. */
  lemma ChunkNames()
    ensures SignatureOf(OIDF) == [0x4f, 0x49, 0x44, 0x46] && SignatureOf(OIDL) == [0x4f, 0x49, 0x44, 0x4c]
  {
    hide SignatureOf;
    SignatureIs(OIDF, 0);
    SignatureIs(OIDL, 4);
  }

  /** Of the commits and their corrected dates: CDAT, GDA2 and GDO2. */
  lemma DataChunkNames()
    ensures SignatureOf(CDAT) == [0x43, 0x44, 0x41, 0x54]
    ensures SignatureOf(GDA2) == [0x47, 0x44, 0x41, 0x32] && SignatureOf(GDO2) == [0x47, 0x44, 0x4f, 0x32]
  {
    hide SignatureOf;
    SignatureIs(CDAT, 8);
    SignatureIs(GDA2, 12);
    SignatureIs(GDO2, 16);
  }

  /** Of the further parents, EDGE, and the zeros after the last chunk. */
  lemma LastChunkNames()
    ensures SignatureOf(EDGE) == [0x45, 0x44, 0x47, 0x45] && SignatureOf(CHUNKS) == [0, 0, 0, 0]
  {
    hide SignatureOf;
    SignatureIs(EDGE, 20);
    SignatureIs(CHUNKS, 36);
  }

  lemma SignatureIs(chunk: nat, i: nat)
    requires (chunk <= EDGE && i == 4 * chunk) || (chunk == CHUNKS && i == 36)
    ensures SignatureOf(chunk) == [SIGNATURES[i], SIGNATURES[i + 1], SIGNATURES[i + 2], SIGNATURES[i + 3]]
  {
    Four(SIGNATURES, i);
  }

  lemma Four(s: Bytes, i: nat)
    requires i + 4 <= |s|
    ensures s[i..i + 4] == [s[i], s[i + 1], s[i + 2], s[i + 3]]
  {
  }

  /** A file starts with CGPH, version and hash one, the number of chunks and a zero; the first chunk
      is the fanout. */
  lemma {:induction false} FileBegins(es: seq<Commit>, ix: map<Bytes, nat>, v2: bool)
    requires Encodable(es, ix)
    ensures var file := Flat(Sections(es, ix, v2));
            var chunks := 3 + (if ExtraTo(es, |es|) > 0 then 1 else 0)
                            + (if !v2 then 0 else if Declared(es) > 0 then 2 else 1);
            && |file| >= 12 && file[..8] == [0x43, 0x47, 0x50, 0x48, 1, 1, chunks, 0]
            && file[8..12] == [0x4f, 0x49, 0x44, 0x46]
  {
    hide Flat, Encodable, ExtraTo, Declared, CommitRows, TableRows, Header, FanoutRows, EdgeRows, GenerationRows, OverflowRows;
    var s, rows := Sections(es, ix, v2), TableRows(es, ix, v2);
    FirstRow(es, ix, v2);
    FlatFirst(rows);
    FlatFront(s);
    HeaderIs(|rows| - 1);
    FrontOf(Flat(s), s[0], s[1], rows[0]);
  }

  lemma HeaderIs(chunks: nat)
    requires chunks < 256
    ensures Header(chunks) == [0x43, 0x47, 0x50, 0x48, 1, 1, chunks, 0]
  {
  }

  lemma FrontOf(file: Bytes, a: Bytes, b: Bytes, c: Bytes)
    requires a + b <= file && c <= b && |a| == 8 && |c| >= 4
    ensures |file| >= 12 && file[..8] == a && file[8..12] == c[..4]
  {
    assert file[..8] == (a + b)[..8] && file[8..12] == (a + b)[8..12];
  }

  /** The first row of the chunk table. */
  lemma {:induction false} FirstRow(es: seq<Commit>, ix: map<Bytes, nat>, v2: bool)
    requires Encodable(es, ix)
    ensures var rows := TableRows(es, ix, v2);
            && |rows| == 4 + (if ExtraTo(es, |es|) > 0 then 1 else 0) + (if !v2 then 0 else if Declared(es) > 0 then 2 else 1)
            && |rows[0]| == 12 && rows[0][..4] == [0x4f, 0x49, 0x44, 0x46]
  {
    hide Encodable, ChunkRows, StartOf, ExtraTo, Declared, SignatureOf;
    var sizes := ChunkSizes(|es|, ExtraTo(es, |es|), v2, Declared(es));
    ChunkRowAt(sizes, |sizes|, 0);
    ChunkNames();
  }

  lemma {:induction false} FlatFirst(rows: seq<Bytes>)
    requires rows != []
    ensures rows[0] <= Flat(rows)
  {
    if |rows| == 1 {
      assert Flat(rows[..0]) == [];
    } else {
      FlatFirst(rows[..|rows| - 1]);
    }
  }

  lemma {:induction false} FlatFront(s: seq<Bytes>)
    requires |s| >= 2
    ensures s[0] + s[1] <= Flat(s)
  {
    if |s| == 2 {
      FlatFirst(s[..1]);
      assert Flat(s[..0]) == [];
    } else {
      FlatFront(s[..|s| - 1]);
    }
  }

  /** A root commit has the mark for no parent in both places; generation and time share the last
      eight bytes, the time in the lower 34 bits. */
  lemma RootRow(c: Commit, ix: map<Bytes, nat>, extra: nat)
    requires |c.tree| == HASH && c.generation < GENERATION_LIMIT && c.when < TIME_LIMIT && c.parents == []
    ensures var row := CommitRow(c, Parent1(ix, c.parents), Parent2(ix, c.parents, extra));
            && row[..20] == c.tree && row[20..28] == [0x70, 0, 0, 0, 0x70, 0, 0, 0]
            && row[28..] == U64(c.generation * 0x4_0000_0000 + c.when)
  {
    hide U32, U64;
    WordBytes(0x70, 0, 0, 0);
  }
}
