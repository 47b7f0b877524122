/** Building a commit graph in memory and writing it as a file. */
module CommitGraphEncoder {
  import opened Bytes
  import opened Sequences
  import opened CommitGraphFile

  datatype Commit = Commit(hash: Bytes, tree: Bytes, parents: seq<Bytes>, generation: nat, generationV2: nat, when: nat)

  const MAX_U64 := U64_LIMIT - 1
  const GENERATION_LIMIT := 0x4000_0000

  /** `GenerationV2Data`: the distance from the commit time, in 64 bits. */
  function V2Data(c: Commit): nat {
    if c.generationV2 == 0 || c.generationV2 == MAX_U64 then 0 else (c.generationV2 - c.when) % U64_LIMIT
  }

  // --- The graph in memory --------------------------------------------------------------------

  /** The map leads from every hash to the last commit with it. */
  ghost predicate Indexed(commits: seq<Commit>, indexMap: map<Bytes, nat>) {
    && (forall h :: h in indexMap ==> indexMap[h] < |commits| && commits[indexMap[h]].hash == h)
    && (forall i :: 0 <= i < |commits| ==> commits[i].hash in indexMap && i <= indexMap[commits[i].hash])
  }

  ghost predicate AllDated(commits: seq<Commit>) {
    forall i :: 0 <= i < |commits| ==> commits[i].generationV2 != 0
  }

  ghost predicate NoneUnset(commits: seq<Commit>) {
    forall i :: 0 <= i < |commits| ==> commits[i].generationV2 != MAX_U64
  }

  lemma AddedIndex(commits: seq<Commit>, indexMap: map<Bytes, nat>, c: Commit)
    requires Indexed(commits, indexMap)
    ensures Indexed(commits + [c], indexMap[c.hash := |commits|])
  {
  }

  lemma AddedDates(commits: seq<Commit>, c: Commit)
    ensures AllDated(commits + [c]) <==> AllDated(commits) && c.generationV2 != 0
    ensures NoneUnset(commits + [c]) <==> NoneUnset(commits) && c.generationV2 != MAX_U64
  {
    var s := commits + [c];
    assert s[|commits|] == c && forall i :: 0 <= i < |commits| ==> s[i] == commits[i];
  }

  class MemoryIndex {
    var commits: seq<Commit>
    var indexMap: map<Bytes, nat>
    var hasGenerationV2: bool

    /** The map leads from every hash to its last commit, and all commits have a corrected date
        or the index as a whole has none. */
    ghost predicate Valid()
      reads this
    {
      Indexed(commits, indexMap) && (hasGenerationV2 <==> AllDated(commits)) && NoneUnset(commits)
    }

    constructor ()
      ensures Valid() && commits == []
    {
      commits, indexMap, hasGenerationV2 := [], map[], true;
    }

    /** `Add`. */
    method Add(c: Commit)
      requires Valid()
      modifies this
      ensures Valid()
      ensures commits == old(commits) + [if c.generationV2 == MAX_U64 then c.(generationV2 := 0) else c]
      ensures indexMap == old(indexMap)[c.hash := |old(commits)|]
    {
      var data := if c.generationV2 == MAX_U64 then c.(generationV2 := 0) else c;
      AddedIndex(commits, indexMap, data);
      AddedDates(commits, data);
      indexMap := indexMap[c.hash := |commits|];
      commits := commits + [data];
      hasGenerationV2 := hasGenerationV2 && data.generationV2 != 0;
    }

    /** `GetIndexByHash`. */
    method GetIndexByHash(h: Bytes) returns (r: Result<nat>)
      requires Valid()
      ensures r.Ok? <==> exists i :: 0 <= i < |commits| && commits[i].hash == h
      ensures r.Ok? ==> r.value < |commits| && commits[r.value].hash == h
      ensures r.Ok? ==> forall i :: r.value < i < |commits| ==> commits[i].hash != h
      ensures r.Err? ==> r.error == NotFound
    {
      if h in indexMap {
        return Ok(indexMap[h]);
      }
      return Err(NotFound);
    }

    /** `GetCommitDataByIndex`: fails for a commit with a parent that is not there. */
    method GetCommitDataByIndex(i: nat) returns (r: Result<Commit>)
      requires Valid()
      ensures r.Ok? <==> i < |commits| && forall k :: 0 <= k < |commits[i].parents| ==> commits[i].parents[k] in indexMap
      ensures r.Ok? ==> r.value == commits[i]
      ensures r.Err? ==> r.error == NotFound
    {
      if i >= |commits| {
        return Err(NotFound);
      }
      var c := commits[i];
      for k := 0 to |c.parents|
        invariant forall j :: 0 <= j < k ==> c.parents[j] in indexMap
      {
        var index := GetIndexByHash(c.parents[k]);
        if index.Err? {
          return Err(index.error);
        }
      }
      return Ok(c);
    }

    /** `Hashes`, in whatever order the map is walked. */
    method Hashes() returns (hs: seq<Bytes>)
      requires Valid()
      ensures forall h :: h in hs <==> h in indexMap
      ensures forall i, j :: 0 <= i < j < |hs| ==> hs[i] != hs[j]
    {
      hs := [];
      var todo := indexMap.Keys;
      while todo != {}
        invariant todo <= indexMap.Keys
        invariant forall h :: h in hs <==> h in indexMap && h !in todo
        invariant forall i, j :: 0 <= i < j < |hs| ==> hs[i] != hs[j]
        decreases todo
      {
        var h :| h in todo;
        hs := hs + [h];
        todo := todo - {h};
      }
    }
  }

  // --- What is written ------------------------------------------------------------------------

  /** The commits in the order of their hashes: strictly growing. */
  ghost predicate Ascending(es: seq<Commit>) {
    forall i, j :: 0 <= i < j < |es| ==> Before(es[i].hash, es[j].hash)
  }

  /** The position of every hash. */
  ghost predicate Positions(es: seq<Commit>, ix: map<Bytes, nat>) {
    && (forall i :: 0 <= i < |es| ==> es[i].hash in ix && ix[es[i].hash] == i)
    && (forall h :: h in ix ==> ix[h] < |es| && es[ix[h]].hash == h)
  }

  function ExtraCount(c: Commit): nat { if |c.parents| > 2 then |c.parents| - 1 else 0 }

  function ExtraTo(es: seq<Commit>, n: nat): nat
    requires n <= |es|
  {
    if n == 0 then 0 else ExtraTo(es, n - 1) + ExtraCount(es[n - 1])
  }

  /** One commit can be written. */
  ghost predicate CommitOk(c: Commit, ix: map<Bytes, nat>) {
    && |c.hash| == HASH && |c.tree| == HASH && c.generation < GENERATION_LIMIT && c.when < TIME_LIMIT
    && c.generationV2 < MAX_U64
    && forall k :: 0 <= k < |c.parents| ==> c.parents[k] in ix
  }

  /** The graph can be written: few enough commits and extra edges for 31 bits, parents all
      there, generations and times in range. */
  ghost predicate Encodable(es: seq<Commit>, ix: map<Bytes, nat>) {
    && Ascending(es) && Positions(es, ix) && |es| < PARENT_NONE && ExtraTo(es, |es|) < MSB32
    && forall i :: 0 <= i < |es| ==> CommitOk(es[i], ix)
  }

  function Word(ix: map<Bytes, nat>, h: Bytes): nat { if h in ix then ix[h] else 0 }

  /** The second and further parents of an octopus, the last one marked. */
  function EdgeWords(ix: map<Bytes, nat>, parents: seq<Bytes>, k: nat): (r: seq<nat>)
    requires 0 < k <= |parents|
    ensures |r| == |parents| - k
    decreases |parents| - k
  {
    if k == |parents| then []
    else if k == |parents| - 1 then [Word(ix, parents[k]) + MSB32]
    else [Word(ix, parents[k])] + EdgeWords(ix, parents, k + 1)
  }

  function EdgesTo(es: seq<Commit>, ix: map<Bytes, nat>, n: nat): (r: seq<nat>)
    requires n <= |es|
    ensures |r| == ExtraTo(es, n)
  {
    if n == 0 then []
    else if |es[n - 1].parents| > 2 then EdgesTo(es, ix, n - 1) + EdgeWords(ix, es[n - 1].parents, 1)
    else EdgesTo(es, ix, n - 1)
  }

  /** The two numbers for the parents of a commit, when `extra` edges come before it. */
  function Parent1(ix: map<Bytes, nat>, parents: seq<Bytes>): nat {
    if parents == [] then PARENT_NONE else Word(ix, parents[0])
  }

  function Parent2(ix: map<Bytes, nat>, parents: seq<Bytes>, extra: nat): nat {
    if |parents| <= 1 then PARENT_NONE else if |parents| == 2 then Word(ix, parents[1]) else extra + MSB32
  }

  ghost predicate Words32(ws: seq<nat>) { forall i :: 0 <= i < |ws| ==> ws[i] < U32_LIMIT }

  function Rows32(ws: seq<nat>): (r: seq<Bytes>)
    requires forall i :: 0 <= i < |ws| ==> ws[i] < U32_LIMIT
    ensures |r| == |ws| && forall i :: 0 <= i < |ws| ==> r[i] == U32(ws[i])
  {
    seq(|ws|, i requires 0 <= i < |ws| => U32(ws[i]))
  }

  function Rows64(ws: seq<nat>): (r: seq<Bytes>)
    requires forall i :: 0 <= i < |ws| ==> ws[i] < U64_LIMIT
    ensures |r| == |ws| && forall i :: 0 <= i < |ws| ==> r[i] == U64(ws[i])
  {
    seq(|ws|, i requires 0 <= i < |ws| => U64(ws[i]))
  }

  /** The row of a commit: tree, parents, generation and time. */
  function CommitRow(c: Commit, parent1: nat, parent2: nat): (r: Bytes)
    requires |c.tree| == HASH && parent1 < U32_LIMIT && parent2 < U32_LIMIT
    requires c.generation < GENERATION_LIMIT && c.when < TIME_LIMIT
    ensures |r| == ROW
  {
    c.tree + U32(parent1) + U32(parent2) + U64(c.generation * TIME_LIMIT + c.when)
  }

  lemma {:induction false} EdgeWordsFit(ix: map<Bytes, nat>, parents: seq<Bytes>, k: nat)
    requires 0 < k <= |parents| && forall h :: h in ix ==> ix[h] < PARENT_NONE
    ensures Words32(EdgeWords(ix, parents, k))
    decreases |parents| - k
  {
    if k < |parents| - 1 {
      EdgeWordsFit(ix, parents, k + 1);
    }
  }

  lemma {:induction false} EdgesFit(es: seq<Commit>, ix: map<Bytes, nat>, n: nat)
    requires n <= |es| && forall h :: h in ix ==> ix[h] < PARENT_NONE
    ensures Words32(EdgesTo(es, ix, n))
  {
    if n > 0 {
      EdgesFit(es, ix, n - 1);
      if |es[n - 1].parents| > 2 {
        EdgeWordsFit(ix, es[n - 1].parents, 1);
      }
    }
  }

  lemma {:induction false} ExtraGrows(es: seq<Commit>, j: nat, n: nat)
    requires j <= n <= |es|
    ensures ExtraTo(es, j) <= ExtraTo(es, n)
  {
    if j < n {
      ExtraGrows(es, j, n - 1);
    }
  }

  /** All the numbers of a row fit. */
  lemma {:induction false} RowFits(es: seq<Commit>, ix: map<Bytes, nat>, i: nat)
    requires Encodable(es, ix) && i < |es|
    ensures CommitOk(es[i], ix)
    ensures Parent1(ix, es[i].parents) < U32_LIMIT && Parent2(ix, es[i].parents, ExtraTo(es, i)) < U32_LIMIT
  {
    hide ExtraTo, Ascending, CommitOk;
    ExtraGrows(es, i, |es|);
  }

  ghost function CommitRows(es: seq<Commit>, ix: map<Bytes, nat>, n: nat): (r: seq<Bytes>)
    requires Encodable(es, ix) && n <= |es|
    ensures |r| == n && forall i :: 0 <= i < n ==> |r[i]| == ROW
  {
    if n == 0 then []
    else
      RowFits(es, ix, n - 1);
      CommitRows(es, ix, n - 1) + [CommitRow(es[n - 1], Parent1(ix, es[n - 1].parents), Parent2(ix, es[n - 1].parents, ExtraTo(es, n - 1)))]
  }

  /** Which of the first `n` offsets are too large for 31 bits, and what is written for them. */
  function Overflows(vs: seq<nat>, n: nat): (r: seq<nat>)
    requires n <= |vs|
    ensures |r| <= n
  {
    if n == 0 then [] else if vs[n - 1] >= MSB32 then Overflows(vs, n - 1) + [vs[n - 1]] else Overflows(vs, n - 1)
  }

  function GenerationWords(vs: seq<nat>, n: nat): (r: seq<nat>)
    requires n <= |vs|
    ensures |r| == n
  {
    if n == 0 then []
    else GenerationWords(vs, n - 1) + [if vs[n - 1] >= MSB32 then |Overflows(vs, n - 1)| + MSB32 else vs[n - 1]]
  }

  lemma {:induction false} GenerationFits(vs: seq<nat>, n: nat)
    requires n <= |vs| && n < MSB32
    ensures Words32(GenerationWords(vs, n))
  {
    if n > 0 {
      GenerationFits(vs, n - 1);
    }
  }

  function V2Datas(es: seq<Commit>): (r: seq<nat>)
    ensures |r| == |es| && forall i :: 0 <= i < |es| ==> r[i] == V2Data(es[i])
  {
    seq(|es|, i requires 0 <= i < |es| => V2Data(es[i]))
  }

  lemma {:induction false} OverflowsFit(vs: seq<nat>, n: nat)
    requires n <= |vs| && forall i :: 0 <= i < |vs| ==> vs[i] < U64_LIMIT
    ensures forall i :: 0 <= i < |Overflows(vs, n)| ==> Overflows(vs, n)[i] < U64_LIMIT
  {
    if n > 0 {
      OverflowsFit(vs, n - 1);
    }
  }

  /** How many hashes start with a byte up to `b`. */
  function CountUpTo(es: seq<Commit>, b: nat): (n: nat)
    ensures n <= |es|
  {
    if es == [] then 0
    else CountUpTo(es[..|es| - 1], b) + if |es[|es| - 1].hash| > 0 && es[|es| - 1].hash[0] <= b then 1 else 0
  }

  function FanoutOf(es: seq<Commit>): (f: seq<nat>)
    ensures |f| == FANOUT && forall b :: 0 <= b < FANOUT ==> f[b] == CountUpTo(es, b)
  {
    seq(FANOUT, b requires 0 <= b < FANOUT => CountUpTo(es, b))
  }

  /** How many offsets the chunk table counts as too large: it compares with 32 bits. */
  function Declared(es: seq<Commit>): nat {
    if es == [] then 0
    else Declared(es[..|es| - 1]) + if V2Data(es[|es| - 1]) >= U32_LIMIT then 1 else 0
  }

  /** The chunks with their sizes. */
  function ChunkSizes(n: nat, extra: nat, v2: bool, declared: nat): seq<(nat, nat)> {
    [(OIDF, 4 * FANOUT), (OIDL, HASH * n), (CDAT, ROW * n)]
    + (if extra > 0 then [(EDGE, 4 * extra)] else [])
    + (if v2 then [(GDA2, 4 * n)] + (if declared > 0 then [(GDO2, 8 * declared)] else []) else [])
  }

  /** Where chunk `k` starts. */
  function StartOf(sizes: seq<(nat, nat)>, k: nat): nat
    requires k <= |sizes|
  {
    if k == 0 then 8 + 12 * (|sizes| + 1) else StartOf(sizes, k - 1) + sizes[k - 1].1
  }

  /** An entry of the chunk table. */
  function ChunkRow(chunk: nat, offset: nat): (r: Bytes)
    ensures |r| == 12
  {
    SignatureOf(chunk) + Spelled(offset, 8)
  }

  ghost function ChunkRows(sizes: seq<(nat, nat)>, k: nat): (r: seq<Bytes>)
    requires k <= |sizes|
    ensures |r| == k
  {
    if k == 0 then [] else ChunkRows(sizes, k - 1) + [ChunkRow(sizes[k - 1].0, StartOf(sizes, k - 1))]
  }

  lemma {:induction false} ChunkRowAt(sizes: seq<(nat, nat)>, k: nat, j: nat)
    requires j < k <= |sizes|
    ensures ChunkRows(sizes, k)[j] == ChunkRow(sizes[j].0, StartOf(sizes, j))
  {
    hide ChunkRow, StartOf;
    if j < k - 1 {
      ChunkRowAt(sizes, k - 1, j);
    }
  }

  function Header(chunks: nat): (h: Bytes)
    requires chunks < 256
    ensures |h| == 8
  {
    SIGNATURE + [1, 1, chunks, 0]
  }

  lemma StartFits(n: nat, extra: nat, v2: bool, declared: nat)
    requires n < PARENT_NONE && extra < MSB32 && declared <= n
    ensures var sizes := ChunkSizes(n, extra, v2, declared);
            3 <= |sizes| <= 6 && forall j :: 0 <= j <= |sizes| ==> StartOf(sizes, j) < U64_LIMIT
  {
    var sizes := ChunkSizes(n, extra, v2, declared);
    forall j | 0 <= j <= |sizes| ensures StartOf(sizes, j) < U64_LIMIT {
      StartBelow(sizes, j);
    }
  }

  lemma {:induction false} StartBelow(sizes: seq<(nat, nat)>, j: nat)
    requires j <= |sizes| <= 6 && forall k :: 0 <= k < |sizes| ==> sizes[k].1 < 0x20_0000_0000
    ensures StartOf(sizes, j) <= 100 + j * 0x20_0000_0000
  {
    if j > 0 {
      StartBelow(sizes, j - 1);
    }
  }

  lemma {:induction false} DeclaredAtMost(es: seq<Commit>)
    ensures Declared(es) <= |es|
  {
    if es != [] {
      DeclaredAtMost(es[..|es| - 1]);
    }
  }

  ghost function Hashes(es: seq<Commit>): (r: seq<Bytes>)
    ensures |r| == |es| && forall i :: 0 <= i < |es| ==> r[i] == es[i].hash
  {
    seq(|es|, i requires 0 <= i < |es| => es[i].hash)
  }

  ghost function TableRows(es: seq<Commit>, ix: map<Bytes, nat>, v2: bool): (r: seq<Bytes>)
    requires Encodable(es, ix)
    ensures 4 <= |r| <= 7
  {
    var sizes := ChunkSizes(|es|, ExtraTo(es, |es|), v2, Declared(es));
    ChunkRows(sizes, |sizes|) + [ChunkRow(CHUNKS, StartOf(sizes, |sizes|))]
  }

  ghost function EdgeRows(es: seq<Commit>, ix: map<Bytes, nat>): (r: seq<Bytes>)
    requires Encodable(es, ix)
    ensures |r| == ExtraTo(es, |es|) && forall i :: 0 <= i < |r| ==> |r[i]| == 4
  {
    EdgesFit(es, ix, |es|);
    Rows32(EdgesTo(es, ix, |es|))
  }

  ghost function GenerationRows(es: seq<Commit>): (r: seq<Bytes>)
    requires |es| < PARENT_NONE
    ensures |r| == |es| && forall i :: 0 <= i < |r| ==> |r[i]| == 4
  {
    GenerationFits(V2Datas(es), |es|);
    Rows32(GenerationWords(V2Datas(es), |es|))
  }

  ghost function OverflowRows(es: seq<Commit>): (r: seq<Bytes>)
    ensures |r| == |Overflows(V2Datas(es), |es|)| && forall i :: 0 <= i < |r| ==> |r[i]| == 8
  {
    OverflowsFit(V2Datas(es), |es|);
    Rows64(Overflows(V2Datas(es), |es|))
  }

  ghost function FanoutRows(es: seq<Commit>): (r: seq<Bytes>)
    requires |es| < PARENT_NONE
    ensures |r| == FANOUT && forall i :: 0 <= i < FANOUT ==> r[i] == U32(CountUpTo(es, i))
  {
    Rows32(FanoutOf(es))
  }

  /** The parts of the file, one after the other. */
  ghost function Sections(es: seq<Commit>, ix: map<Bytes, nat>, v2: bool): (s: seq<Bytes>)
    requires Encodable(es, ix)
    ensures |s| == 8
  {
    [Header(|TableRows(es, ix, v2)| - 1), Flat(TableRows(es, ix, v2)), Flat(FanoutRows(es)), Flat(Hashes(es)),
     Flat(CommitRows(es, ix, |es|)), Flat(EdgeRows(es, ix)),
     if v2 then Flat(GenerationRows(es)) else [], if v2 then Flat(OverflowRows(es)) else []]
  }

  // --- Writing --------------------------------------------------------------------------------

  /** `HashesSort`. */
  method SortHashes(hs: seq<Bytes>) returns (r: seq<Bytes>)
    requires forall i, j :: 0 <= i < j < |hs| ==> hs[i] != hs[j]
    ensures forall i, j :: 0 <= i < j < |r| ==> Before(r[i], r[j])
    ensures forall h :: h in r <==> h in hs
    ensures |r| == |hs|
  {
    hide Before;
    r := [];
    for n := 0 to |hs|
      invariant |r| == n && forall i, j :: 0 <= i < j < n ==> Before(r[i], r[j])
      invariant forall h :: h in r <==> h in hs[..n]
    {
      assert hs[n] !in hs[..n];
      r := InsertHash(r, hs[n]);
    }
    assert hs[..|hs|] == hs;
  }

  method InsertHash(s: seq<Bytes>, h: Bytes) returns (r: seq<Bytes>)
    requires (forall i, j :: 0 <= i < j < |s| ==> Before(s[i], s[j])) && h !in s
    ensures |r| == |s| + 1 && forall i, j :: 0 <= i < j < |r| ==> Before(r[i], r[j])
    ensures forall x :: x in r <==> x in s || x == h
  {
    hide Before;
    var k := |s|;
    while k > 0 && Before(h, s[k - 1])
      invariant 0 <= k <= |s| && forall i :: k <= i < |s| ==> Before(h, s[i])
    {
      k := k - 1;
    }
    r := s[..k] + [h] + s[k..];
    if k > 0 {
      BeforeOrder(h, s[k - 1]);
    }
    InsertedHash(s, h, k);
  }

  lemma {:induction false} InsertedHash(s: seq<Bytes>, h: Bytes, k: nat)
    requires (forall i, j :: 0 <= i < j < |s| ==> Before(s[i], s[j])) && k <= |s|
    requires k > 0 ==> Before(s[k - 1], h)
    requires forall i :: k <= i < |s| ==> Before(h, s[i])
    ensures var r := s[..k] + [h] + s[k..];
            (forall i, j :: 0 <= i < j < |r| ==> Before(r[i], r[j])) && forall x :: x in r <==> x in s || x == h
  {
    hide Before;
    var r := s[..k] + [h] + s[k..];
    assert s == s[..k] + s[k..];
    forall i, j | 0 <= i < j < |r| ensures Before(r[i], r[j]) {
      if i < k && j == k && i < k - 1 {
        BeforeTransitive(s[i], s[k - 1], h);
      }
    }
  }

  method EncodeWords32(ws: seq<nat>) returns (out: Bytes)
    requires Words32(ws)
    ensures out == Flat(Rows32(ws))
  {
    hide U32, Flat;
    out := [];
    ghost var rows := Rows32(ws);
    FlatNone<Byte>();
    assert rows[..0] == [];
    for i := 0 to |ws|
      invariant out == Flat(rows[..i])
    {
      assert rows[..i + 1] == rows[..i] + [rows[i]];
      FlatPush(rows[..i], rows[i]);
      out := out + U32(ws[i]);
    }
    assert rows[..|ws|] == rows;
  }

  method EncodeWords64(ws: seq<nat>) returns (out: Bytes)
    requires forall i :: 0 <= i < |ws| ==> ws[i] < U64_LIMIT
    ensures out == Flat(Rows64(ws))
  {
    hide U64, Flat;
    out := [];
    ghost var rows := Rows64(ws);
    FlatNone<Byte>();
    assert rows[..0] == [];
    for i := 0 to |ws|
      invariant out == Flat(rows[..i])
    {
      assert rows[..i + 1] == rows[..i] + [rows[i]];
      FlatPush(rows[..i], rows[i]);
      out := out + U64(ws[i]);
    }
    assert rows[..|ws|] == rows;
  }

  /** `encodeChunkHeaders`. */
  method EncodeChunkHeaders(sizes: seq<(nat, nat)>) returns (out: Bytes)
    ensures out == Flat(ChunkRows(sizes, |sizes|) + [ChunkRow(CHUNKS, StartOf(sizes, |sizes|))])
  {
    hide Flat, ChunkRow;
    out := [];
    FlatNone<Byte>();
    var offset := 8 + (|sizes| + 1) * 12;
    for i := 0 to |sizes|
      invariant offset == StartOf(sizes, i) && out == Flat(ChunkRows(sizes, i))
    {
      FlatPush(ChunkRows(sizes, i), ChunkRow(sizes[i].0, offset));
      out := out + ChunkRow(sizes[i].0, offset);
      offset := offset + sizes[i].1;
    }
    FlatPush(ChunkRows(sizes, |sizes|), ChunkRow(CHUNKS, offset));
    out := out + ChunkRow(CHUNKS, offset);
  }

  /** `encodeGenerationV2Data`: moves the offsets that are too large to the front of the same
      array while it is being read. */
  method EncodeGenerationV2Data(data: array<nat>) returns (out: Bytes, head: nat)
    requires data.Length < PARENT_NONE
    modifies data
    ensures head <= data.Length && data[..head] == Overflows(old(data[..]), data.Length)
    ensures Words32(GenerationWords(old(data[..]), data.Length))
    ensures out == Flat(Rows32(GenerationWords(old(data[..]), data.Length)))
  {
    hide U32, Flat;
    ghost var vs := data[..];
    out, head := [], 0;
    FlatNone<Byte>();
    for i := 0 to data.Length
      invariant head <= i && data[..head] == Overflows(vs, i) && data[i..] == vs[i..]
      invariant Words32(GenerationWords(vs, i)) && out == Flat(Rows32(GenerationWords(vs, i)))
    {
      GenerationFits(vs, i + 1);
      var v := data[i];
      assert v == data[i..][0] == vs[i];
      ghost var before, after := Rows32(GenerationWords(vs, i)), Rows32(GenerationWords(vs, i + 1));
      assert after == before + [after[i]];
      FlatPush(before, after[i]);
      if v >= MSB32 {
        out := out + U32(head + MSB32);
        data[head] := v;
        head := head + 1;
        assert data[..head] == data[..head - 1] + [v];
        assert data[i + 1..] == vs[i + 1..];
      } else {
        out := out + U32(v);
        assert data[i + 1..] == vs[i + 1..];
      }
    }
  }

  /** `encodeCommitData` for one commit: its two numbers, and the edges so far with its own. */
  method EncodeParents(ix: map<Bytes, nat>, parents: seq<Bytes>, edges: seq<nat>)
    returns (parent1: nat, parent2: nat, edges': seq<nat>)
    requires forall k :: 0 <= k < |parents| ==> parents[k] in ix
    ensures parent1 == Parent1(ix, parents) && parent2 == Parent2(ix, parents, |edges|)
    ensures edges' == edges + (if |parents| > 2 then EdgeWords(ix, parents, 1) else [])
  {
    hide EdgeWords;
    parent1, parent2, edges' := PARENT_NONE, PARENT_NONE, edges;
    if |parents| == 1 {
      parent1 := ix[parents[0]];
    } else if |parents| == 2 {
      parent1, parent2 := ix[parents[0]], ix[parents[1]];
    } else if |parents| > 2 {
      parent1, parent2 := ix[parents[0]], |edges| + MSB32;
      for k := 1 to |parents|
        invariant |edges'| == |edges| + k - 1 && edges <= edges'
        invariant forall j :: |edges| <= j < |edges'| ==> edges'[j] == Word(ix, parents[j - |edges| + 1])
      {
        edges' := edges' + [ix[parents[k]]];
      }
      var last := |edges'| - 1;
      edges' := edges'[last := edges'[last] + MSB32];
      EdgeWordsAre(ix, parents, 1);
    }
  }

  lemma {:induction false} EdgeWordsAre(ix: map<Bytes, nat>, parents: seq<Bytes>, k: nat)
    requires 0 < k < |parents|
    ensures forall j :: 0 <= j < |parents| - k ==>
              EdgeWords(ix, parents, k)[j] == Word(ix, parents[j + k]) + if j == |parents| - k - 1 then MSB32 else 0
    decreases |parents| - k
  {
    if k < |parents| - 1 {
      EdgeWordsAre(ix, parents, k + 1);
    }
  }
}
