/** A commit-graph file gives back what was written into it. */
module CommitGraphRoundTrip {
  import opened Bytes
  import opened Sequences
  import opened CommitGraphFile
  import opened CommitGraphEncoder
  import opened CommitGraphWriter

  // --- Reading parts --------------------------------------------------------------------------

  /** A row of part `k` is read at its place. */
  lemma {:induction false} RowRead(data: Bytes, parts: seq<Bytes>, k: nat, rows: seq<Bytes>, w: nat, i: nat)
    requires Flat(parts) <= data && k < |parts| && parts[k] == Flat(rows)
    requires i < |rows| && forall j :: 0 <= j < |rows| ==> |rows[j]| == w
    ensures ReadAt(data, |Flat(parts[..k])| + w * i, w) == Ok(rows[i])
  {
    hide Flat;
    PartRead(data, parts, k);
    RowAt(rows, w, i);
    var p := |Flat(parts[..k])|;
    Within(data, p, p + |parts[k]|, w * i, w * i + w);
  }

  lemma Within(data: Bytes, p: nat, q: nat, a: nat, b: nat)
    requires p <= q <= |data| && a <= b <= q - p
    ensures data[p..q][a..b] == data[p + a..p + b]
  {
    assert forall i :: 0 <= i < b - a ==> data[p..q][a..b][i] == data[p + a..p + b][i];
  }

  lemma {:induction false} PartRead(data: Bytes, parts: seq<Bytes>, k: nat)
    requires Flat(parts) <= data && k < |parts|
    ensures var p := |Flat(parts[..k])|; p + |parts[k]| <= |data| && data[p..p + |parts[k]|] == parts[k]
    ensures |Flat(parts[..k + 1])| == |Flat(parts[..k])| + |parts[k]|
  {
    hide Flat;
    assert parts[..k + 1] == parts[..k] + [parts[k]];
    FlatPush(parts[..k], parts[k]);
    FlatPrefix(parts, k + 1);
    var a, b := Flat(parts[..k]), parts[k];
    assert data[..|a + b|] == a + b;
    assert data[|a|..|a + b|] == data[..|a + b|][|a|..] == b;
  }

  /** Where the parts of the file start. */
  ghost function Start(es: seq<Commit>, ix: map<Bytes, nat>, v2: bool, k: nat): nat
    requires Encodable(es, ix) && k <= 8
  {
    |Flat(Sections(es, ix, v2)[..k])|
  }

  ghost function Sizes(es: seq<Commit>, v2: bool): seq<(nat, nat)> {
    ChunkSizes(|es|, ExtraTo(es, |es|), v2, Declared(es))
  }

  lemma {:induction false} Starts(es: seq<Commit>, ix: map<Bytes, nat>, v2: bool)
    requires Encodable(es, ix)
    ensures Start(es, ix, v2, 0) == 0 && Start(es, ix, v2, 1) == 8
    ensures Start(es, ix, v2, 2) == 8 + 12 * (|Sizes(es, v2)| + 1)
    ensures Start(es, ix, v2, 3) == Start(es, ix, v2, 2) + 4 * FANOUT
    ensures Start(es, ix, v2, 4) == Start(es, ix, v2, 3) + HASH * |es|
    ensures Start(es, ix, v2, 5) == Start(es, ix, v2, 4) + ROW * |es|
    ensures Start(es, ix, v2, 6) == Start(es, ix, v2, 5) + 4 * ExtraTo(es, |es|)
    ensures v2 ==> Start(es, ix, v2, 7) == Start(es, ix, v2, 6) + 4 * |es|
  {
    hide Flat, ExtraTo, Declared, Sections, Encodable;
    var parts := Sections(es, ix, v2);
    var data := Flat(parts);
    FlatNone<Byte>();
    assert parts[..0] == [];
    PartSizes(es, ix, v2);
    PartRead(data, parts, 0);
    PartRead(data, parts, 1);
    PartRead(data, parts, 2);
    PartRead(data, parts, 3);
    PartRead(data, parts, 4);
    PartRead(data, parts, 5);
    PartRead(data, parts, 6);
  }

  lemma {:induction false} PartSizes(es: seq<Commit>, ix: map<Bytes, nat>, v2: bool)
    requires Encodable(es, ix)
    ensures var s := Sections(es, ix, v2);
            && |s| == 8 && |s[0]| == 8 && |s[1]| == 12 * (|Sizes(es, v2)| + 1) && |s[2]| == 4 * FANOUT && |s[3]| == HASH * |es|
            && |s[4]| == ROW * |es| && |s[5]| == 4 * ExtraTo(es, |es|) && (v2 ==> |s[6]| == 4 * |es|)
  {
    hide Flat, ExtraTo, Declared, Encodable, TableRows, CommitRows, EdgeRows, GenerationRows, OverflowRows, ChunkSizes, FanoutRows, Sizes, CommitGraphEncoder.Hashes;
    EncodableParts(es, ix);
    TableSize(es, ix, v2);
    FanoutSize(es);
    HashesSize(es, ix);
    RowsSize(es, ix);
    EdgesSize(es, ix);
    GenerationsSize(es);
  }

  lemma TableSize(es: seq<Commit>, ix: map<Bytes, nat>, v2: bool)
    requires Encodable(es, ix)
    ensures |Flat(TableRows(es, ix, v2))| == 12 * (|Sizes(es, v2)| + 1)
  {
    hide Flat, Encodable, ExtraTo, Declared;
    TableCount(es, ix, v2);
    TableWidth(es, ix, v2);
    FlatSize(TableRows(es, ix, v2), 12);
  }

  lemma FanoutSize(es: seq<Commit>)
    requires |es| < PARENT_NONE
    ensures |Flat(FanoutRows(es))| == 4 * FANOUT
  {
    hide Flat;
    FlatSize(FanoutRows(es), 4);
  }

  lemma HashesSize(es: seq<Commit>, ix: map<Bytes, nat>)
    requires Encodable(es, ix)
    ensures |Flat(CommitGraphEncoder.Hashes(es))| == HASH * |es|
  {
    hide Flat, Encodable;
    HashSizes(es, ix);
    FlatSize(CommitGraphEncoder.Hashes(es), HASH);
  }

  lemma {:induction false} RowsSize(es: seq<Commit>, ix: map<Bytes, nat>)
    requires Encodable(es, ix)
    ensures |Flat(CommitRows(es, ix, |es|))| == ROW * |es|
  {
    hide Flat, Encodable;
    FlatSize(CommitRows(es, ix, |es|), ROW);
  }

  lemma {:induction false} EdgesSize(es: seq<Commit>, ix: map<Bytes, nat>)
    requires Encodable(es, ix)
    ensures |Flat(EdgeRows(es, ix))| == 4 * ExtraTo(es, |es|)
  {
    hide Flat, Encodable, ExtraTo, EdgesTo;
    FlatSize(EdgeRows(es, ix), 4);
  }

  lemma GenerationsSize(es: seq<Commit>)
    requires |es| < PARENT_NONE
    ensures |Flat(GenerationRows(es))| == 4 * |es|
  {
    hide Flat, GenerationWords, V2Datas;
    FlatSize(GenerationRows(es), 4);
  }

  lemma HashSizes(es: seq<Commit>, ix: map<Bytes, nat>)
    requires Encodable(es, ix)
    ensures forall i :: 0 <= i < |es| ==> |CommitGraphEncoder.Hashes(es)[i]| == HASH
  {
    hide ExtraTo, Before, Ascending, Positions;
    assert forall i :: 0 <= i < |es| ==> CommitOk(es[i], ix);
  }

  lemma TableCount(es: seq<Commit>, ix: map<Bytes, nat>, v2: bool)
    requires Encodable(es, ix)
    ensures var sizes := Sizes(es, v2);
            && 3 <= |sizes| <= 6 && |TableRows(es, ix, v2)| == |sizes| + 1
            && (forall j :: 0 <= j <= |sizes| ==> StartOf(sizes, j) < 0x1_0000_0000_0000)
            && (forall j :: 0 <= j < |sizes| ==> TableRows(es, ix, v2)[j] == ChunkRow(sizes[j].0, StartOf(sizes, j)))
            && TableRows(es, ix, v2)[|sizes|] == ChunkRow(CHUNKS, StartOf(sizes, |sizes|))
  {
    hide Encodable, ExtraTo, Declared, ChunkRow;
    EncodableParts(es, ix);
    DeclaredAtMost(es);
    var sizes := Sizes(es, v2);
    StartFits(|es|, ExtraTo(es, |es|), v2, Declared(es));
    forall j | 0 <= j <= |sizes| ensures StartOf(sizes, j) < 0x1_0000_0000_0000 {
      StartBelow(sizes, j);
    }
    forall j | 0 <= j < |sizes| ensures TableRows(es, ix, v2)[j] == ChunkRow(sizes[j].0, StartOf(sizes, j)) {
      ChunkRowAt(sizes, |sizes|, j);
    }
  }

  // --- The chunk table ------------------------------------------------------------------------

  ghost function Applied(sizes: seq<(nat, nat)>, i: nat, offsets: seq<int>): (r: seq<int>)
    requires i <= |sizes| && |offsets| == CHUNKS && forall j :: 0 <= j < |sizes| ==> sizes[j].0 < CHUNKS
    ensures |r| == CHUNKS
    decreases |sizes| - i
  {
    if i == |sizes| then offsets else Applied(sizes, i + 1, offsets[sizes[i].0 := StartOf(sizes, i)])
  }

  /** The table at 8 has these chunks. */
  ghost predicate TableIn(data: Bytes, sizes: seq<(nat, nat)>) {
    && (forall j :: 0 <= j < |sizes| ==> sizes[j].0 <= EDGE)
    && (forall j :: 0 <= j <= |sizes| ==> StartOf(sizes, j) < U64_LIMIT / 2)
    && forall j :: 0 <= j <= |sizes| ==> EntryIn(data, sizes, j)
  }

  ghost predicate EntryIn(data: Bytes, sizes: seq<(nat, nat)>, j: nat)
    requires j <= |sizes|
  {
    8 + 12 * j + 12 <= |data| && data[8 + 12 * j..8 + 12 * j + 12] == ChunkRow(if j == |sizes| then CHUNKS else sizes[j].0, StartOf(sizes, j))
  }

  lemma {:induction false} EntryRead(data: Bytes, sizes: seq<(nat, nat)>, j: nat)
    requires TableIn(data, sizes) && j <= |sizes|
    ensures var p := 8 + 12 * j;
            && p + 12 <= |data| && ChunkTypeFromBytes(data[p..p + 4]) == (if j == |sizes| then CHUNKS else sizes[j].0)
            && ToInt64(Get64(data[p + 4..p + 12])) == StartOf(sizes, j)
  {
    hide ChunkTypeFromBytes, SignatureOf, StartOf, Get64;
    var p := 8 + 12 * j;
    assert EntryIn(data, sizes, j);
    var chunk := if j == |sizes| then CHUNKS else sizes[j].0;
    var row := ChunkRow(chunk, StartOf(sizes, j));
    assert data[p..p + 4] == data[p..p + 12][..4] == row[..4] == SignatureOf(chunk);
    assert data[p + 4..p + 12] == data[p..p + 12][4..] == row[4..] == U64(StartOf(sizes, j));
    SignatureRead(chunk);
    Get64U64(StartOf(sizes, j));
  }

  lemma {:induction false} OffsetsRead(data: Bytes, sizes: seq<(nat, nat)>, i: nat, offsets: seq<int>)
    requires TableIn(data, sizes) && i <= |sizes| && |offsets| == CHUNKS
    ensures ChunkOffsets(data, i, offsets) == Ok(Applied(sizes, i, offsets))
    decreases |sizes| - i
  {
    hide ChunkTypeFromBytes, StartOf, Get64, ToInt64, EntryIn;
    EntryRead(data, sizes, i);
    if i < |sizes| {
      OffsetsRead(data, sizes, i + 1, offsets[sizes[i].0 := StartOf(sizes, i)]);
    }
  }

  ghost predicate TypesApart(sizes: seq<(nat, nat)>) {
    forall j, k :: 0 <= j < k < |sizes| ==> sizes[j].0 != sizes[k].0
  }

  lemma {:induction false} AppliedAt(sizes: seq<(nat, nat)>, i: nat, offsets: seq<int>, k: nat)
    requires i <= k < |sizes| && |offsets| == CHUNKS && TypesApart(sizes) && forall j :: 0 <= j < |sizes| ==> sizes[j].0 < CHUNKS
    ensures Applied(sizes, i, offsets)[sizes[k].0] == StartOf(sizes, k)
    decreases |sizes| - i
  {
    hide StartOf;
    if i < k {
      AppliedAt(sizes, i + 1, offsets[sizes[i].0 := StartOf(sizes, i)], k);
    } else {
      AppliedKeeps(sizes, i + 1, offsets[sizes[i].0 := StartOf(sizes, i)], sizes[k].0);
    }
  }

  lemma {:induction false} AppliedKeeps(sizes: seq<(nat, nat)>, i: nat, offsets: seq<int>, t: nat)
    requires i <= |sizes| && |offsets| == CHUNKS && t < CHUNKS && forall j :: 0 <= j < |sizes| ==> sizes[j].0 < CHUNKS
    requires forall j :: i <= j < |sizes| ==> sizes[j].0 != t
    ensures Applied(sizes, i, offsets)[t] == offsets[t]
    decreases |sizes| - i
  {
    hide StartOf;
    if i < |sizes| {
      AppliedKeeps(sizes, i + 1, offsets[sizes[i].0 := StartOf(sizes, i)], t);
    }
  }

  /** The offsets that the reader ends up with. */
  ghost function OffsetsOf(es: seq<Commit>, v2: bool): (o: seq<int>)
    ensures |o| == CHUNKS
  {
    Applied(Sizes(es, v2), 0, seq(CHUNKS, _ => 0))
  }

  /** Every chunk is found where its part starts; large offsets only if the table counts some. */
  lemma {:induction false} OffsetsAre(es: seq<Commit>, ix: map<Bytes, nat>, v2: bool)
    requires Encodable(es, ix)
    ensures var o := OffsetsOf(es, v2);
            && o[OIDF] == Start(es, ix, v2, 2) && o[OIDL] == Start(es, ix, v2, 3) && o[CDAT] == Start(es, ix, v2, 4)
            && (ExtraTo(es, |es|) > 0 ==> o[EDGE] == Start(es, ix, v2, 5))
            && o[GDA2] == (if v2 then Start(es, ix, v2, 6) else 0)
            && o[GDO2] == (if v2 && Declared(es) > 0 then Start(es, ix, v2, 7) else 0)
  {
    hide Encodable, ExtraTo, Declared, Start;
    Starts(es, ix, v2);
    SizesOffsets(|es|, ExtraTo(es, |es|), v2, Declared(es));
  }

  lemma SizesOffsets(n: nat, extra: nat, v2: bool, declared: nat)
    ensures var sizes := ChunkSizes(n, extra, v2, declared);
            var o := Applied(sizes, 0, seq(CHUNKS, _ => 0));
            var s := 8 + 12 * (|sizes| + 1);
            && o[OIDF] == s && o[OIDL] == s + 4 * FANOUT && o[CDAT] == s + 4 * FANOUT + HASH * n
            && (extra > 0 ==> o[EDGE] == s + 4 * FANOUT + HASH * n + ROW * n)
            && o[GDA2] == (if v2 then s + 4 * FANOUT + HASH * n + ROW * n + 4 * extra else 0)
            && o[GDO2] == (if v2 && declared > 0 then s + 4 * FANOUT + HASH * n + ROW * n + 4 * extra + 4 * n else 0)
  {
    var sizes := ChunkSizes(n, extra, v2, declared);
    var zero: seq<int> := seq(CHUNKS, _ => 0);
    hide Applied;
    AppliedAt(sizes, 0, zero, 0);
    AppliedAt(sizes, 0, zero, 1);
    AppliedAt(sizes, 0, zero, 2);
    assert StartOf(sizes, 3) == StartOf(sizes, 2) + ROW * n;
    if extra > 0 {
      AppliedAt(sizes, 0, zero, 3);
      assert StartOf(sizes, 4 - 0) == StartOf(sizes, 3) + 4 * extra;
    }
    var g := if extra > 0 then 4 else 3;
    if v2 {
      AppliedAt(sizes, 0, zero, g);
      if declared > 0 {
        AppliedAt(sizes, 0, zero, g + 1);
      } else {
        AppliedKeeps(sizes, 0, zero, GDO2);
      }
    } else {
      AppliedKeeps(sizes, 0, zero, GDA2);
      AppliedKeeps(sizes, 0, zero, GDO2);
    }
  }

  // --- Opening the file -----------------------------------------------------------------------

  lemma TableIsIn(es: seq<Commit>, ix: map<Bytes, nat>, v2: bool, data: Bytes)
    requires Encodable(es, ix) && Flat(Sections(es, ix, v2)) <= data
    ensures TableIn(data, Sizes(es, v2))
  {
    hide Flat, Encodable, ExtraTo, Declared, StartOf, ChunkRow, TableRows, Sections;
    TableCount(es, ix, v2);
    Starts(es, ix, v2);
    var sizes := Sizes(es, v2);
    var rows := TableRows(es, ix, v2);
    TableWidth(es, ix, v2);
    TablePart(es, ix, v2);
    forall j | 0 <= j <= |sizes| ensures EntryIn(data, sizes, j) {
      RowRead(data, Sections(es, ix, v2), 1, rows, 12, j);
    }
  }

  lemma TableWidth(es: seq<Commit>, ix: map<Bytes, nat>, v2: bool)
    requires Encodable(es, ix)
    ensures forall j :: 0 <= j < |TableRows(es, ix, v2)| ==> |TableRows(es, ix, v2)[j]| == 12
  {
    hide Encodable, ExtraTo, Declared, TableRows, StartOf, ChunkSizes;
    TableCount(es, ix, v2);
  }

  lemma TablePart(es: seq<Commit>, ix: map<Bytes, nat>, v2: bool)
    requires Encodable(es, ix)
    ensures |Sections(es, ix, v2)| == 8 && Sections(es, ix, v2)[1] == Flat(TableRows(es, ix, v2))
  {
    hide Flat, Encodable, TableRows, CommitRows, EdgeRows, GenerationRows, OverflowRows, FanoutRows;
  }

  lemma FanoutPart(es: seq<Commit>, ix: map<Bytes, nat>, v2: bool)
    requires Encodable(es, ix) && |es| < PARENT_NONE
    ensures |Sections(es, ix, v2)| == 8 && Sections(es, ix, v2)[2] == Flat(FanoutRows(es))
  {
    hide Flat, Encodable, TableRows, CommitRows, EdgeRows, GenerationRows, OverflowRows, FanoutRows;
  }

  lemma HashPart(es: seq<Commit>, ix: map<Bytes, nat>, v2: bool)
    requires Encodable(es, ix)
    ensures |Sections(es, ix, v2)| == 8 && Sections(es, ix, v2)[3] == Flat(CommitGraphEncoder.Hashes(es))
  {
    hide Flat, Encodable, TableRows, CommitRows, EdgeRows, GenerationRows, OverflowRows, FanoutRows;
  }

  lemma {:induction false} RowPart(es: seq<Commit>, ix: map<Bytes, nat>, v2: bool)
    requires Encodable(es, ix)
    ensures |Sections(es, ix, v2)| == 8 && Sections(es, ix, v2)[4] == Flat(CommitRows(es, ix, |es|))
  {
    hide Flat, Encodable, TableRows, CommitRows, EdgeRows, GenerationRows, OverflowRows, FanoutRows;
  }

  lemma EdgePart(es: seq<Commit>, ix: map<Bytes, nat>, v2: bool)
    requires Encodable(es, ix)
    ensures |Sections(es, ix, v2)| == 8 && Sections(es, ix, v2)[5] == Flat(EdgeRows(es, ix))
  {
    hide Flat, Encodable, TableRows, CommitRows, EdgeRows, GenerationRows, OverflowRows, FanoutRows;
  }

  lemma GenerationPart(es: seq<Commit>, ix: map<Bytes, nat>, v2: bool)
    requires Encodable(es, ix) && |es| < PARENT_NONE && v2
    ensures |Sections(es, ix, v2)| == 8 && Sections(es, ix, v2)[6] == Flat(GenerationRows(es))
  {
    hide Flat, Encodable, TableRows, CommitRows, EdgeRows, GenerationRows, OverflowRows, FanoutRows;
  }

  lemma OverflowPart(es: seq<Commit>, ix: map<Bytes, nat>, v2: bool)
    requires Encodable(es, ix) && v2
    ensures |Sections(es, ix, v2)| == 8 && Sections(es, ix, v2)[7] == Flat(OverflowRows(es))
  {
    hide Flat, Encodable, TableRows, CommitRows, EdgeRows, GenerationRows, OverflowRows, FanoutRows;
  }

  lemma HeaderPart(es: seq<Commit>, ix: map<Bytes, nat>, v2: bool)
    requires Encodable(es, ix)
    ensures |Sections(es, ix, v2)| == 8 && |Sections(es, ix, v2)[0]| == 8
    ensures Sections(es, ix, v2)[0][..4] == SIGNATURE && Sections(es, ix, v2)[0][4] == 1 && Sections(es, ix, v2)[0][5] == 1
  {
    hide Flat, Encodable, CommitRows, EdgeRows, GenerationRows, OverflowRows, FanoutRows, ExtraTo, Declared, ChunkRows;
  }

  lemma {:induction false} FanoutRead(es: seq<Commit>, data: Bytes, p: nat, k: nat)
    requires |es| < PARENT_NONE && k <= FANOUT
    requires forall b :: 0 <= b < FANOUT ==> ReadAt(data, p + 4 * b, 4) == Ok(FanoutRows(es)[b])
    ensures FanoutAt(data, p, k) == Ok(FanoutOf(es)[..k])
  {
    hide ReadAt, Get32, U32, CountUpTo;
    if k > 0 {
      FanoutRead(es, data, p, k - 1);
      CountRange(es, k - 1);
      Get32U32(CountUpTo(es, k - 1));
      assert FanoutRows(es)[k - 1] == U32(CountUpTo(es, k - 1));
      assert FanoutOf(es)[..k] == FanoutOf(es)[..k - 1] + [CountUpTo(es, k - 1)];
    }
  }

  lemma {:induction false} CountRange(es: seq<Commit>, b: nat)
    ensures CountUpTo(es, b) <= |es|
  {
  }

  ghost function FileIndexOf(es: seq<Commit>, v2: bool, data: Bytes): FileIndex {
    FileIndex(data, FanoutOf(es), OffsetsOf(es, v2), OffsetsOf(es, v2)[GDA2] > 0)
  }

  /** The file opens. */
  lemma Opens(es: seq<Commit>, ix: map<Bytes, nat>, v2: bool, data: Bytes)
    requires Encodable(es, ix) && Flat(Sections(es, ix, v2)) <= data
    ensures Open(data) == Ok(FileIndexOf(es, v2, data)) && FileIndexOf(es, v2, data).hasGenerationV2 == v2
  {
    hide Flat, Encodable, ExtraTo, Declared, Sections, ChunkOffsets, FanoutAt, Applied, Start, FanoutRows, ReadAt, FanoutOf, Sizes;
    EncodableParts(es, ix);
    Starts(es, ix, v2);
    OffsetsAre(es, ix, v2);
    TableIsIn(es, ix, v2, data);
    OffsetsRead(data, Sizes(es, v2), 0, seq(CHUNKS, _ => 0));
    FanoutIsIn(es, ix, v2, data);
    FanoutRead(es, data, Start(es, ix, v2, 2), FANOUT);
    assert FanoutOf(es)[..FANOUT] == FanoutOf(es) by {
      FanoutCount(es);
    }
    HeaderIsIn(es, ix, v2, data);
  }

  lemma FanoutCount(es: seq<Commit>)
    ensures |FanoutOf(es)| == FANOUT
  {
  }

  lemma FanoutIsIn(es: seq<Commit>, ix: map<Bytes, nat>, v2: bool, data: Bytes)
    requires Encodable(es, ix) && Flat(Sections(es, ix, v2)) <= data && |es| < PARENT_NONE
    ensures forall b :: 0 <= b < FANOUT ==> ReadAt(data, Start(es, ix, v2, 2) + 4 * b, 4) == Ok(FanoutRows(es)[b])
  {
    hide Flat, Encodable, Sections, ReadAt, CountUpTo;
    FanoutPart(es, ix, v2);
    forall b | 0 <= b < FANOUT ensures ReadAt(data, Start(es, ix, v2, 2) + 4 * b, 4) == Ok(FanoutRows(es)[b]) {
      RowRead(data, Sections(es, ix, v2), 2, FanoutRows(es), 4, b);
    }
  }

  lemma HeaderIsIn(es: seq<Commit>, ix: map<Bytes, nat>, v2: bool, data: Bytes)
    requires Encodable(es, ix) && Flat(Sections(es, ix, v2)) <= data
    ensures |data| >= 8 && data[..4] == SIGNATURE && data[4] == 1 && data[5] == 1
  {
    hide Flat, Encodable, Sections;
    HeaderPart(es, ix, v2);
    FlatNone<Byte>();
    var parts := Sections(es, ix, v2);
    assert parts[..0] == [];
    PartRead(data, parts, 0);
    assert data[0..8] == parts[0];
    assert data[..4] == data[0..8][..4] && data[4] == data[0..8][4] && data[5] == data[0..8][5];
  }

  // --- Looking up hashes ----------------------------------------------------------------------

  lemma OidRead(es: seq<Commit>, ix: map<Bytes, nat>, v2: bool, data: Bytes, i: nat)
    requires Encodable(es, ix) && Flat(Sections(es, ix, v2)) <= data && i < |es|
    ensures OidAt(FileIndexOf(es, v2, data), i) == Ok(es[i].hash)
  {
    hide Flat, Encodable, Sections, ReadAt, Start, FanoutOf;
    HashPart(es, ix, v2);
    OffsetsAre(es, ix, v2);
    StartIs(es, ix, v2, 3);
    HashSizes(es, ix);
    RowRead(data, Sections(es, ix, v2), 3, CommitGraphEncoder.Hashes(es), HASH, i);
  }

  lemma StartIs(es: seq<Commit>, ix: map<Bytes, nat>, v2: bool, k: nat)
    requires Encodable(es, ix) && k <= 8
    ensures |Sections(es, ix, v2)| == 8 && Start(es, ix, v2, k) == |Flat(Sections(es, ix, v2)[..k])|
  {
    hide Flat, Encodable, TableRows, CommitRows, EdgeRows, GenerationRows, OverflowRows, FanoutRows;
  }

  lemma {:induction false} CountBoundary(es: seq<Commit>, b: nat, i: nat)
    requires Ascending(es) && (forall k :: 0 <= k < |es| ==> |es[k].hash| == HASH) && i < |es|
    ensures i < CountUpTo(es, b) <==> es[i].hash[0] <= b
  {
    hide Before;
    var n := |es| - 1;
    var rest := es[..n];
    CountRange(rest, b);
    if i < n {
      CountBoundary(rest, b, i);
      FirstGrows(es, i, n);
      if es[n].hash[0] <= b {
        AllCounted(rest, b, es[n].hash[0]) by {
          forall k | 0 <= k < n ensures rest[k].hash[0] <= es[n].hash[0] {
            FirstGrows(es, k, n);
          }
        }
      }
    } else {
      if es[n].hash[0] <= b {
        AllCounted(rest, b, es[n].hash[0]) by {
          forall k | 0 <= k < n ensures rest[k].hash[0] <= es[n].hash[0] {
            FirstGrows(es, k, n);
          }
        }
      }
    }
  }

  /** Hashes in order have first bytes in order. */
  lemma FirstGrows(es: seq<Commit>, i: nat, j: nat)
    requires Ascending(es) && i < j < |es| && |es[i].hash| == HASH && |es[j].hash| == HASH
    ensures es[i].hash[0] <= es[j].hash[0]
  {
    assert Before(es[i].hash, es[j].hash);
  }

  lemma {:induction false} AllCounted(es: seq<Commit>, b: nat, m: nat)
    requires m <= b && forall k :: 0 <= k < |es| ==> |es[k].hash| == HASH && es[k].hash[0] <= m
    ensures CountUpTo(es, b) == |es|
  {
    if es != [] {
      AllCounted(es[..|es| - 1], b, m);
    }
  }

  /** The file is sorted as the lookup needs it. */
  lemma FileSorted(es: seq<Commit>, ix: map<Bytes, nat>, v2: bool, data: Bytes)
    requires Encodable(es, ix) && Flat(Sections(es, ix, v2)) <= data
    ensures var fi := FileIndexOf(es, v2, data);
            Sorted(fi) && fi.fanout[255] == |es| && forall i: nat :: i < |es| ==> OidAt(fi, i) == Ok(es[i].hash)
  {
    hide Flat, Sections, OidAt, Before, CountUpTo, OffsetsOf, ExtraTo;
    var fi := FileIndexOf(es, v2, data);
    HashSizes(es, ix);
    assert forall k :: 0 <= k < |es| ==> CommitGraphEncoder.Hashes(es)[k] == es[k].hash;
    forall i: nat | i < |es| ensures OidAt(fi, i) == Ok(es[i].hash) {
      OidRead(es, ix, v2, data, i);
    }
    AllCounted(es, 255, 255);
    forall b: nat, i: nat | b < FANOUT && i < |es| ensures i < fi.fanout[b] <==> es[i].hash[0] <= b {
      CountBoundary(es, b, i);
    }
    forall b: nat | b < FANOUT ensures fi.fanout[b] <= |es| {
      CountRange(es, b);
    }
    assert |fi.offsets| == CHUNKS by {
      OffsetsOfCount(es, v2);
    }
  }

  lemma OffsetsOfCount(es: seq<Commit>, v2: bool)
    ensures |OffsetsOf(es, v2)| == CHUNKS
  {
  }

  // --- Parents --------------------------------------------------------------------------------

  ghost function Indexes(ix: map<Bytes, nat>, parents: seq<Bytes>): (r: seq<nat>)
    ensures |r| == |parents| && forall k :: 0 <= k < |parents| ==> r[k] == Word(ix, parents[k])
  {
    seq(|parents|, k requires 0 <= k < |parents| => Word(ix, parents[k]))
  }

  /** The edges of a commit among all edges. */
  lemma {:induction false} EdgesPlace(es: seq<Commit>, ix: map<Bytes, nat>, i: nat, n: nat)
    requires i < n <= |es| && |es[i].parents| > 2
    ensures var e := EdgeWords(ix, es[i].parents, 1);
            ExtraTo(es, i) + |e| <= ExtraTo(es, n) && EdgesTo(es, ix, n)[ExtraTo(es, i)..ExtraTo(es, i) + |e|] == e
  {
    hide EdgeWords;
    if i == n - 1 {
      EdgeCount(ix, es[i].parents);
      assert EdgesTo(es, ix, n)[ExtraTo(es, i)..] == EdgeWords(ix, es[i].parents, 1);
    } else {
      EdgesPlace(es, ix, i, n - 1);
    }
  }

  lemma {:induction false} EdgeCount(ix: map<Bytes, nat>, parents: seq<Bytes>)
    requires |parents| > 2
    ensures |EdgeWords(ix, parents, 1)| == |parents| - 1
  {
  }

  /** Reading edges up to the marked one. */
  lemma {:induction false} EdgesRead(ix: map<Bytes, nat>, parents: seq<Bytes>, k: nat, data: Bytes, p: nat)
    requires 0 < k < |parents| && (forall h :: h in ix ==> ix[h] < PARENT_NONE)
    requires forall j :: 0 <= j < |parents| - k ==> WordAt(data, p + 4 * j, EdgeWords(ix, parents, k)[j])
    ensures EdgesAt(data, p) == Ok(Indexes(ix, parents)[k..])
    decreases |parents| - k
  {
    hide ReadAt, Get32;
    var ws := EdgeWords(ix, parents, k);
    assert WordAt(data, p + 4 * 0, ws[0]);
    if k < |parents| - 1 {
      forall j | 0 <= j < |parents| - (k + 1) ensures WordAt(data, p + 4 + 4 * j, EdgeWords(ix, parents, k + 1)[j]) {
        assert WordAt(data, p + 4 * (j + 1), ws[j + 1]);
      }
      EdgesRead(ix, parents, k + 1, data, p + 4);
      assert Indexes(ix, parents)[k..] == [Word(ix, parents[k])] + Indexes(ix, parents)[k + 1..];
    } else {
      assert Indexes(ix, parents)[k..] == [Word(ix, parents[k])];
    }
  }

  ghost predicate WordAt(data: Bytes, p: int, w: nat) {
    ReadAt(data, p, 4).Ok? && Get32(ReadAt(data, p, 4).value) == w
  }

  lemma {:induction false} EdgeWordRead(es: seq<Commit>, ix: map<Bytes, nat>, v2: bool, data: Bytes, j: nat)
    requires Encodable(es, ix) && Flat(Sections(es, ix, v2)) <= data && j < ExtraTo(es, |es|)
    ensures WordAt(data, Start(es, ix, v2, 5) + 4 * j, EdgesTo(es, ix, |es|)[j])
  {
    hide Flat, Encodable, Sections, ReadAt, Get32, U32, EdgesTo, ExtraTo, Start, EdgeRows;
    EdgePart(es, ix, v2);
    StartIs(es, ix, v2, 5);
    EdgeRowsAre(es, ix);
    RowRead(data, Sections(es, ix, v2), 5, EdgeRows(es, ix), 4, j);
    Get32U32(EdgesTo(es, ix, |es|)[j]);
  }

  lemma {:induction false} EdgeRowsAre(es: seq<Commit>, ix: map<Bytes, nat>)
    requires Encodable(es, ix)
    ensures |EdgeRows(es, ix)| == |EdgesTo(es, ix, |es|)| == ExtraTo(es, |es|)
    ensures forall i :: 0 <= i < |EdgeRows(es, ix)| ==> |EdgeRows(es, ix)[i]| == 4
    ensures Words32(EdgesTo(es, ix, |es|))
    ensures forall i :: 0 <= i < |EdgeRows(es, ix)| ==> EdgeRows(es, ix)[i] == U32(EdgesTo(es, ix, |es|)[i])
  {
    hide Encodable, U32;
    EncodableParts(es, ix);
    EdgesFit(es, ix, |es|);
  }

  /** The positions of the parents are read back. */
  lemma {:induction false} ParentsRead(es: seq<Commit>, ix: map<Bytes, nat>, v2: bool, data: Bytes, i: nat)
    requires Encodable(es, ix) && Flat(Sections(es, ix, v2)) <= data && i < |es|
    ensures ParentIndexes(FileIndexOf(es, v2, data), Parent1(ix, es[i].parents), Parent2(ix, es[i].parents, ExtraTo(es, i)))
            == Ok(Indexes(ix, es[i].parents))
  {
    hide Flat, Encodable, Sections, ExtraTo, EdgesAt, Start, OffsetsOf, FanoutOf;
    EncodableParts(es, ix);
    RowFits(es, ix, i);
    var ps := es[i].parents;
    ParentWords(es, ix, i);
    if |ps| > 2 {
      OctopusRead(es, ix, v2, data, i);
      assert [Word(ix, ps[0])] + Indexes(ix, ps)[1..] == Indexes(ix, ps);
    } else if |ps| == 2 {
      assert Indexes(ix, ps) == [Word(ix, ps[0]), Word(ix, ps[1])];
    } else if |ps| == 1 {
      assert Indexes(ix, ps) == [Word(ix, ps[0])];
    }
    OffsetsOfCount(es, v2);
  }

  lemma {:induction false} ParentWords(es: seq<Commit>, ix: map<Bytes, nat>, i: nat)
    requires Encodable(es, ix) && i < |es|
    ensures forall k :: 0 <= k < |es[i].parents| ==> Word(ix, es[i].parents[k]) < PARENT_NONE
    ensures ExtraTo(es, i) < MSB32
  {
    hide Before;
    RowFits(es, ix, i);
    ExtraGrows(es, i, |es|);
  }

  lemma OctopusRead(es: seq<Commit>, ix: map<Bytes, nat>, v2: bool, data: Bytes, i: nat)
    requires Encodable(es, ix) && Flat(Sections(es, ix, v2)) <= data && i < |es| && |es[i].parents| > 2
    ensures EdgesAt(data, OffsetsOf(es, v2)[EDGE] + 4 * ExtraTo(es, i)) == Ok(Indexes(ix, es[i].parents)[1..])
  {
    hide Flat, Encodable, Sections, EdgesAt, Start, OffsetsOf, EdgesTo, EdgeWords, WordAt, ExtraTo;
    EncodableParts(es, ix);
    OffsetsAre(es, ix, v2);
    EdgesPlace(es, ix, i, |es|);
    var ps := es[i].parents;
    EdgeCount(ix, ps);
    var p := Start(es, ix, v2, 5) + 4 * ExtraTo(es, i);
    forall j | 0 <= j < |ps| - 1 ensures WordAt(data, p + 4 * j, EdgeWords(ix, ps, 1)[j]) {
      EdgeRowsAre(es, ix);
      EdgeWordRead(es, ix, v2, data, ExtraTo(es, i) + j);
      assert EdgesTo(es, ix, |es|)[ExtraTo(es, i) + j] == EdgesTo(es, ix, |es|)[ExtraTo(es, i)..ExtraTo(es, i) + |ps| - 1][j];
    }
    EdgesRead(ix, ps, 1, data, p);
  }

  lemma {:induction false} ParentHashesRead(es: seq<Commit>, ix: map<Bytes, nat>, v2: bool, data: Bytes,
                                            parents: seq<Bytes>)
    requires Encodable(es, ix) && Flat(Sections(es, ix, v2)) <= data && forall k :: 0 <= k < |parents| ==> parents[k] in ix
    ensures Opened(FileIndexOf(es, v2, data)) && HashesAt(FileIndexOf(es, v2, data), Indexes(ix, parents)) == Ok(parents)
  {
    hide Flat, Encodable, Sections, OidAt, FileIndexOf, ExtraTo;
    FileSorted(es, ix, v2, data);
    if parents != [] {
      var n := |parents| - 1;
      assert Indexes(ix, parents)[..n] == Indexes(ix, parents[..n]);
      ParentHashesRead(es, ix, v2, data, parents[..n]);
      PositionOf(es, ix, parents[n]);
      assert parents == parents[..n] + [parents[n]];
    }
  }

  lemma PositionOf(es: seq<Commit>, ix: map<Bytes, nat>, h: Bytes)
    requires Encodable(es, ix) && h in ix
    ensures ix[h] < |es| && es[ix[h]].hash == h
  {
  }

  // --- Rows -----------------------------------------------------------------------------------

  lemma {:induction false} CommitRowIs(es: seq<Commit>, ix: map<Bytes, nat>, n: nat, i: nat)
    requires Encodable(es, ix) && i < n <= |es|
    ensures CommitOk(es[i], ix)
    ensures Parent1(ix, es[i].parents) < U32_LIMIT && Parent2(ix, es[i].parents, ExtraTo(es, i)) < U32_LIMIT
    ensures CommitRows(es, ix, n)[i] == CommitRow(es[i], Parent1(ix, es[i].parents), Parent2(ix, es[i].parents, ExtraTo(es, i)))
  {
    hide Encodable, CommitRow, Parent1, Parent2, ExtraTo;
    RowFits(es, ix, i);
    if i < n - 1 {
      CommitRowIs(es, ix, n - 1, i);
    }
  }

  lemma RowParts(c: Commit, p1: nat, p2: nat)
    requires |c.tree| == HASH && p1 < U32_LIMIT && p2 < U32_LIMIT && c.generation < GENERATION_LIMIT && c.when < TIME_LIMIT
    ensures var row := CommitRow(c, p1, p2);
            && row[..20] == c.tree && Get32(row[20..24]) == p1 && Get32(row[24..28]) == p2
            && Get64(row[28..36]) == c.generation * TIME_LIMIT + c.when
  {
    hide Get32, Get64, U32, U64;
    var row := CommitRow(c, p1, p2);
    U32Size(p1);
    U32Size(p2);
    U64Size(c.generation * TIME_LIMIT + c.when);
    assert row[20..24] == U32(p1);
    assert row[24..28] == U32(p2);
    assert row[28..36] == U64(c.generation * TIME_LIMIT + c.when);
    Get32U32(p1);
    Get32U32(p2);
    Get64U64(c.generation * TIME_LIMIT + c.when);
  }

  lemma U32Size(n: nat)
    requires n < U32_LIMIT
    ensures |U32(n)| == 4
  {
  }

  lemma U64Size(n: nat)
    requires n < U64_LIMIT
    ensures |U64(n)| == 8
  {
  }

  lemma {:induction false} RowRead36(es: seq<Commit>, ix: map<Bytes, nat>, v2: bool, data: Bytes, i: nat)
    requires Encodable(es, ix) && Flat(Sections(es, ix, v2)) <= data && i < |es|
    ensures |OffsetsOf(es, v2)| == CHUNKS
    ensures ReadAt(data, OffsetsOf(es, v2)[CDAT] + ROW * i, ROW) == Ok(CommitRows(es, ix, |es|)[i])
  {
    hide Flat, Encodable, Sections, ReadAt, Start, OffsetsOf;
    RowPart(es, ix, v2);
    OffsetsOfCount(es, v2);
    OffsetsAre(es, ix, v2);
    StartIs(es, ix, v2, 4);
    RowRead(data, Sections(es, ix, v2), 4, CommitRows(es, ix, |es|), ROW, i);
  }

  // --- Corrected dates ------------------------------------------------------------------------

  lemma {:induction false} GenerationWordIs(vs: seq<nat>, n: nat, i: nat)
    requires i < n <= |vs|
    ensures GenerationWords(vs, n)[i] == if vs[i] >= MSB32 then |Overflows(vs, i)| + MSB32 else vs[i]
  {
    if i < n - 1 {
      GenerationWordIs(vs, n - 1, i);
    }
  }

  lemma {:induction false} OverflowIs(vs: seq<nat>, n: nat, i: nat)
    requires i < n <= |vs| && vs[i] >= MSB32
    ensures |Overflows(vs, i)| < |Overflows(vs, n)| && Overflows(vs, n)[|Overflows(vs, i)|] == vs[i]
  {
    if i < n - 1 {
      OverflowIs(vs, n - 1, i);
    }
  }

  /** The distance, added to the time, is the corrected date again. */
  lemma DateBack(g: nat, when: nat)
    requires g < U64_LIMIT && when < U64_LIMIT
    ensures (when + (g - when) % U64_LIMIT) % U64_LIMIT == g
  {
    var d := (g - when) % U64_LIMIT;
    if g >= when {
      assert d == g - when;
    } else {
      assert d == g - when + U64_LIMIT;
    }
  }

  /** Two distances that lead to the same date are the same. */
  lemma DistanceUnique(when: nat, a: nat, b: nat)
    requires when < U64_LIMIT && a < U64_LIMIT && b < U64_LIMIT && (when + a) % U64_LIMIT == (when + b) % U64_LIMIT
    ensures a == b
  {
  }

  lemma {:induction false} GenerationRead(es: seq<Commit>, ix: map<Bytes, nat>, data: Bytes, i: nat)
    requires Encodable(es, ix) && Flat(Sections(es, ix, true)) <= data && i < |es|
    ensures |OffsetsOf(es, true)| == CHUNKS
    ensures WordAt(data, OffsetsOf(es, true)[GDA2] + 4 * i, GenerationWords(V2Datas(es), |es|)[i])
  {
    hide Flat, Encodable, Sections, ReadAt, Start, OffsetsOf, Get32, U32, GenerationWords, V2Datas, GenerationRows;
    EncodableParts(es, ix);
    GenerationPart(es, ix, true);
    OffsetsOfCount(es, true);
    OffsetsAre(es, ix, true);
    StartIs(es, ix, true, 6);
    GenerationRowsAre(es);
    RowRead(data, Sections(es, ix, true), 6, GenerationRows(es), 4, i);
    Get32U32(GenerationWords(V2Datas(es), |es|)[i]);
  }

  lemma {:induction false} GenerationRowsAre(es: seq<Commit>)
    requires |es| < PARENT_NONE
    ensures |V2Datas(es)| == |es| && |GenerationWords(V2Datas(es), |es|)| == |es| && |GenerationRows(es)| == |es|
    ensures Words32(GenerationWords(V2Datas(es), |es|))
    ensures forall i :: 0 <= i < |es| ==> |GenerationRows(es)[i]| == 4 && GenerationRows(es)[i] == U32(GenerationWords(V2Datas(es), |es|)[i])
  {
    hide U32;
    GenerationFits(V2Datas(es), |es|);
  }

  lemma {:induction false} OverflowRead(es: seq<Commit>, ix: map<Bytes, nat>, data: Bytes, j: nat)
    requires Encodable(es, ix) && Flat(Sections(es, ix, true)) <= data && Declared(es) > 0
    requires j < |Overflows(V2Datas(es), |es|)|
    ensures |OffsetsOf(es, true)| == CHUNKS
    ensures var r := ReadAt(data, OffsetsOf(es, true)[GDO2] + 8 * j, 8); r.Ok? && Get64(r.value) == Overflows(V2Datas(es), |es|)[j]
  {
    hide Flat, Encodable, Sections, ReadAt, Start, OffsetsOf, Get64, U64, Overflows, V2Datas, OverflowRows;
    OverflowPart(es, ix, true);
    OffsetsOfCount(es, true);
    OffsetsAre(es, ix, true);
    StartIs(es, ix, true, 7);
    OverflowRowsAre(es);
    RowRead(data, Sections(es, ix, true), 7, OverflowRows(es), 8, j);
    Get64U64(Overflows(V2Datas(es), |es|)[j]);
  }

  lemma {:induction false} OverflowRowsAre(es: seq<Commit>)
    ensures |V2Datas(es)| == |es| && |OverflowRows(es)| == |Overflows(V2Datas(es), |es|)|
    ensures forall i :: 0 <= i < |OverflowRows(es)| ==> Overflows(V2Datas(es), |es|)[i] < U64_LIMIT && |OverflowRows(es)[i]| == 8
    ensures forall i :: 0 <= i < |OverflowRows(es)| ==> OverflowRows(es)[i] == U64(Overflows(V2Datas(es), |es|)[i])
  {
    hide U64;
    OverflowsFit(V2Datas(es), |es|);
  }

  /** No distance is too large for 31 bits, or the chunk table counts one as too large. */
  ghost predicate DatesOk(es: seq<Commit>, v2: bool) {
    v2 ==> Declared(es) > 0 || forall i :: 0 <= i < |es| ==> V2Data(es[i]) < MSB32
  }

  /** The corrected dates are read back. */
  lemma {:induction false} DatesRead(es: seq<Commit>, ix: map<Bytes, nat>, v2: bool, data: Bytes, i: nat)
    requires Encodable(es, ix) && Flat(Sections(es, ix, v2)) <= data && i < |es|
    requires v2 ==> es[i].generationV2 > 0 && (V2Data(es[i]) < MSB32 || Declared(es) > 0)
    ensures |FileIndexOf(es, v2, data).offsets| == CHUNKS
    ensures GenerationV2At(FileIndexOf(es, v2, data), i, es[i].when) == Ok(if v2 then es[i].generationV2 else 0)
  {
    hide Flat, Encodable, Sections, ReadAt, OffsetsOf, Get32, Get64, GenerationWords, Overflows, ExtraTo, Declared, FanoutOf;
    OffsetsOfCount(es, v2);
    Opens(es, ix, v2, data);
    if v2 {
      RowFits(es, ix, i);
      GenerationRead(es, ix, data, i);
      GenerationWordIs(V2Datas(es), |es|, i);
      DateBack(es[i].generationV2, es[i].when);
      if V2Data(es[i]) >= MSB32 {
        OverflowIs(V2Datas(es), |es|, i);
        OverflowRead(es, ix, data, |Overflows(V2Datas(es), i)|);
      }
    }
  }

  // --- The whole ------------------------------------------------------------------------------

  /** What is read of a commit is what was written. */
  ghost predicate Recovered(c: Commit, ix: map<Bytes, nat>, v2: bool, d: CommitData) {
    && d.tree == c.tree && d.parents == c.parents && d.parentIndexes == Indexes(ix, c.parents)
    && d.generation == c.generation && d.when == c.when && d.generationV2 == if v2 then c.generationV2 else 0
  }

  ghost predicate GivenBack(es: seq<Commit>, ix: map<Bytes, nat>, v2: bool, fi: FileIndex, i: nat)
    requires Opened(fi) && i < |es|
  {
    CommitDataAt(fi, i).Ok? && Recovered(es[i], ix, v2, CommitDataAt(fi, i).value)
  }

  /** Everything but the corrected date is always read back. */
  lemma RowReadsBack(es: seq<Commit>, ix: map<Bytes, nat>, v2: bool, data: Bytes, i: nat)
    requires Encodable(es, ix) && Flat(Sections(es, ix, v2)) <= data && i < |es|
    ensures Opened(FileIndexOf(es, v2, data))
    ensures var fi := FileIndexOf(es, v2, data);
            var c := es[i];
            CommitDataAt(fi, i) ==
              match GenerationV2At(fi, i, c.when)
              case Err(e) => Err(e)
              case Ok(g) => Ok(CommitData(c.tree, Indexes(ix, c.parents), c.parents, c.generation, g, c.when))
  {
    hide Flat, Encodable, Sections, ReadAt, OffsetsOf, Get32, Get64, ExtraTo, CommitRow, CommitRows, HashesAt, ParentIndexes, GenerationV2At, Parent1, Parent2, OidAt, FanoutOf;
    var fi, c := FileIndexOf(es, v2, data), es[i];
    FileSorted(es, ix, v2, data);
    RowRead36(es, ix, v2, data, i);
    CommitRowIs(es, ix, |es|, i);
    RowParts(c, Parent1(ix, c.parents), Parent2(ix, c.parents, ExtraTo(es, i)));
    ParentsRead(es, ix, v2, data, i);
    ParentHashesRead(es, ix, v2, data, c.parents);
  }

  /** A file opens and gives back every commit, unless its chunk table leaves out large
      distances that the file has. */
  lemma ReadsBack(es: seq<Commit>, ix: map<Bytes, nat>, v2: bool, data: Bytes, i: nat)
    requires Encodable(es, ix) && Flat(Sections(es, ix, v2)) <= data && i < |es|
    requires DatesOk(es, v2) && (v2 ==> es[i].generationV2 > 0)
    ensures Opened(FileIndexOf(es, v2, data)) && Open(data) == Ok(FileIndexOf(es, v2, data))
    ensures GivenBack(es, ix, v2, FileIndexOf(es, v2, data), i)
  {
    hide Flat, Encodable, Sections, GenerationV2At, CommitDataAt, Open, FileIndexOf, Opened, Declared, V2Data;
    Opens(es, ix, v2, data);
    RowReadsBack(es, ix, v2, data, i);
    DatesRead(es, ix, v2, data, i);
  }

  /** Some distance needs more than 31 bits, but none more than 32: the first such commit is
      read with the beginning of the file as its distance. */
  lemma FirstLargeMisread(es: seq<Commit>, ix: map<Bytes, nat>, data: Bytes) returns (i: nat)
    requires Encodable(es, ix) && Flat(Sections(es, ix, true)) <= data && !DatesOk(es, true)
    requires forall k :: 0 <= k < |es| ==> es[k].generationV2 > 0
    ensures i < |es| && Opened(FileIndexOf(es, true, data))
    ensures !GivenBack(es, ix, true, FileIndexOf(es, true, data), i)
  {
    hide Flat, Encodable, Sections, ReadAt, OffsetsOf, Get32, Get64, GenerationWords, ExtraTo, Declared, FanoutOf, CommitDataAt, V2Data;
    i := FirstLarge(es, |es|);
    var fi := FileIndexOf(es, true, data);
    OffsetsOfCount(es, true);
    Opens(es, ix, true, data);
    OffsetsAre(es, ix, true);
    RowFits(es, ix, i);
    RowReadsBack(es, ix, true, data, i);
    GenerationRead(es, ix, data, i);
    GenerationWordIs(V2Datas(es), |es|, i);
    HeaderRead(es, ix, data);
    MisreadDate(es[i], Get64(data[0..8])) by {
      NotDeclared(es, i);
    }
    ReadStart(data);
  }

  lemma ReadStart(data: Bytes)
    requires |data| >= 8
    ensures ReadAt(data, 0, 8) == Ok(data[0..8])
  {
  }

  lemma MisreadDate(c: Commit, x: nat)
    requires 0 < c.generationV2 < MAX_U64 && c.when < TIME_LIMIT && V2Data(c) < U32_LIMIT <= x < U64_LIMIT
    ensures (c.when + x) % U64_LIMIT != c.generationV2
  {
    DateBack(c.generationV2, c.when);
    if (c.when + x) % U64_LIMIT == c.generationV2 {
      DistanceUnique(c.when, x, V2Data(c));
    }
  }

  lemma {:induction false} NotDeclared(es: seq<Commit>, i: nat)
    requires Declared(es) == 0 && i < |es|
    ensures V2Data(es[i]) < U32_LIMIT
  {
    hide V2Data;
    if i < |es| - 1 {
      NotDeclared(es[..|es| - 1], i);
    }
  }

  lemma {:induction false} FirstLarge(es: seq<Commit>, n: nat) returns (i: nat)
    requires n <= |es| && exists k :: 0 <= k < n && V2Data(es[k]) >= MSB32
    ensures i < n && V2Data(es[i]) >= MSB32 && Overflows(V2Datas(es), i) == []
  {
    hide V2Data;
    if k :| 0 <= k < n - 1 && V2Data(es[k]) >= MSB32 {
      i := FirstLarge(es, n - 1);
    } else {
      i := n - 1;
      NoOverflows(V2Datas(es), i);
    }
  }

  lemma {:induction false} NoOverflows(vs: seq<nat>, n: nat)
    requires n <= |vs| && forall k :: 0 <= k < n ==> vs[k] < MSB32
    ensures Overflows(vs, n) == []
  {
    if n > 0 {
      NoOverflows(vs, n - 1);
    }
  }

  lemma HeaderRead(es: seq<Commit>, ix: map<Bytes, nat>, data: Bytes)
    requires Encodable(es, ix) && Flat(Sections(es, ix, true)) <= data
    ensures |data| >= 8 && Get64(data[0..8]) >= U32_LIMIT
  {
    hide Flat, Encodable, Sections;
    HeaderIsIn(es, ix, true, data);
    var s := data[0..8];
    assert s[0] == data[..4][0] == 67;
    LeadingByte(s);
  }

  lemma LeadingByte(s: Bytes)
    requires |s| == 8 && s[0] >= 1
    ensures Get64(s) >= U32_LIMIT
  {
    assert s[..1][..0] == [];
    assert Number(s[..1]) >= 1;
    assert s[..2][..1] == s[..1] && s[..3][..2] == s[..2] && s[..4][..3] == s[..3];
    assert Number(s[..2]) >= 256 && Number(s[..3]) >= 0x1_0000 && Number(s[..4]) >= 0x100_0000;
    assert s[..5][..4] == s[..4] && s[..6][..5] == s[..5] && s[..7][..6] == s[..6];
    assert Number(s[..5]) >= U32_LIMIT;
    assert Number(s[..6]) >= U32_LIMIT && Number(s[..7]) >= U32_LIMIT;
  }

  /** Exactly when every commit is read back. */
  lemma ReadsBackExactly(es: seq<Commit>, ix: map<Bytes, nat>, v2: bool, data: Bytes)
    requires Encodable(es, ix) && Flat(Sections(es, ix, v2)) <= data
    requires v2 ==> forall k :: 0 <= k < |es| ==> es[k].generationV2 > 0
    ensures Opened(FileIndexOf(es, v2, data)) && Open(data) == Ok(FileIndexOf(es, v2, data))
    ensures DatesOk(es, v2) <==> forall i: nat :: i < |es| ==> GivenBack(es, ix, v2, FileIndexOf(es, v2, data), i)
  {
    hide Flat, Encodable, Sections, CommitDataAt, Open, FileIndexOf, Opened, DatesOk, Recovered;
    Opens(es, ix, v2, data);
    FileSorted(es, ix, v2, data);
    assert Opened(FileIndexOf(es, v2, data)) by {
      SortedOpened(FileIndexOf(es, v2, data));
    }
    if DatesOk(es, v2) {
      forall i: nat | i < |es|
        ensures GivenBack(es, ix, v2, FileIndexOf(es, v2, data), i)
      {
        ReadsBack(es, ix, v2, data, i);
      }
    } else {
      DatesMatter(es, v2);
      var i := FirstLargeMisread(es, ix, data);
    }
  }

  /** One commit whose corrected date is 2^31 seconds late: its distance needs 32 bits, and the
      file that is written of it gives another date back, or none. */
  method LargeExample(digest: Bytes -> Bytes) returns (c: Commit, r: Result<CommitData>)
    ensures c.when == 0 && c.generationV2 == MSB32
    ensures r.Err? || r.value.generationV2 != c.generationV2
  {
    hide Flat, Encodable, Sections, CommitDataAt, Open, FileIndexOf, Opened, DatesOk, Kept, Writable, ExtraTo, Declared;
    c := Commit(seq(HASH, _ => 1), seq(HASH, _ => 2), [], 1, MSB32, 0);
    var mi := new MemoryIndex();
    mi.Add(c);
    assert mi.commits == [c];
    AloneWritable(mi, c);
    LargeDistance(c);
    var data;
    ghost var es, ix;
    data, es, ix := Encode(mi, digest);
    AloneWritten(es, c);
    ReadsBackExactly(es, ix, true, data);
    RowReadsBack(es, ix, true, data, 0);
    var fi := OpenFileIndex(data);
    r := GetCommitDataByIndex(fi.value, 0);
  }

  lemma LargeDistance(c: Commit)
    requires c.when == 0 && c.generationV2 == MSB32
    ensures !DatesOk([c], true)
  {
    assert [c][..0] == [];
    assert Declared([c][..0]) == 0;
    assert V2Data([c][0]) == MSB32;
    assert Declared([c]) == 0;
  }

  lemma AloneWritable(mi: MemoryIndex, c: Commit)
    requires mi.Valid() && mi.commits == [c] && CommitOk(c, mi.indexMap) && c.parents == [] && c.generationV2 != 0
    ensures Writable(mi) && mi.hasGenerationV2 && Kept(mi.commits, mi.indexMap) == [c]
  {
    assert ExtraTo([c], 0) == 0 && ExtraTo([c], 1) == 0;
    OnceEachWritable(mi);
  }

  lemma AloneWritten(es: seq<Commit>, c: Commit)
    requires multiset(es) == multiset([c])
    ensures es == [c]
  {
    assert |es| == |multiset(es)| == 1;
    assert es[0] in multiset(es);
  }

  lemma SortedOpened(fi: FileIndex)
    requires Sorted(fi)
    ensures Opened(fi)
  {
  }

  lemma DatesMatter(es: seq<Commit>, v2: bool)
    requires !DatesOk(es, v2)
    ensures v2
  {
  }

  /** Writing an index and looking up a hash in the file: the hash is found exactly if it was
      added, with what was last added under it. */
  method WriteAndFind(mi: MemoryIndex, digest: Bytes -> Bytes, h: Bytes) returns (r: Result<CommitData>, ghost ix: map<Bytes, nat>)
    requires Writable(mi) && |h| == HASH && DatesOk(Kept(mi.commits, mi.indexMap), mi.hasGenerationV2)
    ensures r.Ok? <==> h in mi.indexMap
    ensures r.Ok? ==> Recovered(mi.commits[mi.indexMap[h]], ix, mi.hasGenerationV2, r.value)
    ensures r.Err? ==> r.error == NotFound
  {
    hide Flat, Encodable, Sections, CommitDataAt, Open, FileIndexOf, DatesOk, Recovered, OidAt, Sorted;
    ghost var es;
    var file;
    file, es, ix := Encode(mi, digest);
    DatesPermuted(es, Kept(mi.commits, mi.indexMap), mi.hasGenerationV2);
    Opens(es, ix, mi.hasGenerationV2, file);
    FileSorted(es, ix, mi.hasGenerationV2, file);
    var fi := OpenFileIndex(file);
    var i := GetIndexByHash(fi.value, h);
    WrittenOnce(mi, es, ix, h);
    if i.Err? {
      return Err(i.error), ix;
    }
    ReadsBack(es, ix, mi.hasGenerationV2, file, i.value);
    r := GetCommitDataByIndex(fi.value, i.value);
  }

  lemma DatesPermuted(s: seq<Commit>, t: seq<Commit>, v2: bool)
    requires multiset(s) == multiset(t)
    ensures DatesOk(s, v2) <==> DatesOk(t, v2)
  {
    hide V2Data, Declared, ExtraTo;
    CountsAgree(s, t);
    assert forall i :: 0 <= i < |s| ==> s[i] in multiset(s);
    assert forall i :: 0 <= i < |t| ==> t[i] in multiset(t);
  }

  lemma WrittenOnce(mi: MemoryIndex, es: seq<Commit>, ix: map<Bytes, nat>, h: Bytes)
    requires Writable(mi) && multiset(es) == multiset(Kept(mi.commits, mi.indexMap))
    ensures h in mi.indexMap <==> exists i :: 0 <= i < |es| && es[i].hash == h
    ensures forall i :: 0 <= i < |es| && es[i].hash == h ==> h in mi.indexMap && es[i] == mi.commits[mi.indexMap[h]]
    ensures mi.hasGenerationV2 ==> forall i :: 0 <= i < |es| ==> es[i].generationV2 > 0
  {
    hide ExtraTo, CommitOk, KeptTo, CountsMatch, ParentsKnown;
    var kept := Kept(mi.commits, mi.indexMap);
    KeptAre(mi.commits, mi.indexMap, |mi.commits|);
    forall i | 0 <= i < |es| ensures es[i].hash in mi.indexMap && es[i] == mi.commits[mi.indexMap[es[i].hash]] && es[i] in mi.commits {
      assert es[i] in multiset(es) && es[i] in multiset(kept);
    }
    if h in mi.indexMap {
      var c := mi.commits[mi.indexMap[h]];
      assert c in multiset(kept) && c in multiset(es);
      var i :| 0 <= i < |es| && es[i] == c;
      assert es[i].hash == h;
    }
  }
}
