/** Reading a commit-graph file: chunk table, fanout, lookup by hash and commit data. */
module CommitGraphFile {
  import opened Bytes

  const HASH := 20
  const ROW := 36
  const FANOUT := 256
  const PARENT_NONE := 0x7000_0000
  const SIGNATURE: Bytes := ['C' as int, 'G' as int, 'P' as int, 'H' as int]

  /** The kinds of chunks, as positions in the list of their signatures. */
  const OIDF := 0
  const OIDL := 1
  const CDAT := 2
  const GDA2 := 3
  const GDO2 := 4
  const EDGE := 5
  const CHUNKS := 9

  const SIGNATURES: Bytes := [
    'O' as int, 'I' as int, 'D' as int, 'F' as int, 'O' as int, 'I' as int, 'D' as int, 'L' as int,
    'C' as int, 'D' as int, 'A' as int, 'T' as int, 'G' as int, 'D' as int, 'A' as int, '2' as int,
    'G' as int, 'D' as int, 'O' as int, '2' as int, 'E' as int, 'D' as int, 'G' as int, 'E' as int,
    'B' as int, 'I' as int, 'D' as int, 'X' as int, 'B' as int, 'D' as int, 'A' as int, 'T' as int,
    'B' as int, 'A' as int, 'S' as int, 'E' as int, 0, 0, 0, 0]

  /** `Signature`. */
  function SignatureOf(chunk: nat): (s: Bytes)
    ensures |s| == 4
  {
    if chunk >= CHUNKS - 1 then SIGNATURES[36..40] else SIGNATURES[4 * chunk..4 * chunk + 4]
  }

  /** `bytes.Index`: the first place from `i` on. */
  function IndexFrom(s: Bytes, sub: Bytes, i: nat): int
    requires i <= |s|
    decreases |s| - i
  {
    if i + |sub| > |s| then -1
    else if s[i..i + |sub|] == sub then i
    else if i == |s| then -1
    else IndexFrom(s, sub, i + 1)
  }

  /** `ChunkTypeFromBytes`: unknown, or found between two signatures, is -1. */
  function ChunkTypeFromBytes(b: Bytes): int {
    var i := IndexFrom(SIGNATURES, b, 0);
    if i == -1 || i % 4 != 0 then -1 else i / 4
  }

  ghost predicate MatchesAt(s: Bytes, sub: Bytes, j: nat) {
    j + |sub| <= |s| && s[j..j + |sub|] == sub
  }

  lemma {:induction false} FoundAt(s: Bytes, sub: Bytes, i: nat, at: nat)
    requires i <= at && MatchesAt(s, sub, at) && forall j: nat :: i <= j < at ==> !MatchesAt(s, sub, j)
    ensures IndexFrom(s, sub, i) == at
    decreases at - i
  {
    if i < at {
      assert !MatchesAt(s, sub, i);
      FoundAt(s, sub, i + 1, at);
    }
  }

  /** The four bytes at `i` and those at `j` differ. */
  ghost predicate Differ(s: Bytes, i: nat, j: nat) {
    i + 4 <= |s| && j + 4 <= |s| && (s[i] != s[j] || s[i + 1] != s[j + 1] || s[i + 2] != s[j + 2] || s[i + 3] != s[j + 3])
  }

  lemma {:induction false} FirstAt(s: Bytes, at: nat)
    requires at + 4 <= |s| && forall j: nat :: j < at ==> Differ(s, j, at)
    ensures IndexFrom(s, s[at..at + 4], 0) == at
  {
    var sub := s[at..at + 4];
    forall j: nat | j < at ensures !MatchesAt(s, sub, j) {
      assert Differ(s, j, at);
      var t := s[j..j + 4];
      assert t[0] == s[j] && t[1] == s[j + 1] && t[2] == s[j + 2] && t[3] == s[j + 3];
      assert sub[0] == s[at] && sub[1] == s[at + 1] && sub[2] == s[at + 2] && sub[3] == s[at + 3];
    }
    FoundAt(s, sub, 0, at);
  }

  /** The signatures that are written are told apart when they are read. */
  lemma SignatureRead(chunk: nat)
    requires chunk <= EDGE || chunk == CHUNKS
    ensures ChunkTypeFromBytes(SignatureOf(chunk)) == chunk
  {
    hide Differ, IndexFrom;
    forall j: nat | j < 4 * chunk ensures Differ(SIGNATURES, j, 4 * chunk) {
      if chunk == CHUNKS {
        NotZero(j);
      } else {
        NotEarlier(chunk, j);
      }
    }
    FirstAt(SIGNATURES, 4 * chunk);
  }

  lemma NotZero(j: nat)
    requires j < 36
    ensures Differ(SIGNATURES, j, 36)
  {
    assert SIGNATURES[j] != 0;
  }

  lemma NotEarlier(chunk: nat, j: nat)
    requires chunk <= EDGE && j < 4 * chunk
    ensures Differ(SIGNATURES, j, 4 * chunk)
  {
    if chunk > GDA2 {
      NotEarlierLate(chunk, j);
    }
  }

  lemma NotEarlierLate(chunk: nat, j: nat)
    requires GDA2 < chunk <= EDGE && j < 4 * chunk
    ensures Differ(SIGNATURES, j, 4 * chunk)
  {
  }

  // --- Opening --------------------------------------------------------------------------------

  datatype Error = Eof | Malformed | UnsupportedVersion | UnsupportedHash | NotFound

  datatype Result<T> = Ok(value: T) | Err(error: Error)

  function ReadAt(data: Bytes, p: int, n: nat): (r: Result<Bytes>)
    ensures r.Ok? ==> |r.value| == n
  {
    if p < 0 || p + n > |data| then Err(Eof) else Ok(data[p..p + n])
  }

  /** The offsets of the chunks, from entry `i` of the chunk table on. */
  function ChunkOffsets(data: Bytes, i: nat, offsets: seq<int>): Result<seq<int>>
    requires |offsets| == CHUNKS
    decreases |data| - 12 * i
  {
    var p := 8 + 12 * i;
    if p + 12 > |data| then Err(Eof)
    else
      var chunk := ChunkTypeFromBytes(data[p..p + 4]);
      if chunk < 0 then ChunkOffsets(data, i + 1, offsets)
      else if chunk >= CHUNKS then Ok(offsets)
      else ChunkOffsets(data, i + 1, offsets[chunk := ToInt64(Get64(data[p + 4..p + 12]))])
  }

  /** `readChunkHeaders`. */
  method ReadChunkHeaders(data: Bytes) returns (r: Result<seq<int>>)
    ensures r == match ChunkOffsets(data, 0, seq(CHUNKS, _ => 0))
                 case Err(e) => Err(e)
                 case Ok(o) => if |o| != CHUNKS || o[OIDF] <= 0 || o[OIDL] <= 0 || o[CDAT] <= 0 then Err(Malformed) else Ok(o)
  {
    hide ChunkTypeFromBytes, Get64, ToInt64;
    var offsets: seq<int> := seq(CHUNKS, _ => 0);
    var i := 0;
    while true
      invariant |offsets| == CHUNKS
      invariant ChunkOffsets(data, 0, seq(CHUNKS, _ => 0)) == ChunkOffsets(data, i, offsets)
      decreases |data| - 12 * i
    {
      var p := 8 + 12 * i;
      if p + 12 > |data| {
        return Err(Eof);
      }
      var chunk := ChunkTypeFromBytes(data[p..p + 4]);
      if chunk >= 0 {
        if chunk >= CHUNKS {
          break;
        }
        offsets := offsets[chunk := ToInt64(Get64(data[p + 4..p + 12]))];
      }
      i := i + 1;
    }
    if offsets[OIDF] <= 0 || offsets[OIDL] <= 0 || offsets[CDAT] <= 0 {
      return Err(Malformed);
    }
    return Ok(offsets);
  }

  /** The first `k` values of the fanout at `p`. */
  function FanoutAt(data: Bytes, p: int, k: nat): (r: Result<seq<nat>>)
    ensures r.Ok? ==> |r.value| == k
  {
    if k == 0 then Ok([])
    else
      match FanoutAt(data, p, k - 1)
      case Err(e) => Err(e)
      case Ok(f) =>
        match ReadAt(data, p + 4 * (k - 1), 4)
        case Err(e) => Err(e)
        case Ok(s) => if Get32(s) >= MSB32 then Err(Malformed) else Ok(f + [Get32(s)])
  }

  lemma {:induction false} FanoutFails(data: Bytes, p: int, k: nat, n: nat)
    requires k <= n && FanoutAt(data, p, k).Err?
    ensures FanoutAt(data, p, n) == FanoutAt(data, p, k)
  {
    if k < n {
      FanoutFails(data, p, k, n - 1);
    }
  }

  /** `readFanout`. */
  method ReadFanout(data: Bytes, p: int) returns (r: Result<seq<nat>>)
    ensures r == FanoutAt(data, p, FANOUT)
  {
    hide Get32;
    var f: seq<nat> := [];
    for k := 0 to FANOUT
      invariant FanoutAt(data, p, k) == Ok(f)
    {
      var s := ReadAt(data, p + 4 * k, 4);
      if s.Err? {
        FanoutFails(data, p, k + 1, FANOUT);
        return Err(s.error);
      }
      if Get32(s.value) >= MSB32 {
        FanoutFails(data, p, k + 1, FANOUT);
        return Err(Malformed);
      }
      f := f + [Get32(s.value)];
    }
    return Ok(f);
  }

  datatype FileIndex = FileIndex(data: Bytes, fanout: seq<nat>, offsets: seq<int>, hasGenerationV2: bool)

  ghost predicate Opened(fi: FileIndex) {
    |fi.fanout| == FANOUT && |fi.offsets| == CHUNKS
  }

  /** What opening a file gives. */
  ghost function Open(data: Bytes): (r: Result<FileIndex>)
    ensures r.Ok? ==> Opened(r.value)
  {
    if |data| < 4 then Err(Eof)
    else if data[..4] != SIGNATURE then Err(Malformed)
    else if |data| < 8 then Err(Eof)
    else if data[4] != 1 then Err(UnsupportedVersion)
    else if data[5] != 1 then Err(UnsupportedHash)
    else
      match ChunkOffsets(data, 0, seq(CHUNKS, _ => 0))
      case Err(e) => Err(e)
      case Ok(o) =>
        if |o| != CHUNKS || o[OIDF] <= 0 || o[OIDL] <= 0 || o[CDAT] <= 0 then Err(Malformed)
        else
          match FanoutAt(data, o[OIDF], FANOUT)
          case Err(e) => Err(e)
          case Ok(f) => Ok(FileIndex(data, f, o, o[GDA2] > 0))
  }

  lemma {:induction false} OffsetsCount(data: Bytes, i: nat, offsets: seq<int>)
    requires |offsets| == CHUNKS
    ensures ChunkOffsets(data, i, offsets).Ok? ==> |ChunkOffsets(data, i, offsets).value| == CHUNKS
    decreases |data| - 12 * i
  {
    hide ChunkTypeFromBytes, Get64, ToInt64;
    var p := 8 + 12 * i;
    if p + 12 <= |data| {
      var chunk := ChunkTypeFromBytes(data[p..p + 4]);
      if chunk < 0 {
        OffsetsCount(data, i + 1, offsets);
      } else if chunk < CHUNKS {
        OffsetsCount(data, i + 1, offsets[chunk := ToInt64(Get64(data[p + 4..p + 12]))]);
      }
    }
  }

  /** `OpenFileIndex`. */
  method OpenFileIndex(data: Bytes) returns (r: Result<FileIndex>)
    ensures r == Open(data)
  {
    hide ChunkOffsets, FanoutAt;
    if |data| < 4 {
      return Err(Eof);
    }
    if data[..4] != SIGNATURE {
      return Err(Malformed);
    }
    if |data| < 8 {
      return Err(Eof);
    }
    if data[4] != 1 {
      return Err(UnsupportedVersion);
    }
    if data[5] != 1 {
      return Err(UnsupportedHash);
    }
    OffsetsCount(data, 0, seq(CHUNKS, _ => 0));
    var offsets := ReadChunkHeaders(data);
    if offsets.Err? {
      return Err(offsets.error);
    }
    var fanout := ReadFanout(data, offsets.value[OIDF]);
    if fanout.Err? {
      return Err(fanout.error);
    }
    return Ok(FileIndex(data, fanout.value, offsets.value, offsets.value[GDA2] > 0));
  }

  // --- Lookup ---------------------------------------------------------------------------------

  function OidAt(fi: FileIndex, i: nat): (r: Result<Bytes>)
    requires |fi.offsets| == CHUNKS
    ensures r.Ok? ==> |r.value| == HASH
  {
    ReadAt(fi.data, fi.offsets[OIDL] + HASH * i, HASH)
  }

  /** The hashes are all there, in order, and the fanout counts them by their first byte. */
  ghost predicate Sorted(fi: FileIndex) {
    && Opened(fi)
    && (forall i: nat :: i < fi.fanout[255] ==> OidAt(fi, i).Ok?)
    && (forall i: nat, j: nat :: i < j < fi.fanout[255] ==> Before(OidAt(fi, i).value, OidAt(fi, j).value))
    && (forall b: nat, i: nat :: b < FANOUT && i < fi.fanout[255] ==> (i < fi.fanout[b] <==> OidAt(fi, i).value[0] <= b))
    && (forall b: nat :: b < FANOUT ==> fi.fanout[b] <= fi.fanout[255])
  }

  /** `GetIndexByHash`: in a sorted file, finds the hash exactly if it is there. */
  method GetIndexByHash(fi: FileIndex, h: Bytes) returns (r: Result<nat>)
    requires Sorted(fi) && |h| == HASH
    ensures r.Ok? ==> r.value < fi.fanout[255] && OidAt(fi, r.value) == Ok(h)
    ensures r.Err? ==> r.error == NotFound && forall i: nat :: i < fi.fanout[255] ==> OidAt(fi, i) != Ok(h)
  {
    hide OidAt, Before;
    var low := if h[0] == 0 then 0 else fi.fanout[h[0] - 1];
    var high := fi.fanout[h[0]];
    while low < high
      invariant 0 <= low && 0 <= high <= fi.fanout[255]
      invariant forall i: nat :: i < low && i < fi.fanout[255] ==> OidAt(fi, i) != Ok(h)
      invariant forall i: nat :: high <= i < fi.fanout[255] ==> OidAt(fi, i) != Ok(h)
      decreases high - low
    {
      var mid := (low + high) / 2;
      var oid := OidAt(fi, mid);
      BeforeOrder(h, oid.value);
      NotBeside(fi, h, mid);
      if Before(h, oid.value) {
        high := mid;
      } else if h == oid.value {
        return Ok(mid);
      } else {
        low := mid + 1;
      }
    }
    return Err(NotFound);
  }

  /** On the wrong side of an entry a hash is not found. */
  lemma {:induction false} NotBeside(fi: FileIndex, h: Bytes, mid: nat)
    requires Sorted(fi) && mid < fi.fanout[255]
    ensures Before(h, OidAt(fi, mid).value) ==> forall i: nat :: mid <= i < fi.fanout[255] ==> OidAt(fi, i) != Ok(h)
    ensures Before(OidAt(fi, mid).value, h) ==> forall i: nat :: i <= mid ==> OidAt(fi, i) != Ok(h)
  {
    hide OidAt, Before;
    forall i: nat | i < fi.fanout[255] && OidAt(fi, i) == Ok(h)
      ensures Before(h, OidAt(fi, mid).value) ==> i < mid
      ensures Before(OidAt(fi, mid).value, h) ==> i > mid
    {
      BeforeOrder(h, OidAt(fi, mid).value);
    }
  }

  // --- Commit data ----------------------------------------------------------------------------

  datatype CommitData = CommitData(
    tree: Bytes, parentIndexes: seq<nat>, parents: seq<Bytes>, generation: nat, generationV2: nat, when: nat)

  /** The edges from `p` on, up to the one with the highest bit. */
  function EdgesAt(data: Bytes, p: int): Result<seq<nat>>
    decreases |data| - p
  {
    match ReadAt(data, p, 4)
    case Err(e) => Err(e)
    case Ok(s) =>
      if Get32(s) >= MSB32 then Ok([Get32(s) - MSB32])
      else
        match EdgesAt(data, p + 4)
        case Err(e) => Err(e)
        case Ok(rest) => Ok([Get32(s)] + rest)
  }

  method ReadEdges(data: Bytes, first: nat, start: int) returns (r: Result<seq<nat>>)
    ensures r == match EdgesAt(data, start) case Err(e) => Err(e) case Ok(rest) => Ok([first] + rest)
  {
    hide Get32;
    var indexes, offset := [first], start;
    while true
      invariant match EdgesAt(data, start)
                case Err(e) => EdgesAt(data, offset) == Err(e)
                case Ok(rest) => EdgesAt(data, offset).Ok? && [first] + rest == indexes + EdgesAt(data, offset).value
      decreases |data| - offset
    {
      var s := ReadAt(data, offset, 4);
      if s.Err? {
        return Err(s.error);
      }
      var parent := Get32(s.value);
      ghost var rest := EdgesAt(data, offset);
      if parent >= MSB32 {
        return Ok(indexes + [parent - MSB32]);
      }
      assert rest.Ok? ==> indexes + rest.value == indexes + [parent] + EdgesAt(data, offset + 4).value;
      indexes, offset := indexes + [parent], offset + 4;
    }
  }

  /** Positions of parents, from the two numbers in the row. */
  function ParentIndexes(fi: FileIndex, parent1: nat, parent2: nat): Result<seq<nat>>
    requires |fi.offsets| == CHUNKS
  {
    if parent2 >= MSB32 then
      match EdgesAt(fi.data, fi.offsets[EDGE] + 4 * (parent2 - MSB32))
      case Err(e) => Err(e)
      case Ok(rest) => Ok([parent1 % MSB32] + rest)
    else if parent2 != PARENT_NONE then Ok([parent1 % MSB32, parent2])
    else if parent1 != PARENT_NONE then Ok([parent1 % MSB32])
    else Ok([])
  }

  function HashesAt(fi: FileIndex, indexes: seq<nat>): Result<seq<Bytes>>
    requires Opened(fi)
  {
    if indexes == [] then Ok([])
    else
      var n := |indexes| - 1;
      match HashesAt(fi, indexes[..n])
      case Err(e) => Err(e)
      case Ok(hs) =>
        if indexes[n] >= fi.fanout[255] then Err(Malformed)
        else match OidAt(fi, indexes[n]) case Err(e) => Err(e) case Ok(h) => Ok(hs + [h])
  }

  lemma {:induction false} HashesFail(fi: FileIndex, indexes: seq<nat>, n: nat)
    requires Opened(fi) && n <= |indexes| && HashesAt(fi, indexes[..n]).Err?
    ensures HashesAt(fi, indexes) == HashesAt(fi, indexes[..n])
    decreases |indexes|
  {
    if n == |indexes| {
      assert indexes[..n] == indexes;
    } else {
      assert indexes[..|indexes| - 1][..n] == indexes[..n];
      HashesFail(fi, indexes[..|indexes| - 1], n);
    }
  }

  /** `getHashesFromIndexes`. */
  method GetHashesFromIndexes(fi: FileIndex, indexes: seq<nat>) returns (r: Result<seq<Bytes>>)
    requires Opened(fi)
    ensures r == HashesAt(fi, indexes)
  {
    hide OidAt;
    var hashes: seq<Bytes> := [];
    for i := 0 to |indexes|
      invariant HashesAt(fi, indexes[..i]) == Ok(hashes)
    {
      assert indexes[..i + 1][..i] == indexes[..i];
      if indexes[i] >= fi.fanout[255] {
        HashesFail(fi, indexes, i + 1);
        return Err(Malformed);
      }
      var h := OidAt(fi, indexes[i]);
      if h.Err? {
        HashesFail(fi, indexes, i + 1);
        return Err(h.error);
      }
      hashes := hashes + [h.value];
    }
    assert indexes[..|indexes|] == indexes;
    return Ok(hashes);
  }

  const TIME_LIMIT := 0x4_0000_0000

  /** The corrected commit date of entry `i`, whose commit time is `time`. */
  function GenerationV2At(fi: FileIndex, i: nat, time: nat): Result<nat>
    requires |fi.offsets| == CHUNKS
  {
    if !fi.hasGenerationV2 then Ok(0)
    else
      match ReadAt(fi.data, fi.offsets[GDA2] + 4 * i, 4)
      case Err(e) => Err(e)
      case Ok(s) =>
        if Get32(s) < MSB32 then Ok((time + Get32(s)) % U64_LIMIT)
        else
          match ReadAt(fi.data, fi.offsets[GDO2] + 8 * (Get32(s) - MSB32), 8)
          case Err(e) => Err(e)
          case Ok(w) => Ok((time + Get64(w)) % U64_LIMIT)
  }

  /** What the file says of entry `i`. */
  function CommitDataAt(fi: FileIndex, i: nat): Result<CommitData>
    requires Opened(fi)
  {
    if i >= fi.fanout[255] then Err(NotFound)
    else
      match ReadAt(fi.data, fi.offsets[CDAT] + ROW * i, ROW)
      case Err(e) => Err(e)
      case Ok(row) =>
        var genAndTime := Get64(row[28..36]);
        match ParentIndexes(fi, Get32(row[20..24]), Get32(row[24..28]))
        case Err(e) => Err(e)
        case Ok(indexes) =>
          match HashesAt(fi, indexes)
          case Err(e) => Err(e)
          case Ok(parents) =>
            match GenerationV2At(fi, i, genAndTime % TIME_LIMIT)
            case Err(e) => Err(e)
            case Ok(v2) =>
              Ok(CommitData(row[..20], indexes, parents, genAndTime / TIME_LIMIT, v2, genAndTime % TIME_LIMIT))
  }

  /** `GetCommitDataByIndex`. */
  method GetCommitDataByIndex(fi: FileIndex, i: nat) returns (r: Result<CommitData>)
    requires Opened(fi)
    ensures r == CommitDataAt(fi, i)
  {
    hide Get32, Get64, HashesAt, EdgesAt, GenerationV2At;
    if i >= fi.fanout[255] {
      return Err(NotFound);
    }
    var row := ReadAt(fi.data, fi.offsets[CDAT] + ROW * i, ROW);
    if row.Err? {
      return Err(row.error);
    }
    var parent1, parent2, genAndTime := Get32(row.value[20..24]), Get32(row.value[24..28]), Get64(row.value[28..36]);
    var indexes: seq<nat> := [];
    if parent2 >= MSB32 {
      var edges := ReadEdges(fi.data, parent1 % MSB32, fi.offsets[EDGE] + 4 * (parent2 - MSB32));
      if edges.Err? {
        return Err(edges.error);
      }
      indexes := edges.value;
    } else if parent2 != PARENT_NONE {
      indexes := [parent1 % MSB32, parent2];
    } else if parent1 != PARENT_NONE {
      indexes := [parent1 % MSB32];
    }
    var parents := GetHashesFromIndexes(fi, indexes);
    if parents.Err? {
      return Err(parents.error);
    }
    var v2 := GenerationV2At(fi, i, genAndTime % TIME_LIMIT);
    if v2.Err? {
      return Err(v2.error);
    }
    return Ok(CommitData(row.value[..20], indexes, parents.value, genAndTime / TIME_LIMIT, v2.value, genAndTime % TIME_LIMIT));
  }
}
