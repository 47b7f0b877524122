/** The pack index file, version 2: what the encoder writes and what the decoder makes of it. */
module IdxFormat {
  import opened Bytes
  import opened Sequences

  const FANOUT := 256
  const ID_SIZE := 20
  const NO_MAPPING := -1
  const VERSION_SUPPORTED := 2
  const HEADER: Bytes := [255, 't' as int, 'O' as int, 'c' as int]

  /** The tables of an index.  Names, checksums and offsets are kept per bucket, and only for
      buckets that are not empty. */
  datatype Idx = Idx(
    version: nat, fanout: seq<nat>, mapping: seq<int>, names: seq<Bytes>, crc32: seq<Bytes>,
    offset32: seq<Bytes>, offset64: Bytes, packChecksum: Bytes, idxChecksum: Bytes)

  // --- Buckets --------------------------------------------------------------------------------

  ghost predicate Fanout(f: seq<nat>) {
    |f| == FANOUT && forall k :: 0 <= k < FANOUT ==> f[k] < U32_LIMIT
  }

  /** The size of bucket `k`, in 32 bits. */
  function Size(f: seq<nat>, k: nat): (n: nat)
    requires k < |f| && f[k] < U32_LIMIT && (k > 0 ==> f[k - 1] < U32_LIMIT)
    ensures n < U32_LIMIT
  {
    if k == 0 then f[0] else (f[k] - f[k - 1]) % U32_LIMIT
  }

  /** How many bytes `w` bytes for each member of the bucket are, in 32 bits. */
  function Len(f: seq<nat>, w: nat, k: nat): nat
    requires k < |f| && f[k] < U32_LIMIT && (k > 0 ==> f[k - 1] < U32_LIMIT)
  {
    Size(f, k) * w % U32_LIMIT
  }

  /** How many of the first `k` buckets are not empty. */
  function Rank(f: seq<nat>, k: nat): (n: nat)
    requires Fanout(f) && k <= FANOUT
    ensures n <= k
  {
    if k == 0 then 0 else Rank(f, k - 1) + if Size(f, k - 1) == 0 then 0 else 1
  }

  /** The place of bucket `k` among the buckets that are not empty. */
  function Place(f: seq<nat>, k: nat): int
    requires Fanout(f) && k < FANOUT
  {
    if Size(f, k) == 0 then NO_MAPPING else Rank(f, k)
  }

  lemma {:induction false} RankGrows(f: seq<nat>, j: nat, k: nat)
    requires Fanout(f) && j <= k <= FANOUT
    ensures Rank(f, j) <= Rank(f, k)
  {
    if j < k {
      RankGrows(f, j, k - 1);
    }
  }

  /** A bucket that is not empty has a place of its own. */
  lemma PlaceInRange(f: seq<nat>, k: nat)
    requires Fanout(f) && k < FANOUT && Size(f, k) != 0
    ensures Place(f, k) == Rank(f, k) < Rank(f, FANOUT) && Rank(f, k + 1) == Rank(f, k) + 1
  {
    RankGrows(f, k + 1, FANOUT);
  }

  /** The bytes of the first `k` buckets. */
  function Total(f: seq<nat>, w: nat, k: nat): nat
    requires Fanout(f) && k <= FANOUT
  {
    if k == 0 then 0 else Total(f, w, k - 1) + if Size(f, k - 1) == 0 then 0 else Len(f, w, k - 1)
  }

  lemma {:induction false} TotalGrows(f: seq<nat>, w: nat, j: nat, k: nat)
    requires Fanout(f) && j <= k <= FANOUT
    ensures Total(f, w, j) <= Total(f, w, k)
  {
    if j < k {
      TotalGrows(f, w, j, k - 1);
    }
  }

  /** The table at `p`, cut into buckets. */
  ghost function Cut(data: Bytes, p: nat, f: seq<nat>, w: nat, k: nat): (s: seq<Bytes>)
    requires Fanout(f) && k <= FANOUT && p + Total(f, w, k) <= |data|
    ensures |s| == Rank(f, k)
  {
    if k == 0 then []
    else if Size(f, k - 1) == 0 then Cut(data, p, f, w, k - 1)
    else Cut(data, p, f, w, k - 1) + [data[p + Total(f, w, k - 1)..p + Total(f, w, k)]]
  }

  /** Every bucket that is not empty has its bytes. */
  ghost predicate Filled(f: seq<nat>, w: nat, s: seq<Bytes>) {
    Fanout(f) && |s| == Rank(f, FANOUT) && forall k :: 0 <= k < FANOUT && Size(f, k) != 0 ==> BucketFilled(f, w, s, k)
  }

  ghost predicate BucketFilled(f: seq<nat>, w: nat, s: seq<Bytes>, k: nat)
    requires Fanout(f) && k < FANOUT && |s| == Rank(f, FANOUT)
  {
    PlaceLess(f, k);
    Size(f, k) != 0 ==> |s[Rank(f, k)]| == Len(f, w, k)
  }

  lemma {:induction false} PlaceLess(f: seq<nat>, k: nat)
    requires Fanout(f) && k < FANOUT
    ensures Size(f, k) != 0 ==> Rank(f, k) < Rank(f, FANOUT)
  {
    if Size(f, k) != 0 {
      PlaceInRange(f, k);
    }
  }

  /** Putting the pieces of a table together again. */
  lemma {:induction false} FlatCut(data: Bytes, p: nat, f: seq<nat>, w: nat, k: nat)
    requires Fanout(f) && k <= FANOUT && p + Total(f, w, k) <= |data|
    ensures Flat(Cut(data, p, f, w, k)) == data[p..p + Total(f, w, k)]
  {
    hide Len, Size, Flat;
    if k > 0 {
      FlatCut(data, p, f, w, k - 1);
      if Size(f, k - 1) != 0 {
        var t := p + Total(f, w, k - 1);
        FlatPush(Cut(data, p, f, w, k - 1), data[t..p + Total(f, w, k)]);
        Joined(data, p, t, p + Total(f, w, k));
      }
    } else {
      assert Flat<Byte>([]) == [] by {
        FlatNone<Byte>();
      }
    }
  }

  lemma {:induction false} FlatLength(f: seq<nat>, w: nat, s: seq<Bytes>, k: nat)
    requires Filled(f, w, s) && k <= FANOUT
    ensures Rank(f, k) <= |s| && |Flat(s[..Rank(f, k)])| == Total(f, w, k)
  {
    hide Len, Size;
    RankGrows(f, k, FANOUT);
    if k > 0 {
      FlatLength(f, w, s, k - 1);
      if Size(f, k - 1) != 0 {
        assert BucketFilled(f, w, s, k - 1);
        var r := Rank(f, k - 1);
        assert s[..r + 1] == s[..r] + [s[r]];
        FlatPush(s[..r], s[r]);
      }
    }
  }

  lemma PieceOf(data: Bytes, p: nat, before: Bytes, piece: Bytes)
    requires p <= |data| && before + piece <= data[p..]
    ensures data[p + |before|..p + |before| + |piece|] == piece
  {
    assert forall i :: 0 <= i < |piece| ==> (before + piece)[|before| + i] == piece[i];
  }

  /** Cutting a table where it was put together. */
  lemma {:induction false} CutFlat(data: Bytes, p: nat, f: seq<nat>, w: nat, s: seq<Bytes>, k: nat)
    requires Fanout(f) && Filled(f, w, s) && k <= FANOUT && p <= |data| && Flat(s) <= data[p..]
    ensures Rank(f, k) <= |s| && p + Total(f, w, k) <= |data|
    ensures Cut(data, p, f, w, k) == s[..Rank(f, k)]
  {
    hide Len, Size, Flat, Filled;
    FlatLength(f, w, s, k);
    FlatPrefix(s, Rank(f, k));
    if k > 0 {
      CutFlat(data, p, f, w, s, k - 1);
      FlatLength(f, w, s, k - 1);
      if Size(f, k - 1) != 0 {
        var r := Rank(f, k - 1);
        assert s[..r + 1] == s[..r] + [s[r]];
        FlatPush(s[..r], s[r]);
        PieceOf(data, p, Flat(s[..r]), s[r]);
      }
    }
  }

  // --- The file -------------------------------------------------------------------------------

  /** How many of the first `n` four-byte entries have the highest bit set. */
  function WideTo(b: Bytes, n: nat): nat
    requires 4 * n <= |b|
  {
    if n == 0 then 0 else WideTo(b, n - 1) + if b[4 * (n - 1)] >= 128 then 1 else 0
  }

  /** The positions of the words of at least 2^31, which stand for large offsets. */
  ghost function Marked(b: Bytes, n: nat): set<nat>
    requires 4 * n <= |b|
  {
    set i: nat | i < n && Get32(b[4 * i..4 * i + 4]) >= 0x8000_0000
  }

  lemma {:induction false} WideIs(b: Bytes, n: nat)
    requires 4 * n <= |b|
    ensures WideTo(b, n) == |Marked(b, n)|
  {
    hide Get32;
    if n == 0 {
      assert Marked(b, n) == {};
    } else {
      WideIs(b, n - 1);
      TopBit(b[4 * (n - 1)..4 * (n - 1) + 4]);
      assert Marked(b, n) == Marked(b, n - 1) + if b[4 * (n - 1)] >= 128 then {n - 1} else {};
    }
  }

  lemma TopBit(w: Bytes)
    requires |w| == 4
    ensures Get32(w) >= 0x8000_0000 <==> w[0] >= 128
  {
    var a: nat, b: nat, c: nat, d: nat := w[0], w[1], w[2], w[3];
    assert w == [a, b, c, d];
    WordBytes(a, b, c, d);
    Get32U32(((a * 256 + b) * 256 + c) * 256 + d);
  }

  function Wide(s: seq<Bytes>): nat {
    if s == [] then 0 else Wide(s[..|s| - 1]) + WideTo(s[|s| - 1], |s[|s| - 1]| / 4)
  }

  function FanoutBytes(f: seq<nat>, k: nat): (s: Bytes)
    requires k <= |f| && forall i :: 0 <= i < k ==> f[i] < U32_LIMIT
    ensures |s| == 4 * k
  {
    if k == 0 then [] else FanoutBytes(f, k - 1) + U32(f[k - 1])
  }

  ghost function FanoutAt(data: Bytes, p: nat, k: nat): (f: seq<nat>)
    requires p + 4 * k <= |data|
    ensures |f| == k && forall i :: 0 <= i < k ==> f[i] < U32_LIMIT
  {
    if k == 0 then [] else FanoutAt(data, p, k - 1) + [Get32(data[p + 4 * (k - 1)..p + 4 * k])]
  }

  ghost function MappingOf(f: seq<nat>): seq<int>
    requires Fanout(f)
  {
    seq(FANOUT, k requires 0 <= k < FANOUT => Place(f, k))
  }

  /** The tables fit together: this is what the decoder builds. */
  ghost predicate WellFormed(idx: Idx) {
    && idx.version <= VERSION_SUPPORTED
    && Fanout(idx.fanout) && idx.mapping == MappingOf(idx.fanout)
    && Filled(idx.fanout, ID_SIZE, idx.names) && Filled(idx.fanout, 4, idx.crc32) && Filled(idx.fanout, 4, idx.offset32)
    && |idx.offset64| == 8 * Wide(idx.offset32)
    && |idx.packChecksum| == ID_SIZE && |idx.idxChecksum| == ID_SIZE
  }

  /** Everything before the checksum of the index itself. */
  function Body(idx: Idx): Bytes
    requires idx.version < U32_LIMIT && |idx.fanout| == FANOUT && forall i :: 0 <= i < FANOUT ==> idx.fanout[i] < U32_LIMIT
  {
    HEADER + U32(idx.version) + FanoutBytes(idx.fanout, FANOUT) + Flat(idx.names) + Flat(idx.crc32) + Flat(idx.offset32)
    + idx.offset64 + idx.packChecksum
  }

  function Encoded(idx: Idx): Bytes
    requires idx.version < U32_LIMIT && |idx.fanout| == FANOUT && forall i :: 0 <= i < FANOUT ==> idx.fanout[i] < U32_LIMIT
  {
    Body(idx) + idx.idxChecksum
  }

  /** A file of version 2 starts with these bytes, and the fanout follows. */
  lemma FileStarts(idx: Idx)
    requires WellFormed(idx) && idx.version == 2
    ensures |Encoded(idx)| >= 8 + 4 * 256 && Encoded(idx)[..8] == [0xff, 0x74, 0x4f, 0x63, 0, 0, 0, 2]
    ensures Encoded(idx)[8..8 + 4 * 256] == FanoutBytes(idx.fanout, 256)
  {
    hide FanoutBytes, Flat, Len, Size, MappingOf, U32, Filled, Wide;
    WordBytes(0, 0, 0, 2);
    var a, b, c, n := HEADER, U32(2), FanoutBytes(idx.fanout, FANOUT), Flat(idx.names);
    var rest := n + Flat(idx.crc32) + Flat(idx.offset32) + idx.offset64 + idx.packChecksum + idx.idxChecksum;
    assert Encoded(idx) == a + b + c + rest;
    assert (a + b + c + rest)[..8] == a + b && (a + b + c + rest)[8..8 + 4 * 256] == c;
  }

  datatype Decoded = Ok(idx: Idx, size: nat) | TooShort | Malformed | UnsupportedVersion

  const TABLES := 8 + 4 * FANOUT

  /** What a string of bytes stands for. */
  ghost function Decode(data: Bytes): Decoded {
    if |data| < 4 then TooShort
    else if data[..4] != HEADER then Malformed
    else if |data| < 8 then TooShort
    else if Get32(data[4..8]) > VERSION_SUPPORTED then UnsupportedVersion
    else if |data| < TABLES then TooShort
    else DecodeTables(data, Get32(data[4..8]), FanoutAt(data, 8, FANOUT))
  }

  /** What is not an index of a known version is refused as such, as soon as there is enough of it. */
  lemma DecodeRefuses(data: Bytes)
    ensures Decode(data).Malformed? <==> |data| >= 4 && data[..4] != [0xff, 0x74, 0x4f, 0x63]
    ensures Decode(data).UnsupportedVersion? <==>
            |data| >= 8 && data[..4] == [0xff, 0x74, 0x4f, 0x63] && Get32(data[4..8]) > 2
    ensures Decode(data).Ok? ==> |data| >= 8 + 4 * 256
  {
  }

  ghost function DecodeTables(data: Bytes, version: nat, f: seq<nat>): Decoded
    requires |data| >= TABLES && Fanout(f)
  {
    var crcs := TABLES + Total(f, ID_SIZE, FANOUT);
    var offsets := crcs + Total(f, 4, FANOUT);
    var wide := offsets + Total(f, 4, FANOUT);
    if wide > |data| then TooShort
    else
      var offset32 := Cut(data, offsets, f, 4, FANOUT);
      var sums := wide + 8 * Wide(offset32);
      if sums + 2 * ID_SIZE > |data| then TooShort
      else Ok(Idx(version, f, MappingOf(f), Cut(data, TABLES, f, ID_SIZE, FANOUT), Cut(data, crcs, f, 4, FANOUT), offset32,
                  data[wide..sums], data[sums..sums + ID_SIZE], data[sums + ID_SIZE..sums + 2 * ID_SIZE]),
              sums + 2 * ID_SIZE)
  }

  lemma {:induction false} FanoutRead(f: seq<nat>, data: Bytes, p: nat, k: nat)
    requires k <= |f| && (forall i :: 0 <= i < k ==> f[i] < U32_LIMIT) && p + 4 * k <= |data|
    requires data[p..p + 4 * k] == FanoutBytes(f, k)
    ensures FanoutAt(data, p, k) == f[..k]
  {
    hide Get32, U32;
    if k > 0 {
      var q := p + 4 * (k - 1);
      Joined(data, p, q, p + 4 * k);
      SameParts(data[p..q], data[q..p + 4 * k], FanoutBytes(f, k - 1), U32(f[k - 1]));
      FanoutRead(f, data, p, k - 1);
      Get32U32(f[k - 1]);
    }
  }

  lemma {:induction false} FanoutWritten(data: Bytes, p: nat, k: nat)
    requires p + 4 * k <= |data|
    ensures FanoutBytes(FanoutAt(data, p, k), k) == data[p..p + 4 * k]
  {
    hide Get32, U32;
    if k > 0 {
      FanoutWritten(data, p, k - 1);
      U32Get32(data[p + 4 * (k - 1)..p + 4 * k]);
      FanoutPrefix(FanoutAt(data, p, k), k - 1);
      Joined(data, p, p + 4 * (k - 1), p + 4 * k);
    }
  }

  lemma {:induction false} FanoutPrefix(f: seq<nat>, k: nat)
    requires k <= |f| && forall i :: 0 <= i < |f| ==> f[i] < U32_LIMIT
    ensures FanoutBytes(f, k) == FanoutBytes(f[..k], k)
    decreases k
  {
    if k > 0 {
      FanoutPrefix(f, k - 1);
      FanoutPrefix(f[..k], k - 1);
      assert f[..k][..k - 1] == f[..k - 1];
    }
  }

  lemma {:induction false} CutFills(data: Bytes, p: nat, f: seq<nat>, w: nat, k: nat, j: nat)
    requires Fanout(f) && j < k <= FANOUT && p + Total(f, w, k) <= |data| && Size(f, j) != 0
    ensures Rank(f, j) < Rank(f, k) && |Cut(data, p, f, w, k)[Rank(f, j)]| == Len(f, w, j)
  {
    hide Len, Size;
    RankGrows(f, j + 1, k);
    if j < k - 1 {
      CutFills(data, p, f, w, k - 1, j);
    }
  }

  lemma {:induction false} CutIsFilled(data: Bytes, p: nat, f: seq<nat>, w: nat)
    requires Fanout(f) && p + Total(f, w, FANOUT) <= |data|
    ensures Filled(f, w, Cut(data, p, f, w, FANOUT))
  {
    hide Len, Size, Cut;
    forall k | 0 <= k < FANOUT && Size(f, k) != 0 ensures BucketFilled(f, w, Cut(data, p, f, w, FANOUT), k) {
      CutFills(data, p, f, w, FANOUT, k);
    }
  }

  lemma {:induction false} FilledLength(f: seq<nat>, w: nat, s: seq<Bytes>)
    requires Filled(f, w, s)
    ensures Fanout(f) && |Flat(s)| == Total(f, w, FANOUT)
  {
    hide Len, Size;
    FlatLength(f, w, s, FANOUT);
    assert s[..|s|] == s;
  }

  /** Decoding what was encoded gives the same tables back, whatever follows. */
  lemma RoundTrip(idx: Idx, rest: Bytes)
    requires WellFormed(idx)
    ensures Decode(Encoded(idx) + rest) == Ok(idx, |Encoded(idx)|)
  {
    hide Len, Size, Flat, Filled, Cut, FanoutBytes, FanoutAt, Total, Wide, MappingOf, Get32, U32;
    var f := idx.fanout;
    var data := Encoded(idx) + rest;
    var (a, b, c, n, s, o) := (HEADER, U32(idx.version), FanoutBytes(f, FANOUT), Flat(idx.names), Flat(idx.crc32), Flat(idx.offset32));
    FilledLength(f, ID_SIZE, idx.names);
    FilledLength(f, 4, idx.crc32);
    FilledLength(f, 4, idx.offset32);
    Get32U32(idx.version);
    assert data[..4] == a && data[4..8] == b;
    assert data[8..TABLES] == c;
    FanoutRead(f, data, 8, FANOUT);
    assert f[..FANOUT] == f;
    assert FanoutAt(data, 8, FANOUT) == f;
    TablesRead(idx, data);
  }

  lemma TablesRead(idx: Idx, data: Bytes)
    requires WellFormed(idx) && Encoded(idx) <= data
    ensures |data| >= TABLES && DecodeTables(data, idx.version, idx.fanout) == Ok(idx, |Encoded(idx)|)
  {
    hide Len, Size, Flat, Filled, Cut, FanoutBytes, Total, Wide, MappingOf, U32;
    var f := idx.fanout;
    var front := HEADER + U32(idx.version) + FanoutBytes(f, FANOUT);
    var (n, s, o) := (Flat(idx.names), Flat(idx.crc32), Flat(idx.offset32));
    FilledLength(f, ID_SIZE, idx.names);
    FilledLength(f, 4, idx.crc32);
    FilledLength(f, 4, idx.offset32);
    PartsOf(data, front, n, s, o, idx.offset64, idx.packChecksum, idx.idxChecksum);
    TableAt(data, TABLES, f, ID_SIZE, idx.names);
    TableAt(data, TABLES + |n|, f, 4, idx.crc32);
    TableAt(data, TABLES + |n| + |s|, f, 4, idx.offset32);
  }

  lemma PartsOf(data: Bytes, a: Bytes, b: Bytes, c: Bytes, d: Bytes, e: Bytes, f: Bytes, g: Bytes)
    requires a + b + c + d + e + f + g <= data
    ensures b <= data[|a|..] && c <= data[|a| + |b|..] && d <= data[|a| + |b| + |c|..]
    ensures var p := |a| + |b| + |c| + |d|;
            var q := p + |e|;
            data[p..q] == e && data[q..q + |f|] == f && data[q + |f|..q + |f| + |g|] == g
  {
    var r := data[|a| + |b| + |c| + |d| + |e| + |f| + |g|..];
    assert data == a + b + c + d + e + f + g + r;
    assert data[|a|..] == b + c + d + e + f + g + r;
    assert data[|a| + |b|..] == c + d + e + f + g + r;
    assert data[|a| + |b| + |c|..] == d + e + f + g + r;
  }

  lemma {:induction false} TableAt(data: Bytes, p: nat, f: seq<nat>, w: nat, s: seq<Bytes>)
    requires Fanout(f) && Filled(f, w, s) && p <= |data| && Flat(s) <= data[p..]
    ensures p + Total(f, w, FANOUT) <= |data| && Cut(data, p, f, w, FANOUT) == s
  {
    hide Len, Size;
    CutFlat(data, p, f, w, s, FANOUT);
    assert s[..|s|] == s;
  }

  /** The tables that were decoded, put together again. */
  lemma TablesSound(data: Bytes, version: nat, f: seq<nat>)
    requires |data| >= TABLES && Fanout(f) && version <= VERSION_SUPPORTED && DecodeTables(data, version, f).Ok?
    ensures var Ok(idx, size) := DecodeTables(data, version, f);
            && WellFormed(idx) && TABLES <= size <= |data|
            && Flat(idx.names) + Flat(idx.crc32) + Flat(idx.offset32) + idx.offset64 + idx.packChecksum + idx.idxChecksum
               == data[TABLES..size]
  {
    hide Len, Size, Flat, Filled, Cut, Total, Wide, MappingOf;
    var idx := DecodeTables(data, version, f).idx;
    var crcs := TABLES + Total(f, ID_SIZE, FANOUT);
    var offsets := crcs + Total(f, 4, FANOUT);
    var wide := offsets + Total(f, 4, FANOUT);
    var sums := wide + |idx.offset64|;
    CutIsFilled(data, TABLES, f, ID_SIZE);
    CutIsFilled(data, crcs, f, 4);
    CutIsFilled(data, offsets, f, 4);
    FlatCut(data, TABLES, f, ID_SIZE, FANOUT);
    FlatCut(data, crcs, f, 4, FANOUT);
    FlatCut(data, offsets, f, 4, FANOUT);
    Joined(data, TABLES, crcs, offsets);
    Joined(data, TABLES, offsets, wide);
    Joined(data, TABLES, wide, sums);
    Joined(data, TABLES, sums, sums + ID_SIZE);
    Joined(data, TABLES, sums + ID_SIZE, sums + 2 * ID_SIZE);
  }

  /** What was decoded is well-formed, and encoding it gives the bytes read. */
  lemma DecodeSound(data: Bytes)
    requires Decode(data).Ok?
    ensures WellFormed(Decode(data).idx) && Decode(data).size <= |data|
    ensures Encoded(Decode(data).idx) == data[..Decode(data).size]
  {
    hide Len, Size, Flat, Filled, FanoutBytes, FanoutAt, MappingOf, Get32, U32, DecodeTables, Wide;
    var Ok(idx, size) := Decode(data);
    var version, f := Get32(data[4..8]), FanoutAt(data, 8, FANOUT);
    TablesSound(data, version, f);
    Kept(data, version, f);
    FanoutWritten(data, 8, FANOUT);
    U32Get32(data[4..8]);
    Joined(data, 0, 4, 8);
    Joined(data, 0, 8, TABLES);
    Joined(data, 0, TABLES, size);
    assert data[0..size] == data[..size] && data[0..4] == data[..4];
    Regrouped(HEADER + U32(version) + FanoutBytes(f, FANOUT), Flat(idx.names), Flat(idx.crc32), Flat(idx.offset32),
              idx.offset64, idx.packChecksum, idx.idxChecksum);
  }

  lemma Kept(data: Bytes, version: nat, f: seq<nat>)
    requires |data| >= TABLES && Fanout(f) && DecodeTables(data, version, f).Ok?
    ensures var idx := DecodeTables(data, version, f).idx; idx.version == version && idx.fanout == f
  {
  }

  lemma Regrouped(a: Bytes, b: Bytes, c: Bytes, d: Bytes, e: Bytes, f: Bytes, g: Bytes)
    ensures a + b + c + d + e + f + g == a + (b + c + d + e + f + g)
  {
  }

  // --- The encoder ----------------------------------------------------------------------------

  /** The buckets of one table, in the order of the fanout. */
  method EncodeTable(ghost f: seq<nat>, mapping: seq<int>, table: seq<Bytes>) returns (out: Bytes, size: nat)
    requires Fanout(f) && mapping == MappingOf(f) && |table| == Rank(f, FANOUT)
    ensures out == Flat(table) && size == |out|
  {
    hide Size, Flat;
    out, size := [], 0;
    FlatNone<Byte>();
    for k := 0 to FANOUT
      invariant Rank(f, k) <= |table| && out == Flat(table[..Rank(f, k)]) && size == |out|
    {
      RankGrows(f, k + 1, FANOUT);
      var pos := mapping[k];
      assert pos == Place(f, k);
      if pos == NO_MAPPING {
        continue;
      }
      assert table[..pos + 1] == table[..pos] + [table[pos]];
      FlatPush(table[..pos], table[pos]);
      out := out + table[pos];
      size := size + |table[pos]|;
    }
    assert table[..|table|] == table;
  }

  method EncodeFanout(idx: Idx) returns (out: Bytes, size: nat)
    requires WellFormed(idx)
    ensures out == FanoutBytes(idx.fanout, FANOUT) && size == |out|
  {
    hide Filled, Flat;
    out := [];
    for k := 0 to FANOUT
      invariant out == FanoutBytes(idx.fanout, k)
    {
      out := out + U32(idx.fanout[k]);
    }
    size := FANOUT * 4;
  }

  /** `Encode`: the file with the checksum that `digest` computes, and its size. */
  method Encode(idx: Idx, digest: Bytes -> Bytes) returns (out: Bytes, size: nat, idx': Idx)
    requires WellFormed(idx) && forall b :: |digest(b)| == ID_SIZE
    ensures idx' == idx.(idxChecksum := digest(Body(idx))) && WellFormed(idx')
    ensures out == Encoded(idx') && size == |out|
  {
    hide Len, Size, Flat, FanoutBytes, MappingOf;
    out, size := HEADER + U32(idx.version), 8;
    var bytes, n := EncodeFanout(idx);
    out, size := out + bytes, size + n;
    bytes, n := EncodeTable(idx.fanout, idx.mapping, idx.names);
    out, size := out + bytes, size + n;
    bytes, n := EncodeTable(idx.fanout, idx.mapping, idx.crc32);
    out, size := out + bytes, size + n;
    bytes, n := EncodeTable(idx.fanout, idx.mapping, idx.offset32);
    out, size := out + bytes, size + n;
    if |idx.offset64| > 0 {
      out, size := out + idx.offset64, size + |idx.offset64|;
    }
    out := out + idx.packChecksum;
    assert out == Body(idx);
    idx' := idx.(idxChecksum := digest(out));
    out, size := out + idx'.idxChecksum, size + |idx.packChecksum| + |idx'.idxChecksum|;
  }

  // --- The decoder ----------------------------------------------------------------------------

  method ReadFanout(r: Reader) returns (ok: bool, f: seq<nat>)
    requires r.Valid()
    modifies r
    ensures r.Valid() && (ok <==> old(r.pos) + 4 * FANOUT <= |r.data|)
    ensures ok ==> r.pos == old(r.pos) + 4 * FANOUT && f == FanoutAt(r.data, old(r.pos), FANOUT)
  {
    hide Get32;
    f := [];
    for k := 0 to FANOUT
      invariant r.Valid() && r.pos == old(r.pos) + 4 * k && f == FanoutAt(r.data, old(r.pos), k)
    {
      var read, s := r.ReadFull(4);
      if !read {
        return false, [];
      }
      f := f + [Get32(s)];
    }
    return true, f;
  }

  /** `readObjectNames`: also gives every bucket that is not empty its place. */
  method ReadObjectNames(r: Reader, f: seq<nat>) returns (ok: bool, mapping: seq<int>, names: seq<Bytes>)
    requires r.Valid() && Fanout(f)
    modifies r
    ensures r.Valid() && (ok <==> old(r.pos) + Total(f, ID_SIZE, FANOUT) <= |r.data|)
    ensures ok ==> r.pos == old(r.pos) + Total(f, ID_SIZE, FANOUT) && names == Cut(r.data, old(r.pos), f, ID_SIZE, FANOUT)
    ensures ok ==> mapping == MappingOf(f)
  {
    hide Len, Size;
    mapping, names := [], [];
    for k := 0 to FANOUT
      invariant r.Valid() && r.pos == old(r.pos) + Total(f, ID_SIZE, k) && names == Cut(r.data, old(r.pos), f, ID_SIZE, k)
      invariant |mapping| == k && forall i :: 0 <= i < k ==> mapping[i] == Place(f, i)
    {
      TotalGrows(f, ID_SIZE, k + 1, FANOUT);
      if Size(f, k) == 0 {
        mapping := mapping + [NO_MAPPING];
        continue;
      }
      mapping := mapping + [|names|];
      var read, bin := r.ReadFull(Len(f, ID_SIZE, k));
      if !read {
        return false, [], [];
      }
      names := names + [bin];
    }
    return true, mapping, names;
  }

  /** `readCRC32`, and the first part of `readOffsets`. */
  method ReadTable(r: Reader, f: seq<nat>, mapping: seq<int>) returns (ok: bool, table: seq<Bytes>)
    requires r.Valid() && Fanout(f) && mapping == MappingOf(f)
    modifies r
    ensures r.Valid() && (ok <==> old(r.pos) + Total(f, 4, FANOUT) <= |r.data|)
    ensures ok ==> r.pos == old(r.pos) + Total(f, 4, FANOUT) && table == Cut(r.data, old(r.pos), f, 4, FANOUT)
  {
    hide Len, Size;
    table := [];
    for k := 0 to FANOUT
      invariant r.Valid() && r.pos == old(r.pos) + Total(f, 4, k) && table == Cut(r.data, old(r.pos), f, 4, k)
    {
      TotalGrows(f, 4, k + 1, FANOUT);
      if mapping[k] != NO_MAPPING {
        var read, bin := r.ReadFull(Len(f, 4, k));
        if !read {
          return false, [];
        }
        table := table + [bin];
      }
    }
    return true, table;
  }

  /** Counts the offsets that need eight bytes. */
  method CountWide(table: seq<Bytes>) returns (cnt: nat)
    requires forall i :: 0 <= i < |table| ==> |table[i]| % 4 == 0
    ensures cnt == Wide(table)
  {
    cnt := 0;
    for i := 0 to |table|
      invariant cnt == Wide(table[..i])
    {
      assert table[..i + 1][..i] == table[..i];
      var p, b := 0, table[i];
      while p < |b|
        invariant 0 <= p <= |b| && p % 4 == 0 && cnt == Wide(table[..i]) + WideTo(b, p / 4)
      {
        if b[p] >= 128 {
          cnt := cnt + 1;
        }
        assert WideTo(b, p / 4 + 1) == WideTo(b, p / 4) + if b[p] >= 128 then 1 else 0;
        p := p + 4;
      }
    }
    assert table[..|table|] == table;
  }

  lemma {:induction false} CutMultiple(data: Bytes, p: nat, f: seq<nat>, k: nat)
    requires Fanout(f) && k <= FANOUT && p + Total(f, 4, k) <= |data|
    ensures forall i :: 0 <= i < |Cut(data, p, f, 4, k)| ==> |Cut(data, p, f, 4, k)[i]| % 4 == 0
  {
    hide Size;
    if k > 0 {
      CutMultiple(data, p, f, k - 1);
      assert Len(f, 4, k - 1) % 4 == 0;
    }
  }

  /** `Decode`. */
  method DecodeFile(data: Bytes) returns (d: Decoded)
    ensures d == Decode(data)
  {
    hide Len, Size, Cut, FanoutAt, Total, Wide, MappingOf, Get32;
    var r := new Reader(data);
    var ok, s := r.ReadFull(4);
    if !ok {
      return TooShort;
    }
    if s != HEADER {
      return Malformed;
    }
    ok, s := r.ReadFull(4);
    if !ok {
      return TooShort;
    }
    var version := Get32(s);
    if version > VERSION_SUPPORTED {
      return UnsupportedVersion;
    }
    var okFanout, f := ReadFanout(r);
    if !okFanout {
      return TooShort;
    }
    d := DecodeRest(r, version, f);
  }

  method DecodeRest(r: Reader, version: nat, f: seq<nat>) returns (d: Decoded)
    requires r.Valid() && r.pos == TABLES && Fanout(f)
    modifies r
    ensures d == DecodeTables(r.data, version, f)
  {
    hide Len, Size, Cut, FanoutAt, Total, Wide, MappingOf, Get32;
    var ok, mapping, names := ReadObjectNames(r, f);
    if !ok {
      return TooShort;
    }
    var okCrc, crc32 := ReadTable(r, f, mapping);
    if !okCrc {
      return TooShort;
    }
    ghost var offsets := r.pos;
    var okOffsets, offset32 := ReadTable(r, f, mapping);
    if !okOffsets {
      return TooShort;
    }
    CutMultiple(r.data, offsets, f, FANOUT);
    var cnt := CountWide(offset32);
    ghost var wide := r.pos;
    var offset64: Bytes := [];
    if cnt > 0 {
      var okWide, s := r.ReadFull(8 * cnt);
      if !okWide {
        return TooShort;
      }
      offset64 := s;
    }
    assert offset64 == r.data[wide..r.pos];
    var okPack, packChecksum := r.ReadFull(ID_SIZE);
    if !okPack {
      return TooShort;
    }
    var okIdx, idxChecksum := r.ReadFull(ID_SIZE);
    if !okIdx {
      return TooShort;
    }
    return Ok(Idx(version, f, mapping, names, crc32, offset32, offset64, packChecksum, idxChecksum), r.pos);
  }
}
